/** Small diffs worked out end to end: a merge walk, and whole-subtree emission with and
    without recursion. */
module DiffExamples {
  import opened TreeTypes
  import opened RecursionPolicy
  import opened EntryOrder
  import opened DiffSpec
  import opened DiffProps

  const FileMode: Mode := 33188   // 0100644
  const DirMode: Mode := 16384    // 0040000

  function File(name: string, id: ObjectId): Entry
  {
    Entry(name, FileMode, id, [])
  }

  /** Options without pathspec, depth limit, early quit or copy detection. */
  ghost predicate Plain(opt: Options)
  {
    && DepthConfigOk(opt) && !opt.findCopiesHarder && !opt.maxDepthValid
    && !opt.treeInRecursive && |opt.pathspec| == 0
    && (forall evs :: !opt.canQuitEarly(evs))
    && (forall e, b, p :: opt.interest(e, b, p) == Interesting)
  }

  /** {a: f1, b: f2} against {a: f1, c: f3}: one removal of b, then one addition of c,
      and nothing for a. */
  lemma MergeWalkExample(opt: Options)
    requires Plain(opt)
    ensures Walk(opt, [File("a", [1]), File("b", [2])], 0, [File("a", [1]), File("c", [3])], 0, "", [])
            == [AddRemove(Minus, FileMode, [2], "b"), AddRemove(Plus, FileMode, [3], "c")]
  {
    var t1 := [File("a", [1]), File("b", [2])];
    var t2 := [File("a", [1]), File("c", [3])];
    var minusB := [AddRemove(Minus, FileMode, [2], "b")];
    var plusC := [AddRemove(Plus, FileMode, [3], "c")];
    assert !opt.canQuitEarly([]) && !opt.canQuitEarly(minusB) && !opt.canQuitEarly(minusB + plusC);
    assert !IsDir(FileMode);
    assert "" + "b" == "b" && "" + "c" == "c";
    CompareSelfSilent(opt, File("a", [1]), "", []);
    assert Walk(opt, t1, 0, t2, 0, "", []) == Walk(opt, t1, 1, t2, 1, "", []);
    assert BaseNameCompare("b", FileMode, "c", FileMode) == -1;
    assert EntryEvents(opt, Minus, t1[1], "") == minusB;
    assert Walk(opt, t1, 1, t2, 1, "", []) == Walk(opt, t1, 2, t2, 1, "", minusB);
    assert EntryEvents(opt, Plus, t2[1], "") == plusC;
    assert Walk(opt, t1, 2, t2, 1, "", minusB) == Walk(opt, t1, 2, t2, 2, "", minusB + plusC);
  }

  /** The empty tree against {dir: {a, b}}: with recursion, one addition per file below
      dir; without it, one addition for dir itself. */
  lemma WholeSubtreeExample(opt: Options)
    requires Plain(opt)
    ensures var dir := Entry("dir", DirMode, [9], [File("a", [1]), File("b", [2])]);
            Walk(opt, [], 0, [dir], 0, "", [])
            == if opt.recursive then [AddRemove(Plus, FileMode, [1], "dir/a"), AddRemove(Plus, FileMode, [2], "dir/b")]
               else [AddRemove(Plus, DirMode, [9], "dir")]
  {
    var dir := Entry("dir", DirMode, [9], [File("a", [1]), File("b", [2])]);
    assert !IsDir(FileMode) && IsDir(DirMode);
    WalkEmptyOldShowsAll(opt, [dir], 0, "", []);
    assert ShowAll(opt, Plus, [dir], 1, "") == [];
    assert ShowAll(opt, Plus, [dir], 0, "") == EntryEvents(opt, Plus, dir, "");
    assert "" + "dir" == "dir";
    if opt.recursive {
      assert ShouldRecurse("dir", opt);
      assert "dir" + "/" == "dir/";
      ShowTreeOfTwoFiles(opt);
    }
  }

  /** show_tree over the two files of dir: one addition each, in order. */
  lemma ShowTreeOfTwoFiles(opt: Options)
    requires Plain(opt)
    ensures TreeEvents(opt, Plus, [File("a", [1]), File("b", [2])], 0, "dir/", NotInteresting)
            == [AddRemove(Plus, FileMode, [1], "dir/a"), AddRemove(Plus, FileMode, [2], "dir/b")]
  {
    var kids := [File("a", [1]), File("b", [2])];
    assert !IsDir(FileMode);
    assert "dir/" + "a" == "dir/a" && "dir/" + "b" == "dir/b";
    assert EntryEvents(opt, Plus, kids[0], "dir/") == [AddRemove(Plus, FileMode, [1], "dir/a")];
    assert EntryEvents(opt, Plus, kids[1], "dir/") == [AddRemove(Plus, FileMode, [2], "dir/b")];
    assert TreeEvents(opt, Plus, kids, 2, "dir/", Interesting) == [];
    assert TreeEvents(opt, Plus, kids, 1, "dir/", Interesting)
           == [AddRemove(Plus, FileMode, [2], "dir/b")];
  }
}
