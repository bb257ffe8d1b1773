/** What the engine's events satisfy: whole-subtree emission carries one sign and stays
    below its directory, identical trees are silent, a type change is a removal followed
    by an addition, and a diff against an empty side reports only that side. */
module DiffProps {
  import opened TreeTypes
  import opened RecursionPolicy
  import opened EntryOrder
  import opened DiffSpec

  /** Every event is an add/remove with the given sign, at a path below `prefix`. */
  predicate AllSigned(evs: seq<Event>, sign: Sign, prefix: string)
  {
    forall k :: 0 <= k < |evs| ==> evs[k].AddRemove? && evs[k].sign == sign && prefix <= evs[k].path
  }

  lemma AllSignedConcat(a: seq<Event>, b: seq<Event>, sign: Sign, prefix: string)
    requires AllSigned(a, sign, prefix) && AllSigned(b, sign, prefix)
    ensures AllSigned(a + b, sign, prefix)
  {
    forall k | 0 <= k < |a + b|
      ensures (a + b)[k].AddRemove? && (a + b)[k].sign == sign && prefix <= (a + b)[k].path
    {
      if k >= |a| { assert (a + b)[k] == b[k - |a|]; }
    }
  }

  lemma AllSignedWeaken(evs: seq<Event>, sign: Sign, longer: string, prefix: string)
    requires AllSigned(evs, sign, longer) && prefix <= longer
    ensures AllSigned(evs, sign, prefix)
  {
  }

  lemma SuffixSplit(r: seq<Event>, ev: seq<Event>, x: seq<Event>)
    requires ev + x <= r
    ensures r[|ev|..] == x + r[|ev + x|..]
  {
    assert r[|ev|..|ev + x|] == x;
  }

  /** show_entry reports only add/remove events carrying its sign, at the entry's path or
      below it; a file or an unexpanded directory is exactly one event for its path. */
  lemma {:induction false} EntryEventsSigned(opt: Options, sign: Sign, e: Entry, base: string)
    requires DepthConfigOk(opt)
    ensures AllSigned(EntryEvents(opt, sign, e, base), sign, base + e.name)
    ensures !(IsDir(e.mode) && ShouldRecurse(base + e.name, opt))
            ==> EntryEvents(opt, sign, e, base) == [AddRemove(sign, e.mode, e.id, base + e.name)]
    decreases EntrySize(e), 0
  {
    var path := base + e.name;
    if IsDir(e.mode) && ShouldRecurse(path, opt) {
      var head: seq<Event> := if opt.treeInRecursive then [AddRemove(sign, e.mode, e.id, path)] else [];
      TreeEventsSigned(opt, sign, e.children, 0, path + "/", NotInteresting);
      AllSignedWeaken(TreeEvents(opt, sign, e.children, 0, path + "/", NotInteresting), sign, path + "/", path);
      AllSignedConcat(head, TreeEvents(opt, sign, e.children, 0, path + "/", NotInteresting), sign, path);
    }
  }

  /** show_tree reports only add/remove events carrying its sign, below its base. */
  lemma {:induction false} TreeEventsSigned(opt: Options, sign: Sign, s: seq<Entry>, i: nat, base: string, m: Interest)
    requires DepthConfigOk(opt)
    ensures AllSigned(TreeEvents(opt, sign, s, i, base, m), sign, base)
    decreases SizeFrom(s, i), 1
  {
    if i < |s| {
      var m' := if m != AllInteresting then opt.interest(s[i], base, opt.pathspec) else m;
      if m' != AllNotInteresting {
        assert SizeFrom(s, i) == EntrySize(s[i]) + SizeFrom(s, i + 1);
        TreeEventsSigned(opt, sign, s, i + 1, base, m');
        if m' != NotInteresting {
          EntryEventsSigned(opt, sign, s[i], base);
          AllSignedWeaken(EntryEvents(opt, sign, s[i], base), sign, base + s[i].name, base);
          AllSignedConcat(EntryEvents(opt, sign, s[i], base), TreeEvents(opt, sign, s, i + 1, base, m'), sign, base);
        }
      }
    }
  }

  /** Two identical entries produce no event unless FIND_COPIES_HARDER is set. */
  lemma CompareSelfSilent(opt: Options, e: Entry, base: string, ev: seq<Event>)
    requires DepthConfigOk(opt) && !opt.findCopiesHarder
    ensures Compare(opt, e, e, base, ev) == (ev, 0)
  {
    CompareSelf(e.name, e.mode);
  }

  /** Diffing a tree against itself reports nothing, from any common cursor position. */
  lemma {:induction false} WalkSelfSilent(opt: Options, t: seq<Entry>, i: nat, base: string, ev: seq<Event>)
    requires DepthConfigOk(opt) && !opt.findCopiesHarder
    requires i <= |t|
    ensures Walk(opt, t, i, t, i, base, ev) == ev
    decreases SizeFrom(t, i)
  {
    if !opt.canQuitEarly(ev) {
      var i' := if |opt.pathspec| > 0 then Skip(opt, t, i, base) else i;
      if i' < |t| {
        CompareSelfSilent(opt, t[i'], base, ev);
        SizeFromMono(t, i, i');
        WalkSelfSilent(opt, t, i' + 1, base, ev);
      }
    }
  }

  /** Entries that do not tie: the one sorting first is reported by show_entry, as a
      removal when it is the old entry and as an addition when it is the new one. */
  lemma CompareUnequalShowsFirst(opt: Options, e1: Entry, e2: Entry, base: string, ev: seq<Event>)
    requires DepthConfigOk(opt)
    ensures BaseNameCompare(e1.name, e1.mode, e2.name, e2.mode) < 0 ==>
              Compare(opt, e1, e2, base, ev) == (ev + EntryEvents(opt, Minus, e1, base), -1)
    ensures BaseNameCompare(e1.name, e1.mode, e2.name, e2.mode) > 0 ==>
              Compare(opt, e1, e2, base, ev) == (ev + EntryEvents(opt, Plus, e2, base), 1)
  {
  }

  /** Same-named entries whose directory bit differs: a removal of the old entry
      followed by an addition of the new one, with no change event; the file side is
      exactly one event. */
  lemma TypeChangeIsRemoveThenAdd(opt: Options, e1: Entry, e2: Entry, base: string, ev: seq<Event>)
    requires DepthConfigOk(opt)
    requires BaseNameCompare(e1.name, e1.mode, e2.name, e2.mode) == 0
    requires IsDir(e1.mode) != IsDir(e2.mode)
    ensures Compare(opt, e1, e2, base, ev)
            == (ev + EntryEvents(opt, Minus, e1, base) + EntryEvents(opt, Plus, e2, base), 0)
    ensures AllSigned(EntryEvents(opt, Minus, e1, base), Minus, base + e1.name)
    ensures AllSigned(EntryEvents(opt, Plus, e2, base), Plus, base + e2.name)
    ensures !IsDir(e1.mode) ==> EntryEvents(opt, Minus, e1, base) == [AddRemove(Minus, e1.mode, e1.id, base + e1.name)]
    ensures !IsDir(e2.mode) ==> EntryEvents(opt, Plus, e2, base) == [AddRemove(Plus, e2.mode, e2.id, base + e2.name)]
  {
    EntryEventsSigned(opt, Minus, e1, base);
    EntryEventsSigned(opt, Plus, e2, base);
  }

  /** Two tied directories that are not skipped as identical: when the policy expands
      the path, the nested diff of their subtrees runs below "path/", after one change
      event for the directory itself under TREE_IN_RECURSIVE; otherwise the pair is
      exactly one change event. */
  lemma TiedDirectoriesRecurse(opt: Options, e1: Entry, e2: Entry, base: string, ev: seq<Event>)
    requires DepthConfigOk(opt)
    requires BaseNameCompare(e1.name, e1.mode, e2.name, e2.mode) == 0
    requires IsDir(e1.mode) && IsDir(e2.mode)
    requires opt.findCopiesHarder || e1.id != e2.id || e1.mode != e2.mode
    ensures var path := base + e1.name;
            var change := Change(e1.mode, e2.mode, e1.id, e2.id, path);
            Compare(opt, e1, e2, base, ev)
            == if ShouldRecurse(path, opt) then
                 (Walk(opt, e1.children, 0, e2.children, 0, path + "/",
                       if opt.treeInRecursive then ev + [change] else ev), 0)
               else (ev + [change], 0)
  {
  }

  /** With plain names a type change never ties, so the branch above needs a name
      that carries a '/'. */
  lemma TypeChangeNeedsSlashName(e1: Entry, e2: Entry)
    requires PlainName(e1.name) && PlainName(e2.name)
    requires IsDir(e1.mode) != IsDir(e2.mode)
    ensures BaseNameCompare(e1.name, e1.mode, e2.name, e2.mode) != 0
  {
    CompareZeroIffSame(e1.name, e1.mode, e2.name, e2.mode);
  }

  /** A matched pair of files that differ in id, mode or under FIND_COPIES_HARDER is one
      change event carrying both sides. */
  lemma MatchedFilesChange(opt: Options, e1: Entry, e2: Entry, base: string, ev: seq<Event>)
    requires DepthConfigOk(opt)
    requires BaseNameCompare(e1.name, e1.mode, e2.name, e2.mode) == 0
    requires !IsDir(e1.mode) && !IsDir(e2.mode)
    requires opt.findCopiesHarder || e1.id != e2.id || e1.mode != e2.mode
    ensures Compare(opt, e1, e2, base, ev) == (ev + [Change(e1.mode, e2.mode, e1.id, e2.id, base + e1.name)], 0)
  {
  }

  /** Against an empty old tree every event is an addition below the base. */
  lemma {:induction false} WalkEmptyOldAllAdded(opt: Options, t2: seq<Entry>, j: nat, base: string, ev: seq<Event>)
    requires DepthConfigOk(opt)
    requires j <= |t2|
    ensures var r := Walk(opt, [], 0, t2, j, base, ev); AllSigned(r[|ev|..], Plus, base)
    decreases SizeFrom(t2, j)
  {
    var r := Walk(opt, [], 0, t2, j, base, ev);
    if opt.canQuitEarly(ev) {
      assert r[|ev|..] == [];
    } else {
      var j' := if |opt.pathspec| > 0 then Skip(opt, t2, j, base) else j;
      assert r == Step(opt, [], 0, t2, j', base, ev);
      if j' == |t2| {
        assert r[|ev|..] == [];
      } else {
        var x := EntryEvents(opt, Plus, t2[j'], base);
        EntryEventsSigned(opt, Plus, t2[j'], base);
        SizeFromMono(t2, j, j');
        assert r == Walk(opt, [], 0, t2, j' + 1, base, ev + x);
        WalkEmptyOldAllAdded(opt, t2, j' + 1, base, ev + x);
        var rest := r[|ev + x|..];
        SuffixSplit(r, ev, x);
        AllSignedWeaken(x, Plus, base + t2[j'].name, base);
        AllSignedConcat(x, rest, Plus, base);
      }
    }
  }

  /** Against an empty new tree every event is a removal below the base. */
  lemma {:induction false} WalkEmptyNewAllRemoved(opt: Options, t1: seq<Entry>, i: nat, base: string, ev: seq<Event>)
    requires DepthConfigOk(opt)
    requires i <= |t1|
    ensures var r := Walk(opt, t1, i, [], 0, base, ev); AllSigned(r[|ev|..], Minus, base)
    decreases SizeFrom(t1, i)
  {
    var r := Walk(opt, t1, i, [], 0, base, ev);
    if opt.canQuitEarly(ev) {
      assert r[|ev|..] == [];
    } else {
      var i' := if |opt.pathspec| > 0 then Skip(opt, t1, i, base) else i;
      assert r == Step(opt, t1, i', [], 0, base, ev);
      if i' == |t1| {
        assert r[|ev|..] == [];
      } else {
        var x := EntryEvents(opt, Minus, t1[i'], base);
        EntryEventsSigned(opt, Minus, t1[i'], base);
        SizeFromMono(t1, i, i');
        assert r == Walk(opt, t1, i' + 1, [], 0, base, ev + x);
        WalkEmptyNewAllRemoved(opt, t1, i' + 1, base, ev + x);
        var rest := r[|ev + x|..];
        SuffixSplit(r, ev, x);
        AllSignedWeaken(x, Minus, base + t1[i'].name, base);
        AllSignedConcat(x, rest, Minus, base);
      }
    }
  }

  /** show_entry over every entry of s from i on, one after the other. */
  function ShowAll(opt: Options, sign: Sign, s: seq<Entry>, i: nat, base: string): seq<Event>
    requires DepthConfigOk(opt)
    decreases |s| - i
  {
    if i >= |s| then [] else EntryEvents(opt, sign, s[i], base) + ShowAll(opt, sign, s, i + 1, base)
  }

  /** Without a pathspec and without an early quit, a diff against an empty old tree is
      the whole-subtree emission of every new entry in order (diff_root_tree_sha1). */
  lemma {:induction false} WalkEmptyOldShowsAll(opt: Options, t2: seq<Entry>, j: nat, base: string, ev: seq<Event>)
    requires DepthConfigOk(opt)
    requires |opt.pathspec| == 0
    requires forall evs :: !opt.canQuitEarly(evs)
    requires j <= |t2|
    ensures Walk(opt, [], 0, t2, j, base, ev) == ev + ShowAll(opt, Plus, t2, j, base)
    decreases |t2| - j
  {
    assert !opt.canQuitEarly(ev);
    if j < |t2| {
      var x := EntryEvents(opt, Plus, t2[j], base);
      WalkEmptyOldShowsAll(opt, t2, j + 1, base, ev + x);
      assert (ev + x) + ShowAll(opt, Plus, t2, j + 1, base) == ev + ShowAll(opt, Plus, t2, j, base);
    }
  }

  /** Without a pathspec and without an early quit, a diff against an empty new tree is
      the whole-subtree emission of every old entry in order. */
  lemma {:induction false} WalkEmptyNewShowsAll(opt: Options, t1: seq<Entry>, i: nat, base: string, ev: seq<Event>)
    requires DepthConfigOk(opt)
    requires |opt.pathspec| == 0
    requires forall evs :: !opt.canQuitEarly(evs)
    requires i <= |t1|
    ensures Walk(opt, t1, i, [], 0, base, ev) == ev + ShowAll(opt, Minus, t1, i, base)
    decreases |t1| - i
  {
    assert !opt.canQuitEarly(ev);
    if i < |t1| {
      var x := EntryEvents(opt, Minus, t1[i], base);
      WalkEmptyNewShowsAll(opt, t1, i + 1, base, ev + x);
      assert (ev + x) + ShowAll(opt, Minus, t1, i + 1, base) == ev + ShowAll(opt, Minus, t1, i, base);
    }
  }

  /** Where skip_uninteresting would empty the cursor, show_tree (still asking the
      interest predicate) reports nothing. */
  lemma {:induction false} TreeEventsSilentWhenSkipEmpties(opt: Options, sign: Sign, s: seq<Entry>, i: nat, base: string, m: Interest)
    requires DepthConfigOk(opt)
    requires i <= |s| && m != AllInteresting
    requires Skip(opt, s, i, base) == |s|
    ensures TreeEvents(opt, sign, s, i, base, m) == []
    decreases |s| - i
  {
    if i < |s| && opt.interest(s[i], base, opt.pathspec).NotInteresting? {
      TreeEventsSilentWhenSkipEmpties(opt, sign, s, i + 1, base, NotInteresting);
    }
  }

  /** Once show_tree has seen all_entries_interesting it asks no more and reports every
      remaining entry. */
  lemma {:induction false} AllInterestingShowsRest(opt: Options, sign: Sign, s: seq<Entry>, i: nat, base: string)
    requires DepthConfigOk(opt)
    ensures TreeEvents(opt, sign, s, i, base, AllInteresting) == ShowAll(opt, sign, s, i, base)
    decreases |s| - i
  {
    if i < |s| {
      AllInterestingShowsRest(opt, sign, s, i + 1, base);
    }
  }

  /** show_tree reports nothing from the first all_entries_not_interesting entry on,
      unless all_entries_interesting came before it. */
  lemma AllNotInterestingStopsTree(opt: Options, sign: Sign, s: seq<Entry>, i: nat, base: string, m: Interest)
    requires DepthConfigOk(opt)
    requires i < |s| && m != AllInteresting
    requires opt.interest(s[i], base, opt.pathspec) == AllNotInteresting
    ensures TreeEvents(opt, sign, s, i, base, m) == []
  {
  }
}
