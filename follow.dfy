/** The rename-follow post-pass as values: when it is triggered, which file pair of the
    re-scored queue it adopts, and the options of the broader re-run. */
module RenameFollow {
  import opened TreeTypes
  import opened RecursionPolicy
  import opened EntryOrder
  import opened DiffSpec
  import opened DiffProps

  /** diff_might_be_rename: one queued pair whose old side is not a valid file. */
  function MightBeRename(q: seq<FilePair>): (r: bool)
    ensures r <==> exists p :: q == [p] && !FileValid(p.one)
  {
    assert |q| == 1 ==> q == [q[0]];
    |q| == 1 && !FileValid(q[0].one)
  }

  /** A renamed or copied pair whose new side is the followed path. */
  predicate IsFollowSource(p: FilePair, path: string)
  {
    (p.status == 'R' || p.status == 'C') && p.two.path == path
  }

  /** The first follow source in scored[from..], or |scored| when there is none. */
  function FirstFollowSource(scored: seq<FilePair>, path: string, from: nat): (k: nat)
    requires from <= |scored|
    ensures from <= k <= |scored|
    ensures k < |scored| ==> IsFollowSource(scored[k], path)
    ensures forall m :: from <= m < k ==> !IsFollowSource(scored[m], path)
    decreases |scored| - from
  {
    if from == |scored| then from
    else if IsFollowSource(scored[from], path) then from
    else FirstFollowSource(scored, path, from + 1)
  }

  /** A position that is a follow source (or the end) with none before it is the first. */
  lemma FirstFollowSourceAt(scored: seq<FilePair>, path: string, k: nat)
    requires k <= |scored|
    requires k < |scored| ==> IsFollowSource(scored[k], path)
    requires forall m :: 0 <= m < k ==> !IsFollowSource(scored[m], path)
    ensures FirstFollowSource(scored, path, 0) == k
  {
  }

  /** The pair the post-pass keeps and whether a source was found: a source is found
      exactly when one exists, and then the kept pair is the first source; otherwise it
      is the original creation pair. */
  function FollowChoice(choice: FilePair, scored: seq<FilePair>, path: string): (r: (FilePair, bool))
    ensures r.1 <==> exists k :: 0 <= k < |scored| && IsFollowSource(scored[k], path)
    ensures r.1 ==> exists k :: 0 <= k < |scored| && r.0 == scored[k] && IsFollowSource(scored[k], path)
                               && forall m :: 0 <= m < k ==> !IsFollowSource(scored[m], path)
    ensures !r.1 ==> r.0 == choice
  {
    var k := FirstFollowSource(scored, path, 0);
    if k < |scored| then (scored[k], true) else (choice, false)
  }

  /** The options of the re-run: a fresh setup that is recursive and finds copies
      harder, with no pathspec, no depth limit and no early quit. With no pathspec
      (and the max_depth of -1 that diff_tree sets) tree_entry_interesting answers
      all_entries_interesting for every entry. */
  function FollowOptions(opt: Options): (r: Options)
    ensures DepthConfigOk(r)
  {
    Options(
      recursive := true,
      findCopiesHarder := true,
      treeInRecursive := false,
      followRenames := false,
      maxDepthValid := false,
      maxDepth := opt.maxDepth,
      pathspec := [],
      hasWildcard := false,
      interest := (e: Entry, b: string, p: seq<string>) => AllInteresting,
      canQuitEarly := (evs: seq<Event>) => false)
  }

  /** The re-run expands every directory it meets. */
  lemma FollowRecursesEverywhere(opt: Options, path: string)
    ensures ShouldRecurse(path, FollowOptions(opt))
  {
  }

  /** The re-run neither quits early nor prunes: each pass starts where the last ended. */
  lemma FollowNeverPrunes(opt: Options, t1: seq<Entry>, i: nat, t2: seq<Entry>, j: nat, base: string, ev: seq<Event>)
    requires i <= |t1| && j <= |t2|
    ensures Walk(FollowOptions(opt), t1, i, t2, j, base, ev) == Step(FollowOptions(opt), t1, i, t2, j, base, ev)
  {
  }

  /** The re-run reports a wholly added or removed tree entry by entry, everything below
      it included. */
  lemma FollowShowsWholeTree(opt: Options, sign: Sign, s: seq<Entry>, base: string)
    ensures TreeEvents(FollowOptions(opt), sign, s, 0, base, NotInteresting)
            == ShowAll(FollowOptions(opt), sign, s, 0, base)
  {
    var o := FollowOptions(opt);
    if |s| > 0 {
      AllInterestingShowsRest(o, sign, s, 1, base);
    }
  }

  /** Under FIND_COPIES_HARDER the re-run reports every pair of tied files, unchanged ones
      included, as one change event, so that diffcore can find copy sources. */
  lemma FollowReportsUnchangedFiles(opt: Options, e1: Entry, e2: Entry, base: string, ev: seq<Event>)
    requires BaseNameCompare(e1.name, e1.mode, e2.name, e2.mode) == 0
    requires !IsDir(e1.mode) && !IsDir(e2.mode)
    ensures Compare(FollowOptions(opt), e1, e2, base, ev)
            == (ev + [Change(e1.mode, e2.mode, e1.id, e2.id, base + e1.name)], 0)
  {
    MatchedFilesChange(FollowOptions(opt), e1, e2, base, ev);
  }

  /** The pairs the standard callbacks queue for a run's events, in order. */
  function Enqueued(enqueue: Event -> seq<FilePair>, evs: seq<Event>): seq<FilePair>
  {
    if evs == [] then [] else enqueue(evs[0]) + Enqueued(enqueue, evs[1..])
  }
}
