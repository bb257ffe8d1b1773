/** The events the tree-diff engine reports, as functions of the trees, the options, the
    path prefix and the events reported before. Each function follows one routine of
    tree-diff.c; the imperative engine in module TreeDiff is proved to report exactly
    these events. */
module DiffSpec {
  import opened TreeTypes
  import opened RecursionPolicy
  import opened EntryOrder

  /** show_entry: a file, or a directory that is not expanded, is one add/remove event;
      an expanded directory is (with TREE_IN_RECURSIVE) an event for itself followed by
      show_tree over its entries below "path/". */
  function EntryEvents(opt: Options, sign: Sign, e: Entry, base: string): (r: seq<Event>)
    requires DepthConfigOk(opt)
    ensures r == [] ==> IsDir(e.mode) && ShouldRecurse(base + e.name, opt) && !opt.treeInRecursive
    decreases EntrySize(e), 0
  {
    var path := base + e.name;
    if IsDir(e.mode) && ShouldRecurse(path, opt) then
      (if opt.treeInRecursive then [AddRemove(sign, e.mode, e.id, path)] else [])
      + TreeEvents(opt, sign, e.children, 0, path + "/", NotInteresting)
    else
      [AddRemove(sign, e.mode, e.id, path)]
  }

  /** show_tree from entry i on, `m` being the last answer of the interest predicate:
      stop at all_entries_not_interesting, skip entry_not_interesting, and stop asking
      once all_entries_interesting has been seen. */
  function TreeEvents(opt: Options, sign: Sign, s: seq<Entry>, i: nat, base: string, m: Interest): seq<Event>
    requires DepthConfigOk(opt)
    decreases SizeFrom(s, i), 1
  {
    if i >= |s| then []
    else
      SizeFromMono(s, i, i);
      if m != AllInteresting then
        var m' := opt.interest(s[i], base, opt.pathspec);
        if m' == AllNotInteresting then []
        else if m' == NotInteresting then TreeEvents(opt, sign, s, i + 1, base, m')
        else EntryEvents(opt, sign, s[i], base) + TreeEvents(opt, sign, s, i + 1, base, m')
      else
        EntryEvents(opt, sign, s[i], base) + TreeEvents(opt, sign, s, i + 1, base, m)
  }

  /** skip_uninteresting: the cursor position after pruning from position i. */
  function Skip(opt: Options, t: seq<Entry>, i: nat, base: string): (r: nat)
    requires i <= |t|
    ensures i <= r <= |t|
    decreases |t| - i
  {
    if i == |t| then i
    else
      var m := opt.interest(t[i], base, opt.pathspec);
      if m != NotInteresting then (if m == AllNotInteresting then |t| else i)
      else Skip(opt, t, i + 1, base)
  }

  /** Skip stops at the first entry that is not entry_not_interesting, and empties the
      cursor (moves it to the end) when that entry is all_entries_not_interesting. */
  lemma {:induction false} SkipStops(opt: Options, t: seq<Entry>, i: nat, base: string)
    requires i <= |t|
    ensures var r := Skip(opt, t, i, base);
            && (r < |t| ==> opt.interest(t[r], base, opt.pathspec).Interesting?
                            || opt.interest(t[r], base, opt.pathspec).AllInteresting?)
            && (r < |t| ==> forall p :: i <= p < r ==> opt.interest(t[p], base, opt.pathspec).NotInteresting?)
            && (r == |t| ==>
                  (forall p :: i <= p < |t| ==> opt.interest(t[p], base, opt.pathspec).NotInteresting?)
                  || (exists q :: i <= q < |t| && opt.interest(t[q], base, opt.pathspec).AllNotInteresting?
                                  && forall p :: i <= p < q ==> opt.interest(t[p], base, opt.pathspec).NotInteresting?))
    decreases |t| - i
  {
    if i < |t| && opt.interest(t[i], base, opt.pathspec).NotInteresting? {
      SkipStops(opt, t, i + 1, base);
    }
  }

  /** compare_tree_entry: the comparison result (-1, 0 or 1) and the events reported so
      far extended by this step's events. */
  function Compare(opt: Options, e1: Entry, e2: Entry, base: string, ev: seq<Event>): (r: (seq<Event>, int))
    requires DepthConfigOk(opt)
    ensures ev <= r.0
    ensures r.1 == -1 || r.1 == 0 || r.1 == 1
    ensures r.1 == -1 <==> BaseNameCompare(e1.name, e1.mode, e2.name, e2.mode) < 0
    ensures r.1 == 0 <==> BaseNameCompare(e1.name, e1.mode, e2.name, e2.mode) == 0
    ensures r.1 == 1 <==> BaseNameCompare(e1.name, e1.mode, e2.name, e2.mode) > 0
    decreases EntrySize(e1) + EntrySize(e2), 1
  {
    var c := BaseNameCompare(e1.name, e1.mode, e2.name, e2.mode);
    if c < 0 then (ev + EntryEvents(opt, Minus, e1, base), -1)
    else if c > 0 then (ev + EntryEvents(opt, Plus, e2, base), 1)
    else if !opt.findCopiesHarder && e1.id == e2.id && e1.mode == e2.mode then (ev, 0)
    else if IsDir(e1.mode) != IsDir(e2.mode) then
      (ev + EntryEvents(opt, Minus, e1, base) + EntryEvents(opt, Plus, e2, base), 0)
    else
      var path := base + e1.name;
      if IsDir(e1.mode) && ShouldRecurse(path, opt) then
        var ev1 := if opt.treeInRecursive then ev + [Change(e1.mode, e2.mode, e1.id, e2.id, path)] else ev;
        (Walk(opt, e1.children, 0, e2.children, 0, path + "/", ev1), 0)
      else
        (ev + [Change(e1.mode, e2.mode, e1.id, e2.id, path)], 0)
  }

  /** The main loop of diff_tree from cursor positions i and j: stop when the caller
      can quit early, otherwise prune both cursors (only when there is a pathspec) and
      take one step. */
  function Walk(opt: Options, t1: seq<Entry>, i: nat, t2: seq<Entry>, j: nat, base: string, ev: seq<Event>): (r: seq<Event>)
    requires DepthConfigOk(opt)
    requires i <= |t1| && j <= |t2|
    ensures ev <= r
    decreases SizeFrom(t1, i) + SizeFrom(t2, j), 3
  {
    if opt.canQuitEarly(ev) then ev
    else
      var i' := if |opt.pathspec| > 0 then Skip(opt, t1, i, base) else i;
      var j' := if |opt.pathspec| > 0 then Skip(opt, t2, j, base) else j;
      SizeFromMono(t1, i, i');
      SizeFromMono(t2, j, j');
      Step(opt, t1, i', t2, j', base, ev)
  }

  /** One pass of the diff_tree loop after pruning: stop when both cursors are empty;
      otherwise report the one remaining side, or compare the two current entries, and
      advance the cursor(s) the comparison result names. */
  function Step(opt: Options, t1: seq<Entry>, i: nat, t2: seq<Entry>, j: nat, base: string, ev: seq<Event>): (r: seq<Event>)
    requires DepthConfigOk(opt)
    requires i <= |t1| && j <= |t2|
    ensures ev <= r
    decreases SizeFrom(t1, i) + SizeFrom(t2, j), 2
  {
    SizeFromMono(t1, i, i);
    SizeFromMono(t2, j, j);
    if i == |t1| then
      if j == |t2| then ev
      else Walk(opt, t1, i, t2, j + 1, base, ev + EntryEvents(opt, Plus, t2[j], base))
    else if j == |t2| then
      Walk(opt, t1, i + 1, t2, j, base, ev + EntryEvents(opt, Minus, t1[i], base))
    else
      var (ev', c) := Compare(opt, t1[i], t2[j], base, ev);
      if c == -1 then Walk(opt, t1, i + 1, t2, j, base, ev')
      else if c == 0 then Walk(opt, t1, i + 1, t2, j + 1, base, ev')
      else if c == 1 then Walk(opt, t1, i, t2, j + 1, base, ev')
      else assert false; ev'
  }
}
