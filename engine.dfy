/** The tree-diff engine in the source's own imperative form. A `Differ` holds the
    options, the path buffer `base` (the strbuf of the innermost diff_tree frame), the
    events the two callbacks have received, and the result queue. Every method is
    proved to report exactly the events of the matching function of module DiffSpec and
    to give the path buffer back at the length it found it. */
module TreeDiff {
  import opened TreeTypes
  import opened RecursionPolicy
  import opened EntryOrder
  import opened DiffSpec
  import opened DiffProps
  import opened RenameFollow

  class Differ {
    var opt: Options
    var base: string
    var events: seq<Event>
    var queue: seq<FilePair>
    var foundFollow: bool

    constructor (opt: Options)
      ensures this.opt == opt && base == [] && events == [] && queue == [] && !foundFollow
    {
      this.opt := opt;
      base := [];
      events := [];
      queue := [];
      foundFollow := false;
    }

    /** show_entry: push the entry's name, expand a directory the policy admits or report
        the entry as one event, then cut the buffer back. */
    method ShowEntry(sign: Sign, e: Entry)
      requires DepthConfigOk(opt)
      modifies this`base, this`events
      ensures base == old(base)
      ensures events == old(events) + EntryEvents(opt, sign, e, old(base))
      decreases EntrySize(e), 0
    {
      var oldLen := |base|;
      base := base + e.name;
      if IsDir(e.mode) && ShouldRecurse(base, opt) {
        if opt.treeInRecursive {
          events := events + [AddRemove(sign, e.mode, e.id, base)];
        }
        base := base + "/";
        ShowTree(sign, e.children);
      } else {
        events := events + [AddRemove(sign, e.mode, e.id, base)];
      }
      base := base[..oldLen];
    }

    /** show_tree: report every entry of a wholly added or removed tree that the interest
        predicate keeps, stopping at all_entries_not_interesting. */
    method ShowTree(sign: Sign, desc: seq<Entry>)
      requires DepthConfigOk(opt)
      modifies this`base, this`events
      ensures base == old(base)
      ensures events == old(events) + TreeEvents(opt, sign, desc, 0, old(base), NotInteresting)
      decreases SizeFrom(desc, 0), 1
    {
      var m := NotInteresting;
      var pos := 0;
      ghost var target := events + TreeEvents(opt, sign, desc, 0, base, NotInteresting);
      while pos < |desc|
        invariant pos <= |desc|
        invariant base == old(base)
        invariant events + TreeEvents(opt, sign, desc, pos, base, m) == target
        decreases |desc| - pos
      {
        ghost var m0 := m;
        if m != AllInteresting {
          m := opt.interest(desc[pos], base, opt.pathspec);
        }
        ghost var rest := TreeEvents(opt, sign, desc, pos + 1, base, m);
        if m == AllNotInteresting {
          assert TreeEvents(opt, sign, desc, pos, base, m0) == [];
          break;
        }
        if m != NotInteresting {
          assert TreeEvents(opt, sign, desc, pos, base, m0) == EntryEvents(opt, sign, desc[pos], base) + rest;
          ghost var ev0 := events;
          SizeFromMono(desc, 0, pos);
          ShowEntry(sign, desc[pos]);
          assert events + rest == ev0 + (EntryEvents(opt, sign, desc[pos], base) + rest);
        } else {
          assert TreeEvents(opt, sign, desc, pos, base, m0) == rest;
        }
        pos := pos + 1;
      }
    }

    /** skip_uninteresting: advance the cursor (t, pos) past entry_not_interesting
        entries; all_entries_not_interesting empties it. */
    method SkipUninteresting(t: seq<Entry>, pos: nat) returns (newPos: nat)
      requires pos <= |t|
      ensures newPos == Skip(opt, t, pos, base)
    {
      newPos := pos;
      while newPos < |t|
        invariant pos <= newPos <= |t|
        invariant Skip(opt, t, newPos, base) == Skip(opt, t, pos, base)
        decreases |t| - newPos
      {
        var m := opt.interest(t[newPos], base, opt.pathspec);
        if m != NotInteresting {
          if m == AllNotInteresting {
            newPos := |t|;
          }
          break;
        }
        newPos := newPos + 1;
      }
    }

    /** compare_tree_entry: order the two current entries; report the earlier one, or,
        for a match, nothing (identical), a removal and an addition (type change), a
        recursive diff, or one change event. */
    method CompareTreeEntry(e1: Entry, e2: Entry) returns (cmp: int)
      requires DepthConfigOk(opt)
      modifies this`base, this`events
      ensures base == old(base)
      ensures (events, cmp) == Compare(opt, e1, e2, old(base), old(events))
      decreases EntrySize(e1) + EntrySize(e2), 0
    {
      var oldLen := |base|;
      var c := BaseNameCompare(e1.name, e1.mode, e2.name, e2.mode);
      if c < 0 {
        ShowEntry(Minus, e1);
        return -1;
      }
      if c > 0 {
        ShowEntry(Plus, e2);
        return 1;
      }
      if !opt.findCopiesHarder && e1.id == e2.id && e1.mode == e2.mode {
        return 0;
      }
      if IsDir(e1.mode) != IsDir(e2.mode) {
        ShowEntry(Minus, e1);
        ShowEntry(Plus, e2);
        return 0;
      }
      base := base + e1.name;
      if IsDir(e1.mode) && ShouldRecurse(base, opt) {
        if opt.treeInRecursive {
          events := events + [Change(e1.mode, e2.mode, e1.id, e2.id, base)];
        }
        base := base + "/";
        DiffTree(e1.children, e2.children, base);
      } else {
        events := events + [Change(e1.mode, e2.mode, e1.id, e2.id, base)];
      }
      base := base[..oldLen];
      return 0;
    }

    /** One pass of the diff_tree loop after pruning: stop when both cursors are empty,
        otherwise report the one remaining side or compare the two current entries, and
        advance the cursor(s) the comparison result names. */
    method AdvanceCursors(t1: seq<Entry>, i: nat, t2: seq<Entry>, j: nat)
      returns (i': nat, j': nat, done: bool)
      requires DepthConfigOk(opt)
      requires i <= |t1| && j <= |t2|
      modifies this`base, this`events
      ensures base == old(base)
      ensures done <==> i == |t1| && j == |t2|
      ensures done ==> events == old(events)
      ensures i == |t1| && j < |t2| ==>
                i' == i && j' == j + 1 && events == old(events) + EntryEvents(opt, Plus, t2[j], old(base))
      ensures i < |t1| && j == |t2| ==>
                i' == i + 1 && j' == j && events == old(events) + EntryEvents(opt, Minus, t1[i], old(base))
      ensures i < |t1| && j < |t2| ==>
                var (ev, c) := Compare(opt, t1[i], t2[j], old(base), old(events));
                && events == ev
                && (c == -1 ==> i' == i + 1 && j' == j)
                && (c == 0 ==> i' == i + 1 && j' == j + 1)
                && (c == 1 ==> i' == i && j' == j + 1)
      ensures !done ==> i' <= |t1| && j' <= |t2| && |t1| - i' + |t2| - j' < |t1| - i + |t2| - j
      ensures !done ==> Step(opt, t1, i, t2, j, old(base), old(events)) == Walk(opt, t1, i', t2, j', old(base), events)
      decreases SizeFrom(t1, i) + SizeFrom(t2, j), 1
    {
      SizeFromMono(t1, i, i);
      SizeFromMono(t2, j, j);
      i', j', done := i, j, false;
      if i == |t1| {
        if j == |t2| {
          return i, j, true;
        }
        ShowEntry(Plus, t2[j]);
        return i, j + 1, false;
      }
      if j == |t2| {
        ShowEntry(Minus, t1[i]);
        return i + 1, j, false;
      }
      var c := CompareTreeEntry(t1[i], t2[j]);
      if c == -1 {
        return i + 1, j, false;
      }
      if c == 0 {
        i' := i + 1;
      }
      j' := j + 1;
    }

    /** diff_tree: walk the two cursors in lockstep from the start, polling the early
        quit and pruning before every pass. */
    method DiffTree(t1: seq<Entry>, t2: seq<Entry>, baseStr: string)
      requires DepthConfigOk(opt)
      modifies this`base, this`events
      ensures base == old(base)
      ensures events == Walk(opt, t1, 0, t2, 0, baseStr, old(events))
      decreases SizeFrom(t1, 0) + SizeFrom(t2, 0), 2
    {
      var callerBase := base;
      base := baseStr;
      ghost var target := Walk(opt, t1, 0, t2, 0, baseStr, events);
      var i: nat, j: nat := 0, 0;
      while true
        invariant i <= |t1| && j <= |t2|
        invariant base == baseStr
        invariant Walk(opt, t1, i, t2, j, baseStr, events) == target
        decreases |t1| - i + |t2| - j
      {
        if opt.canQuitEarly(events) {
          break;
        }
        ghost var i0, j0 := i, j;
        if |opt.pathspec| > 0 {
          i := SkipUninteresting(t1, i);
          j := SkipUninteresting(t2, j);
        }
        SizeFromMono(t1, 0, i);
        SizeFromMono(t2, 0, j);
        assert Walk(opt, t1, i0, t2, j0, baseStr, events) == Step(opt, t1, i, t2, j, baseStr, events);
        var done;
        i, j, done := AdvanceCursors(t1, i, t2, j);
        if done {
          break;
        }
      }
      base := callerBase;
    }

    /** try_to_follow_renames: take the creation pair off the queue, re-run the diff from
        the roots with FollowOptions, let the callbacks and diffcore (`enqueue`,
        `diffcore`) turn its events into the scored queue, adopt the first rename or copy
        whose new side is the followed path (rebinding that path to its old side), and
        leave exactly one pair queued. */
    method TryToFollowRenames(t1: seq<Entry>, t2: seq<Entry>, baseStr: string,
                              enqueue: Event -> seq<FilePair>, diffcore: seq<FilePair> -> seq<FilePair>)
      requires |queue| >= 1 && |opt.pathspec| == 1
      modifies this`opt, this`queue, this`foundFollow
      ensures var scored := diffcore(Enqueued(enqueue, Walk(FollowOptions(old(opt)), t1, 0, t2, 0, baseStr, [])));
              var (p, found) := FollowChoice(old(queue)[0], scored, old(opt).pathspec[0]);
              && queue == [p]
              && foundFollow == found
              && opt == if found then old(opt).(pathspec := old(opt).pathspec[0 := p.one.path]) else old(opt)
    {
      var choice := queue[0];
      queue := [];

      var rerun := new Differ(FollowOptions(opt));
      rerun.DiffTree(t1, t2, baseStr);
      queue := diffcore(Enqueued(enqueue, rerun.events));
      ghost var scored := queue;

      var target := opt.pathspec[0];
      foundFollow := false;
      var i := 0;
      while i < |queue|
        invariant i <= |queue| == |scored|
        invariant forall m :: 0 <= m < i ==> !IsFollowSource(scored[m], target)
        invariant !foundFollow && queue == scored && choice == old(queue)[0] && opt == old(opt)
        decreases |queue| - i
      {
        var p := queue[i];
        if IsFollowSource(p, target) {
          queue := queue[i := choice];
          choice := p;
          opt := opt.(pathspec := opt.pathspec[0 := p.one.path]);
          foundFollow := true;
          break;
        }
        i := i + 1;
      }
      FirstFollowSourceAt(scored, target, i);
      queue := [choice];
    }

    /** diff_tree_sha1: read both root trees (dying when either is missing), diff them,
        queue the callbacks' pairs, and run the rename-follow post-pass when the
        top-level result looks like one file creation. */
    method DiffTreeSha1(store: map<ObjectId, seq<Entry>>, oldId: ObjectId, newId: ObjectId, baseStr: string,
                        enqueue: Event -> seq<FilePair>, diffcore: seq<FilePair> -> seq<FilePair>)
      returns (ok: bool)
      requires DepthConfigOk(opt)
      requires opt.followRenames ==> |opt.pathspec| == 1
      modifies this`base, this`events, this`queue, this`opt, this`foundFollow
      ensures ok <==> oldId in store && newId in store
      ensures !ok ==> events == old(events) && queue == old(queue) && opt == old(opt) && foundFollow == old(foundFollow)
      ensures base == old(base)
      ensures ok ==> events == Walk(old(opt), store[oldId], 0, store[newId], 0, baseStr, old(events))
      ensures ok ==> var q := old(queue) + Enqueued(enqueue, events[|old(events)|..]);
                     if baseStr == [] && old(opt).followRenames && MightBeRename(q) then
                       var scored := diffcore(Enqueued(enqueue, Walk(FollowOptions(old(opt)), store[oldId], 0, store[newId], 0, baseStr, [])));
                       var (p, found) := FollowChoice(q[0], scored, old(opt).pathspec[0]);
                       queue == [p] && foundFollow == found
                       && opt == if found then old(opt).(pathspec := old(opt).pathspec[0 := p.one.path]) else old(opt)
                     else
                       queue == q && opt == old(opt) && foundFollow == old(foundFollow)
      ensures ok && oldId == newId && !old(opt).findCopiesHarder ==> events == old(events)
    {
      if oldId !in store || newId !in store {
        return false;
      }
      var t1 := store[oldId];
      var t2 := store[newId];
      var before := events;
      DiffTree(t1, t2, baseStr);
      assert before <= events;
      queue := queue + Enqueued(enqueue, events[|before|..]);
      if oldId == newId && !opt.findCopiesHarder {
        WalkSelfSilent(opt, t1, 0, baseStr, before);
      }
      if baseStr == [] && opt.followRenames && MightBeRename(queue) {
        TryToFollowRenames(t1, t2, baseStr, enqueue, diffcore);
      }
      return true;
    }

    /** diff_root_tree_sha1: diff the empty tree against the root tree read from the
        store (dying when it is missing); every event is then an addition. */
    method DiffRootTreeSha1(store: map<ObjectId, seq<Entry>>, newId: ObjectId, baseStr: string,
                            enqueue: Event -> seq<FilePair>)
      returns (ok: bool)
      requires DepthConfigOk(opt)
      modifies this`base, this`events, this`queue
      ensures ok <==> newId in store
      ensures !ok ==> events == old(events) && queue == old(queue)
      ensures base == old(base)
      ensures ok ==> events == Walk(opt, [], 0, store[newId], 0, baseStr, old(events))
      ensures ok ==> queue == old(queue) + Enqueued(enqueue, events[|old(events)|..])
      ensures ok ==> AllSigned(events[|old(events)|..], Plus, baseStr)
    {
      if newId !in store {
        return false;
      }
      var before := events;
      DiffTree([], store[newId], baseStr);
      WalkEmptyOldAllAdded(opt, store[newId], 0, baseStr, before);
      queue := queue + Enqueued(enqueue, events[|before|..]);
      return true;
    }
  }
}
