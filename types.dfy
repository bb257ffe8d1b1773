/** The values the tree-diff engine works on: tree entries with their subtrees inline,
    the events it reports through its two callbacks, the outcome of the path-interest
    predicate, the diff options, and the file pairs of the result queue. */
module TreeTypes {

  /** A content hash (20 bytes of SHA-1 in the source); only equality matters here. */
  type ObjectId = seq<bv8>

  /** A file mode as stored in a tree entry (type bits and permission bits). */
  type Mode = nat

  /** S_ISDIR: the type bits (mask 0170000) are 0040000. */
  predicate IsDir(mode: Mode)
  {
    (mode / 4096) % 16 == 4
  }

  /** One entry of a tree object. For a directory, `children` is the tree its id names,
      already read from the object store and decoded in name order. */
  datatype Entry = Entry(name: string, mode: Mode, id: ObjectId, children: seq<Entry>)

  /** The sign passed to the add/remove callback ('+' or '-'). */
  datatype Sign = Plus | Minus

  /** One call of a callback: `change(mode1, mode2, id1, id2, path)` or
      `add_remove(sign, mode, id, path)`. */
  datatype Event =
    | Change(oldMode: Mode, newMode: Mode, oldId: ObjectId, newId: ObjectId, path: string)
    | AddRemove(sign: Sign, mode: Mode, id: ObjectId, path: string)

  /** The three outcomes of tree_entry_interesting. */
  datatype Interest = NotInteresting | Interesting | AllNotInteresting | AllInteresting

  /** The part of diff_options the engine reads.
      `pathspec` holds the literal paths of the pathspec items (for --follow, the one
      path given, so the first item and `raw[0]` are the same path);
      `interest` stands for tree_entry_interesting(entry, base, pathspec) and
      `canQuitEarly` for diff_can_quit_early, judged on the events reported so far. */
  datatype Options = Options(
    recursive: bool,
    findCopiesHarder: bool,
    treeInRecursive: bool,
    followRenames: bool,
    maxDepthValid: bool,
    maxDepth: int,
    pathspec: seq<string>,
    hasWildcard: bool,
    interest: (Entry, string, seq<string>) -> Interest,
    canQuitEarly: seq<Event> -> bool)

  /** A wildcard pathspec never meets a depth limit on a recursive diff
      (diff_setup_done refuses the combination; should_recurse dies on it). */
  predicate DepthConfigOk(opt: Options)
  {
    opt.recursive && opt.maxDepthValid ==> !opt.hasWildcard
  }

  /** One side of a queued file pair; a mode of 0 marks the side as absent. */
  datatype FileSpec = FileSpec(path: string, mode: Mode, id: ObjectId)

  /** DIFF_FILE_VALID */
  predicate FileValid(f: FileSpec)
  {
    f.mode != 0
  }

  /** A queued file pair with the status letter diffcore gave it ('R', 'C', 'A', ...). */
  datatype FilePair = FilePair(one: FileSpec, two: FileSpec, status: char)

  /** Size of a forest: the number of entries at every level; the engine's recursion
      descends along it. */
  function EntrySize(e: Entry): nat
    decreases e, 1
  {
    1 + SizeFrom(e.children, 0)
  }

  /** Size of the entries s[i..] with everything below them. */
  function SizeFrom(s: seq<Entry>, i: nat): nat
    decreases s, |s| - i
  {
    if i >= |s| then 0 else EntrySize(s[i]) + SizeFrom(s, i + 1)
  }

  /** Advancing a cursor never grows what is left of its tree. */
  lemma {:induction false} SizeFromMono(s: seq<Entry>, i: nat, k: nat)
    requires i <= k
    ensures SizeFrom(s, k) <= SizeFrom(s, i)
    ensures k < |s| ==> EntrySize(s[k]) + SizeFrom(s, k + 1) <= SizeFrom(s, i)
    decreases k - i
  {
    if i < k {
      SizeFromMono(s, i + 1, k);
    }
  }
}
