/** base_name_compare (read-cache.c): the order of entries inside a tree object. Names
    are compared byte by byte; where one name ends, a directory's name continues with
    '/' and any other name with NUL. */
module EntryOrder {
  import opened TreeTypes

  /** The byte of `name` at k, reading past its end as the terminator: '/' for a
      directory, NUL otherwise. */
  function ByteAt(name: string, dir: bool, k: nat): char
  {
    if k < |name| then name[k] else if dir then '/' else '\0'
  }

  /** Compare from byte k on: the memcmp of the common part, then the two terminators. */
  function CompareFrom(name1: string, dir1: bool, name2: string, dir2: bool, k: nat): (r: int)
    ensures r == -1 || r == 0 || r == 1
    decreases |name1| - k
  {
    if k < |name1| && k < |name2| && name1[k] == name2[k] then
      CompareFrom(name1, dir1, name2, dir2, k + 1)
    else
      var c1 := ByteAt(name1, dir1, k);
      var c2 := ByteAt(name2, dir2, k);
      if c1 < c2 then -1 else if c1 > c2 then 1 else 0
  }

  /** base_name_compare(name1, len1, mode1, name2, len2, mode2), with its result
      reduced to its sign. */
  function BaseNameCompare(name1: string, mode1: Mode, name2: string, mode2: Mode): (r: int)
    ensures r == -1 || r == 0 || r == 1
    ensures 0 < |name1| && 0 < |name2| && name1[0] < name2[0] ==> r == -1
    ensures 0 < |name1| && 0 < |name2| && name1[0] > name2[0] ==> r == 1
  {
    CompareFrom(name1, IsDir(mode1), name2, IsDir(mode2), 0)
  }

  /** An entry name as git writes it: no '/' and no NUL. */
  predicate PlainName(name: string)
  {
    forall k :: 0 <= k < |name| ==> name[k] != '/' && name[k] != '\0'
  }

  /** Every name compares equal to itself under the same mode kind. */
  lemma {:induction false} CompareFromSelf(name: string, dir: bool, k: nat)
    ensures CompareFrom(name, dir, name, dir, k) == 0
    decreases |name| - k
  {
    if k < |name| {
      CompareFromSelf(name, dir, k + 1);
    }
  }

  lemma CompareSelf(name: string, mode: Mode)
    ensures BaseNameCompare(name, mode, name, mode) == 0
  {
    CompareFromSelf(name, IsDir(mode), 0);
  }

  /** Swapping the two sides negates the answer. */
  lemma {:induction false} CompareFromAntisymmetric(name1: string, dir1: bool, name2: string, dir2: bool, k: nat)
    ensures CompareFrom(name1, dir1, name2, dir2, k) == -CompareFrom(name2, dir2, name1, dir1, k)
    decreases |name1| - k
  {
    if k < |name1| && k < |name2| && name1[k] == name2[k] {
      CompareFromAntisymmetric(name1, dir1, name2, dir2, k + 1);
    }
  }

  lemma CompareAntisymmetric(name1: string, mode1: Mode, name2: string, mode2: Mode)
    ensures BaseNameCompare(name1, mode1, name2, mode2) == -BaseNameCompare(name2, mode2, name1, mode1)
  {
    CompareFromAntisymmetric(name1, IsDir(mode1), name2, IsDir(mode2), 0);
  }

  /** "Sorts before" is transitive. */
  lemma {:induction false} CompareFromTransitive(name1: string, dir1: bool, name2: string, dir2: bool,
                                                 name3: string, dir3: bool, k: nat)
    requires CompareFrom(name1, dir1, name2, dir2, k) < 0
    requires CompareFrom(name2, dir2, name3, dir3, k) < 0
    ensures CompareFrom(name1, dir1, name3, dir3, k) < 0
    decreases |name1| - k
  {
    if k < |name1| && k < |name2| && k < |name3| && name1[k] == name2[k] && name2[k] == name3[k] {
      CompareFromTransitive(name1, dir1, name2, dir2, name3, dir3, k + 1);
    }
  }

  lemma CompareTransitive(name1: string, mode1: Mode, name2: string, mode2: Mode, name3: string, mode3: Mode)
    requires BaseNameCompare(name1, mode1, name2, mode2) < 0
    requires BaseNameCompare(name2, mode2, name3, mode3) < 0
    ensures BaseNameCompare(name1, mode1, name3, mode3) < 0
  {
    CompareFromTransitive(name1, IsDir(mode1), name2, IsDir(mode2), name3, IsDir(mode3), 0);
  }

  /** For plain names, a tie means the same name and the same directory bit. */
  lemma {:induction false} CompareFromZero(name1: string, dir1: bool, name2: string, dir2: bool, k: nat)
    requires PlainName(name1) && PlainName(name2)
    requires k <= |name1| && k <= |name2| && name1[..k] == name2[..k]
    ensures CompareFrom(name1, dir1, name2, dir2, k) == 0 <==> name1 == name2 && dir1 == dir2
    decreases |name1| - k
  {
    if k < |name1| && k < |name2| && name1[k] == name2[k] {
      assert name1[..k + 1] == name1[..k] + [name1[k]];
      assert name2[..k + 1] == name2[..k] + [name2[k]];
      CompareFromZero(name1, dir1, name2, dir2, k + 1);
    } else if k == |name1| && k == |name2| {
      assert name1 == name1[..k] && name2 == name2[..k];
    }
  }

  lemma CompareZeroIffSame(name1: string, mode1: Mode, name2: string, mode2: Mode)
    requires PlainName(name1) && PlainName(name2)
    ensures BaseNameCompare(name1, mode1, name2, mode2) == 0
            <==> name1 == name2 && IsDir(mode1) == IsDir(mode2)
  {
    CompareFromZero(name1, IsDir(mode1), name2, IsDir(mode2), 0);
  }

  /** A name carrying a '/' can tie with a directory of its leading part:
      directory "a" and file "a/b" compare equal. */
  lemma SlashNameTiesWithDirectory()
    ensures BaseNameCompare("a", 16384, "a/b", 33188) == 0
  {
  }

  /** The order of a tree object: file "a.txt" sorts before directory "a", which sorts
      after file "a" and before file "a0". */
  lemma OrderExamples()
    ensures BaseNameCompare("a.txt", 33188, "a", 16384) < 0
    ensures BaseNameCompare("a", 33188, "a", 16384) < 0
    ensures BaseNameCompare("a", 16384, "a0", 33188) < 0
  {
  }
}
