/** The depth/recursion policy: whether a directory entry reached at a given path is
    expanded (is_dir_prefix, within_depth, check_recursion_depth, should_recurse). */
module RecursionPolicy {
  import opened TreeTypes

  /** strncmp(a, b, n) == 0 for strings without NUL bytes: the first n bytes agree,
      where a string that ends early only agrees with one that ends at the same place. */
  predicate StrnEqual(a: string, b: string, n: nat)
  {
    var la := if n <= |a| then n else |a|;
    var lb := if n <= |b| then n else |b|;
    a[..la] == b[..lb]
  }

  /** is_dir_prefix(path, dir, dirlen): the source reads path[dirlen], so dirlen stays
      within path (its terminating NUL included). */
  function IsDirPrefix(path: string, dir: string, dirlen: nat): (r: bool)
    requires dirlen <= |path|
    ensures r <==> dirlen <= |dir| && path[..dirlen] == dir[..dirlen]
                   && (dirlen == |path| || path[dirlen] == '/')
  {
    StrnEqual(path, dir, dirlen) && (dirlen == |path| || path[dirlen] == '/')
  }

  /** "ab" is not a leading directory of "abc", but it is one of "ab/c" and of "ab". */
  lemma DirPrefixExamples()
    ensures !IsDirPrefix("abc", "ab", 2)
    ensures IsDirPrefix("ab/c", "ab", 2)
    ensures IsDirPrefix("ab", "ab", 2)
  {
    assert "ab/c"[..2] == "ab";
    assert "ab"[..2] == "ab";
  }

  /** Number of '/' in s. */
  function Slashes(s: string): nat
  {
    if s == [] then 0 else (if s[0] == '/' then 1 else 0) + Slashes(s[1..])
  }

  /** within_depth(name, len, depth, max_depth) of dir.c: walk the name, bump depth at
      every '/', and answer false as soon as depth exceeds max_depth. */
  function WithinDepth(name: string, depth: int, maxDepth: int): (r: bool)
    ensures Slashes(name) == 0 ==> r
    ensures depth >= maxDepth && Slashes(name) > 0 ==> !r
  {
    if name == [] then true
    else if name[0] != '/' then WithinDepth(name[1..], depth, maxDepth)
    else if depth + 1 > maxDepth then false
    else WithinDepth(name[1..], depth + 1, maxDepth)
  }

  /** The walk answers true exactly when the name has no '/' or ends within the limit. */
  lemma {:induction false} WithinDepthSlashes(name: string, depth: int, maxDepth: int)
    ensures WithinDepth(name, depth, maxDepth)
            <==> Slashes(name) == 0 || depth + Slashes(name) <= maxDepth
    decreases |name|
  {
    if name != [] {
      if name[0] != '/' {
        WithinDepthSlashes(name[1..], depth, maxDepth);
      } else {
        WithinDepthSlashes(name[1..], depth + 1, maxDepth);
      }
    }
  }

  /** A pathspec item decides the scan when it is a leading directory of the name
      (name at least as long) or the name is a leading directory of it (name shorter). */
  predicate Decides(name: string, item: string)
  {
    if |name| >= |item| then IsDirPrefix(name, item, |item|)
    else IsDirPrefix(item, name, |name|)
  }

  /** What a deciding item answers: a depth check on the rest of the name, or true. */
  function Verdict(name: string, item: string, maxDepth: int): bool
  {
    if |name| >= |item| then WithinDepth(name[|item|..], 1, maxDepth) else true
  }

  /** The loop of check_recursion_depth over items[..n], from the last item down. */
  function ScanItems(name: string, items: seq<string>, n: nat, maxDepth: int): (r: bool)
    requires n <= |items|
    ensures n == 0 ==> !r
    ensures n > 0 && Decides(name, items[n - 1]) ==> r == Verdict(name, items[n - 1], maxDepth)
  {
    if n == 0 then false
    else
      var item := items[n - 1];
      if |name| >= |item| then
        if !IsDirPrefix(name, item, |item|) then ScanItems(name, items, n - 1, maxDepth)
        else WithinDepth(name[|item|..], 1, maxDepth)
      else if IsDirPrefix(item, name, |name|) then true
      else ScanItems(name, items, n - 1, maxDepth)
  }

  /** check_recursion_depth(name, pathspec, max_depth). */
  function CheckRecursionDepth(name: string, items: seq<string>, maxDepth: int): (r: bool)
    ensures |items| == 0 ==> (r <==> Slashes(name) == 0 || 1 + Slashes(name) <= maxDepth)
  {
    WithinDepthSlashes(name, 1, maxDepth);
    if |items| == 0 then WithinDepth(name, 1, maxDepth)
    else ScanItems(name, items, |items|, maxDepth)
  }

  /** The scan answers false when no item of items[..n] decides. */
  lemma {:induction false} ScanNoDecider(name: string, items: seq<string>, n: nat, maxDepth: int)
    requires n <= |items|
    requires forall k :: 0 <= k < n ==> !Decides(name, items[k])
    ensures !ScanItems(name, items, n, maxDepth)
  {
    if n > 0 {
      assert !Decides(name, items[n - 1]);
      ScanNoDecider(name, items, n - 1, maxDepth);
    }
  }

  /** The scan answers with the verdict of the last item of items[..n] that decides. */
  lemma {:induction false} ScanLastDecider(name: string, items: seq<string>, n: nat, k: nat, maxDepth: int)
    requires k < n <= |items|
    requires Decides(name, items[k])
    requires forall m :: k < m < n ==> !Decides(name, items[m])
    ensures ScanItems(name, items, n, maxDepth) == Verdict(name, items[k], maxDepth)
  {
    if k < n - 1 {
      assert !Decides(name, items[n - 1]);
      ScanLastDecider(name, items, n - 1, k, maxDepth);
    }
  }

  /** With pathspec items, check_recursion_depth is false when no item decides ... */
  lemma NoDecidingItemMeansNoRecursion(name: string, items: seq<string>, maxDepth: int)
    requires |items| > 0
    requires forall k :: 0 <= k < |items| ==> !Decides(name, items[k])
    ensures !CheckRecursionDepth(name, items, maxDepth)
  {
    ScanNoDecider(name, items, |items|, maxDepth);
  }

  /** ... and true, whatever the depth, when the name is shorter than the last deciding
      item and a leading directory of it. */
  lemma ShorterPrefixAlwaysRecurses(name: string, items: seq<string>, k: nat, maxDepth: int)
    requires k < |items|
    requires |name| < |items[k]| && IsDirPrefix(items[k], name, |name|)
    requires forall m :: k < m < |items| ==> !Decides(name, items[m])
    ensures CheckRecursionDepth(name, items, maxDepth)
  {
    ScanLastDecider(name, items, |items|, k, maxDepth);
  }

  /** When the last deciding item is a leading directory of the name, the answer is the
      depth check of what follows it: at most maxDepth - 1 further '/' below it. */
  lemma LongerMatchChecksDepth(name: string, items: seq<string>, k: nat, maxDepth: int)
    requires k < |items|
    requires |name| >= |items[k]| && IsDirPrefix(name, items[k], |items[k]|)
    requires forall m :: k < m < |items| ==> !Decides(name, items[m])
    ensures CheckRecursionDepth(name, items, maxDepth)
            <==> (var rest := name[|items[k]|..]; Slashes(rest) == 0 || 1 + Slashes(rest) <= maxDepth)
  {
    ScanLastDecider(name, items, |items|, k, maxDepth);
    WithinDepthSlashes(name[|items[k]|..], 1, maxDepth);
  }

  /** should_recurse(name, opt). */
  function ShouldRecurse(name: string, opt: Options): (r: bool)
    requires DepthConfigOk(opt)
    ensures !opt.recursive ==> !r
    ensures opt.recursive && !opt.maxDepthValid ==> r
    ensures opt.recursive && opt.maxDepthValid && |opt.pathspec| == 0
            ==> (r <==> Slashes(name) == 0 || 1 + Slashes(name) <= opt.maxDepth)
  {
    WithinDepthSlashes(name, 1, opt.maxDepth);
    if !opt.recursive then false
    else if !opt.maxDepthValid then true
    else CheckRecursionDepth(name, opt.pathspec, opt.maxDepth)
  }

  /** With max depth 1 and no pathspec, a top-level directory "x" is expanded and the
      directory "x/y" below it is not. */
  lemma MaxDepthOneExample(opt: Options)
    requires opt.recursive && opt.maxDepthValid && opt.maxDepth == 1
    requires opt.pathspec == [] && !opt.hasWildcard
    ensures ShouldRecurse("x", opt)
    ensures !ShouldRecurse("x/y", opt)
  {
    assert Slashes("x") == 0 by { assert "x"[1..] == []; }
    assert Slashes("x/y") == 1 by {
      assert "x/y"[1..] == "/y";
      assert "/y"[1..] == "y";
      assert "y"[1..] == [];
    }
  }
}
