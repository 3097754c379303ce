/**
 The few `str` operations the command parser relies on, over `string = seq<char>`:
 `trim_matches` with a char pattern, `split` and `splitn` on a char, the
 search for the first separator that `split` and `splitn` perform, and the
 `join` that undoes a split.
 */
module Text {
  import opened Results

  /** Every character of `s` is `c`. */
  predicate AllAre(s: string, c: char) {
    forall k | 0 <= k < |s| :: s[k] == c
  }

  /** `r` neither starts nor ends with `c`. */
  predicate Stripped(r: string, c: char) {
    r == [] || (r[0] != c && r[|r| - 1] != c)
  }

  /**
   Independent description of `trim_matches(c)`: `r` is the slice `s[i..j]`
   left once a run of `c` has been removed on each side, and no further `c`
   can be removed from either end.
   */
  ghost predicate IsTrim(r: string, s: string, c: char) {
    exists i, j | 0 <= i <= j <= |s| ::
      r == s[i..j] && AllAre(s[..i], c) && AllAre(s[j..], c) && Stripped(r, c)
  }

  /** Number of occurrences of `c` in `s`. */
  function Count(s: string, c: char): (n: nat)
    ensures n <= |s|
    ensures n == 0 <==> c !in s
  {
    if |s| == 0 then 0
    else (if s[0] == c then 1 else 0) + Count(s[1..], c)
  }

  /** The search for the first separator that `split` and `splitn` perform: the index of the first `c` in `s`, or `None`. */
  function Find(s: string, c: char): (r: Option<nat>)
    ensures r.None? <==> c !in s
    ensures r.Some? ==> r.value < |s| && s[r.value] == c && c !in s[..r.value]
  {
    if |s| == 0 then None
    else if s[0] == c then Some(0)
    else match Find(s[1..], c)
      case None => None
      case Some(i) =>
        assert s[..i + 1] == [s[0]] + s[1..][..i];
        Some(i + 1)
  }

  /** `s.trim_start_matches(c)`: drops the leading run of `c`. */
  function TrimStart(s: string, c: char): (r: string)
    ensures |r| <= |s| && r == s[|s| - |r|..]
    ensures AllAre(s[..|s| - |r|], c)
    ensures r == [] || r[0] != c
    decreases |s|
  {
    if |s| > 0 && s[0] == c then
      var r := TrimStart(s[1..], c);
      assert s[1..][|s| - 1 - |r|..] == s[|s| - |r|..];
      assert forall k | 1 <= k < |s| - |r| :: s[k] == s[1..][..|s| - 1 - |r|][k - 1];
      r
    else s
  }

  /** `s.trim_end_matches(c)`: drops the trailing run of `c`. */
  function TrimEnd(s: string, c: char): (r: string)
    ensures |r| <= |s| && r == s[..|r|]
    ensures AllAre(s[|r|..], c)
    ensures r == [] || r[|r| - 1] != c
    decreases |s|
  {
    if |s| > 0 && s[|s| - 1] == c then
      var r := TrimEnd(s[..|s| - 1], c);
      assert forall k | |r| <= k < |s| - 1 :: s[k] == s[..|s| - 1][|r|..][k - |r|];
      r
    else s
  }

  /** `s.trim_matches(c)`: drops the leading and the trailing run of `c`. */
  function TrimMatches(s: string, c: char): (r: string)
    ensures IsTrim(r, s, c)
  {
    var t := TrimStart(s, c);
    var r := TrimEnd(t, c);
    var i := |s| - |t|;
    var j := i + |r|;
    assert r == s[i..j] by {
      assert t == s[i..];
      assert r == t[..|r|];
    }
    assert AllAre(s[j..], c) by {
      assert forall k | 0 <= k < |s| - j :: s[j..][k] == t[|r|..][k];
    }
    r
  }

  /** `s.split(c)`: the pieces of `s` between occurrences of `c`; always at least one. */
  function Split(s: string, c: char): (parts: seq<string>)
    ensures |parts| == Count(s, c) + 1
    ensures forall k | 0 <= k < |parts| :: c !in parts[k]
    decreases |s|
  {
    match Find(s, c)
    case None => [s]
    case Some(i) =>
      CountAtFirst(s, i, c);
      [s[..i]] + Split(s[i + 1..], c)
  }

  /**
   `s.splitn(n, c)`: like `split`, but stops after `n - 1` cuts and leaves
   the rest of `s`, separators included, in the last piece.
   */
  function SplitN(s: string, n: nat, c: char): (parts: seq<string>)
    ensures n == 0 ==> parts == []
    ensures n > 0 ==> 1 <= |parts| <= n
    ensures forall k | 0 <= k < |parts| - 1 :: c !in parts[k]
    ensures 0 < |parts| < n ==> c !in parts[|parts| - 1]
    decreases n
  {
    if n == 0 then []
    else if n == 1 then [s]
    else match Find(s, c)
      case None => [s]
      case Some(i) => [s[..i]] + SplitN(s[i + 1..], n - 1, c)
  }

  /** `parts.join(c)`: the pieces with one `c` between neighbours. */
  function Join(parts: seq<string>, c: char): string
  {
    if |parts| == 0 then ""
    else if |parts| == 1 then parts[0]
    else parts[0] + [c] + Join(parts[1..], c)
  }

  lemma {:induction false} CountAppend(a: string, b: string, c: char)
    ensures Count(a + b, c) == Count(a, c) + Count(b, c)
    decreases |a|
  {
    if |a| > 0 {
      assert (a + b)[1..] == a[1..] + b;
      CountAppend(a[1..], b, c);
    } else {
      assert a + b == b;
    }
  }

  /** Cutting at the first `c` removes exactly one occurrence of it. */
  lemma CountAtFirst(s: string, i: nat, c: char)
    requires i < |s| && s[i] == c && c !in s[..i]
    ensures Count(s, c) == 1 + Count(s[i + 1..], c)
  {
    assert s == s[..i] + ([s[i]] + s[i + 1..]);
    CountAppend(s[..i], [s[i]] + s[i + 1..], c);
    CountAppend([s[i]], s[i + 1..], c);
  }

  /** The first `c` in `a + [c] + b` is the one after `a` when `a` holds none. */
  lemma FindAfterPrefix(a: string, b: string, c: char)
    requires c !in a
    ensures Find(a + [c] + b, c) == Some(|a|)
  {
    var s := a + [c] + b;
    var r := Find(s, c);
    assert s[|a|] == c;
    assert forall k | 0 <= k < |a| :: s[k] == a[k];
  }

  /** Names the witnesses of `IsTrim`. */
  lemma IsTrimIntro(r: string, s: string, c: char, i: nat, j: nat)
    requires i <= j <= |s| && r == s[i..j] && AllAre(s[..i], c) && AllAre(s[j..], c) && Stripped(r, c)
    ensures IsTrim(r, s, c)
  {
  }

  /** `trim_matches` has exactly one possible result: the description `IsTrim` pins it down. */
  lemma TrimUnique(r1: string, r2: string, s: string, c: char)
    requires IsTrim(r1, s, c) && IsTrim(r2, s, c)
    ensures r1 == r2
  {
    var i1, j1 :| 0 <= i1 <= j1 <= |s| && r1 == s[i1..j1] && AllAre(s[..i1], c) && AllAre(s[j1..], c) && Stripped(r1, c);
    var i2, j2 :| 0 <= i2 <= j2 <= |s| && r2 == s[i2..j2] && AllAre(s[..i2], c) && AllAre(s[j2..], c) && Stripped(r2, c);
    TrimBounds(r1, s, c, i1, j1, i2, j2);
    TrimBounds(r2, s, c, i2, j2, i1, j1);
  }

  /** A non-empty trim result lies inside the slice kept by any other trim of the same string. */
  lemma TrimBounds(r: string, s: string, c: char, i: nat, j: nat, i': nat, j': nat)
    requires i <= j <= |s| && r == s[i..j] && Stripped(r, c)
    requires i' <= j' <= |s| && AllAre(s[..i'], c) && AllAre(s[j'..], c)
    ensures r != [] ==> i' <= i < j <= j'
  {
    TrimKeepsOthers(s, c, i', j');
    assert r != [] ==> s[i] == r[0] && s[j - 1] == r[|r| - 1];
  }

  /** Whatever is cut away by a trim is `c`, so every other character lies inside the kept slice. */
  lemma TrimKeepsOthers(s: string, c: char, i: nat, j: nat)
    requires i <= j <= |s| && AllAre(s[..i], c) && AllAre(s[j..], c)
    ensures forall k | 0 <= k < |s| && s[k] != c :: i <= k < j
  {
    assert forall k | 0 <= k < i :: s[..i][k] == s[k];
    assert forall k | j <= k < |s| :: s[j..][k - j] == s[k];
  }

  /** Appending a run of `c` does not change what `trim_matches(c)` returns. */
  lemma TrimMatchesIgnoresPadding(s: string, pad: string, c: char)
    requires AllAre(pad, c)
    ensures TrimMatches(s + pad, c) == TrimMatches(s, c)
  {
    IsTrimPadding(TrimMatches(s, c), s, pad, c);
    TrimUnique(TrimMatches(s + pad, c), TrimMatches(s, c), s + pad, c);
  }

  /** A trim of `s` is still a trim of `s` once a run of `c` is appended. */
  lemma IsTrimPadding(r: string, s: string, pad: string, c: char)
    requires IsTrim(r, s, c) && AllAre(pad, c)
    ensures IsTrim(r, s + pad, c)
  {
    var i, j := TrimWitness(r, s, c);
    var t := s + pad;
    assert t[i..j] == r;
    assert t[..i] == s[..i];
    assert t[j..] == s[j..] + pad;
    AllAreConcat(s[j..], pad, c);
    IsTrimIntro(r, t, c, i, j);
  }

  /** The cut points behind an `IsTrim` fact. */
  lemma TrimWitness(r: string, s: string, c: char) returns (i: nat, j: nat)
    requires IsTrim(r, s, c)
    ensures i <= j <= |s| && r == s[i..j] && AllAre(s[..i], c) && AllAre(s[j..], c) && Stripped(r, c)
  {
    i, j :| 0 <= i <= j <= |s| && r == s[i..j] && AllAre(s[..i], c) && AllAre(s[j..], c) && Stripped(r, c);
  }

  lemma AllAreConcat(a: string, b: string, c: char)
    requires AllAre(a, c) && AllAre(b, c)
    ensures AllAre(a + b, c)
  {
  }

  /** A string that neither starts nor ends with `c` is left alone by `trim_matches(c)`. */
  lemma TrimMatchesStripped(s: string, c: char)
    requires Stripped(s, c)
    ensures TrimMatches(s, c) == s
  {
    assert s[0..|s|] == s && s[..0] == [] && s[|s|..] == [];
    IsTrimIntro(s, s, c, 0, |s|);
    TrimUnique(TrimMatches(s, c), s, s, c);
  }

  /** A string made of `c` alone trims to the empty string. */
  lemma TrimMatchesAll(s: string, c: char)
    requires AllAre(s, c)
    ensures TrimMatches(s, c) == []
  {
    assert s[..0] == [] && s[0..] == s;
    IsTrimIntro([], s, c, 0, 0);
    TrimUnique(TrimMatches(s, c), [], s, c);
  }

  lemma JoinCons(x: string, rest: seq<string>, c: char)
    requires |rest| >= 1
    ensures Join([x] + rest, c) == x + [c] + Join(rest, c)
  {
    assert ([x] + rest)[1..] == rest;
  }

  /** A string is its part before its first `c`, that `c`, and the part after. */
  lemma CutAtFind(s: string, c: char, i: nat)
    requires Find(s, c) == Some(i)
    ensures s == s[..i] + [c] + s[i + 1..]
  {
  }

  lemma SplitStep(s: string, c: char, i: nat)
    requires Find(s, c) == Some(i)
    ensures Split(s, c) == [s[..i]] + Split(s[i + 1..], c)
  {
  }

  lemma SplitNStep(s: string, n: nat, c: char, i: nat)
    requires n > 1 && Find(s, c) == Some(i)
    ensures SplitN(s, n, c) == [s[..i]] + SplitN(s[i + 1..], n - 1, c)
  {
  }

  /** `trim_matches(c)` returns a slice no longer than its input that neither starts nor ends with `c`. */
  lemma TrimMatchesShape(s: string, c: char)
    ensures Stripped(TrimMatches(s, c), c)
    ensures |TrimMatches(s, c)| <= |s|
  {
    var i, j := TrimWitness(TrimMatches(s, c), s, c);
  }

  /** `TrimMatchesStripped` and `TrimMatchesAll` as implications, for use inside function bodies. */
  lemma TrimMatchesClean(s: string, c: char)
    ensures Stripped(s, c) ==> TrimMatches(s, c) == s
  {
    if Stripped(s, c) {
      TrimMatchesStripped(s, c);
    }
  }

  lemma TrimMatchesNothingLeft(s: string, c: char)
    ensures AllAre(s, c) ==> TrimMatches(s, c) == []
  {
    if AllAre(s, c) {
      TrimMatchesAll(s, c);
    }
  }

  /** Joining the pieces of a split gives back the original string. */
  lemma {:induction false} JoinSplit(s: string, c: char)
    ensures Join(Split(s, c), c) == s
    decreases |s|
  {
    match Find(s, c)
    case None =>
    case Some(i) =>
      JoinSplit(s[i + 1..], c);
      SplitStep(s, c, i);
      JoinCons(s[..i], Split(s[i + 1..], c), c);
      CutAtFind(s, c, i);
  }

  /** Splitting a join of `c`-free pieces gives back the pieces. */
  lemma {:induction false} SplitJoin(parts: seq<string>, c: char)
    requires |parts| >= 1
    requires forall k | 0 <= k < |parts| :: c !in parts[k]
    ensures Split(Join(parts, c), c) == parts
    decreases |parts|
  {
    if |parts| > 1 {
      var rest := Join(parts[1..], c);
      var s := parts[0] + [c] + rest;
      JoinCons(parts[0], parts[1..], c);
      assert [parts[0]] + parts[1..] == parts;
      FindAfterPrefix(parts[0], rest, c);
      SplitStep(s, c, |parts[0]|);
      assert s[..|parts[0]|] == parts[0];
      assert s[|parts[0]| + 1..] == rest;
      SplitJoin(parts[1..], c);
    }
  }

  /** Joining the pieces of a `splitn` gives back the original string. */
  lemma {:induction false} JoinSplitN(s: string, n: nat, c: char)
    requires n > 0
    ensures Join(SplitN(s, n, c), c) == s
    decreases n
  {
    if n > 1 {
      match Find(s, c)
      case None =>
      case Some(i) =>
        JoinSplitN(s[i + 1..], n - 1, c);
        SplitNStep(s, n, c, i);
        JoinCons(s[..i], SplitN(s[i + 1..], n - 1, c), c);
        CutAtFind(s, c, i);
    }
  }
}
