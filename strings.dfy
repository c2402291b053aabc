/** Literal and regex-shaped string scanning, as JavaScript's String methods
    perform it on the patterns the templating engine builds.

    Every "replace all" here scans left to right and never lets two matches
    overlap: at each position either a match starts there (its
    replacement is emitted and scanning resumes after it) or the character
    is copied and scanning moves on by one. */
module Strings {

  datatype Option<T> = None | Some(value: T)

  /** `p` occurs in `s` at index `i`. */
  predicate OccursAt(s: string, p: string, i: int)
  {
    0 <= i && i + |p| <= |s| && s[i..i + |p|] == p
  }

  predicate Contains(s: string, p: string)
  {
    exists i | 0 <= i <= |s| - |p| :: OccursAt(s, p, i)
  }

  /** No occurrence of `p` in `s` starts before index `n`. */
  predicate NoneBefore(s: string, p: string, n: int)
  {
    forall i | 0 <= i < n :: !OccursAt(s, p, i)
  }

  /** Occurrences starting before `n` in `s` start before `n - 1` in `s[1..]`. */
  lemma {:induction false} NoneBeforeTail(s: string, p: string, n: int)
    requires |s| > 0 && n > 0 && NoneBefore(s, p, n)
    ensures NoneBefore(s[1..], p, n - 1) && !(p <= s)
  {
    OccursAtZero(s, p);
    forall i | 0 <= i < n - 1 ensures !OccursAt(s[1..], p, i) {
      OccursShift(s, p, i);
    }
  }

  lemma {:induction false} OccursShift(s: string, p: string, j: int)
    requires |s| > 0 && 0 <= j
    ensures OccursAt(s[1..], p, j) <==> OccursAt(s, p, j + 1)
  {
    if j + |p| <= |s| - 1 {
      assert s[1..][j..j + |p|] == s[j + 1..j + 1 + |p|];
    }
  }

  /** Character `j` of an occurrence is character `j` of the pattern. */
  lemma {:induction false} OccursIndex(s: string, p: string, i: int, j: int)
    ensures OccursAt(s, p, i) && 0 <= j < |p| ==> s[i + j] == p[j]
  {
    if OccursAt(s, p, i) && 0 <= j < |p| {
      assert s[i..i + |p|][j] == s[i + j];
    }
  }

  lemma {:induction false} OccursAtZero(s: string, p: string)
    ensures OccursAt(s, p, 0) <==> p <= s
  {
  }

  /** A position not holding `p[0]` is not an occurrence of `p`. */
  lemma {:induction false} NotOccursAtHead(s: string, p: string, i: int)
    requires |p| > 0 && 0 <= i < |s| && s[i] != p[0]
    ensures !OccursAt(s, p, i)
  {
    if i + |p| <= |s| {
      assert s[i..i + |p|][0] == s[i];
    }
  }

  /** `s` does not contain `p` when `s[1..]` does not and `p` is not a prefix. */
  lemma {:induction false} NotContainsStep(s: string, p: string)
    requires |s| > 0 && !(p <= s) && !Contains(s[1..], p)
    ensures !Contains(s, p)
  {
    forall i | 0 <= i ensures !OccursAt(s, p, i) {
      if i == 0 {
        OccursAtZero(s, p);
      } else {
        OccursShift(s, p, i - 1);
      }
    }
  }

  lemma {:induction false} ContainsTail(s: string, p: string)
    requires |s| > 0
    ensures !Contains(s, p) ==> !Contains(s[1..], p)
  {
    if !Contains(s, p) {
      forall j | 0 <= j ensures !OccursAt(s[1..], p, j) {
        OccursShift(s, p, j);
      }
    }
  }

  lemma {:induction false} OccursPrefix(s: string, p: string, q: string, i: int)
    requires q <= p
    ensures OccursAt(s, p, i) ==> OccursAt(s, q, i)
  {
    if OccursAt(s, p, i) {
      assert s[i..i + |q|] == s[i..i + |p|][..|q|];
    }
  }

  /** A text missing `q` misses every pattern that begins with `q`. */
  lemma {:induction false} NotContainsExtension(s: string, q: string, p: string)
    requires q <= p && !Contains(s, q)
    ensures !Contains(s, p)
  {
    forall i | 0 <= i ensures !OccursAt(s, p, i) {
      OccursPrefix(s, p, q, i);
    }
  }

  /** Index of the first occurrence of `p` in `s` (String.prototype.indexOf). */
  function Find(s: string, p: string): Option<nat>
    decreases |s|
  {
    if p <= s then Some(0)
    else if |s| == 0 then None
    else
      match Find(s[1..], p)
      case None => None
      case Some(i) => Some(i + 1)
  }

  /** What `Find` reports is the first occurrence. */
  lemma {:induction false} FindSome(s: string, p: string, k: nat)
    requires Find(s, p) == Some(k)
    ensures OccursAt(s, p, k) && forall j | 0 <= j < k :: !OccursAt(s, p, j)
    decreases |s|
  {
    OccursAtZero(s, p);
    if !(p <= s) {
      FindSome(s[1..], p, k - 1);
      OccursShift(s, p, k - 1);
      forall j | 0 <= j < k ensures !OccursAt(s, p, j) {
        if j > 0 { OccursShift(s, p, j - 1); }
      }
    }
  }

  /** When `Find` reports nothing there is nothing to find. */
  lemma {:induction false} FindNone(s: string, p: string)
    requires Find(s, p) == None
    ensures !Contains(s, p)
    decreases |s|
  {
    OccursAtZero(s, p);
    if |s| > 0 {
      FindNone(s[1..], p);
      NotContainsStep(s, p);
    }
  }

  /** The first occurrence is the one `Find` reports. */
  lemma {:induction false} FindFirst(s: string, p: string, k: nat)
    requires OccursAt(s, p, k) && forall j | 0 <= j < k :: !OccursAt(s, p, j)
    ensures Find(s, p) == Some(k)
  {
    match Find(s, p)
    case None => FindNone(s, p);
    case Some(i) =>
      FindSome(s, p, i);
  }

  /** Index of the last occurrence of `p` in `s` (String.prototype.lastIndexOf). */
  function FindLast(s: string, p: string): Option<nat>
    decreases |s|
  {
    if |s| == 0 then
      if p <= s then Some(0) else None
    else
      match FindLast(s[1..], p)
      case Some(i) => Some(i + 1)
      case None => if p <= s then Some(0) else None
  }

  /** What `FindLast` reports is the last occurrence. */
  lemma {:induction false} FindLastSome(s: string, p: string, k: nat)
    requires FindLast(s, p) == Some(k)
    ensures OccursAt(s, p, k) && forall j | k < j :: !OccursAt(s, p, j)
    decreases |s|
  {
    OccursAtZero(s, p);
    if |s| > 0 {
      match FindLast(s[1..], p)
      case Some(i) =>
        FindLastSome(s[1..], p, i);
        OccursShift(s, p, i);
        forall j | k < j ensures !OccursAt(s, p, j) { OccursShift(s, p, j - 1); }
      case None =>
        FindLastNone(s[1..], p);
        forall j | 0 < j ensures !OccursAt(s, p, j) { OccursShift(s, p, j - 1); }
    } else {
      forall j | 0 < j ensures !OccursAt(s, p, j) { }
    }
  }

  lemma {:induction false} FindLastNone(s: string, p: string)
    requires FindLast(s, p) == None
    ensures !Contains(s, p)
    decreases |s|
  {
    OccursAtZero(s, p);
    if |s| > 0 {
      FindLastNone(s[1..], p);
      NotContainsStep(s, p);
    }
  }

  /** A pattern that occurs is found by `FindLast`. */
  lemma {:induction false} FindLastFound(s: string, p: string, k: int)
    ensures OccursAt(s, p, k) ==> FindLast(s, p).Some?
  {
    if FindLast(s, p).None? {
      FindLastNone(s, p);
    }
  }

  /** If the pattern's first character is absent from the first `k`
      characters, the first occurrence found is the one at `k`. */
  lemma {:induction false} FindAt(s: string, p: string, k: nat)
    requires |p| > 0 && OccursAt(s, p, k) && p[0] !in s[..k]
    ensures Find(s, p) == Some(k)
  {
    forall j | 0 <= j < k ensures !OccursAt(s, p, j) {
      assert s[..k][j] == s[j];
      NotOccursAtHead(s, p, j);
    }
    FindFirst(s, p, k);
  }

  lemma {:induction false} CharOccursAt(s: string, c: char, k: int)
    requires 0 <= k < |s|
    ensures OccursAt(s, [c], k) <==> s[k] == c
  {
    assert s[k..k + 1] == [s[k]];
  }

  /** For a one-character pattern, the last occurrence is the last position
      holding that character. */
  lemma {:induction false} FindLastCharSome(s: string, c: char, k: nat)
    requires FindLast(s, [c]) == Some(k)
    ensures k < |s| && s[k] == c && c !in s[k + 1..]
  {
    FindLastSome(s, [c], k);
    CharOccursAt(s, c, k);
    forall i | k + 1 <= i < |s| ensures s[i] != c {
      CharOccursAt(s, c, i);
    }
  }

  lemma {:induction false} FindLastCharNone(s: string, c: char)
    requires FindLast(s, [c]) == None
    ensures c !in s
  {
    FindLastNone(s, [c]);
    forall i | 0 <= i < |s| ensures s[i] != c {
      CharOccursAt(s, c, i);
    }
  }

  /** A character that ends the text is the last one found. */
  lemma {:induction false} FindLastCharAtEnd(x: string, c: char)
    ensures FindLast(x + [c], [c]) == Some(|x|)
  {
    var s := x + [c];
    CharOccursAt(s, c, |x|);
    FindLastFound(s, [c], |x|);
    FindLastCharSome(s, c, FindLast(s, [c]).value);
  }

  /** `s.replaceAll(p, r)` for a literal, non-empty pattern `p` and a
      replacement with no `$` substitution patterns. */
  function ReplaceAll(s: string, p: string, r: string): string
    requires |p| > 0
    decreases |s|
  {
    if |s| == 0 then []
    else if p <= s then
      r + ReplaceAll(s[|p|..], p, r)
    else
      [s[0]] + ReplaceAll(s[1..], p, r)
  }

  /** A text without the pattern is left as it is. */
  lemma {:induction false} ReplaceAllAbsent(s: string, p: string, r: string)
    requires |p| > 0 && !Contains(s, p)
    ensures ReplaceAll(s, p, r) == s
    decreases |s|
  {
    if |s| > 0 {
      OccursAtZero(s, p);
      ContainsTail(s, p);
      ReplaceAllAbsent(s[1..], p, r);
      assert [s[0]] + s[1..] == s;
    }
  }

  lemma {:induction false} ConsAppend(x: char, t: string, u: string)
    ensures [x] + (t + u) == ([x] + t) + u
  {
  }

  /** A prefix free of `p[0]` is copied unchanged. */
  lemma {:induction false} ReplaceAllSkip(a: string, b: string, p: string, r: string)
    requires |p| > 0 && p[0] !in a
    ensures ReplaceAll(a + b, p, r) == a + ReplaceAll(b, p, r)
    decreases |a|
  {
    if |a| > 0 {
      var x, t, u := a[0], a[1..], ReplaceAll(b, p, r);
      assert a + b == [x] + (t + b);
      ReplaceAllSkipOne(x, t + b, p, r);
      ReplaceAllSkip(t, b, p, r);
      ConsAppend(x, t, u);
      assert [x] + t == a;
    } else {
      assert a + b == b;
    }
  }

  /** A prefix in which no occurrence of `p` starts is copied unchanged. */
  lemma {:induction false} ReplaceAllSkipUntil(a: string, b: string, p: string, r: string)
    requires |p| > 0 && NoneBefore(a + b, p, |a|)
    ensures ReplaceAll(a + b, p, r) == a + ReplaceAll(b, p, r)
    decreases |a|
  {
    if |a| > 0 {
      var x, t, u := a[0], a[1..], ReplaceAll(b, p, r);
      assert a + b == [x] + (t + b);
      NoneBeforeTail(a + b, p, |a|);
      assert (a + b)[1..] == t + b;
      ReplaceAllSkipOne(x, t + b, p, r);
      ReplaceAllSkipUntil(t, b, p, r);
      ConsAppend(x, t, u);
      assert [x] + t == a;
    } else {
      assert a + b == b;
    }
  }

  lemma {:induction false} ReplaceAllSkipOne(x: char, b: string, p: string, r: string)
    requires |p| > 0 && !(p <= [x] + b)
    ensures ReplaceAll([x] + b, p, r) == [x] + ReplaceAll(b, p, r)
  {
    assert ([x] + b)[1..] == b;
  }

  /** Two leading characters where no match starts, then a stretch free of
      `p[0]`, are all copied. */
  lemma {:induction false} ReplaceAllSkipPair(x: char, y: char, a: string, b: string, p: string, r: string)
    requires |p| > 0 && p[0] !in a
    requires !(p <= [x] + ([y] + (a + b))) && !(p <= [y] + (a + b))
    ensures ReplaceAll([x] + ([y] + (a + b)), p, r) == [x] + ([y] + (a + ReplaceAll(b, p, r)))
  {
    ReplaceAllSkipOne(x, [y] + (a + b), p, r);
    ReplaceAllSkipOne(y, a + b, p, r);
    ReplaceAllSkip(a, b, p, r);
  }

  lemma {:induction false} ReplaceAllHit(p: string, b: string, r: string)
    requires |p| > 0
    ensures ReplaceAll(p + b, p, r) == r + ReplaceAll(b, p, r)
  {
    assert (p + b)[|p|..] == b;
  }

  lemma {:induction false} ReplaceAllHead(s: string, p: string, r: string)
    requires |p| > 0 && |s| > 0 && |r| > 0
    ensures |ReplaceAll(s, p, r)| > 0
    ensures ReplaceAll(s, p, r)[0] == if p <= s then r[0] else s[0]
  {
  }

  /** When the output starts with `t` and `t` never holds the pattern's
      first character, the input starts with `t` too: every replacement
      begins with that character. */
  lemma {:induction false} ReplaceAllPrefix(s: string, p: string, r: string, t: string)
    requires |p| > 0 && |r| > 0 && r[0] == p[0] && p[0] !in t
    ensures t <= ReplaceAll(s, p, r) ==> t <= s
    decreases |t|
  {
    if |t| > 0 && |s| > 0 {
      assert p[0] !in t[1..] by {
        forall i | 0 <= i < |t| - 1 ensures t[1..][i] != p[0] {
          assert t[1..][i] == t[i + 1];
        }
      }
      ReplaceAllPrefix(s[1..], p, r, t[1..]);
      ReplaceAllHead(s, p, r);
      assert t[0] != p[0];
      if !(p <= s) {
        assert ReplaceAll(s, p, r) == [s[0]] + ReplaceAll(s[1..], p, r);
      }
    }
  }

  /** Nothing in `r + rest` is an occurrence of `p` when `rest` holds none. */
  lemma {:induction false} ReplacementFront(r: string, rest: string, p: string)
    requires |p| > 0 && |r| >= |p| && p[0] !in r[1..] && !(p <= r)
    requires !Contains(rest, p)
    ensures !Contains(r + rest, p)
  {
    var out := r + rest;
    forall i | 0 <= i ensures !OccursAt(out, p, i) {
      if i == 0 {
        assert out[..|p|] == r[..|p|];
      } else if i < |r| {
        assert out[i] == r[1..][i - 1];
        assert r[1..][i - 1] in r[1..];
        NotOccursAtHead(out, p, i);
      } else if i + |p| <= |out| {
        assert out[i..i + |p|] == rest[i - |r|..i - |r| + |p|];
        assert !OccursAt(rest, p, i - |r|);
      }
    }
  }

  lemma {:induction false} PrefixCons(s: string, p: string)
    requires |s| > 0 && |p| > 0 && s[0] == p[0]
    ensures p <= s <==> p[1..] <= s[1..]
  {
    if |p| <= |s| {
      assert s[..|p|] == [s[0]] + s[1..][..|p| - 1];
      assert p == [p[0]] + p[1..];
    }
  }

  /** A copied character `s[0]` cannot start an occurrence of `p` in the output. */
  lemma {:induction false} CopiedHead(s: string, p: string, r: string)
    requires |p| > 0 && |s| > 0 && !(p <= s) && p[0] !in p[1..]
    requires |r| > 0 && r[0] == p[0]
    ensures !OccursAt([s[0]] + ReplaceAll(s[1..], p, r), p, 0)
  {
    var rest := ReplaceAll(s[1..], p, r);
    var out := [s[0]] + rest;
    if s[0] == p[0] {
      ReplaceAllPrefix(s[1..], p, r, p[1..]);
      PrefixCons(s, p);
      assert !(p[1..] <= rest);
      if |p| <= |out| {
        assert out[..|p|] == [s[0]] + rest[..|p| - 1];
        assert p == [p[0]] + p[1..];
      }
    } else {
      NotOccursAtHead(out, p, 0);
    }
  }

  lemma {:induction false} CopiedFront(s: string, p: string, r: string)
    requires |p| > 0 && |s| > 0 && !(p <= s) && p[0] !in p[1..]
    requires |r| > 0 && r[0] == p[0]
    requires !Contains(ReplaceAll(s[1..], p, r), p)
    ensures !Contains([s[0]] + ReplaceAll(s[1..], p, r), p)
  {
    var rest := ReplaceAll(s[1..], p, r);
    var out := [s[0]] + rest;
    forall i | 0 <= i ensures !OccursAt(out, p, i) {
      if i == 0 {
        CopiedHead(s, p, r);
      } else if i + |p| <= |out| {
        assert out[i..i + |p|] == rest[i - 1..i - 1 + |p|];
        assert !OccursAt(rest, p, i - 1);
      }
    }
  }

  /** No occurrence of `p` survives, for a pattern whose first character
      appears only at its front and a replacement that starts with that
      character, holds it nowhere else, is at least as long as the pattern
      and does not start with it. */
  lemma {:induction false} ReplaceAllRemoves(s: string, p: string, r: string)
    requires |p| > 0 && p[0] !in p[1..]
    requires |r| >= |p| && r[0] == p[0] && p[0] !in r[1..] && !(p <= r)
    ensures !Contains(ReplaceAll(s, p, r), p)
    decreases |s|
  {
    if |s| > 0 {
      if p <= s {
        ReplaceAllRemoves(s[|p|..], p, r);
        ReplacementFront(r, ReplaceAll(s[|p|..], p, r), p);
      } else {
        ReplaceAllRemoves(s[1..], p, r);
        CopiedFront(s, p, r);
      }
    }
  }

  /** Deleting a one-character pattern leaves none of that character. */
  lemma {:induction false} ReplaceAllDeletesChar(s: string, c: char)
    ensures c !in ReplaceAll(s, [c], [])
    decreases |s|
  {
    if |s| > 0 {
      if [c] <= s {
        assert s[1..] == s[|[c]|..];
      } else {
        assert s[0] != c;
      }
      ReplaceAllDeletesChar(s[1..], c);
    }
  }

  /** Every output character comes from the input or from the replacement. */
  lemma {:induction false} ReplaceAllChars(s: string, p: string, r: string, x: char)
    requires |p| > 0
    ensures x in ReplaceAll(s, p, r) ==> x in s || x in r
    decreases |s|
  {
    if |s| > 0 {
      if p <= s {
        ReplaceAllChars(s[|p|..], p, r, x);
        assert x in s[|p|..] ==> x in s;
      } else {
        ReplaceAllChars(s[1..], p, r, x);
        assert x in s[1..] ==> x in s;
      }
    }
  }

  lemma {:induction false} CountJoin(a: string, b: string, x: char)
    ensures multiset(a + b)[x] == multiset(a)[x] + multiset(b)[x]
  {
    assert multiset(a + b) == multiset(a) + multiset(b);
  }

  /** Deleting a pattern that holds no `x` keeps every `x`. */
  lemma {:induction false} ReplaceAllKeepsCount(s: string, p: string, x: char)
    requires |p| > 0 && x !in p
    ensures multiset(ReplaceAll(s, p, []))[x] == multiset(s)[x]
    decreases |s|
  {
    if |s| > 0 {
      if p <= s {
        ReplaceAllKeepsCount(s[|p|..], p, x);
        assert s == p + s[|p|..];
        CountJoin(p, s[|p|..], x);
      } else {
        ReplaceAllKeepsCount(s[1..], p, x);
        CountJoin([s[0]], ReplaceAll(s[1..], p, []), x);
        assert s == [s[0]] + s[1..];
        CountJoin([s[0]], s[1..], x);
      }
    }
  }

  /** `s.replace(p, r)` for a literal pattern: only the first occurrence. */
  function ReplaceFirst(s: string, p: string, r: string): string
  {
    match Find(s, p)
    case None => s
    case Some(i) =>
      FindSome(s, p, i);
      s[..i] + r + s[i + |p|..]
  }

  /** The first occurrence, and only it, is replaced. */
  lemma {:induction false} ReplaceFirstAt(s: string, p: string, r: string, k: nat)
    requires OccursAt(s, p, k) && forall j | 0 <= j < k :: !OccursAt(s, p, j)
    ensures ReplaceFirst(s, p, r) == s[..k] + r + s[k + |p|..]
  {
    FindFirst(s, p, k);
  }

  /** Without an occurrence nothing is replaced. */
  lemma {:induction false} ReplaceFirstAbsent(s: string, p: string, r: string)
    requires !Contains(s, p)
    ensures ReplaceFirst(s, p, r) == s
  {
    if Find(s, p).Some? {
      FindSome(s, p, Find(s, p).value);
    }
  }

  /** `s.replaceAll(/open.*?close/gs, "")`: each `open` up to the nearest
      following `close` is deleted. An `open` with no `close` after it is
      literal text. */
  function DeleteLazy(s: string, open: string, close: string): string
    requires |open| > 0
    decreases |s|
  {
    if |s| == 0 then []
    else if open <= s && Find(s[|open|..], close).Some? then
      var j := Find(s[|open|..], close).value;
      FindSome(s[|open|..], close, j);
      DeleteLazy(s[|open| + j + |close|..], open, close)
    else
      [s[0]] + DeleteLazy(s[1..], open, close)
  }

  /** A text without `open` is left as it is. */
  lemma {:induction false} DeleteLazyAbsent(s: string, open: string, close: string)
    requires |open| > 0 && !Contains(s, open)
    ensures DeleteLazy(s, open, close) == s
    decreases |s|
  {
    if |s| > 0 {
      OccursAtZero(s, open);
      ContainsTail(s, open);
      DeleteLazyAbsent(s[1..], open, close);
      assert [s[0]] + s[1..] == s;
    }
  }

  lemma {:induction false} DeleteLazyCopy(s: string, open: string, close: string)
    requires |open| > 0 && |s| > 0 && !(open <= s)
    ensures DeleteLazy(s, open, close) == [s[0]] + DeleteLazy(s[1..], open, close)
  {
  }

  lemma {:induction false} DeleteLazySkip(a: string, b: string, open: string, close: string)
    requires |open| > 0 && open[0] !in a
    ensures DeleteLazy(a + b, open, close) == a + DeleteLazy(b, open, close)
    decreases |a|
  {
    if |a| > 0 {
      var x, t, u := a[0], a[1..], DeleteLazy(b, open, close);
      assert a + b == [x] + (t + b);
      DeleteLazySkipOne(x, t + b, open, close);
      DeleteLazySkip(t, b, open, close);
      ConsAppend(x, t, u);
      assert [x] + t == a;
    } else {
      assert a + b == b;
    }
  }

  /** A prefix in which no occurrence of `open` starts is copied unchanged. */
  lemma {:induction false} DeleteLazySkipUntil(a: string, b: string, open: string, close: string)
    requires |open| > 0 && NoneBefore(a + b, open, |a|)
    ensures DeleteLazy(a + b, open, close) == a + DeleteLazy(b, open, close)
    decreases |a|
  {
    if |a| > 0 {
      var x, t, u := a[0], a[1..], DeleteLazy(b, open, close);
      assert a + b == [x] + (t + b);
      NoneBeforeTail(a + b, open, |a|);
      assert (a + b)[1..] == t + b;
      DeleteLazySkipOne(x, t + b, open, close);
      DeleteLazySkipUntil(t, b, open, close);
      ConsAppend(x, t, u);
      assert [x] + t == a;
    } else {
      assert a + b == b;
    }
  }

  lemma {:induction false} DeleteLazySkipOne(x: char, b: string, open: string, close: string)
    requires |open| > 0 && !(open <= [x] + b)
    ensures DeleteLazy([x] + b, open, close) == [x] + DeleteLazy(b, open, close)
  {
    DeleteLazyCopy([x] + b, open, close);
    assert ([x] + b)[1..] == b;
  }

  lemma {:induction false} DeleteLazySkipPair(x: char, y: char, a: string, b: string, open: string, close: string)
    requires |open| > 0 && open[0] !in a
    requires !(open <= [x] + ([y] + (a + b))) && !(open <= [y] + (a + b))
    ensures DeleteLazy([x] + ([y] + (a + b)), open, close) == [x] + ([y] + (a + DeleteLazy(b, open, close)))
  {
    DeleteLazySkipOne(x, [y] + (a + b), open, close);
    DeleteLazySkipOne(y, a + b, open, close);
    DeleteLazySkip(a, b, open, close);
  }

  /** A block `open mid close` in which the `close` after `mid` is the
      nearest one is deleted whole. */
  lemma {:induction false} DeleteLazyHit(open: string, mid: string, close: string, b: string)
    requires |open| > 0 && |close| > 0 && !Contains(mid + close[..|close| - 1], close)
    ensures DeleteLazy(open + mid + close + b, open, close) == DeleteLazy(b, open, close)
  {
    var s := open + mid + close + b;
    var t := mid + close + b;
    var u := mid + close[..|close| - 1];
    assert s[|open|..] == t;
    forall j | 0 <= j < |mid| ensures !OccursAt(t, close, j) {
      assert t[j..j + |close|] == u[j..j + |close|];
      assert !OccursAt(u, close, j);
    }
    assert t[|mid|..|mid| + |close|] == close;
    FindFirst(t, close, |mid|);
    assert s[|open| + |mid| + |close|..] == b;
  }

  /** When `mid` misses the first character of `close`, the `close` after
      it is the nearest one. */
  lemma {:induction false} FirstCloseAfter(mid: string, close: string)
    requires |close| > 0 && close[0] !in mid
    ensures !Contains(mid + close[..|close| - 1], close)
  {
    var u := mid + close[..|close| - 1];
    forall j | 0 <= j <= |u| - |close| ensures !OccursAt(u, close, j) {
      OccursIndex(u, close, j, 0);
      assert u[j] == mid[j] && mid[j] in mid;
    }
  }

  /** `s.replaceAll(/open.*close/gs, "")`: from the first `open` that has a
      `close` after it, to the LAST `close`, greedily. */
  function DeleteGreedy(s: string, open: string, close: string): string
    requires |open| > 0
    decreases |s|
  {
    if |s| == 0 then []
    else if open <= s && FindLast(s[|open|..], close).Some? then
      var j := FindLast(s[|open|..], close).value;
      FindLastSome(s[|open|..], close, j);
      DeleteGreedy(s[|open| + j + |close|..], open, close)
    else
      [s[0]] + DeleteGreedy(s[1..], open, close)
  }

  /** No `open` in `s` has a `close` anywhere after it: the greedy pattern
      finds no match. */
  predicate NoBlock(s: string, open: string, close: string)
  {
    forall i | 0 <= i <= |s| - |open| :: OccursAt(s, open, i) ==> !Contains(s[i + |open|..], close)
  }

  lemma {:induction false} OccursInTail(b: string, m: nat, p: string, q: int)
    requires m <= |b|
    ensures OccursAt(b[m..], p, q) ==> OccursAt(b, p, m + q)
  {
    if OccursAt(b[m..], p, q) {
      assert b[m..][q..q + |p|] == b[m + q..m + q + |p|];
    }
  }

  lemma {:induction false} OccursInFront(a: string, b: string, p: string, i: int)
    ensures OccursAt(a + b, p, i) && i + |p| <= |a| ==> OccursAt(a, p, i)
  {
    if OccursAt(a + b, p, i) && i + |p| <= |a| {
      assert (a + b)[i..i + |p|] == a[i..i + |p|];
    }
  }

  lemma {:induction false} OccursInBack(a: string, b: string, p: string, i: int)
    ensures OccursAt(a + b, p, i) && i >= |a| ==> OccursAt(b, p, i - |a|)
  {
    if OccursAt(a + b, p, i) && i >= |a| {
      assert (a + b)[i..i + |p|] == b[i - |a|..i - |a| + |p|];
    }
  }

  /** A text without the pattern's first character does not contain it. */
  lemma {:induction false} MissingHeadNotContained(s: string, p: string)
    requires |p| > 0 && p[0] !in s
    ensures !Contains(s, p)
  {
    forall i | 0 <= i < |s| ensures !OccursAt(s, p, i) {
      NotOccursAtHead(s, p, i);
    }
  }

  /** A text missing some character of the pattern does not contain it. */
  lemma {:induction false} MissingCharNotContained(s: string, p: string, j: nat)
    requires j < |p| && p[j] !in s
    ensures !Contains(s, p)
  {
    forall i | 0 <= i <= |s| - |p| ensures !OccursAt(s, p, i) {
      assert i + j < |s| ==> s[i..i + |p|][j] == s[i + j];
    }
  }

  lemma {:induction false} ContainsBetween(a: string, p: string, b: string)
    ensures Contains(a + p + b, p)
  {
    assert (a + p + b)[|a|..|a| + |p|] == p;
    assert OccursAt(a + p + b, p, |a|);
  }

  lemma {:induction false} NoBlockTail(s: string, open: string, close: string)
    requires |s| > 0 && NoBlock(s, open, close)
    ensures NoBlock(s[1..], open, close)
  {
    forall i | 0 <= i <= |s| - 1 - |open| && OccursAt(s[1..], open, i)
      ensures !Contains(s[1..][i + |open|..], close)
    {
      OccursShift(s, open, i);
      assert s[1..][i + |open|..] == s[i + 1 + |open|..];
    }
  }

  /** Where the pattern has no match, the greedy deletion copies its input. */
  lemma {:induction false} DeleteGreedyNoBlock(s: string, open: string, close: string)
    requires |open| > 0 && NoBlock(s, open, close)
    ensures DeleteGreedy(s, open, close) == s
    decreases |s|
  {
    if |s| > 0 {
      OccursAtZero(s, open);
      if open <= s {
        assert OccursAt(s, open, 0);
        if FindLast(s[|open|..], close).Some? {
          FindLastSome(s[|open|..], close, FindLast(s[|open|..], close).value);
        }
      }
      NoBlockTail(s, open, close);
      DeleteGreedyNoBlock(s[1..], open, close);
    }
  }

  /** Once no `open` survives whole in `a` and no `close` in `b`, the text
      `a + b` holds no block. */
  lemma {:induction false} JoinNoBlock(a: string, b: string, open: string, close: string)
    requires !Contains(a, open) && !Contains(b, close)
    ensures NoBlock(a + b, open, close)
  {
    var s := a + b;
    forall i | 0 <= i <= |s| - |open| && OccursAt(s, open, i)
      ensures !Contains(s[i + |open|..], close)
    {
      OccursInFront(a, b, open, i);
      assert i + |open| > |a|;
      var m := i + |open| - |a|;
      assert s[i + |open|..] == b[m..];
      forall q | 0 <= q ensures !OccursAt(b[m..], close, q) {
        OccursInTail(b, m, close, q);
      }
    }
  }

  /** `s[k..l]` is the block the greedy deletion removes: it opens at `k`,
      closes at its end, nothing before `k` opens and nothing after `l` closes. */
  predicate GreedyBlock(s: string, open: string, close: string, k: int, l: int)
    requires |open| > 0
  {
    0 <= k && k + |open| + |close| <= l <= |s| && OccursAt(s, open, k) && OccursAt(s, close, l - |close|)
    && !Contains(s[..k], open) && !Contains(s[l..], close)
    && DeleteGreedy(s, open, close) == s[..k] + s[l..]
  }

  /** The greedy deletion either finds no block and copies `s`, or removes one. */
  predicate GreedyShape(s: string, open: string, close: string, k: int, l: int)
    requires |open| > 0
  {
    (NoBlock(s, open, close) && DeleteGreedy(s, open, close) == s) || GreedyBlock(s, open, close, k, l)
  }

  /** Nothing after the last `close` is a `close`. */
  lemma {:induction false} AfterLastClose(s: string, close: string, j: nat)
    requires |close| > 0 && FindLast(s, close) == Some(j)
    ensures j + |close| <= |s| && !Contains(s[j + |close|..], close)
  {
    FindLastSome(s, close, j);
    var m := j + |close|;
    forall q | 0 <= q ensures !OccursAt(s[m..], close, q) {
      OccursInTail(s, m, close, q);
    }
  }

  /** A string with no `close` in it holds no block. */
  lemma {:induction false} NoCloseNoBlock(s: string, open: string, close: string)
    requires |open| > 0 && !Contains(s, close)
    ensures NoBlock(s, open, close)
  {
    forall i | 0 <= i <= |s| - |open| && OccursAt(s, open, i)
      ensures !Contains(s[i + |open|..], close)
    {
      var u := s[i + |open|..];
      forall q | 0 <= q ensures !OccursAt(u, close, q) {
        OccursInTail(s, i + |open|, close, q);
      }
    }
  }

  /** A match at the front deletes through the last `close`. */
  lemma {:induction false} DeleteGreedyHit(s: string, open: string, close: string, j: nat)
    requires |open| > 0 && open <= s && FindLast(s[|open|..], close) == Some(j)
    ensures |open| + j + |close| <= |s|
    ensures DeleteGreedy(s, open, close) == DeleteGreedy(s[|open| + j + |close|..], open, close)
  {
    FindLastSome(s[|open|..], close, j);
  }

  /** The block at the front ends after the last `close`. */
  lemma {:induction false} SliceOfDrop(s: string, a: nat, i: nat, n: nat)
    requires a + i + n <= |s|
    ensures s[a..][i..i + n] == s[a + i..a + i + n]
  {
    var x, y := s[a..][i..i + n], s[a + i..a + i + n];
    forall k | 0 <= k < n ensures x[k] == y[k] {
      assert s[a..][i + k] == s[a + i + k];
    }
  }

  lemma {:induction false} FrontBlockClose(s: string, open: string, close: string, j: nat)
    requires 0 < |open| <= |s| && FindLast(s[|open|..], close) == Some(j)
    ensures |open| + j + |close| <= |s| && OccursAt(s, close, |open| + j)
  {
    var body := s[|open|..];
    FindLastSome(body, close, j);
    SliceOfDrop(s, |open|, j, |close|);
  }

  lemma {:induction false} FrontBlockRest(s: string, open: string, close: string, j: nat)
    requires 0 < |open| <= |s| && |close| > 0 && FindLast(s[|open|..], close) == Some(j)
    ensures |open| + j + |close| <= |s| && !Contains(s[|open| + j + |close|..], close)
  {
    var body := s[|open|..];
    AfterLastClose(body, close, j);
    assert body[j + |close|..] == s[|open| + j + |close|..];
  }

  lemma {:induction false} GreedyMatchCase(s: string, open: string, close: string) returns (l: nat)
    requires |open| > 0 && |close| > 0 && open <= s && FindLast(s[|open|..], close).Some?
    ensures GreedyBlock(s, open, close, 0, l)
  {
    var j := FindLast(s[|open|..], close).value;
    l := |open| + j + |close|;
    OccursAtZero(s, open);
    FrontBlockClose(s, open, close, j);
    FrontBlockRest(s, open, close, j);
    var rest := s[l..];
    NoCloseNoBlock(rest, open, close);
    DeleteGreedyNoBlock(rest, open, close);
    DeleteGreedyHit(s, open, close, j);
    assert s[..0] == [];
    assert !Contains(s[..0], open);
    assert s[..0] + rest == rest;
  }

  lemma {:induction false} DeleteGreedyCopy(s: string, open: string, close: string)
    requires |open| > 0 && |s| > 0 && !(open <= s && FindLast(s[|open|..], close).Some?)
    ensures DeleteGreedy(s, open, close) == [s[0]] + DeleteGreedy(s[1..], open, close)
  {
  }

  lemma {:induction false} NoBlockCons(s: string, open: string, close: string)
    requires |open| > 0 && |s| > 0 && !(open <= s && FindLast(s[|open|..], close).Some?)
    requires NoBlock(s[1..], open, close)
    ensures NoBlock(s, open, close)
  {
    OccursAtZero(s, open);
    var t := s[1..];
    forall i | 0 <= i <= |s| - |open| && OccursAt(s, open, i)
      ensures !Contains(s[i + |open|..], close)
    {
      if i > 0 {
        OccursShift(s, open, i - 1);
        assert t[i - 1 + |open|..] == s[i + |open|..];
      } else {
        FindLastNone(s[|open|..], close);
      }
    }
  }

  lemma {:induction false} GreedyCopyNoBlock(s: string, open: string, close: string)
    requires |open| > 0 && |s| > 0 && !(open <= s && FindLast(s[|open|..], close).Some?)
    requires NoBlock(s[1..], open, close) && DeleteGreedy(s[1..], open, close) == s[1..]
    ensures NoBlock(s, open, close) && DeleteGreedy(s, open, close) == s
  {
    NoBlockCons(s, open, close);
    DeleteGreedyCopy(s, open, close);
    assert [s[0]] + s[1..] == s;
  }

  /** A block found in `s[1..]` lies at least one `open` past the front of `s`,
      so no `open` at 0 can be the start of a block. */
  lemma {:induction false} BlockNotAtFront(s: string, open: string, close: string, k: int, l: int)
    requires |open| > 0 && |s| > 0 && !(open <= s && FindLast(s[|open|..], close).Some?)
    requires 0 <= k && k + |open| + |close| <= l <= |s| - 1 && OccursAt(s[1..], close, l - |close|)
    ensures !(open <= s)
  {
    OccursShift(s, close, l - |close|);
    var w := l + 1 - |close| - |open|;
    assert s[|open|..][w..w + |close|] == close;
    assert OccursAt(s[|open|..], close, w);
    FindLastFound(s[|open|..], close, w);
  }

  lemma {:induction false} NoOpenCons(s: string, open: string, k: nat)
    requires |open| > 0 && k < |s| && !(open <= s) && !Contains(s[1..][..k], open)
    ensures !Contains(s[..k + 1], open)
  {
    var a := s[..k + 1];
    assert a[1..] == s[1..][..k];
    OccursAtZero(a, open);
    NotContainsStep(a, open);
  }

  lemma {:induction false} CopyBlockEquation(s: string, open: string, close: string, k: nat, l: nat)
    requires |open| > 0 && |s| > 0 && !(open <= s && FindLast(s[|open|..], close).Some?)
    requires k <= l <= |s| - 1 && DeleteGreedy(s[1..], open, close) == s[1..][..k] + s[1..][l..]
    ensures DeleteGreedy(s, open, close) == s[..k + 1] + s[l + 1..]
  {
    var t := s[1..];
    DeleteGreedyCopy(s, open, close);
    assert [s[0]] + (t[..k] + t[l..]) == s[..k + 1] + s[l + 1..];
  }

  lemma {:induction false} GreedyCopyBlock(s: string, open: string, close: string, k: int, l: int)
    requires |open| > 0 && |s| > 0 && !(open <= s && FindLast(s[|open|..], close).Some?)
    requires GreedyBlock(s[1..], open, close, k, l)
    ensures GreedyBlock(s, open, close, k + 1, l + 1)
  {
    var t := s[1..];
    BlockNotAtFront(s, open, close, k, l);
    OccursShift(s, open, k);
    OccursShift(s, close, l - |close|);
    NoOpenCons(s, open, k);
    assert s[l + 1..] == t[l..];
    CopyBlockEquation(s, open, close, k, l);
  }

  lemma {:induction false} DeleteGreedyShape(s: string, open: string, close: string)
      returns (k: nat, l: nat)
    requires |open| > 0 && |close| > 0
    ensures GreedyShape(s, open, close, k, l)
    decreases |s|
  {
    k, l := 0, 0;
    if |s| == 0 {
      return;
    }
    if open <= s && FindLast(s[|open|..], close).Some? {
      l := GreedyMatchCase(s, open, close);
    } else {
      var k', l' := DeleteGreedyShape(s[1..], open, close);
      if NoBlock(s[1..], open, close) && DeleteGreedy(s[1..], open, close) == s[1..] {
        GreedyCopyNoBlock(s, open, close);
      } else {
        GreedyCopyBlock(s, open, close, k', l');
        k, l := k' + 1, l' + 1;
      }
    }
  }

  /** The greedy deletion leaves no block behind. */
  lemma {:induction false} DeleteGreedyClean(s: string, open: string, close: string)
    requires |open| > 0 && |close| > 0
    ensures NoBlock(DeleteGreedy(s, open, close), open, close)
  {
    var k, l := DeleteGreedyShape(s, open, close);
    if !(NoBlock(s, open, close) && DeleteGreedy(s, open, close) == s) {
      JoinNoBlock(s[..k], s[l..], open, close);
    }
  }

  /** Deleting greedily twice is deleting once. */
  lemma {:induction false} DeleteGreedyIdempotent(s: string, open: string, close: string)
    requires |open| > 0 && |close| > 0
    ensures DeleteGreedy(DeleteGreedy(s, open, close), open, close) == DeleteGreedy(s, open, close)
  {
    DeleteGreedyClean(s, open, close);
    DeleteGreedyNoBlock(DeleteGreedy(s, open, close), open, close);
  }

  /** ECMAScript WhiteSpace and LineTerminator code points: the set matched by
      `\s` and removed by String.prototype.trim. */
  predicate IsJsWhitespace(c: char)
  {
    c == '\t' || c == '\n' || c == '\U{000B}' || c == '\U{000C}' || c == '\r' || c == ' '
    || c == '\U{00A0}' || c == '\U{1680}' || ('\U{2000}' <= c <= '\U{200A}')
    || c == '\U{2028}' || c == '\U{2029}' || c == '\U{202F}' || c == '\U{205F}'
    || c == '\U{3000}' || c == '\U{FEFF}'
  }

  /** The characters a regex `.` does not match without the `s` flag. */
  predicate IsLineTerminator(c: char)
  {
    c == '\n' || c == '\r' || c == '\U{2028}' || c == '\U{2029}'
  }

  function TrimStart(s: string): (t: string)
    ensures |t| <= |s| && t == s[|s| - |t|..]
    ensures |t| > 0 ==> !IsJsWhitespace(t[0])
  {
    if |s| > 0 && IsJsWhitespace(s[0]) then TrimStart(s[1..]) else s
  }

  function TrimEnd(s: string): (t: string)
    ensures |t| <= |s| && t == s[..|t|]
    ensures |t| > 0 ==> !IsJsWhitespace(t[|t| - 1])
  {
    if |s| > 0 && IsJsWhitespace(s[|s| - 1]) then TrimEnd(s[..|s| - 1]) else s
  }

  /** String.prototype.trim. */
  function Trim(s: string): string
  {
    TrimEnd(TrimStart(s))
  }

  lemma {:induction false} TrimStartEmpty(s: string)
    ensures TrimStart(s) == [] <==> forall i :: 0 <= i < |s| ==> IsJsWhitespace(s[i])
    decreases |s|
  {
    if |s| > 0 && IsJsWhitespace(s[0]) {
      TrimStartEmpty(s[1..]);
      assert forall i :: 1 <= i < |s| ==> s[i] == s[1..][i - 1];
    }
  }

  /** Trimming the end keeps every position up to a non-whitespace character. */
  lemma {:induction false} TrimEndKeepsNonBlank(s: string, k: nat)
    requires k < |s| && !IsJsWhitespace(s[k])
    ensures |TrimEnd(s)| > k
    decreases |s|
  {
    if IsJsWhitespace(s[|s| - 1]) {
      TrimEndKeepsNonBlank(s[..|s| - 1], k);
    }
  }

  /** `s.trim() === ""` exactly when every character of `s` is whitespace. */
  lemma {:induction false} TrimEmptyIffBlank(s: string)
    ensures Trim(s) == [] <==> forall i :: 0 <= i < |s| ==> IsJsWhitespace(s[i])
  {
    TrimStartEmpty(s);
    var t := TrimStart(s);
    if t != [] {
      TrimEndKeepsNonBlank(t, 0);
    }
  }
}
