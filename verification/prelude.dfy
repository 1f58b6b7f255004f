/** Shared value types and the string operations the plugin uses from Rust's
    standard library: `find`, `replace`, `to_lowercase`, `to_string`, `join`.
    Strings are sequences of characters, cut at character offsets where
    Rust cuts at byte offsets; every marker the plugin searches for is
    ASCII, so the substrings cut at either kind of offset are the same. */
module Prelude {

  datatype Option<+T> = None | Some(value: T) {
    function GetOr(default: T): T {
      match this
      case Some(v) => v
      case None => default
    }
  }

  /* ---------------- substring search ---------------- */

  /** True iff `pat` occurs in `s` starting at offset `i`. */
  predicate OccursAt(s: string, pat: string, i: nat) {
    i + |pat| <= |s| && s[i..i + |pat|] == pat
  }

  predicate Contains(s: string, pat: string) {
    exists i: nat | i <= |s| :: OccursAt(s, pat, i)
  }

  /** One step of a left-to-right scan: an occurrence is either at the
      front or in the tail. */
  lemma ContainsStep(s: string, pat: string)
    requires |pat| > 0 && |s| >= |pat|
    ensures forall j: nat :: 0 < j ==> (OccursAt(s, pat, j) <==> OccursAt(s[1..], pat, j - 1))
    ensures Contains(s, pat) <==> (s[..|pat|] == pat || Contains(s[1..], pat))
  {
    forall j: nat | 0 < j
      ensures OccursAt(s, pat, j) <==> OccursAt(s[1..], pat, j - 1)
    {
      if j + |pat| <= |s| {
        assert s[1..][j - 1..j - 1 + |pat|] == s[j..j + |pat|];
      }
    }
    if Contains(s, pat) {
      var i: nat :| i <= |s| && OccursAt(s, pat, i);
      if i > 0 {
        assert OccursAt(s[1..], pat, i - 1);
      }
    }
    if Contains(s[1..], pat) {
      var i: nat :| i <= |s[1..]| && OccursAt(s[1..], pat, i);
      assert OccursAt(s, pat, i + 1);
    }
    if s[..|pat|] == pat {
      assert OccursAt(s, pat, 0);
    }
  }

  /** Rust's `str::find`: the offset of the first occurrence of `pat`. */
  function Find(s: string, pat: string): (r: Option<nat>)
    requires |pat| > 0
    ensures r.Some? ==> OccursAt(s, pat, r.value)
    ensures r.Some? ==> forall j: nat :: j < r.value ==> !OccursAt(s, pat, j)
    ensures r.None? <==> !Contains(s, pat)
    decreases |s|
  {
    if |s| < |pat| then None
    else if s[..|pat|] == pat then Some(0)
    else
      ContainsStep(s, pat);
      match Find(s[1..], pat)
      case None => None
      case Some(k) => Some(k + 1)
  }

  /** `pat` has no proper border: no proper suffix of it is also a prefix.
      A pattern without a border cannot straddle the end of a text that
      precedes a copy of itself. */
  predicate NoBorder(pat: string) {
    forall k :: 0 < k < |pat| ==> pat[k..] != pat[..|pat| - k]
  }

  /** The first occurrence of a border-free `pat` in `x + pat + y` is the one
      right after `x`, whenever `x` does not contain `pat` itself. */
  lemma {:induction false} FindAfterPrefix(x: string, pat: string, y: string)
    requires |pat| > 0 && NoBorder(pat) && !Contains(x, pat)
    ensures Find(x + pat + y, pat) == Some(|x|)
  {
    var s := x + pat + y;
    assert OccursAt(s, pat, |x|) by { assert s[|x|..|x| + |pat|] == pat; }
    forall j: nat | j < |x|
      ensures !OccursAt(s, pat, j)
    {
      if j + |pat| <= |x| {
        assert s[j..j + |pat|] == x[j..j + |pat|];
        assert !OccursAt(x, pat, j);
      } else {
        var k := |x| - j;
        var w := s[j..j + |pat|];
        assert w[k..] == pat[..|pat| - k];
        assert pat[k..] != pat[..|pat| - k];
      }
    }
  }

  /** A text without the pattern's first character has no occurrence of it. */
  lemma NotContainsWithoutHead(s: string, pat: string)
    requires |pat| > 0 && forall i :: 0 <= i < |s| ==> s[i] != pat[0]
    ensures !Contains(s, pat)
  {
    forall i: nat | i + |pat| <= |s|
      ensures !OccursAt(s, pat, i)
    {
      assert s[i..i + |pat|][0] == s[i];
    }
  }

  /* ---------------- replacement ---------------- */

  /** Rust's `str::replace`: every non-overlapping occurrence of `pat`,
      scanning left to right, is replaced by `rep`; the replacement text is
      not scanned again. */
  function ReplaceAll(s: string, pat: string, rep: string): (r: string)
    requires |pat| > 0
    decreases |s|
  {
    if |s| < |pat| then s
    else if s[..|pat|] == pat then rep + ReplaceAll(s[|pat|..], pat, rep)
    else [s[0]] + ReplaceAll(s[1..], pat, rep)
  }

  /** A text without the pattern is left as it is. */
  lemma {:induction false} ReplaceAllAbsent(s: string, pat: string, rep: string)
    requires |pat| > 0 && !Contains(s, pat)
    ensures ReplaceAll(s, pat, rep) == s
    decreases |s|
  {
    if |s| >= |pat| {
      ContainsStep(s, pat);
      ReplaceAllAbsent(s[1..], pat, rep);
      assert [s[0]] + s[1..] == s;
    }
  }

  lemma ReplaceAllShort(s: string, pat: string, rep: string)
    requires |s| < |pat|
    ensures ReplaceAll(s, pat, rep) == s
  {
  }

  lemma ReplaceAllMatch(s: string, pat: string, rep: string)
    requires 0 < |pat| <= |s| && s[..|pat|] == pat
    ensures ReplaceAll(s, pat, rep) == rep + ReplaceAll(s[|pat|..], pat, rep)
  {
  }

  lemma ReplaceAllSkip(s: string, pat: string, rep: string)
    requires 0 < |pat| <= |s| && s[..|pat|] != pat
    ensures ReplaceAll(s, pat, rep) == [s[0]] + ReplaceAll(s[1..], pat, rep)
  {
  }

  /** A leading character that cannot start the pattern is copied unchanged. */
  lemma {:induction false} ReplaceKeepsPrefix(p: string, t: string, pat: string, rep: string)
    requires |pat| > 0 && forall i :: 0 <= i < |p| ==> p[i] != pat[0]
    ensures ReplaceAll(p + t, pat, rep) == p + ReplaceAll(t, pat, rep)
    decreases |p|
  {
    var s := p + t;
    var r := ReplaceAll(t, pat, rep);
    if |p| == 0 {
      assert s == t;
    } else if |s| < |pat| {
      ReplaceAllShort(s, pat, rep);
      ReplaceAllShort(t, pat, rep);
    } else {
      ReplaceKeepsPrefix(p[1..], t, pat, rep);
      PrefixSkipStep(p, t, pat, rep);
    }
  }

  /** `ReplaceKeepsPrefix` one character at a time. */
  lemma PrefixSkipStep(p: string, t: string, pat: string, rep: string)
    requires 0 < |pat| <= |p + t| && 0 < |p| && p[0] != pat[0]
    requires ReplaceAll(p[1..] + t, pat, rep) == p[1..] + ReplaceAll(t, pat, rep)
    ensures ReplaceAll(p + t, pat, rep) == p + ReplaceAll(t, pat, rep)
  {
    var s := p + t;
    var c := p[0];
    assert s[..|pat|] != pat by { assert s[..|pat|][0] == c; }
    assert s[1..] == p[1..] + t;
    ReplaceAllSkip(s, pat, rep);
    assert [c] + p[1..] == p;
  }

  /** A trailing text made only of characters absent from the pattern is
      copied unchanged: no occurrence can reach into it. */
  lemma {:induction false} ReplaceKeepsSuffix(t: string, q: string, pat: string, rep: string)
    requires |pat| > 0
    requires forall i, j :: 0 <= i < |q| && 0 <= j < |pat| ==> q[i] != pat[j]
    ensures ReplaceAll(t + q, pat, rep) == ReplaceAll(t, pat, rep) + q
    decreases |t| + |q|
  {
    var s := t + q;
    if |s| < |pat| {
      ReplaceAllShort(s, pat, rep);
      ReplaceAllShort(t, pat, rep);
    } else if |t| < |pat| {
      // the first window reaches into q, so it cannot match
      assert s[..|pat|] != pat by {
        assert s[..|pat|][|t|] == q[0];
        assert q[0] != pat[|t|];
      }
      ReplaceAllShort(t, pat, rep);
      if |t| == 0 {
        assert s[1..] == t + q[1..];
        ReplaceKeepsSuffix(t, q[1..], pat, rep);
        SuffixSkipStep(s, t, q[1..], pat, rep);
        assert [q[0]] + q[1..] == q;
      } else {
        assert s[1..] == t[1..] + q;
        ReplaceKeepsSuffix(t[1..], q, pat, rep);
        ReplaceAllShort(t[1..], pat, rep);
        SuffixSkipStep(s, t[1..], q, pat, rep);
        assert [t[0]] + t[1..] == t;
      }
    } else if t[..|pat|] == pat {
      ReplaceKeepsSuffix(t[|pat|..], q, pat, rep);
      SuffixMatchStep(t, q, pat, rep);
    } else {
      ReplaceKeepsSuffix(t[1..], q, pat, rep);
      SuffixSkipBoth(t, q, pat, rep);
    }
  }

  /** `ReplaceKeepsSuffix` when the text starts with no match: the first
      character is copied before the rest. */
  lemma SuffixSkipStep(s: string, u: string, v: string, pat: string, rep: string)
    requires 0 < |pat| <= |s| && s[..|pat|] != pat && s[1..] == u + v
    requires ReplaceAll(u + v, pat, rep) == ReplaceAll(u, pat, rep) + v
    ensures ReplaceAll(s, pat, rep) == [s[0]] + ReplaceAll(u, pat, rep) + v
  {
    ReplaceAllSkip(s, pat, rep);
  }

  lemma SuffixMatchStep(t: string, q: string, pat: string, rep: string)
    requires 0 < |pat| <= |t| && t[..|pat|] == pat
    requires ReplaceAll(t[|pat|..] + q, pat, rep) == ReplaceAll(t[|pat|..], pat, rep) + q
    ensures ReplaceAll(t + q, pat, rep) == ReplaceAll(t, pat, rep) + q
  {
    var r := ReplaceAll(t[|pat|..], pat, rep);
    MatchConcat(t, q, pat, rep);
    ReplaceAllMatch(t, pat, rep);
    assert rep + (r + q) == (rep + r) + q;
  }

  lemma MatchConcat(t: string, q: string, pat: string, rep: string)
    requires 0 < |pat| <= |t| && t[..|pat|] == pat
    ensures ReplaceAll(t + q, pat, rep) == rep + ReplaceAll(t[|pat|..] + q, pat, rep)
  {
    var s := t + q;
    assert s[..|pat|] == t[..|pat|];
    assert s[|pat|..] == t[|pat|..] + q;
    ReplaceAllMatch(s, pat, rep);
  }

  lemma SuffixSkipBoth(t: string, q: string, pat: string, rep: string)
    requires 0 < |pat| <= |t| && t[..|pat|] != pat
    requires ReplaceAll(t[1..] + q, pat, rep) == ReplaceAll(t[1..], pat, rep) + q
    ensures ReplaceAll(t + q, pat, rep) == ReplaceAll(t, pat, rep) + q
  {
    var r := ReplaceAll(t[1..], pat, rep);
    var c := t[0];
    assert ReplaceAll(t + q, pat, rep) == [c] + (r + q) by { SkipConcat(t, q, pat, rep); }
    assert ReplaceAll(t, pat, rep) == [c] + r by { ReplaceAllSkip(t, pat, rep); }
    assert [c] + (r + q) == ([c] + r) + q;
  }

  lemma SkipConcat(t: string, q: string, pat: string, rep: string)
    requires 0 < |pat| <= |t| && t[..|pat|] != pat
    ensures ReplaceAll(t + q, pat, rep) == [t[0]] + ReplaceAll(t[1..] + q, pat, rep)
  {
    var s := t + q;
    assert s[..|pat|] == t[..|pat|];
    assert s[1..] == t[1..] + q;
    ReplaceAllSkip(s, pat, rep);
  }

  /* ---------------- case mapping ---------------- */

  function LowerChar(c: char): char {
    if 'A' <= c <= 'Z' then (c as int - 'A' as int + 'a' as int) as char else c
  }

  /** `to_lowercase`, restricted to the ASCII letters. */
  function Lower(s: string): (r: string)
    ensures |r| == |s|
    ensures forall i :: 0 <= i < |s| ==> r[i] == LowerChar(s[i])
  {
    seq(|s|, i requires 0 <= i < |s| => LowerChar(s[i]))
  }

  /** Lower-casing leaves no upper-case letter and is idempotent. */
  lemma LowerIsLower(s: string)
    ensures forall i :: 0 <= i < |s| ==> !('A' <= Lower(s)[i] <= 'Z')
    ensures Lower(Lower(s)) == Lower(s)
  {
  }

  /* ---------------- numbers and lists as text ---------------- */

  function DigitChar(d: nat): char
    requires d < 10
  {
    "0123456789"[d]
  }

  predicate IsDigit(c: char) { '0' <= c <= '9' }

  /** `usize::to_string`: decimal, no leading zeros. */
  function NatToString(n: nat): (r: string)
    ensures |r| > 0
    ensures forall i :: 0 <= i < |r| ==> IsDigit(r[i])
    decreases n
  {
    if n < 10 then [DigitChar(n)] else NatToString(n / 10) + [DigitChar(n % 10)]
  }

  function DigitValue(c: char): nat
    requires IsDigit(c)
  {
    c as int - '0' as int
  }

  /** Reads a decimal number back. */
  function ParseNat(s: string): nat
    requires forall i :: 0 <= i < |s| ==> IsDigit(s[i])
  {
    if |s| == 0 then 0 else ParseNat(s[..|s| - 1]) * 10 + DigitValue(s[|s| - 1])
  }

  lemma {:induction false} ParseNatToString(n: nat)
    ensures ParseNat(NatToString(n)) == n
    decreases n
  {
    var s := NatToString(n);
    if n >= 10 {
      ParseNatToString(n / 10);
      assert s[..|s| - 1] == NatToString(n / 10);
    }
  }

  /** `iter().map(f).collect()`: one element per input, each `f` of the
      input at the same position. */
  function MapSeq<T, U>(xs: seq<T>, f: T -> U): (ys: seq<U>)
    ensures |ys| == |xs| && forall k :: 0 <= k < |xs| ==> ys[k] == f(xs[k])
  {
    seq(|xs|, k requires 0 <= k < |xs| => f(xs[k]))
  }

  /** `Vec::join`: the parts separated by `sep`. */
  function Join(parts: seq<string>, sep: char): string {
    if |parts| == 0 then ""
    else if |parts| == 1 then parts[0]
    else parts[0] + [sep] + Join(parts[1..], sep)
  }

  function CharIndex(s: string, c: char): (r: Option<nat>)
    ensures r.Some? ==> r.value < |s| && s[r.value] == c && forall j :: 0 <= j < r.value ==> s[j] != c
    ensures r.None? ==> forall j :: 0 <= j < |s| ==> s[j] != c
  {
    if |s| == 0 then None
    else if s[0] == c then Some(0)
    else match CharIndex(s[1..], c)
      case None => None
      case Some(k) => Some(k + 1)
  }

  /** Splits `s` at every `sep`; the inverse of `Join` on separator-free parts. */
  function Split(s: string, sep: char): (r: seq<string>)
    ensures |r| > 0
    decreases |s|
  {
    match CharIndex(s, sep)
    case None => [s]
    case Some(i) => [s[..i]] + Split(s[i + 1..], sep)
  }

  lemma {:induction false} SplitJoin(parts: seq<string>, sep: char)
    requires |parts| > 0
    requires forall k, i :: 0 <= k < |parts| && 0 <= i < |parts[k]| ==> parts[k][i] != sep
    ensures Split(Join(parts, sep), sep) == parts
    decreases |parts|
  {
    if |parts| == 1 {
      assert CharIndex(parts[0], sep).None?;
    } else {
      var rest := Join(parts[1..], sep);
      assert Join(parts, sep) == parts[0] + [sep] + rest;
      SplitStep(parts[0], rest, sep);
      assert forall k :: 0 <= k < |parts| - 1 ==> parts[1..][k] == parts[k + 1];
      SplitJoin(parts[1..], sep);
    }
  }

  /** Splitting at the first separator, when the first part holds none. */
  lemma SplitStep(a: string, rest: string, sep: char)
    requires forall i :: 0 <= i < |a| ==> a[i] != sep
    ensures Split(a + [sep] + rest, sep) == [a] + Split(rest, sep)
  {
    var s := a + [sep] + rest;
    assert CharIndex(s, sep) == Some(|a|) by {
      assert s[|a|] == sep;
      forall j | 0 <= j < |a| ensures s[j] != sep { assert s[j] == a[j]; }
    }
    assert s[..|a|] == a;
    assert s[|a| + 1..] == rest;
  }

  /* ---------------- sums over sequences ---------------- */

  function SumOf<T>(xs: seq<T>, f: T -> nat): nat
    decreases |xs|
  {
    if |xs| == 0 then 0 else f(xs[0]) + SumOf(xs[1..], f)
  }

  lemma {:induction false} SumOfAppend<T>(xs: seq<T>, ys: seq<T>, f: T -> nat)
    ensures SumOf(xs + ys, f) == SumOf(xs, f) + SumOf(ys, f)
    decreases |xs|
  {
    if |xs| > 0 {
      assert (xs + ys)[1..] == xs[1..] + ys;
      SumOfAppend(xs[1..], ys, f);
    } else {
      assert xs + ys == ys;
    }
  }

  /** A sum does not depend on the order of its terms. */
  lemma {:induction false} SumOfPermutation<T>(xs: seq<T>, ys: seq<T>, f: T -> nat)
    requires multiset(xs) == multiset(ys)
    ensures SumOf(xs, f) == SumOf(ys, f)
    decreases |xs|
  {
    if |xs| == 0 {
      assert |ys| == |multiset(ys)| == 0;
    } else {
      var x := xs[0];
      assert x in multiset(ys);
      var i :| 0 <= i < |ys| && ys[i] == x;
      var rest := ys[..i] + ys[i + 1..];
      assert multiset(rest) == multiset(ys) - multiset{x} by {
        RemoveAtMultiset(ys, i);
      }
      assert multiset(xs[1..]) == multiset(xs) - multiset{x} by {
        assert xs == [x] + xs[1..];
        assert multiset(xs) == multiset{x} + multiset(xs[1..]);
      }
      SumOfPermutation(xs[1..], rest, f);
      SumOfRemoveAt(ys, i, f);
    }
  }

  lemma RemoveAtMultiset<T>(ys: seq<T>, i: nat)
    requires i < |ys|
    ensures multiset(ys[..i] + ys[i + 1..]) == multiset(ys) - multiset{ys[i]}
  {
    assert ys == ys[..i] + [ys[i]] + ys[i + 1..];
    assert multiset(ys) == multiset(ys[..i]) + multiset{ys[i]} + multiset(ys[i + 1..]);
  }

  /** Taking one term out of a sum. */
  lemma SumOfRemoveAt<T>(ys: seq<T>, i: nat, f: T -> nat)
    requires i < |ys|
    ensures SumOf(ys, f) == f(ys[i]) + SumOf(ys[..i] + ys[i + 1..], f)
  {
    var pre, x, post := ys[..i], ys[i], ys[i + 1..];
    var tail := ys[i..];
    assert tail[1..] == post;
    assert SumOf(tail, f) == f(x) + SumOf(post, f);
    assert ys == pre + tail;
    SumOfAppend(pre, tail, f);
    SumOfAppend(pre, post, f);
  }

  /* ---------------- keyed collections ---------------- */

  /** Collecting `(key(x), x)` pairs into a hash map: every key occurs, and
      of several elements with one key the later insertion stays. */
  function KeyBy<T>(xs: seq<T>, key: T -> nat): (m: map<nat, T>)
    ensures forall k :: 0 <= k < |xs| ==> key(xs[k]) in m
    ensures forall id :: id in m ==> key(m[id]) == id && m[id] in xs
    ensures |xs| == 0 <==> |m| == 0
    decreases |xs|
  {
    if |xs| == 0 then map[]
    else
      var last := xs[|xs| - 1];
      var init := KeyBy(xs[..|xs| - 1], key);
      assert forall k :: 0 <= k < |xs| - 1 ==> xs[..|xs| - 1][k] == xs[k];
      assert forall x :: x in xs[..|xs| - 1] ==> x in xs;
      assert key(last) in init[key(last) := last];
      init[key(last) := last]
  }

  /** The element stored under a key is its last occurrence. */
  lemma {:induction false} KeyByLastWins<T>(xs: seq<T>, key: T -> nat, k: nat)
    requires k < |xs|
    requires forall j :: k < j < |xs| ==> key(xs[j]) != key(xs[k])
    ensures KeyBy(xs, key)[key(xs[k])] == xs[k]
    decreases |xs|
  {
    if k < |xs| - 1 {
      var init := xs[..|xs| - 1];
      assert init[k] == xs[k];
      assert forall j :: k < j < |init| ==> init[j] == xs[j];
      KeyByLastWins(init, key, k);
    }
  }
}
