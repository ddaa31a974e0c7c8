/** Python-level text helpers shared by the three scripts: `None`-or-value and
    exception-or-value results, `str()` of an integer, `str.strip()`, the ordering
    `sorted()` uses on strings, and a text file opened for writing. */
module PyText {

  datatype Option<+T> = None | Some(value: T)

  /** A Python call that either returns a value or raises. */
  datatype Result<+T, +E> = Ok(value: T) | Err(error: E)

  // ----- str(n) for integers -----

  function Digit(d: nat): (c: char)
    requires d < 10
    ensures '0' <= c <= '9' && c as int - '0' as int == d
  {
    "0123456789"[d]
  }

  predicate AllDigits(s: string) {
    forall i :: 0 <= i < |s| ==> '0' <= s[i] <= '9'
  }

  /** The value of a string of decimal digits, read most significant digit first. */
  function DigitsValue(s: string): nat
    requires AllDigits(s)
  {
    if s == [] then 0 else DigitsValue(s[..|s| - 1]) * 10 + (s[|s| - 1] as int - '0' as int)
  }

  /** `str(n)` for a non-negative integer: decimal digits with no leading zero. */
  function NatToString(n: nat): (s: string)
    ensures |s| >= 1 && AllDigits(s)
    ensures |s| > 1 ==> s[0] != '0'
  {
    if n < 10 then [Digit(n)] else NatToString(n / 10) + [Digit(n % 10)]
  }

  /** Reading back what `str(n)` printed gives `n`. */
  lemma {:induction false} NatToStringRoundTrip(n: nat)
    ensures DigitsValue(NatToString(n)) == n
  {
    if n >= 10 {
      var s := NatToString(n);
      assert s[..|s| - 1] == NatToString(n / 10);
      NatToStringRoundTrip(n / 10);
    }
  }

  /** `str(i)` for any integer: a minus sign before the digits of `-i` when `i < 0`. */
  function IntToString(i: int): (s: string)
    ensures i < 0 ==> (|s| >= 2 && s[0] == '-' && AllDigits(s[1..]) && DigitsValue(s[1..]) == -i &&
      (|s| > 2 ==> s[1] != '0'))
    ensures i >= 0 ==> |s| >= 1 && AllDigits(s) && DigitsValue(s) == i && (|s| > 1 ==> s[0] != '0')
  {
    NatToStringRoundTrip(if i < 0 then -i else i);
    if i < 0 then "-" + NatToString(-i) else NatToString(i)
  }

  /** `c * n` for a one-character string `c`. */
  function Repeat(c: char, n: nat): (s: string)
    ensures |s| == n && forall i :: 0 <= i < n ==> s[i] == c
  {
    if n == 0 then [] else Repeat(c, n - 1) + [c]
  }

  /** What `f.write(a); f.write(b); ...` leaves in the file: the chunks one after another. */
  function Concat(chunks: seq<string>): string {
    if chunks == [] then [] else Concat(chunks[..|chunks| - 1]) + chunks[|chunks| - 1]
  }

  lemma {:induction false} ConcatAppend(a: seq<string>, b: seq<string>)
    ensures Concat(a + b) == Concat(a) + Concat(b)
    decreases |b|
  {
    if b == [] {
      assert a + b == a;
    } else {
      var front, last := b[..|b| - 1], b[|b| - 1];
      assert (a + b)[..|a + b| - 1] == a + front && (a + b)[|a + b| - 1] == last;
      ConcatAppend(a, front);
      assert Concat(a + b) == (Concat(a) + Concat(front)) + last;
      AppendAssociative(Concat(a), Concat(front), last);
    }
  }

  /** One more write after the chunks `done` leaves `done + [s]`. */
  lemma WriteChunk(before: string, done: seq<string>, s: string)
    ensures before + Concat(done) + s == before + Concat(done + [s])
  {
    assert (done + [s])[..|done|] == done;
  }

  /** A group of writes after the chunks `done` leaves `done + group`. */
  lemma WriteGroup(before: string, done: seq<string>, group: seq<string>)
    ensures before + Concat(done) + Concat(group) == before + Concat(done + group)
  {
    ConcatAppend(done, group);
  }

  // ----- str.strip() -----

  /** `str.isspace()` for one character: the code points Python treats as whitespace. */
  predicate IsSpace(c: char)
    ensures c == ' ' || c == '\t' || c == '\n' || c == '\r' || c == '\U{3000}' ==> IsSpace(c)
    ensures IsSpace(c) ==> !('0' <= c <= '9' || 'A' <= c <= 'Z' || 'a' <= c <= 'z' || c == '_')
  {
    var k := c as int;
    (9 <= k <= 13) || (28 <= k <= 32) || k == 0x85 || k == 0xA0 || k == 0x1680 ||
    (0x2000 <= k <= 0x200A) || k == 0x2028 || k == 0x2029 || k == 0x202F ||
    k == 0x205F || k == 0x3000
  }

  predicate AllSpace(s: string) {
    forall i :: 0 <= i < |s| ==> IsSpace(s[i])
  }

  /** The scan from the left in `strip()`: the first index at or after `i` that
      is not whitespace, or `|s|`. */
  function LeadEnd(s: string, i: nat): (k: nat)
    requires i <= |s|
    ensures i <= k <= |s|
    ensures forall j :: i <= j < k ==> IsSpace(s[j])
    ensures k < |s| ==> !IsSpace(s[k])
    decreases |s| - i
  {
    if i < |s| && IsSpace(s[i]) then LeadEnd(s, i + 1) else i
  }

  /** The scan from the right in `strip()`, from `j` down but never below `lo`:
      the end of the text once the trailing whitespace is dropped. */
  function TrailStart(s: string, lo: nat, j: nat): (k: nat)
    requires lo <= j <= |s|
    ensures lo <= k <= j
    ensures forall m :: k <= m < j ==> IsSpace(s[m])
    ensures k > lo ==> !IsSpace(s[k - 1])
    decreases j
  {
    if j > lo && IsSpace(s[j - 1]) then TrailStart(s, lo, j - 1) else j
  }

  /** `s.strip()`: no whitespace left at either end, all of it was whitespace
      exactly when nothing is left, and what is left is a slice of `s`. */
  function Strip(s: string): (r: string)
    ensures |r| <= |s|
    ensures r == [] || (!IsSpace(r[0]) && !IsSpace(r[|r| - 1]))
    ensures r == [] <==> AllSpace(s)
  {
    var lo := LeadEnd(s, 0);
    s[lo..TrailStart(s, lo, |s|)]
  }

  /** What `strip()` keeps is one slice of `s`, and what it drops on either side is
      whitespace only: together with the contract of `Strip` this pins the result. */
  lemma StripIsSlice(s: string) returns (lo: nat, hi: nat)
    ensures lo <= hi <= |s| && Strip(s) == s[lo..hi]
    ensures AllSpace(s[..lo]) && AllSpace(s[hi..])
  {
    lo := LeadEnd(s, 0);
    hi := TrailStart(s, lo, |s|);
    assert AllSpace(s[..lo]) && AllSpace(s[hi..]);
  }

  /** Whitespace added around a text never changes what `strip()` gives. */
  lemma StripPadded(p: string, c: string, q: string)
    requires AllSpace(p) && AllSpace(q)
    ensures Strip(p + c + q) == Strip(c)
  {
    if AllSpace(c) {
      PaddedSpace(p, c, q);
    } else {
      StripPaddedText(p, c, q);
    }
  }

  lemma StripPaddedText(p: string, c: string, q: string)
    requires AllSpace(p) && AllSpace(q) && !AllSpace(c)
    ensures Strip(p + c + q) == Strip(c)
  {
    var clo := LeadEnd(c, 0);
    var chi := TrailStart(c, clo, |c|);
    PaddedLead(p, c, q);
    PaddedTrail(p, c, q);
    StripOf(p + c + q, |p| + clo, |p| + chi);
    StripOf(c, clo, chi);
    SliceOfMiddle(p, c, q, clo, chi);
  }

  lemma StripOf(s: string, lo: nat, hi: nat)
    requires lo == LeadEnd(s, 0) && hi == TrailStart(s, lo, |s|)
    ensures Strip(s) == s[lo..hi]
  {
  }

  lemma SliceOfMiddle<T>(a: seq<T>, b: seq<T>, c: seq<T>, i: nat, j: nat)
    requires i <= j <= |b|
    ensures (a + b + c)[|a| + i..|a| + j] == b[i..j]
  {
  }

  lemma PaddedSpace(p: string, c: string, q: string)
    requires AllSpace(p) && AllSpace(c) && AllSpace(q)
    ensures AllSpace(p + c + q)
  {
    var s := p + c + q;
    forall i | 0 <= i < |s| ensures IsSpace(s[i]) {
      if i >= |p| + |c| { assert s[i] == q[i - |p| - |c|]; }
      else if i >= |p| { assert s[i] == c[i - |p|]; }
    }
  }

  /** Leading whitespace before a text that is not all whitespace ends where the text's
      own leading whitespace ends. */
  lemma PaddedLead(p: string, c: string, q: string)
    requires AllSpace(p) && !AllSpace(c)
    ensures LeadEnd(p + c + q, 0) == |p| + LeadEnd(c, 0)
  {
    var s, clo := p + c + q, LeadEnd(c, 0);
    assert clo < |c|;
    assert s[|p| + clo] == c[clo];
    forall j | 0 <= j < |p| + clo ensures IsSpace(s[j]) {
      if j < |p| { assert s[j] == p[j]; } else { assert s[j] == c[j - |p|]; }
    }
    LeadEndUnique(s, 0, |p| + clo);
  }

  /** Trailing whitespace after a text that is not all whitespace starts where the
      text's own trailing whitespace starts. */
  lemma PaddedTrail(p: string, c: string, q: string)
    requires AllSpace(p) && AllSpace(q) && !AllSpace(c)
    ensures TrailStart(p + c + q, LeadEnd(p + c + q, 0), |p + c + q|) ==
      |p| + TrailStart(c, LeadEnd(c, 0), |c|)
  {
    var s, clo := p + c + q, LeadEnd(c, 0);
    var chi := TrailStart(c, clo, |c|);
    PaddedLead(p, c, q);
    assert chi > clo;
    assert s[|p| + chi - 1] == c[chi - 1];
    forall m | |p| + chi <= m < |s| ensures IsSpace(s[m]) {
      if m >= |p| + |c| { assert s[m] == q[m - |p| - |c|]; } else { assert s[m] == c[m - |p|]; }
    }
    TrailStartUnique(s, |p| + clo, |s|, |p| + chi);
  }

  lemma LeadEndUnique(s: string, i: nat, k: nat)
    requires i <= k <= |s|
    requires forall j :: i <= j < k ==> IsSpace(s[j])
    requires k < |s| ==> !IsSpace(s[k])
    ensures LeadEnd(s, i) == k
    decreases k - i
  {
    if i < k {
      LeadEndUnique(s, i + 1, k);
    }
  }

  lemma TrailStartUnique(s: string, lo: nat, j: nat, k: nat)
    requires lo <= k <= j <= |s|
    requires forall m :: k <= m < j ==> IsSpace(s[m])
    requires k > lo ==> !IsSpace(s[k - 1])
    ensures TrailStart(s, lo, j) == k
    decreases j
  {
    if k < j {
      TrailStartUnique(s, lo, j - 1, k);
    }
  }

  lemma AppendAssociative<T>(a: seq<T>, b: seq<T>, c: seq<T>)
    ensures a + (b + c) == (a + b) + c
  {
  }

  // ----- the order `sorted()` uses on str: code point by code point -----

  /** The textbook lexicographic order: `a` is a proper prefix of `b`, or at the first
      position where they differ `a` holds the smaller code point. */
  ghost predicate LexLess(a: string, b: string) {
    (|a| < |b| && a == b[..|a|]) ||
    exists i :: 0 <= i < |a| && i < |b| && a[..i] == b[..i] && a[i] < b[i]
  }

  lemma LexLessTail(a: string, b: string)
    requires a != [] && b != [] && a[0] == b[0]
    ensures LexLess(a, b) <==> LexLess(a[1..], b[1..])
  {
    var a', b' := a[1..], b[1..];
    assert |a| < |b| && a == b[..|a|] <==> |a'| < |b'| && a' == b'[..|a'|] by {
      if |a| < |b| && a' == b'[..|a'|] {
        assert a == [a[0]] + a' && b[..|a|] == [b[0]] + b'[..|a'|];
      }
    }
    if i :| 0 <= i < |a| && i < |b| && a[..i] == b[..i] && a[i] < b[i] {
      assert i > 0;
      assert a'[..i - 1] == a[..i][1..] && b'[..i - 1] == b[..i][1..];
      assert a'[i - 1] == a[i] && b'[i - 1] == b[i];
    }
    if i :| 0 <= i < |a'| && i < |b'| && a'[..i] == b'[..i] && a'[i] < b'[i] {
      assert a[..i + 1] == [a[0]] + a'[..i] && b[..i + 1] == [b[0]] + b'[..i];
      assert a[i + 1] == a'[i] && b[i + 1] == b'[i];
    }
  }

  /** Python's `a < b` on strings, compared code point by code point; it is the
      lexicographic order. */
  predicate Below(a: string, b: string)
    ensures Below(a, b) <==> LexLess(a, b)
  {
    if a == [] then b != []
    else if b == [] then false
    else if a[0] != b[0] then (assert a[..0] == b[..0]; a[0] < b[0])
    else (LexLessTail(a, b); Below(a[1..], b[1..]))
  }

  lemma {:induction false} BelowIrreflexive(a: string)
    ensures !Below(a, a)
  {
    if a != [] {
      BelowIrreflexive(a[1..]);
    }
  }

  lemma {:induction false} BelowTransitive(a: string, b: string, c: string)
    requires Below(a, b) && Below(b, c)
    ensures Below(a, c)
  {
    if a != [] && b != [] && c != [] && a[0] == b[0] && b[0] == c[0] {
      BelowTransitive(a[1..], b[1..], c[1..]);
    }
  }

  /** Any two different strings are ordered one way or the other. */
  lemma {:induction false} BelowTotal(a: string, b: string)
    requires a != b
    ensures Below(a, b) || Below(b, a)
  {
    if a != [] && b != [] && a[0] == b[0] {
      assert a == [a[0]] + a[1..] && b == [b[0]] + b[1..];
      BelowTotal(a[1..], b[1..]);
    }
  }

  // ----- a text file opened with open(path, 'w') -----

  /** A file being written: opening for writing truncates it; each `write` appends. */
  class TextFile {
    const path: string
    var contents: string

    constructor Open(path: string)
      ensures this.path == path && contents == []
    {
      this.path := path;
      contents := [];
    }

    method Write(s: string)
      modifies this
      ensures contents == old(contents) + s
    {
      contents := contents + s;
    }
  }
}
