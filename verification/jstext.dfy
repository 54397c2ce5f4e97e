/** The JavaScript string and number built-ins the application uses, as
    functions on `string` (a sequence of characters): `startsWith`,
    `includes`, `split(sep).pop()`, `join`, the `||` fallback on strings and
    `Math.round((part / whole) * 100)`. */
module JsText {

  /** `s.startsWith(prefix)`. */
  predicate StartsWith(s: string, prefix: string) {
    |prefix| <= |s| && s[..|prefix|] == prefix
  }

  /** `sub` occurs in `s` at offset `i`. */
  predicate OccursAt(sub: string, s: string, i: int) {
    0 <= i <= |s| - |sub| && s[i..i + |sub|] == sub
  }

  /** `sub` occurs in `s` at some offset. */
  ghost predicate OccursIn(sub: string, s: string) {
    exists i :: OccursAt(sub, s, i)
  }

  /** Shifting by one character: when `sub` is not a prefix of a
      non-empty `s`, it occurs in `s` exactly when it occurs in `s[1..]`. */
  lemma OccursInTail(s: string, sub: string)
    requires |s| > 0 && !StartsWith(s, sub)
    ensures OccursIn(sub, s) <==> OccursIn(sub, s[1..])
  {
    var t := s[1..];
    if OccursIn(sub, t) {
      var i :| OccursAt(sub, t, i);
      var x, y := s[i + 1..i + 1 + |sub|], t[i..i + |sub|];
      assert forall k :: 0 <= k < |sub| ==> x[k] == y[k];
      assert OccursAt(sub, s, i + 1);
    }
    if OccursIn(sub, s) {
      var i :| OccursAt(sub, s, i);
      assert i != 0;
      var x, y := t[i - 1..i - 1 + |sub|], s[i..i + |sub|];
      assert forall k :: 0 <= k < |sub| ==> x[k] == y[k];
      assert OccursAt(sub, t, i - 1);
    }
  }

  /** `s.includes(sub)`, as a left-to-right scan. */
  function Includes(s: string, sub: string): (b: bool)
    ensures b <==> OccursIn(sub, s)
    decreases |s|
  {
    if StartsWith(s, sub) then
      assert OccursAt(sub, s, 0);
      true
    else if |s| == 0 then false
    else
      OccursInTail(s, sub);
      Includes(s[1..], sub)
  }

  /** The texts of the elements of `s`, one after the other:
      `s.map(f).join('')`, built by appending at the end. */
  function Concat<T>(s: seq<T>, f: T -> string): string
    decreases |s|
  {
    if |s| == 0 then "" else Concat(s[..|s| - 1], f) + f(s[|s| - 1])
  }

  /** The text of two sequences in a row is the concatenation of their
      texts. */
  lemma {:induction false} ConcatAppend<T>(a: seq<T>, b: seq<T>, f: T -> string)
    ensures Concat(a + b, f) == Concat(a, f) + Concat(b, f)
    decreases |b|
  {
    if |b| == 0 {
      assert a + b == a;
    } else {
      var c := a + b;
      var b' := b[..|b| - 1];
      assert c[..|c| - 1] == a + b';
      assert c[|c| - 1] == b[|b| - 1];
      ConcatAppend(a, b', f);
    }
  }

  /** Extending a prefix by one element appends that element's text. */
  lemma ConcatSnoc<T>(s: seq<T>, i: nat, f: T -> string)
    requires i < |s|
    ensures Concat(s[..i + 1], f) == Concat(s[..i], f) + f(s[i])
  {
    assert s[..i + 1][..i] == s[..i];
  }

  /** The `a || b` fallback on strings: the empty string is falsy. */
  function OrElse(a: string, b: string): (r: string)
    ensures r != "" <==> a != "" || b != ""
    ensures a != "" ==> r == a
  {
    if a != "" then a else b
  }

  /** `parts.join(sep)`. */
  function Join(parts: seq<string>, sep: string): string
  {
    if |parts| == 0 then ""
    else if |parts| == 1 then parts[0]
    else Join(parts[..|parts| - 1], sep) + sep + parts[|parts| - 1]
  }

  /** Extending the last part extends the joined text. */
  lemma JoinExtendLast(parts: seq<string>, sep: string, c: char)
    requires |parts| >= 1
    ensures var n := |parts|;
            Join(parts[..n - 1] + [parts[n - 1] + [c]], sep) == Join(parts, sep) + [c]
  {
    var n := |parts|;
    var q := parts[..n - 1] + [parts[n - 1] + [c]];
    assert q[..n - 1] == parts[..n - 1];
    if n > 1 {
      assert Join(q, sep) == Join(parts[..n - 1], sep) + sep + (parts[n - 1] + [c]);
      assert Join(parts, sep) == Join(parts[..n - 1], sep) + sep + parts[n - 1];
    }
  }

  /** `s.split(sep)` for a one-character separator: the maximal runs of
      non-separator characters, including empty ones. */
  function Split(s: string, sep: char): (parts: seq<string>)
    ensures |parts| >= 1
    ensures forall k :: 0 <= k < |parts| ==> sep !in parts[k]
    ensures Join(parts, [sep]) == s
  {
    if |s| == 0 then [""]
    else
      var init := Split(s[..|s| - 1], sep);
      var c := s[|s| - 1];
      assert s == s[..|s| - 1] + [c];
      if c == sep then
        init + [""]
      else
        var n := |init|;
        JoinExtendLast(init, [sep], c);
        init[..n - 1] + [init[n - 1] + [c]]
  }

  /** `s.split(sep).pop()`: the text after the last separator, or all of
      `s` when it has none. */
  function LastSegment(s: string, sep: char): (r: string)
    ensures sep !in r
    ensures |r| <= |s| && r == s[|s| - |r|..]
    ensures |r| < |s| ==> s[|s| - |r| - 1] == sep
  {
    var parts := Split(s, sep);
    LastSegmentIsSuffix(s, sep);
    parts[|parts| - 1]
  }

  /** The last part of a split is the suffix after the last separator. */
  lemma {:induction false} LastSegmentIsSuffix(s: string, sep: char)
    ensures var parts := Split(s, sep); var r := parts[|parts| - 1];
            |r| <= |s| && r == s[|s| - |r|..] && (|r| < |s| ==> s[|s| - |r| - 1] == sep)
  {
    if |s| > 0 {
      LastSegmentIsSuffix(s[..|s| - 1], sep);
    }
  }

  /** The last segment is what follows the last separator: for text
      without the separator, appended after one, it is that text, and a
      string without the separator is its own last segment. */
  lemma LastSegmentAfterSeparator(prefix: string, sep: char, tail: string)
    requires sep !in tail
    ensures LastSegment(prefix + [sep] + tail, sep) == tail
    ensures sep !in prefix ==> LastSegment(prefix, sep) == prefix
  {
    var s := prefix + [sep] + tail;
    var r := LastSegment(s, sep);
    var k := |s| - |tail|;
    assert s[k - 1] == sep;
    assert forall i :: k <= i < |s| ==> s[i] == tail[i - k];
    assert tail == s[k..];
  }

  /** Every string is the concatenation, around the separator, of its
      split parts. */
  lemma SplitJoinRoundTrip(s: string, sep: char)
    ensures Join(Split(s, sep), [sep]) == s
  {
  }

  /** `Math.round((part / whole) * 100)` on exact rationals: the nearest
      integer to 100·part/whole, halves rounded up. */
  function RoundPercent(part: nat, whole: nat): (r: nat)
    requires whole > 0
    ensures 2 * whole * r <= 200 * part + whole < 2 * whole * (r + 1)
    ensures part <= whole ==> r <= 100
    ensures part == whole ==> r == 100
  {
    RoundPercentFacts(part, whole);
    (200 * part + whole) / (2 * whole)
  }

  /** The quotient behind RoundPercent brackets 100·part/whole to within
      one half. */
  lemma RoundPercentFacts(part: nat, whole: nat)
    requires whole > 0
    ensures var r := (200 * part + whole) / (2 * whole);
            && 2 * whole * r <= 200 * part + whole < 2 * whole * (r + 1)
            && (part <= whole ==> r <= 100)
            && (part == whole ==> r == 100)
  {
    var n := 200 * part + whole;
    var d := 2 * whole;
    var r := n / d;
    assert d * r <= n < d * (r + 1) by {
      assert n == d * r + n % d;
    }
    if part <= whole {
      assert n < d * 101;
      if r > 100 {
        MulLeft(d, 101, r);
      }
    }
    if part == whole {
      assert n >= d * 100;
      if r < 100 {
        MulLeft(d, r + 1, 100);
      }
    }
  }

  /** Multiplying by a positive factor preserves order. */
  lemma MulLeft(d: nat, a: nat, b: nat)
    requires a <= b
    ensures d * a <= d * b
  {
  }

  /** The `whole > 0 ? Math.round((part / whole) * 100) : 0` pattern used by
      every progress display of the application. */
  function Percentage(part: nat, whole: nat): (r: nat)
    ensures whole == 0 ==> r == 0
    ensures part <= whole ==> r <= 100
    ensures 0 < whole && part == whole ==> r == 100
  {
    if whole > 0 then RoundPercent(part, whole) else 0
  }

  /** Below 200 items, a percentage of 100 means every item: rounding
      cannot lift an incomplete count to 100. */
  lemma PercentageFullIffAll(part: nat, whole: nat)
    requires 0 < whole < 200 && part <= whole
    ensures Percentage(part, whole) == 100 <==> part == whole
  {
    if part < whole {
      var r := Percentage(part, whole);
      assert 2 * whole * r < 2 * whole * 100 by {
        assert 2 * whole * r <= 200 * part + whole;
        assert 200 * part + whole <= 200 * whole - 200 + whole;
      }
    }
  }
}
