/**
 * String helpers shared by the model: JavaScript's `<` on strings, decimal
 * rendering of integers (`String(i)`), `padStart` and `Array.prototype.join`.
 */
module Strings {

  /** JavaScript `a < b` on strings: lexicographic comparison, a proper prefix being smaller. */
  predicate Less(a: string, b: string)
  {
    if |b| == 0 then false
    else if |a| == 0 then true
    else if a[0] != b[0] then a[0] < b[0]
    else Less(a[1..], b[1..])
  }

  lemma {:induction false} LessIrreflexive(a: string)
    ensures !Less(a, a)
  {
    if |a| > 0 {
      LessIrreflexive(a[1..]);
    }
  }

  lemma {:induction false} LessTransitive(a: string, b: string, c: string)
    requires Less(a, b) && Less(b, c)
    ensures Less(a, c)
  {
    if |a| > 0 && a[0] == b[0] && b[0] == c[0] {
      LessTransitive(a[1..], b[1..], c[1..]);
    }
  }

  /** Any two different strings are ordered one way or the other. */
  lemma {:induction false} LessTotal(a: string, b: string)
    requires a != b
    ensures Less(a, b) || Less(b, a)
  {
    if |a| > 0 && |b| > 0 && a[0] == b[0] {
      assert a == [a[0]] + a[1..] && b == [b[0]] + b[1..];
      LessTotal(a[1..], b[1..]);
    }
  }

  /** A strictly smaller prefix of the same length stays smaller whatever follows it. */
  lemma {:induction false} LessExtend(x: string, y: string, u: string, v: string)
    requires |x| == |y| && Less(x, y)
    ensures Less(x + u, y + v)
  {
    if x[0] == y[0] {
      assert (x + u)[1..] == x[1..] + u && (y + v)[1..] == y[1..] + v;
      LessExtend(x[1..], y[1..], u, v);
    }
  }

  /** Behind a common prefix, the comparison is decided by what follows. */
  lemma {:induction false} LessCommonPrefix(p: string, u: string, v: string)
    requires Less(u, v)
    ensures Less(p + u, p + v)
  {
    if |p| > 0 {
      assert (p + u)[1..] == p[1..] + u && (p + v)[1..] == p[1..] + v;
      LessCommonPrefix(p[1..], u, v);
    } else {
      assert p + u == u && p + v == v;
    }
  }

  function DigitChar(d: nat): char
    requires d < 10
  {
    ('0' as int + d) as char
  }

  /** `String(n)` for a non-negative integer. */
  function Decimal(n: nat): (s: string)
    ensures |s| >= 1
    decreases n
  {
    if n < 10 then [DigitChar(n)] else Decimal(n / 10) + [DigitChar(n % 10)]
  }

  /** `String(n)` for any integer. */
  function IntToString(n: int): string
  {
    if n < 0 then "-" + Decimal(-n) else Decimal(n)
  }

  function Pow10(w: nat): (p: nat)
    ensures p >= 1
  {
    if w == 0 then 1 else 10 * Pow10(w - 1)
  }

  function Repeat(c: char, k: nat): (s: string)
    ensures |s| == k
    ensures forall i :: 0 <= i < k ==> s[i] == c
  {
    if k == 0 then [] else Repeat(c, k - 1) + [c]
  }

  /** `s.padStart(w, [c])`: left-pads with `c` up to width `w`, never truncates. */
  function PadStart(s: string, w: nat, c: char): (r: string)
    ensures |r| == if |s| >= w then |s| else w
    ensures r[|r| - |s|..] == s
    ensures forall i :: 0 <= i < |r| - |s| ==> r[i] == c
  {
    if |s| >= w then s else Repeat(c, w - |s|) + s
  }

  /** The last `w` decimal digits of `n`, most significant first. */
  function FixedDigits(n: nat, w: nat): (s: string)
    ensures |s| == w
  {
    if w == 0 then [] else FixedDigits(n / 10, w - 1) + [DigitChar(n % 10)]
  }

  lemma {:induction false} FixedDigitsOfZero(w: nat)
    ensures FixedDigits(0, w) == Repeat('0', w)
  {
    if w > 0 {
      FixedDigitsOfZero(w - 1);
    }
  }

  lemma {:induction false} DecimalLength(n: nat, w: nat)
    requires w >= 1 && n < Pow10(w)
    ensures |Decimal(n)| <= w
  {
    if n >= 10 {
      DecimalLength(n / 10, w - 1);
    }
  }

  /** Below `10^w`, padding the decimal rendering to width `w` gives its last `w` digits. */
  lemma {:induction false} PadDecimalIsFixedDigits(n: nat, w: nat)
    requires w >= 1 && n < Pow10(w)
    ensures PadStart(Decimal(n), w, '0') == FixedDigits(n, w)
  {
    if n < 10 {
      FixedDigitsOfZero(w - 1);
      assert n / 10 == 0;
    } else {
      var d := Decimal(n / 10);
      DecimalLength(n / 10, w - 1);
      PadDecimalIsFixedDigits(n / 10, w - 1);
      assert PadStart(d + [DigitChar(n % 10)], w, '0')
          == Repeat('0', w - 1 - |d|) + d + [DigitChar(n % 10)];
    }
  }

  /** Fixed-width digit strings compare as their numbers do. */
  lemma {:induction false} FixedDigitsLess(i: nat, j: nat, w: nat)
    requires i < j < Pow10(w)
    ensures Less(FixedDigits(i, w), FixedDigits(j, w))
  {
    if i / 10 < j / 10 {
      FixedDigitsLess(i / 10, j / 10, w - 1);
      LessExtend(FixedDigits(i / 10, w - 1), FixedDigits(j / 10, w - 1),
                 [DigitChar(i % 10)], [DigitChar(j % 10)]);
    } else {
      assert i / 10 == j / 10 && i % 10 < j % 10;
      LessCommonPrefix(FixedDigits(i / 10, w - 1), [DigitChar(i % 10)], [DigitChar(j % 10)]);
    }
  }

  /** `parts.join(sep)`. */
  function Join(parts: seq<string>, sep: string): string
  {
    if |parts| == 0 then ""
    else if |parts| == 1 then parts[0]
    else parts[0] + sep + Join(parts[1..], sep)
  }

  /**
   * When no part contains `sep`, the first part of a join is the text before
   * its first separator, and a separator follows it exactly when more parts do.
   */
  lemma JoinHead(parts: seq<string>, sep: char)
    requires |parts| >= 1 && forall i :: 0 <= i < |parts| ==> sep !in parts[i]
    ensures var j := Join(parts, [sep]);
            && |j| >= |parts[0]| && j[..|parts[0]|] == parts[0]
            && (forall k :: 0 <= k < |parts[0]| ==> j[k] != sep)
            && (|parts| == 1 ==> |j| == |parts[0]|)
            && (|parts| > 1 ==> |j| > |parts[0]| && j[|parts[0]|] == sep
                                && j[|parts[0]| + 1..] == Join(parts[1..], [sep]))
  {
    var j := Join(parts, [sep]);
    if |parts| > 1 {
      assert j == parts[0] + [sep] + Join(parts[1..], [sep]);
    }
    forall k | 0 <= k < |parts[0]|
      ensures j[k] != sep
    {
      assert j[k] == parts[0][k];
    }
  }

  /** Joining by a separator that no part contains loses nothing: distinct non-empty part lists join differently. */
  lemma {:induction false} JoinInjective(a: seq<string>, b: seq<string>, sep: char)
    requires |a| >= 1 && forall i :: 0 <= i < |a| ==> sep !in a[i]
    requires |b| >= 1 && forall i :: 0 <= i < |b| ==> sep !in b[i]
    requires Join(a, [sep]) == Join(b, [sep])
    ensures a == b
    decreases |a|
  {
    var j := Join(a, [sep]);
    JoinHead(a, sep);
    JoinHead(b, sep);
    assert |a[0]| == |b[0]|;
    assert a[0] == b[0];
    if |a| > 1 || |b| > 1 {
      assert |a| > 1 && |b| > 1;
      JoinInjective(a[1..], b[1..], sep);
      assert a == [a[0]] + a[1..] && b == [b[0]] + b[1..];
    } else {
      assert a == [a[0]] && b == [b[0]];
    }
  }
}
