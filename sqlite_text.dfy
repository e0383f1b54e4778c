/** Ordering of TEXT values as SQLite compares them with its default BINARY
    collation, and the calendar dates that `date.isoformat()` produces. */
module SqliteText {

  /** `a < b` between two TEXT values under the BINARY collation: the first
      differing character decides, and a proper prefix is the smaller value.
      SQLite compares the UTF-8 bytes with memcmp, which orders valid strings
      exactly as comparing their code points one by one does. The order is
      strict: nothing is below itself, and nothing is below the empty text. */
  function LexLess(a: string, b: string): (r: bool)
    ensures r ==> a != b && |b| > 0
  {
    |b| > 0 && (|a| == 0 || a[0] < b[0] || (a[0] == b[0] && LexLess(a[1..], b[1..])))
  }

  /** `a` and `b` share their first `k` characters, and position `k` is the
      first one where `a` is smaller: either `a` ends there or its character
      is the smaller one. */
  ghost predicate FirstDifferenceAt(a: string, b: string, k: nat)
  {
    k <= |a| && k < |b| && a[..k] == b[..k] && (k == |a| || a[k] < b[k])
  }

  /** The recursive comparison agrees with the textbook definition of
      lexicographic order. */
  lemma {:induction false} LexLessMeansFirstDifference(a: string, b: string)
    ensures LexLess(a, b) <==> exists k: nat :: FirstDifferenceAt(a, b, k)
  {
    if LexLess(a, b) {
      if |a| == 0 || a[0] < b[0] {
        assert FirstDifferenceAt(a, b, 0);
      } else {
        LexLessMeansFirstDifference(a[1..], b[1..]);
        var k: nat :| FirstDifferenceAt(a[1..], b[1..], k);
        assert a[..k + 1] == [a[0]] + a[1..][..k];
        assert b[..k + 1] == [b[0]] + b[1..][..k];
        assert FirstDifferenceAt(a, b, k + 1);
      }
    }
    if exists k: nat :: FirstDifferenceAt(a, b, k) {
      var k: nat :| FirstDifferenceAt(a, b, k);
      if k > 0 {
        assert a[0] == a[..k][0] && b[0] == b[..k][0];
        assert a[1..][..k - 1] == a[..k][1..] && b[1..][..k - 1] == b[..k][1..];
        assert FirstDifferenceAt(a[1..], b[1..], k - 1);
        LexLessMeansFirstDifference(a[1..], b[1..]);
      }
    }
  }

  /** Of two TEXT values, at most one is below the other. */
  lemma {:induction false} LexLessAsymmetric(a: string, b: string)
    ensures !(LexLess(a, b) && LexLess(b, a))
  {
    if |a| > 0 && |b| > 0 && a[0] == b[0] {
      LexLessAsymmetric(a[1..], b[1..]);
    }
  }

  lemma {:induction false} LexLessTransitive(a: string, b: string, c: string)
    requires LexLess(a, b) && LexLess(b, c)
    ensures LexLess(a, c)
  {
    if |a| > 0 && a[0] == b[0] && b[0] == c[0] {
      LexLessTransitive(a[1..], b[1..], c[1..]);
    }
  }

  /** Any two TEXT values are equal or ordered one way or the other. */
  lemma {:induction false} LexLessTotal(a: string, b: string)
    ensures a == b || LexLess(a, b) || LexLess(b, a)
  {
    if |a| > 0 && |b| > 0 && a[0] == b[0] {
      LexLessTotal(a[1..], b[1..]);
      assert a == [a[0]] + a[1..] && b == [b[0]] + b[1..];
    }
  }

  /** Comparing two concatenations whose first parts have the same length:
      the first parts decide unless they are equal. */
  lemma {:induction false} LexLessConcat(x: string, u: string, y: string, v: string)
    requires |x| == |y|
    ensures LexLess(x + u, y + v) <==> LexLess(x, y) || (x == y && LexLess(u, v))
  {
    if |x| == 0 {
      assert x + u == u && y + v == v;
    } else {
      assert (x + u)[0] == x[0] && (y + v)[0] == y[0];
      assert (x + u)[1..] == x[1..] + u && (y + v)[1..] == y[1..] + v;
      LexLessConcat(x[1..], u, y[1..], v);
      assert x == [x[0]] + x[1..] && y == [y[0]] + y[1..];
    }
  }

  /** Dafny's own `<` on strings means "proper prefix". Every proper prefix
      is smaller under BINARY order; BINARY order also ranks strings that are
      not prefixes of each other, such as two different dates. */
  lemma {:induction false} ProperPrefixIsLexLess(a: string, b: string)
    requires a < b
    ensures LexLess(a, b)
  {
    if |a| > 0 {
      assert a[0] == b[0] && a[1..] < b[1..];
      ProperPrefixIsLexLess(a[1..], b[1..]);
    }
  }

  predicate IsDigit(c: char)
  {
    '0' <= c <= '9'
  }

  predicate AllDigits(s: string)
  {
    forall i :: 0 <= i < |s| ==> IsDigit(s[i])
  }

  function DigitValue(c: char): (d: nat)
    requires IsDigit(c)
    ensures d <= 9
  {
    c as int - '0' as int
  }

  /** The decimal value of a string of digits, read from the left. */
  function Number(s: string): nat
    requires AllDigits(s)
  {
    if |s| == 0 then 0 else 10 * Number(s[..|s| - 1]) + DigitValue(s[|s| - 1])
  }

  /** Among digit strings of one length, BINARY order is numeric order, and
      equal values mean equal strings. */
  lemma {:induction false} NumberOrder(x: string, y: string)
    requires |x| == |y| && AllDigits(x) && AllDigits(y)
    ensures LexLess(x, y) <==> Number(x) < Number(y)
    ensures x == y <==> Number(x) == Number(y)
  {
    if |x| > 0 {
      var n := |x| - 1;
      var x', y' := x[..n], y[..n];
      NumberOrder(x', y');
      assert x == x' + x[n..] && y == y' + y[n..];
      LexLessConcat(x', x[n..], y', y[n..]);
      assert x[n..] == [x[n]] && y[n..] == [y[n]];
      assert LexLess([x[n]], [y[n]]) <==> x[n] < y[n] by {
        assert [x[n]][1..] == [] && [y[n]][1..] == [];
      }
      assert Number(x) == 10 * Number(x') + DigitValue(x[n]);
      assert Number(y) == 10 * Number(y') + DigitValue(y[n]);
    }
  }

  /** The shape `YYYY-MM-DD` that `date.isoformat()` returns. */
  predicate IsIsoDate(s: string)
  {
    |s| == 10 && s[4] == '-' && s[7] == '-' &&
    AllDigits(s[..4]) && AllDigits(s[5..7]) && AllDigits(s[8..])
  }

  function Year(s: string): nat
    requires IsIsoDate(s)
  {
    Number(s[..4])
  }

  function Month(s: string): nat
    requires IsIsoDate(s)
  {
    Number(s[5..7])
  }

  function Day(s: string): nat
    requires IsIsoDate(s)
  {
    Number(s[8..])
  }

  /** The year of an ISO date, digit by digit. */
  lemma YearDigits(s: string)
    requires IsIsoDate(s)
    ensures Year(s) == 1000 * DigitValue(s[0]) + 100 * DigitValue(s[1]) + 10 * DigitValue(s[2]) + DigitValue(s[3])
  {
    var y := s[..4];
    assert y[..3][..2][..1][..0] == [];
    assert Number(y[..3][..2][..1]) == DigitValue(s[0]);
    assert Number(y[..3][..2]) == 10 * DigitValue(s[0]) + DigitValue(s[1]);
    assert Number(y[..3]) == 100 * DigitValue(s[0]) + 10 * DigitValue(s[1]) + DigitValue(s[2]);
  }

  /** `a` is an earlier calendar date than `b`. */
  predicate Earlier(a: string, b: string)
    requires IsIsoDate(a) && IsIsoDate(b)
  {
    Year(a) < Year(b) ||
    (Year(a) == Year(b) && (Month(a) < Month(b) || (Month(a) == Month(b) && Day(a) < Day(b))))
  }

  /** For two ISO dates the text comparison `deadline < today` is the
      chronological comparison. */
  lemma IsoDateOrder(a: string, b: string)
    requires IsIsoDate(a) && IsIsoDate(b)
    ensures LexLess(a, b) <==> Earlier(a, b)
  {
    assert a == a[..4] + (a[4..5] + (a[5..7] + (a[7..8] + a[8..])));
    assert b == b[..4] + (b[4..5] + (b[5..7] + (b[7..8] + b[8..])));
    assert a[4..5] == b[4..5] == "-" && a[7..8] == b[7..8] == "-";
    NumberOrder(a[..4], b[..4]);
    NumberOrder(a[5..7], b[5..7]);
    NumberOrder(a[8..], b[8..]);
    LexLessConcat(a[7..8], a[8..], b[7..8], b[8..]);
    LexLessConcat(a[5..7], a[7..8] + a[8..], b[5..7], b[7..8] + b[8..]);
    LexLessConcat(a[4..5], a[5..7] + (a[7..8] + a[8..]), b[4..5], b[5..7] + (b[7..8] + b[8..]));
    LexLessConcat(a[..4], a[4..5] + (a[5..7] + (a[7..8] + a[8..])),
                  b[..4], b[4..5] + (b[5..7] + (b[7..8] + b[8..])));
  }

  /** An empty deadline is below every non-empty date: the empty form field
      the add route accepts is overdue on any day. */
  lemma EmptyTextIsLeast(b: string)
    ensures LexLess("", b) <==> |b| > 0
  {
  }
}
