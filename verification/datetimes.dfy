/** MySQL DATETIME values written as text, `YYYY-MM-DD HH:MM:SS`, and the
    order MySQL compares them in: the packed decimal number YYYYMMDDHHMMSS,
    which is chronological order. For text of that shape the character
    order of the range filter is the same order. */
module DateTimes {
  import opened Strings

  /** Character-by-character order on text, a prefix first. */
  predicate LexLe(a: string, b: string) {
    |a| == 0 || (|b| > 0 && (a[0] < b[0] || (a[0] == b[0] && LexLe(a[1..], b[1..]))))
  }

  lemma {:induction false} LexLeTotal(a: string, b: string)
    ensures LexLe(a, b) || LexLe(b, a)
  {
    if |a| > 0 && |b| > 0 && a[0] == b[0] {
      LexLeTotal(a[1..], b[1..]);
    }
  }

  lemma {:induction false} LexLeTrans(a: string, b: string, c: string)
    requires LexLe(a, b) && LexLe(b, c)
    ensures LexLe(a, c)
  {
    if |a| > 0 && |b| > 0 && |c| > 0 && a[0] == b[0] && b[0] == c[0] {
      LexLeTrans(a[1..], b[1..], c[1..]);
    }
  }

  /** A shared prefix does not change the order. */
  lemma {:induction false} LexLeSharedPrefix(p: string, a: string, b: string)
    ensures LexLe(p + a, p + b) <==> LexLe(a, b)
    decreases |p|
  {
    if |p| == 0 {
      assert p + a == a && p + b == b;
    } else {
      assert (p + a)[0] == p[0] == (p + b)[0];
      assert (p + a)[1..] == p[1..] + a;
      assert (p + b)[1..] == p[1..] + b;
      LexLeSharedPrefix(p[1..], a, b);
    }
  }

  function Pow10(n: nat): (p: nat)
    ensures p >= 1
  {
    if n == 0 then 1 else 10 * Pow10(n - 1)
  }

  lemma {:induction false} Pow10Add(a: nat, b: nat)
    ensures Pow10(a + b) == Pow10(a) * Pow10(b)
    decreases a
  {
    if a > 0 {
      Pow10Add(a - 1, b);
      assert Pow10(a + b) == 10 * Pow10(a - 1 + b);
    }
  }

  function DigitCount(s: string): nat {
    if |s| == 0 then 0 else (if IsDigit(s[0]) then 1 else 0) + DigitCount(s[1..])
  }

  function DigitOf(c: char): nat
    requires IsDigit(c)
  {
    c as int - '0' as int
  }

  /** The digits of `s` read as one decimal number, separators skipped:
      `2024-01-31 23:59:07` packs to 20240131235907. */
  function Packed(s: string): nat {
    if |s| == 0 then 0
    else if IsDigit(s[0]) then DigitOf(s[0]) * Pow10(DigitCount(s[1..])) + Packed(s[1..])
    else Packed(s[1..])
  }

  /** The packed value has at most as many digits as the text. */
  lemma {:induction false} PackedBound(s: string)
    ensures Packed(s) < Pow10(DigitCount(s))
  {
    if |s| > 0 {
      PackedBound(s[1..]);
      if IsDigit(s[0]) {
        var p := Pow10(DigitCount(s[1..]));
        ScaleLe(DigitOf(s[0]), 9, p);
      }
    }
  }

  /** A smaller leading digit decides, whatever follows. */
  lemma LeadingDigit(da: nat, db: nat, ra: nat, rb: nat, p: nat)
    requires da < db && ra < p && rb < p
    ensures da * p + ra < db * p + rb
  {
    ScaleLe(da + 1, db, p);
  }

  lemma ScaleLe(x: nat, y: nat, p: nat)
    requires x <= y
    ensures x * p <= y * p
  {
  }

  /** Packing a concatenation shifts the first part left by the digits of
      the second. */
  lemma {:induction false} PackedAppend(p: string, q: string)
    ensures DigitCount(p + q) == DigitCount(p) + DigitCount(q)
    ensures Packed(p + q) == Packed(p) * Pow10(DigitCount(q)) + Packed(q)
    decreases |p|
  {
    if |p| == 0 {
      assert p + q == q;
    } else {
      var r := p[1..];
      assert (p + q)[0] == p[0];
      assert (p + q)[1..] == r + q;
      PackedAppend(r, q);
      if IsDigit(p[0]) {
        Pow10Add(DigitCount(r), DigitCount(q));
        Regroup(DigitOf(p[0]), Pow10(DigitCount(r)), Pow10(DigitCount(q)), Packed(r), Packed(q));
      }
    }
  }

  lemma Regroup(d: nat, x: nat, y: nat, u: nat, v: nat)
    ensures d * (x * y) + (u * y + v) == (d * x + u) * y + v
  {
  }

  /** Replacing one separator by another leaves the packed value alone. */
  lemma {:induction false} PackedReplace(s: string, i: nat, c: char)
    requires i < |s| && !IsDigit(s[i]) && !IsDigit(c)
    ensures DigitCount(s[i := c]) == DigitCount(s)
    ensures Packed(s[i := c]) == Packed(s)
    decreases i
  {
    if i == 0 {
      assert s[i := c][1..] == s[1..];
    } else {
      assert s[i := c][0] == s[0];
      assert s[i := c][1..] == s[1..][i - 1 := c];
      PackedReplace(s[1..], i - 1, c);
    }
  }

  /** Two texts of the same layout: digits in the same places, and the same
      separators everywhere else. */
  predicate Aligned(a: string, b: string) {
    && |a| == |b|
    && forall i :: 0 <= i < |a| ==> (IsDigit(a[i]) <==> IsDigit(b[i])) && (!IsDigit(a[i]) ==> a[i] == b[i])
  }

  lemma {:induction false} AlignedTail(a: string, b: string)
    requires Aligned(a, b) && |a| > 0
    ensures Aligned(a[1..], b[1..])
    ensures DigitCount(a) == DigitCount(b) ==> DigitCount(a[1..]) == DigitCount(b[1..])
  {
    forall i | 0 <= i < |a| - 1
      ensures IsDigit(a[1..][i]) <==> IsDigit(b[1..][i])
      ensures !IsDigit(a[1..][i]) ==> a[1..][i] == b[1..][i]
    {
      assert a[1..][i] == a[i + 1] && b[1..][i] == b[i + 1];
    }
  }

  lemma {:induction false} AlignedCount(a: string, b: string)
    requires Aligned(a, b)
    ensures DigitCount(a) == DigitCount(b)
    decreases |a|
  {
    if |a| > 0 {
      AlignedTail(a, b);
      AlignedCount(a[1..], b[1..]);
      assert IsDigit(a[0]) <==> IsDigit(b[0]);
    }
  }

  /** On texts of one layout, character order is the order of the packed
      numbers. */
  lemma {:induction false} LexLeIsPacked(a: string, b: string)
    requires Aligned(a, b)
    ensures LexLe(a, b) <==> Packed(a) <= Packed(b)
    decreases |a|
  {
    if |a| > 0 {
      AlignedTail(a, b);
      AlignedCount(a[1..], b[1..]);
      LexLeIsPacked(a[1..], b[1..]);
      if IsDigit(a[0]) {
        assert IsDigit(b[0]);
        var p := Pow10(DigitCount(a[1..]));
        PackedBound(a[1..]);
        PackedBound(b[1..]);
        var da, db := DigitOf(a[0]), DigitOf(b[0]);
        if da < db {
          LeadingDigit(da, db, Packed(a[1..]), Packed(b[1..]), p);
        } else if db < da {
          LeadingDigit(db, da, Packed(b[1..]), Packed(a[1..]), p);
        }
      } else {
        assert a[0] == b[0];
      }
    }
  }

  /** A DATETIME as MySQL writes it: `YYYY-MM-DD HH:MM:SS`. */
  predicate DateTimeText(s: string) {
    && |s| == 19
    && s[4] == '-' && s[7] == '-' && s[10] == ' ' && s[13] == ':' && s[16] == ':'
    && forall i :: 0 <= i < 19 && i != 4 && i != 7 && i != 10 && i != 13 && i != 16 ==> IsDigit(s[i])
  }

  /** An HTML `datetime-local` value to the minute: `YYYY-MM-DDTHH:MM`. */
  predicate MinuteText(s: string) {
    && |s| == 16
    && s[4] == '-' && s[7] == '-' && s[10] == 'T' && s[13] == ':'
    && forall i :: 0 <= i < 16 && i != 4 && i != 7 && i != 10 && i != 13 ==> IsDigit(s[i])
  }

  lemma DateTimesAligned(a: string, b: string)
    requires DateTimeText(a) && DateTimeText(b)
    ensures Aligned(a, b)
  {
  }

  /** Two DATETIME texts compare character by character exactly as MySQL
      compares the values. */
  lemma DateTimeOrder(a: string, b: string)
    requires DateTimeText(a) && DateTimeText(b)
    ensures LexLe(a, b) <==> Packed(a) <= Packed(b)
  {
    DateTimesAligned(a, b);
    LexLeIsPacked(a, b);
  }
}
