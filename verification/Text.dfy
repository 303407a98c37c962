/** Strings: the lexicographic order Python's sort uses, suffixes, and decimal numerals. */
module Text {

  predicate Less(a: string, b: string) {
    if b == "" then false
    else if a == "" then true
    else a[0] < b[0] || (a[0] == b[0] && Less(a[1..], b[1..]))
  }

  predicate AtMost(a: string, b: string) {
    a == b || Less(a, b)
  }

  lemma {:induction false} LessIsTotal(a: string, b: string)
    ensures Less(a, b) || a == b || Less(b, a)
    ensures !(Less(a, b) && Less(b, a))
    ensures Less(a, b) ==> a != b
  {
    if a != "" && b != "" {
      LessIsTotal(a[1..], b[1..]);
      assert a == [a[0]] + a[1..];
      assert b == [b[0]] + b[1..];
    }
  }

  lemma {:induction false} LessIsTransitive(a: string, b: string, c: string)
    requires Less(a, b) && Less(b, c)
    ensures Less(a, c)
  {
    if a != "" && a[0] == b[0] == c[0] {
      LessIsTransitive(a[1..], b[1..], c[1..]);
    }
  }

  /** The strings agree up to position `i`, where `a` ends or has the smaller character. */
  ghost predicate DiffersAt(a: string, b: string, i: nat) {
    i <= |a| && i < |b| && a[..i] == b[..i] && (i == |a| || a[i] < b[i])
  }

  /** The lexicographic order: decided at the first difference, with a prefix before what it is a prefix of. */
  lemma {:induction false} LessExactly(a: string, b: string)
    ensures Less(a, b) <==> exists i: nat :: DiffersAt(a, b, i)
  {
    if a == "" || b == "" {
      assert b != "" ==> DiffersAt("", b, 0);
    } else {
      LessExactly(a[1..], b[1..]);
      if a[0] < b[0] {
        assert DiffersAt(a, b, 0);
      }
      if i: nat :| a[0] == b[0] && DiffersAt(a[1..], b[1..], i) {
        assert a[..i + 1] == [a[0]] + a[1..][..i] && b[..i + 1] == [b[0]] + b[1..][..i];
        assert DiffersAt(a, b, i + 1);
      }
      if i: nat :| DiffersAt(a, b, i) && i > 0 {
        assert a[..i][0] == a[0] && b[..i][0] == b[0];
        assert a[1..][..i - 1] == a[..i][1..] && b[1..][..i - 1] == b[..i][1..];
        assert DiffersAt(a[1..], b[1..], i - 1);
      }
    }
  }

  lemma AtMostIsAntisymmetric(a: string, b: string)
    requires AtMost(a, b) && AtMost(b, a)
    ensures a == b
  {
    LessIsTotal(a, b);
  }

  predicate EndsWith(s: string, suffix: string) {
    |suffix| <= |s| && s[|s| - |suffix|..] == suffix
  }

  /** A shared prefix does not affect the order. */
  lemma {:induction false} LessUnderPrefix(p: string, a: string, b: string)
    ensures Less(p + a, p + b) <==> Less(a, b)
  {
    if p == "" {
      assert p + a == a && p + b == b;
    } else {
      LessUnderPrefix(p[1..], a, b);
      assert (p + a)[1..] == p[1..] + a;
      assert (p + b)[1..] == p[1..] + b;
    }
  }

  lemma {:induction false} LessUnderSuffix(a: string, b: string, s: string)
    requires |a| == |b|
    ensures a != b ==> (Less(a + s, b + s) <==> Less(a, b))
  {
    if a != "" {
      LessUnderSuffix(a[1..], b[1..], s);
      assert (a + s)[1..] == a[1..] + s;
      assert (b + s)[1..] == b[1..] + s;
      assert a == [a[0]] + a[1..] && b == [b[0]] + b[1..];
    }
  }

  /** Strings of equal length compare the same between a shared prefix and a shared suffix. */
  lemma {:induction false} LessInContext(p: string, a: string, b: string, s: string)
    requires |a| == |b|
    ensures Less(p + a + s, p + b + s) <==> Less(a, b)
    ensures p + a + s == p + b + s <==> a == b
  {
    var x, y := p + a + s, p + b + s;
    assert x == p + (a + s) && y == p + (b + s);
    assert x[|p|..|p| + |a|] == a && y[|p|..|p| + |a|] == b;
    LessUnderPrefix(p, a + s, b + s);
    LessUnderSuffix(a, b, s);
    LessIsTotal(x, y);
    LessIsTotal(a, b);
  }

  /** Appending one more character to strings of equal length. */
  lemma {:induction false} LessWithLast(a: string, b: string, c: char, d: char)
    requires |a| == |b|
    ensures Less(a + [c], b + [d]) <==> Less(a, b) || (a == b && c < d)
  {
    if a != "" {
      LessWithLast(a[1..], b[1..], c, d);
      assert (a + [c])[1..] == a[1..] + [c];
      assert (b + [d])[1..] == b[1..] + [d];
      assert a == [a[0]] + a[1..] && b == [b[0]] + b[1..];
    }
  }

  // ---------- Decimal numerals ----------

  function Digit(d: nat): (c: char)
    requires d < 10
    ensures '0' <= c <= '9'
  {
    ('0' as int + d) as char
  }

  predicate IsDigits(s: string) {
    forall i :: 0 <= i < |s| ==> '0' <= s[i] <= '9'
  }

  /** str(n) */
  function Str(n: nat): (s: string)
    ensures s != "" && IsDigits(s)
    ensures n > 0 ==> s[0] != '0'
  {
    if n < 10 then [Digit(n)] else Str(n / 10) + [Digit(n % 10)]
  }

  /** s.zfill(width) for an unsigned numeral */
  function Zfill(s: string, width: nat): (r: string)
    ensures |r| == if |s| >= width then |s| else width
    decreases width - |s|
  {
    if |s| >= width then s else Zfill("0" + s, width)
  }

  function Pow10(w: nat): (p: nat)
    ensures p >= 1
  {
    if w == 0 then 1 else 10 * Pow10(w - 1)
  }

  /** The last `width` decimal digits of `n`. */
  function Padded(n: nat, width: nat): (s: string)
    ensures |s| == width && IsDigits(s)
  {
    if width == 0 then "" else Padded(n / 10, width - 1) + [Digit(n % 10)]
  }

  lemma {:induction false} ZfillSnoc(s: string, c: char, width: nat)
    requires width >= 1
    ensures Zfill(s + [c], width) == Zfill(s, width - 1) + [c]
    decreases width - |s|
  {
    if |s| < width - 1 {
      ZfillSnoc("0" + s, c, width);
      assert "0" + (s + [c]) == ("0" + s) + [c];
    }
  }

  lemma {:induction false} PaddedZero(width: nat)
    ensures Padded(0, width) == Zfill("", width)
  {
    if width > 0 {
      PaddedZero(width - 1);
      ZfillSnoc("", '0', width);
      assert "" + "0" == "0" + "";
    }
  }

  /** A number below 10^width, zero-filled to width, is its last `width` digits. */
  lemma {:induction false} ZfillIsPadded(n: nat, width: nat)
    requires width >= 1 && n < Pow10(width)
    ensures Zfill(Str(n), width) == Padded(n, width)
  {
    if n < 10 {
      PaddedZero(width - 1);
      ZfillSnoc("", Digit(n), width);
      assert "" + [Digit(n)] == Str(n);
    } else {
      assert width > 1 by {
        assert Pow10(1) == 10 * Pow10(0);
      }
      ZfillIsPadded(n / 10, width - 1);
      ZfillSnoc(Str(n / 10), Digit(n % 10), width);
    }
  }

  lemma {:induction false} PaddedOrder(i: nat, j: nat, width: nat)
    requires i < Pow10(width) && j < Pow10(width)
    ensures Less(Padded(i, width), Padded(j, width)) <==> i < j
    ensures Padded(i, width) == Padded(j, width) <==> i == j
  {
    if width > 0 {
      PaddedOrder(i / 10, j / 10, width - 1);
      LessWithLast(Padded(i / 10, width - 1), Padded(j / 10, width - 1), Digit(i % 10), Digit(j % 10));
      var a, b := Padded(i, width), Padded(j, width);
      assert a[..width - 1] == Padded(i / 10, width - 1) && b[..width - 1] == Padded(j / 10, width - 1);
      assert a[width - 1] == Digit(i % 10) && b[width - 1] == Digit(j % 10);
    }
  }
}
