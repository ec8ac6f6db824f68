/** Shared vocabulary: optional values, machine-word widths, ASCII helpers and the
    positional digit rendering used by the formatter, the initcode serialiser and the
    frame-offset probe. */
module Base {

  datatype Option<T> = None | Some(value: T)

  const U8: nat := 0x100
  const U16: nat := 0x1_0000
  const U32: nat := 0x1_0000_0000
  const U64: nat := 0x1_0000_0000_0000_0000

  /** A byte of memory. */
  type byte = b: int | 0 <= b < 0x100

  /** Two's-complement reading of a word `w` of a width whose modulus is `2 * half`. */
  function Signed(w: nat, half: nat): (r: int)
    requires 0 < half
    requires w < 2 * half
    ensures -(half as int) <= r < half
    ensures r >= 0 ==> r == w
    ensures r < 0 ==> r == w - 2 * half
  {
    if w < half then w else w - 2 * half
  }

  // Sequence facts stated once for any element type, so that proofs about sequences of
  // strings do not have to compare the strings themselves.

  lemma SliceSnoc<T>(s: seq<T>, i: nat)
    requires i < |s|
    ensures s[..i + 1] == s[..i] + [s[i]]
  {
  }

  lemma SliceSplit<T>(s: seq<T>, i: nat)
    requires i <= |s|
    ensures s == s[..i] + s[i..]
  {
  }

  lemma DropCons<T>(s: seq<T>, i: nat)
    requires i < |s|
    ensures s[i..][0] == s[i] && s[i..][1..] == s[i + 1..]
  {
  }

  lemma SliceOfDrop<T>(s: seq<T>, a: nat, b: nat, c: nat)
    requires a + c <= |s| && b <= c
    ensures s[a..][b..c] == s[a + b..a + c]
  {
  }

  lemma IndexOfDrop<T>(s: seq<T>, a: nat)
    requires a < |s|
    ensures s[a] == s[a..][0]
  {
  }

  lemma ConcatAssoc<T>(a: seq<T>, b: seq<T>, c: seq<T>)
    ensures (a + b) + c == a + (b + c)
  {
  }

  lemma SuffixOf<T>(a: seq<T>, b: seq<T>)
    ensures (a + b)[|a|..] == b && |a + b| - |b| == |a|
  {
  }

  /** `n` copies of `c`. */
  function Repeat<T>(c: T, n: nat): (r: seq<T>)
    ensures |r| == n
    ensures forall i :: 0 <= i < n ==> r[i] == c
  {
    if n == 0 then [] else [c] + Repeat(c, n - 1)
  }

  /** The characters up to (excluding) the first NUL of a C string stored in `s`. */
  function CString(s: seq<char>): (r: seq<char>)
    ensures |r| <= |s|
    ensures r == s[..|r|]
    ensures '\0' !in r
    ensures forall k :: 0 <= k < |r| ==> s[k] != '\0'
    ensures |r| < |s| ==> s[|r|] == '\0'
  {
    if s == [] || s[0] == '\0' then [] else [s[0]] + CString(s[1..])
  }

  /** A text without NUL, then the terminator, then anything, reads back as the text. */
  lemma {:induction false} CStringOf(t: seq<char>, rest: seq<char>)
    requires '\0' !in t
    ensures CString(t + ['\0'] + rest) == t
    ensures CString(t + ['\0']) == t
  {
    if t != [] {
      assert (t + ['\0'] + rest)[1..] == t[1..] + ['\0'] + rest;
      assert (t + ['\0'])[1..] == t[1..] + ['\0'];
      CStringOf(t[1..], rest);
    }
  }

  /** The character for digit `t` (below 36): '0'..'9', then `letbase` onwards. */
  function DigitChar(t: nat, letbase: char): (c: char)
    requires t < 36
    requires letbase == 'a' || letbase == 'A'
  {
    if t < 10 then ('0' as int + t) as char else (letbase as int + (t - 10)) as char
  }

  /** The value of a digit character, the inverse of DigitChar for either letter case. */
  function DigitValue(c: char): nat {
    if '0' <= c <= '9' then c as int - '0' as int
    else if 'a' <= c <= 'z' then c as int - 'a' as int + 10
    else if 'A' <= c <= 'Z' then c as int - 'A' as int + 10
    else 0
  }

  lemma DigitRoundTrip(t: nat, letbase: char)
    requires t < 36
    requires letbase == 'a' || letbase == 'A'
    ensures DigitValue(DigitChar(t, letbase)) == t
    ensures DigitChar(t, letbase) != '\0' && DigitChar(t, letbase) != '-'
    ensures DigitChar(t, letbase) == '0' <==> t == 0
  {
  }

  /** The quotient of `u` by `base`, counted by repeated subtraction so that unfolding
      it involves no product. QuotRem shows it is `u / base`. */
  function Quot(u: nat, base: nat): (q: nat)
    requires 2 <= base
    ensures u > 0 ==> q < u
    decreases u
  {
    if u < base then 0 else 1 + Quot(u - base, base)
  }

  /** The remainder of `u` by `base`; QuotRem shows it is `u % base`. */
  function Rem(u: nat, base: nat): (r: nat)
    requires 2 <= base
    ensures r < base
    decreases u
  {
    if u < base then u else Rem(u - base, base)
  }

  /** A number below the base has no quotient and is its own remainder. */
  lemma {:induction false} QuotSmall(u: nat, base: nat)
    requires 2 <= base
    ensures Quot(u, base) == 0 <==> u < base
    ensures u < base ==> Rem(u, base) == u
  {
  }

  lemma {:induction false} QuotRem(u: nat, base: nat)
    requires 2 <= base
    ensures Quot(u, base) == u / base && Rem(u, base) == u % base
    decreases u
  {
    if u >= base {
      QuotRem(u - base, base);
      ShiftDiv(u - base, base);
    }
  }

  /** Adding `base` adds one to the quotient and keeps the remainder. */
  lemma ShiftDiv(v: nat, base: nat)
    requires 2 <= base
    ensures (v + base) / base == v / base + 1 && (v + base) % base == v % base
  {
    var q, r := v / base, v % base;
    var q', r' := (v + base) / base, (v + base) % base;
    assert v == q * base + r;
    assert v + base == q' * base + r';
    assert (q' - q - 1) * base == r - r' by {
      assert (q' - q - 1) * base == q' * base - q * base - base;
    }
    MulSmall(q' - q - 1, base);
  }

  /** A multiple of `b` strictly between `-b` and `b` is zero. */
  lemma MulSmall(x: int, b: nat)
    requires b > 0 && -(b as int) < x * b < b
    ensures x == 0
  {
    assert (1 - x) * b == b - x * b;
    PositiveFactor(1 - x, b);
    assert (x + 1) * b == x * b + b;
    PositiveFactor(x + 1, b);
  }

  lemma PositiveFactor(a: int, b: nat)
    requires b > 0 && a * b > 0
    ensures a > 0
  {
  }

  /** The quotient and the remainder make up the number again. */
  lemma {:induction false} QuotRemSum(u: nat, base: nat)
    requires 2 <= base
    ensures Quot(u, base) * base + Rem(u, base) == u
    decreases u
  {
    if u >= base {
      QuotRemSum(u - base, base);
      assert (1 + Quot(u - base, base)) * base == base + Quot(u - base, base) * base;
    }
  }

  /** The digits of `u` in base `base`, most significant first, with no leading zero
      (zero has no digits). */
  function Digits(u: nat, base: nat, letbase: char): (r: seq<char>)
    requires 2 <= base <= 36
    requires letbase == 'a' || letbase == 'A'
    decreases u
  {
    if u == 0 then [] else Digits(Quot(u, base), base, letbase) + [DigitChar(Rem(u, base), letbase)]
  }

  /** Reads a digit string back: the positional value of `s` in base `base`. */
  function ValueOf(s: seq<char>, base: nat): nat {
    if s == [] then 0 else ValueOf(s[..|s| - 1], base) * base + DigitValue(s[|s| - 1])
  }

  lemma ValueOfSnoc(s: seq<char>, c: char, base: nat)
    ensures ValueOf(s + [c], base) == ValueOf(s, base) * base + DigitValue(c)
  {
    assert (s + [c])[..|s|] == s;
  }

  lemma {:induction false} DigitsRoundTrip(u: nat, base: nat, letbase: char)
    requires 2 <= base <= 36
    requires letbase == 'a' || letbase == 'A'
    ensures ValueOf(Digits(u, base, letbase), base) == u
    decreases u
  {
    if u > 0 {
      var q, t := Quot(u, base), Rem(u, base);
      DigitsRoundTrip(q, base, letbase);
      DigitRoundTrip(t, letbase);
      ValueOfSnoc(Digits(q, base, letbase), DigitChar(t, letbase), base);
      QuotRemSum(u, base);
    }
  }

  lemma {:induction false} DigitsShape(u: nat, base: nat, letbase: char)
    requires 2 <= base <= 36
    requires letbase == 'a' || letbase == 'A'
    ensures u > 0 <==> |Digits(u, base, letbase)| > 0
    ensures u > 0 ==> Digits(u, base, letbase)[0] != '0'
    ensures '\0' !in Digits(u, base, letbase)
    ensures '-' !in Digits(u, base, letbase)
    decreases u
  {
    if u > 0 {
      var q, t := Quot(u, base), Rem(u, base);
      DigitsShape(q, base, letbase);
      DigitRoundTrip(t, letbase);
      QuotSmall(u, base);
      var d, c := Digits(q, base, letbase), DigitChar(t, letbase);
      assert Digits(u, base, letbase) == d + [c];
      if q == 0 {
        assert d + [c] == [c];
      } else {
        assert (d + [c])[0] == d[0];
      }
    }
  }

  function Pow(b: nat, k: nat): nat {
    if k == 0 then 1 else b * Pow(b, k - 1)
  }

  lemma {:induction false} PowMul(b: nat, m: nat, n: nat)
    ensures Pow(b, m + n) == Pow(b, m) * Pow(b, n)
    decreases m
  {
    if m > 0 {
      PowMul(b, m - 1, n);
      assert Pow(b, m + n) == b * Pow(b, m - 1 + n);
      assert b * (Pow(b, m - 1) * Pow(b, n)) == (b * Pow(b, m - 1)) * Pow(b, n);
    }
  }

  lemma {:induction false} PowMono(a: nat, b: nat, k: nat)
    requires a <= b
    ensures Pow(a, k) <= Pow(b, k)
    decreases k
  {
    if k > 0 {
      PowMono(a, b, k - 1);
      MulLe(a, b, Pow(a, k - 1), Pow(b, k - 1));
    }
  }

  lemma MulLe(a: nat, b: nat, c: nat, d: nat)
    requires a <= b && c <= d
    ensures a * c <= b * d
  {
    assert a * c <= b * c by {
      assert b * c - a * c == (b - a) * c;
    }
    assert b * c <= b * d by {
      assert b * d - b * c == b * (d - c);
    }
  }

  /** Any base of at least 8 has at most 22 digits for a 64-bit value. */
  lemma Pow22(base: nat)
    requires base >= 8
    ensures Pow(base, 22) >= U64
  {
    assert Pow(8, 2) == 64;
    PowMul(8, 2, 2);
    PowMul(8, 4, 4);
    PowMul(8, 8, 8);
    PowMul(8, 16, 4);
    PowMul(8, 20, 2);
    PowMono(8, base, 22);
  }

  /** Dividing a number below `base * p` by `base` leaves less than `p`. */
  lemma QuotientBound(u: nat, base: nat, p: nat)
    requires 2 <= base && u < base * p
    ensures Quot(u, base) < p
  {
    var q := Quot(u, base);
    QuotRemSum(u, base);
    assert (p - q) * base == base * p - q * base;
    PositiveFactor(p - q, base);
  }

  /** A number below `base^k` has at most `k` digits. */
  lemma {:induction false} DigitsBound(u: nat, base: nat, letbase: char, k: nat)
    requires 2 <= base <= 36
    requires letbase == 'a' || letbase == 'A'
    requires u < Pow(base, k)
    ensures |Digits(u, base, letbase)| <= k
    decreases k
  {
    if u > 0 {
      assert k > 0;
      QuotientBound(u, base, Pow(base, k - 1));
      DigitsBound(Quot(u, base), base, letbase, k - 1);
    }
  }

  /** Decimal text of a natural number, as `std::cout <<` or `%ld` prints it. */
  function Decimal(n: nat): (r: seq<char>)
  {
    if n == 0 then "0" else Digits(n, 10, 'a')
  }

  lemma DecimalRoundTrip(n: nat)
    ensures |Decimal(n)| > 0
    ensures ValueOf(Decimal(n), 10) == n
  {
    if n > 0 {
      DigitsRoundTrip(n, 10, 'a');
      DigitsShape(n, 10, 'a');
    } else {
      assert Decimal(n)[..0] == [];
    }
  }

  /** ASCII upper-casing, as Python's `str.upper` does on ASCII letters. */
  function Upper(s: seq<char>): (r: seq<char>)
    ensures |r| == |s|
    ensures forall i :: 0 <= i < |s| ==> r[i] == UpperChar(s[i])
  {
    if s == [] then [] else [UpperChar(s[0])] + Upper(s[1..])
  }

  function UpperChar(c: char): char {
    if 'a' <= c <= 'z' then (c as int - 32) as char else c
  }
}
