/** The freestanding formatter: `prints` pads a C string to a width, `printk_write_num`
    renders an integer with sign, prefix and padding, and `simple_vsprintf` walks a
    format string. Every character goes to a sink, which stands for both the output
    pointer and the per-character callback. */
module Printk {
  import opened Base

  /** The `flags` bits: PAD_ZERO (1), PAD_RIGHT (2) and PREFIX (4). */
  datatype Flags = Flags(padZero: bool, padRight: bool, prefix: bool)

  /** Where `simple_outputchar` sends characters. */
  class Sink {
    var chars: seq<char>

    constructor()
      ensures chars == []
    {
      chars := [];
    }

    method Put(c: char)
      modifies this
      ensures chars == old(chars) + [c]
    {
      chars := chars + [c];
    }
  }

  // ---------------------------------------------------------------------------
  // prints (lines 21-53)
  // ---------------------------------------------------------------------------

  /** The padding character: '0' only for a positive width with PAD_ZERO and without
      PAD_RIGHT. */
  function PadChar(width: int, fl: Flags): char {
    if width > 0 && fl.padZero && !fl.padRight then '0' else ' '
  }

  /** How many padding characters a text of length `len` gets. */
  function PadCount(len: nat, width: int): nat {
    if width > len then width - len else 0
  }

  /** What `prints` emits for the text `s` (the characters before the terminator). */
  function Padded(s: seq<char>, width: int, fl: Flags): seq<char> {
    var pad := Repeat(PadChar(width, fl), PadCount(|s|, width));
    if fl.padRight then s + pad else pad + s
  }

  /** The emitted length is the larger of the text length and the width; the text sits
      at the left with PAD_RIGHT and at the right otherwise, and every other position
      holds the padding character. */
  lemma PaddedShape(s: seq<char>, width: int, fl: Flags)
    ensures |Padded(s, width, fl)| == if width > |s| then width else |s|
    ensures fl.padRight ==> Padded(s, width, fl)[..|s|] == s
    ensures !fl.padRight ==> Padded(s, width, fl)[|Padded(s, width, fl)| - |s|..] == s
    ensures fl.padRight ==> forall k :: |s| <= k < |Padded(s, width, fl)| ==>
      Padded(s, width, fl)[k] == ' '
    ensures !fl.padRight ==> forall k :: 0 <= k < |Padded(s, width, fl)| - |s| ==>
      Padded(s, width, fl)[k] == (if fl.padZero then '0' else ' ')
  {
    var r := Padded(s, width, fl);
    var pad := Repeat(PadChar(width, fl), PadCount(|s|, width));
    if fl.padRight {
      assert r == s + pad;
      assert r[..|s|] == s;
    } else {
      assert r == pad + s;
      assert r[|r| - |s|..] == s;
    }
  }

  /** A text at least as long as the width is emitted unchanged. */
  lemma PaddedNoPad(s: seq<char>, width: int, fl: Flags)
    requires width <= |s|
    ensures Padded(s, width, fl) == s
  {
    assert Repeat(PadChar(width, fl), 0) == [];
    assert s + [] == s && [] + s == s;
  }

  lemma CStringShort(s: seq<char>)
    requires '\0' in s
    ensures |CString(s)| < |s|
  {
  }

  /** The length loop of `prints` (lines 28-29). */
  method Length(str: seq<char>) returns (len: nat)
    requires '\0' in str
    ensures len == |CString(str)|
  {
    ghost var text := CString(str);
    CStringShort(str);
    len := 0;
    while str[len] != '\0'
      invariant 0 <= len <= |text|
      decreases |text| - len
    {
      len := len + 1;
    }
  }

  /** A padding loop of `prints` (lines 38-41 and 47-50): emit `c` while `width` is
      positive, counting down. */
  method PutPadding(sink: Sink, c: char, width: int) returns (pc: nat)
    modifies sink
    ensures pc == PadCount(0, width)
    ensures sink.chars == old(sink.chars) + Repeat(c, pc)
  {
    pc := 0;
    var w := width;
    while w > 0
      invariant pc + (if w > 0 then w else 0) == PadCount(0, width)
      invariant sink.chars == old(sink.chars) + Repeat(c, pc)
    {
      RepeatSnoc(c, pc);
      sink.Put(c);
      pc := pc + 1;
      w := w - 1;
    }
  }

  /** The text loop of `prints` (lines 43-46). */
  method PutText(sink: Sink, str: seq<char>) returns (pc: nat)
    requires '\0' in str
    modifies sink
    ensures pc == |CString(str)|
    ensures sink.chars == old(sink.chars) + CString(str)
  {
    ghost var text := CString(str);
    CStringShort(str);
    pc := 0;
    while str[pc] != '\0'
      invariant 0 <= pc <= |text|
      invariant sink.chars == old(sink.chars) + text[..pc]
      decreases |text| - pc
    {
      assert text[..pc + 1] == text[..pc] + [str[pc]];
      sink.Put(str[pc]);
      pc := pc + 1;
    }
    assert text[..pc] == text;
  }

  /** `prints(out, string, width, flags, f)`: count the text, then emit the left
      padding, the text and the right padding, counting each character in `pc`. */
  method Prints(sink: Sink, str: seq<char>, width0: int, fl: Flags) returns (pc: int)
    requires '\0' in str
    modifies sink
    ensures sink.chars == old(sink.chars) + Padded(CString(str), width0, fl)
    ensures pc == |Padded(CString(str), width0, fl)|
  {
    var width, padchar := PadSetup(str, width0, fl);
    ghost var text := CString(str);
    ghost var pad := Repeat(padchar, PadCount(|text|, width0));
    var n1, n2, n3;
    if !fl.padRight {
      n1 := PutPadding(sink, padchar, width);
      width := 0;
    } else {
      n1 := 0;
    }
    n2 := PutText(sink, str);
    n3 := PutPadding(sink, padchar, width);
    pc := n1 + n2 + n3;
    assert Repeat(padchar, 0) == [];
    if !fl.padRight {
      ConcatAssoc(old(sink.chars), pad, text);
      assert sink.chars == old(sink.chars) + (pad + text) + [];
    } else {
      ConcatAssoc(old(sink.chars), text, pad);
      assert sink.chars == old(sink.chars) + [] + (text + pad);
    }
  }

  /** Lines 27-36: the padding still owed once the text is counted, and the padding
      character. */
  method PadSetup(str: seq<char>, width0: int, fl: Flags) returns (width: int, padchar: char)
    requires '\0' in str
    ensures PadCount(0, width) == PadCount(|CString(str)|, width0)
    ensures padchar == PadChar(width0, fl)
  {
    padchar := ' ';
    width := width0;
    if width > 0 {
      var len := Length(str);
      if len >= width {
        width := 0;
      } else {
        width := width - len;
      }
      if fl.padZero && !fl.padRight {
        padchar := '0';
      }
    }
  }

  // ---------------------------------------------------------------------------
  // printk_write_num (lines 63-131)
  // ---------------------------------------------------------------------------

  const I64Min: int := -0x8000_0000_0000_0000
  const I64Max: int := 0x7fff_ffff_ffff_ffff

  predicate IsLongLong(i: int) {
    I64Min <= i <= I64Max
  }

  predicate ValidNumArgs(base: nat, letbase: char) {
    (base == 8 || base == 10 || base == 16) && (letbase == 'a' || letbase == 'A')
  }

  /** Whether a value is printed with a minus sign: only signed, decimal and negative. */
  predicate Negative(i: int, base: nat, sign: bool) {
    sign && base == 10 && i < 0
  }

  /** `unsigned long long u = i`, or `-i` for a printed negative. */
  function Magnitude(i: int, base: nat, sign: bool): (u: nat)
    requires IsLongLong(i)
    ensures u < U64
  {
    if Negative(i, base, sign) then -i else if i < 0 then i + U64 else i
  }

  /** The PREFIX text: "0" for octal, "0x" or "0X" for hexadecimal. */
  function Prefix(fl: Flags, base: nat, letbase: char): seq<char> {
    if !fl.prefix then []
    else if base == 8 then "0"
    else if base == 16 then ['0', if letbase == 'a' then 'x' else 'X']
    else []
  }

  /** Zero padding goes between the sign or prefix and the digits: a nonzero width with
      PAD_ZERO and without PAD_RIGHT. */
  predicate PadZero(width: int, fl: Flags) {
    width != 0 && fl.padZero && !fl.padRight
  }

  /** What `printk_write_num` emits. */
  function NumText(i: int, base: nat, sign: bool, width: int, fl: Flags, letbase: char): seq<char>
    requires IsLongLong(i) && ValidNumArgs(base, letbase)
  {
    if i == 0 then Padded("0", width, fl)
    else
      var neg := Negative(i, base, sign);
      var digits := Digits(Magnitude(i, base, sign), base, letbase);
      var minus := if neg then "-" else "";
      if PadZero(width, fl) then minus + Prefix(fl, base, letbase) + Padded(digits, if neg then width - 1 else width, fl)
      else Padded(Prefix(fl, base, letbase) + minus + digits, width, fl)
  }

  lemma DigitsFit(u: nat, base: nat, letbase: char)
    requires u < U64 && ValidNumArgs(base, letbase)
    ensures |Digits(u, base, letbase)| <= 22
  {
    Pow22(base);
    DigitsBound(u, base, letbase, 22);
  }

  /** The digit loop (lines 86-96): fill `buf` backwards from its last slot, which holds
      the terminator, least significant digit first, so that the most significant digit
      ends up first. */
  method FillDigits(buf: array<char>, u0: nat, base: nat, letbase: char) returns (s: nat)
    requires buf.Length == 64 && u0 < U64 && ValidNumArgs(base, letbase)
    modifies buf
    ensures 41 <= s <= 63
    ensures buf[s..] == Digits(u0, base, letbase) + ['\0']
  {
    DigitsFit(u0, base, letbase);
    s := 63;
    buf[s] := '\0';
    var u: nat := u0;
    while u != 0
      invariant s <= 63
      invariant |Digits(u, base, letbase)| + (63 - s) == |Digits(u0, base, letbase)|
      invariant Digits(u, base, letbase) + buf[s..63] == Digits(u0, base, letbase)
      invariant buf[63] == '\0'
      decreases u
    {
      QuotRem(u, base);
      var t := u % base;
      ghost var done := buf[s..63];
      s := s - 1;
      if t < 10 {
        buf[s] := ('0' as int + t) as char;
      } else {
        buf[s] := (letbase as int + (t - 10)) as char;
      }
      assert buf[s] == DigitChar(t, letbase);
      assert buf[s..63] == [DigitChar(t, letbase)] + done;
      assert Digits(u, base, letbase) == Digits(Quot(u, base), base, letbase) + [DigitChar(t, letbase)];
      ConcatAssoc(Digits(Quot(u, base), base, letbase), [DigitChar(t, letbase)], done);
      u := u / base;
    }
    assert buf[s..] == buf[s..63] + [buf[63]];
  }

  /** `*--s = c`: one character in front of the text that starts at `s`. */
  method Prepend(buf: array<char>, s: nat, c: char) returns (s': nat)
    requires 1 <= s <= buf.Length
    modifies buf
    ensures s' == s - 1
    ensures buf[s'..] == [c] + old(buf[s..])
  {
    s' := s - 1;
    buf[s'] := c;
    assert buf[s'..] == [buf[s']] + buf[s..];
  }

  function Minus(neg: bool): seq<char> {
    if neg then "-" else ""
  }

  lemma NumTextNonZero(i: int, base: nat, sign: bool, width: int, fl: Flags, letbase: char)
    requires IsLongLong(i) && ValidNumArgs(base, letbase) && i != 0
    ensures var neg := Negative(i, base, sign);
      var digits := Digits(Magnitude(i, base, sign), base, letbase);
      NumText(i, base, sign, width, fl, letbase) ==
        if PadZero(width, fl) then Minus(neg) + Prefix(fl, base, letbase) + Padded(digits, if neg then width - 1 else width, fl)
        else Padded(Prefix(fl, base, letbase) + Minus(neg) + digits, width, fl)
  {
  }

  /** The sign and the PREFIX under zero padding (lines 98-128, the `pad_zero`
      branches): emitted straight away, ahead of the padded digits. */
  method EmitLead(sink: Sink, neg: bool, fl: Flags, base: nat, letbase: char) returns (pc: nat)
    modifies sink
    ensures sink.chars == old(sink.chars) + (Minus(neg) + Prefix(fl, base, letbase))
    ensures pc == |Minus(neg) + Prefix(fl, base, letbase)|
  {
    pc := 0;
    if neg {
      sink.Put('-');
      pc := pc + 1;
    }
    if fl.prefix {
      if base == 8 {
        sink.Put('0');
        pc := pc + 1;
      } else if base == 16 {
        var subC := if letbase == 'a' then 'x' else 'X';
        sink.Put('0');
        sink.Put(subC);
        pc := pc + 2;
      }
    }
  }

  /** The sign and the PREFIX without zero padding (the other branches): put in front
      of the digits in the buffer, the minus first, so that the prefix ends up before
      it. */
  method PrependLead(buf: array<char>, s0: nat, neg: bool, fl: Flags, base: nat, letbase: char)
    returns (s: nat)
    requires 3 <= s0 <= buf.Length
    modifies buf
    ensures s0 - 3 <= s <= s0
    ensures buf[s..] == Prefix(fl, base, letbase) + Minus(neg) + old(buf[s0..])
  {
    s := s0;
    if neg {
      s := Prepend(buf, s, '-');
    } else {
      assert buf[s..] == [] + buf[s..];
    }
    ghost var mid := buf[s..];
    assert mid == Minus(neg) + old(buf[s0..]);
    s := PrependPrefix(buf, s, fl, base, letbase);
    ConcatAssoc(Prefix(fl, base, letbase), Minus(neg), old(buf[s0..]));
  }

  /** The PREFIX put in front of the buffer's text: "0" for octal, "0x" or "0X" for
      hexadecimal. */
  method PrependPrefix(buf: array<char>, s0: nat, fl: Flags, base: nat, letbase: char)
    returns (s: nat)
    requires 2 <= s0 <= buf.Length
    modifies buf
    ensures s0 - 2 <= s <= s0
    ensures buf[s..] == Prefix(fl, base, letbase) + old(buf[s0..])
  {
    s := s0;
    if fl.prefix && base == 8 {
      s := Prepend(buf, s, '0');
    } else if fl.prefix && base == 16 {
      var subC := if letbase == 'a' then 'x' else 'X';
      s := Prepend(buf, s, subC);
      s := Prepend(buf, s, '0');
      ConcatAssoc(['0'], [subC], old(buf[s0..]));
      assert ['0'] + [subC] == Prefix(fl, base, letbase);
    } else {
      assert buf[s..] == [] + old(buf[s0..]);
    }
  }

  /** Zero (lines 70-74): the text "0", padded, with neither sign nor prefix. */
  method WriteZero(sink: Sink, width: int, fl: Flags) returns (pc: int)
    modifies sink
    ensures sink.chars == old(sink.chars) + Padded("0", width, fl)
    ensures pc == |Padded("0", width, fl)|
  {
    var buf := new char[64];
    buf[0] := '0';
    buf[1] := '\0';
    assert buf[..2] == "0" + ['\0'];
    CStringOf("0", []);
    CStringPrefix(buf[..], 2);
    pc := Prints(sink, buf[..], width, fl);
  }

  /** `printk_write_num(out, i, base, sign, width, flags, letbase, f)`. */
  method WriteNum(sink: Sink, i: int, base: nat, sign: bool, width0: int, fl: Flags, letbase: char)
    returns (pc: int)
    requires IsLongLong(i) && ValidNumArgs(base, letbase)
    modifies sink
    ensures sink.chars == old(sink.chars) + NumText(i, base, sign, width0, fl, letbase)
    ensures pc == |NumText(i, base, sign, width0, fl, letbase)|
  {
    if i == 0 {
      pc := WriteZero(sink, width0, fl);
      return;
    }
    var buf := new char[64];
    var neg := false;
    var u: nat := if i < 0 then i + U64 else i;
    if sign && base == 10 && i < 0 {
      neg := true;
      u := -i;
    }
    assert u == Magnitude(i, base, sign);
    var s := FillDigits(buf, u, base, letbase);
    ghost var digits := Digits(u, base, letbase);
    DigitsShape(u, base, letbase);
    var padZero := width0 != 0 && fl.padZero && !fl.padRight;
    NumTextNonZero(i, base, sign, width0, fl, letbase);
    if padZero {
      pc := WriteZeroPadded(sink, buf, s, digits, neg, width0, fl, base, letbase);
    } else {
      pc := WriteSpacePadded(sink, buf, s, digits, neg, width0, fl, base, letbase);
    }
  }

  /** Zero padding: the sign and the prefix first, then the digits padded with '0' to
      the width, less one for the sign. */
  method WriteZeroPadded(sink: Sink, buf: array<char>, s: nat, ghost digits: seq<char>, neg: bool,
                         width0: int, fl: Flags, base: nat, letbase: char) returns (pc: int)
    requires s <= buf.Length && buf[s..] == digits + ['\0'] && '\0' !in digits
    modifies sink
    ensures var out := Minus(neg) + Prefix(fl, base, letbase) + Padded(digits, if neg then width0 - 1 else width0, fl);
      sink.chars == old(sink.chars) + out && pc == |out|
  {
    var lead := EmitLead(sink, neg, fl, base, letbase);
    var width := if neg then width0 - 1 else width0;
    CStringOf(digits, []);
    var m := Prints(sink, buf[s..], width, fl);
    pc := lead + m;
    ConcatAssoc(old(sink.chars), Minus(neg) + Prefix(fl, base, letbase), Padded(digits, width, fl));
  }

  /** Space (or no) padding: the prefix and the sign go into the buffer in front of the
      digits, and the whole is padded to the width. */
  method WriteSpacePadded(sink: Sink, buf: array<char>, s: nat, ghost digits: seq<char>, neg: bool,
                          width0: int, fl: Flags, base: nat, letbase: char) returns (pc: int)
    requires 3 <= s <= buf.Length && buf[s..] == digits + ['\0'] && '\0' !in digits
    modifies sink, buf
    ensures var out := Padded(Prefix(fl, base, letbase) + Minus(neg) + digits, width0, fl);
      sink.chars == old(sink.chars) + out && pc == |out|
  {
    var s' := PrependLead(buf, s, neg, fl, base, letbase);
    ghost var body := Prefix(fl, base, letbase) + Minus(neg) + digits;
    ConcatAssoc(Prefix(fl, base, letbase) + Minus(neg), digits, ['\0']);
    assert buf[s'..] == body + ['\0'];
    assert '\0' !in body;
    CStringOf(body, []);
    pc := Prints(sink, buf[s'..], width0, fl);
  }

  /** Padding adds neither a minus sign nor anything but the padding character. */
  lemma PaddedKeeps(s: seq<char>, width: int, fl: Flags, c: char)
    requires c != ' ' && c != '0'
    ensures c in Padded(s, width, fl) <==> c in s
  {
    var pad := Repeat(PadChar(width, fl), PadCount(|s|, width));
    assert c !in pad;
  }

  /** A minus sign appears in the output exactly for a signed decimal negative value. */
  lemma NumTextMinus(i: int, base: nat, sign: bool, width: int, fl: Flags, letbase: char)
    requires IsLongLong(i) && ValidNumArgs(base, letbase)
    ensures '-' in NumText(i, base, sign, width, fl, letbase) <==> Negative(i, base, sign)
  {
    PaddedKeeps("0", width, fl, '-');
    if i != 0 {
      var u := Magnitude(i, base, sign);
      var digits := Digits(u, base, letbase);
      DigitsShape(u, base, letbase);
      NumTextNonZero(i, base, sign, width, fl, letbase);
      var neg := Negative(i, base, sign);
      var w := if neg then width - 1 else width;
      PaddedKeeps(digits, w, fl, '-');
      PaddedKeeps(Prefix(fl, base, letbase) + Minus(neg) + digits, width, fl, '-');
      assert '-' !in Prefix(fl, base, letbase);
    }
  }

  /** The output is at least `width` long, and never shorter than the sign, the prefix
      and the digits together. */
  lemma NumTextWidth(i: int, base: nat, sign: bool, width: int, fl: Flags, letbase: char)
    requires IsLongLong(i) && ValidNumArgs(base, letbase)
    ensures |NumText(i, base, sign, width, fl, letbase)| >= width
    ensures i != 0 ==> (|NumText(i, base, sign, width, fl, letbase)| >=
      |Prefix(fl, base, letbase)| + |Minus(Negative(i, base, sign))|
      + |Digits(Magnitude(i, base, sign), base, letbase)|)
    ensures i == 0 ==> |NumText(i, base, sign, width, fl, letbase)| >= 1
  {
    PaddedShape("0", width, fl);
    if i != 0 {
      var neg := Negative(i, base, sign);
      var digits := Digits(Magnitude(i, base, sign), base, letbase);
      NumTextNonZero(i, base, sign, width, fl, letbase);
      PaddedShape(digits, if neg then width - 1 else width, fl);
      PaddedShape(Prefix(fl, base, letbase) + Minus(neg) + digits, width, fl);
    }
  }

  /** Without PAD_RIGHT the digits end the output, and they read back as the magnitude:
      the value itself for a printed negative or a non-negative value, the value
      modulo 2^64 for a negative value printed unsigned. */
  lemma NumTextDigits(i: int, base: nat, sign: bool, width: int, fl: Flags, letbase: char)
    requires IsLongLong(i) && ValidNumArgs(base, letbase) && i != 0 && !fl.padRight
    ensures var r := NumText(i, base, sign, width, fl, letbase);
      var d := Digits(Magnitude(i, base, sign), base, letbase);
      |d| <= |r| && r[|r| - |d|..] == d && ValueOf(d, base) == Magnitude(i, base, sign)
  {
    var u := Magnitude(i, base, sign);
    DigitsRoundTrip(u, base, letbase);
    if PadZero(width, fl) {
      ZeroPaddedSuffix(i, base, sign, width, fl, letbase);
    } else {
      SpacePaddedSuffix(i, base, sign, width, fl, letbase);
    }
  }

  /** Under zero padding the digits end the output. */
  lemma ZeroPaddedSuffix(i: int, base: nat, sign: bool, width: int, fl: Flags, letbase: char)
    requires IsLongLong(i) && ValidNumArgs(base, letbase) && i != 0 && !fl.padRight
    requires PadZero(width, fl)
    ensures var r := NumText(i, base, sign, width, fl, letbase);
      var d := Digits(Magnitude(i, base, sign), base, letbase);
      |d| <= |r| && r[|r| - |d|..] == d
  {
    var neg := Negative(i, base, sign);
    var d := Digits(Magnitude(i, base, sign), base, letbase);
    NumTextNonZero(i, base, sign, width, fl, letbase);
    var w := if neg then width - 1 else width;
    var pad := Repeat(PadChar(w, fl), PadCount(|d|, w));
    var lead := Minus(neg) + Prefix(fl, base, letbase);
    assert NumText(i, base, sign, width, fl, letbase) == lead + (pad + d);
    ConcatAssoc(lead, pad, d);
    SuffixOf(lead + pad, d);
  }

  /** Without zero padding or PAD_RIGHT the digits end the output. */
  lemma SpacePaddedSuffix(i: int, base: nat, sign: bool, width: int, fl: Flags, letbase: char)
    requires IsLongLong(i) && ValidNumArgs(base, letbase) && i != 0 && !fl.padRight
    requires !PadZero(width, fl)
    ensures var r := NumText(i, base, sign, width, fl, letbase);
      var d := Digits(Magnitude(i, base, sign), base, letbase);
      |d| <= |r| && r[|r| - |d|..] == d
  {
    var neg := Negative(i, base, sign);
    var d := Digits(Magnitude(i, base, sign), base, letbase);
    NumTextNonZero(i, base, sign, width, fl, letbase);
    var pre := Prefix(fl, base, letbase) + Minus(neg);
    var pad := Repeat(PadChar(width, fl), PadCount(|pre + d|, width));
    assert NumText(i, base, sign, width, fl, letbase) == pad + (pre + d);
    ConcatAssoc(pad, pre, d);
    SuffixOf(pad + pre, d);
  }

  /** Under zero padding the output is the sign, the prefix, a run of '0' and the digits;
      the run fills the width less one for a sign, and the prefix does not shorten
      it. */
  lemma ZeroPaddedDigits(i: int, base: nat, sign: bool, width: int, fl: Flags, letbase: char)
    requires IsLongLong(i) && ValidNumArgs(base, letbase) && i != 0 && !fl.padRight
    requires PadZero(width, fl)
    ensures var neg := Negative(i, base, sign);
      var d := Digits(Magnitude(i, base, sign), base, letbase);
      var w := if neg then width - 1 else width;
      var k := if w > |d| then w - |d| else 0;
      NumText(i, base, sign, width, fl, letbase) ==
        Minus(neg) + Prefix(fl, base, letbase) + Repeat('0', k) + d
  {
    var neg := Negative(i, base, sign);
    var d := Digits(Magnitude(i, base, sign), base, letbase);
    NumTextNonZero(i, base, sign, width, fl, letbase);
    var w := if neg then width - 1 else width;
    var k := if w > |d| then w - |d| else 0;
    var pad := Repeat(PadChar(w, fl), PadCount(|d|, w));
    if k > 0 {
      assert PadChar(w, fl) == '0';
    }
    assert pad == Repeat('0', k);
    var lead := Minus(neg) + Prefix(fl, base, letbase);
    assert NumText(i, base, sign, width, fl, letbase) == lead + (pad + d);
    ConcatAssoc(lead, pad, d);
  }

  /** Without zero padding (and without PAD_RIGHT) the output is a run of spaces, then
      the prefix, the sign and the digits, the run filling the width. */
  lemma SpacePaddedDigits(i: int, base: nat, sign: bool, width: int, fl: Flags, letbase: char)
    requires IsLongLong(i) && ValidNumArgs(base, letbase) && i != 0 && !fl.padRight
    requires !PadZero(width, fl)
    ensures var neg := Negative(i, base, sign);
      var d := Digits(Magnitude(i, base, sign), base, letbase);
      var n := |Prefix(fl, base, letbase)| + |Minus(neg)| + |d|;
      var k := if width > n then width - n else 0;
      NumText(i, base, sign, width, fl, letbase) ==
        Repeat(' ', k) + Prefix(fl, base, letbase) + Minus(neg) + d
  {
    var neg := Negative(i, base, sign);
    var d := Digits(Magnitude(i, base, sign), base, letbase);
    NumTextNonZero(i, base, sign, width, fl, letbase);
    var pre := Prefix(fl, base, letbase) + Minus(neg);
    var n := |Prefix(fl, base, letbase)| + |Minus(neg)| + |d|;
    assert |pre + d| == n;
    var pad := Repeat(PadChar(width, fl), PadCount(n, width));
    assert PadChar(width, fl) == ' ';
    assert pad == Repeat(' ', if width > n then width - n else 0);
    assert NumText(i, base, sign, width, fl, letbase) == pad + (pre + d);
    ConcatAssoc(pad, pre, d);
  }

  /** The magnitude is the value itself for a printed negative, and the value modulo
      2^64 (its unsigned reading) otherwise. */
  lemma MagnitudeMod(i: int, base: nat, sign: bool)
    requires IsLongLong(i)
    ensures Negative(i, base, sign) ==> Magnitude(i, base, sign) == -i
    ensures !Negative(i, base, sign) ==> Magnitude(i, base, sign) == i % U64
  {
  }

  /** With zero padding the sign comes first and the prefix after it; with PAD_RIGHT
      the prefix comes first, then the sign, then the digits. */
  lemma NumTextLead(i: int, base: nat, sign: bool, width: int, fl: Flags, letbase: char)
    requires IsLongLong(i) && ValidNumArgs(base, letbase) && i != 0
    ensures var r := NumText(i, base, sign, width, fl, letbase);
      var lead := Minus(Negative(i, base, sign)) + Prefix(fl, base, letbase);
      PadZero(width, fl) ==> |lead| <= |r| && r[..|lead|] == lead
    ensures var r := NumText(i, base, sign, width, fl, letbase);
      var body := Prefix(fl, base, letbase) + Minus(Negative(i, base, sign))
        + Digits(Magnitude(i, base, sign), base, letbase);
      fl.padRight ==> |body| <= |r| && r[..|body|] == body
  {
    NumTextNonZero(i, base, sign, width, fl, letbase);
    var neg := Negative(i, base, sign);
    var d := Digits(Magnitude(i, base, sign), base, letbase);
    PaddedShape(Prefix(fl, base, letbase) + Minus(neg) + d, width, fl);
  }

  /** Zero prints as a lone "0" among padding: no sign and no prefix. */
  lemma NumTextZero(base: nat, sign: bool, width: int, fl: Flags, letbase: char)
    requires ValidNumArgs(base, letbase)
    ensures var r := NumText(0, base, sign, width, fl, letbase);
      '0' in r && forall k :: 0 <= k < |r| ==> r[k] == '0' || r[k] == ' '
  {
    var r := NumText(0, base, sign, width, fl, letbase);
    PaddedShape("0", width, fl);
    if fl.padRight {
      assert r[0] == '0';
    } else {
      assert r[|r| - 1] == '0';
    }
  }

  lemma CStringPrefix(s: seq<char>, n: nat)
    requires n <= |s| && '\0' in s[..n]
    ensures CString(s) == CString(s[..n])
  {
    var r := CString(s[..n]);
    assert forall k :: 0 <= k <= |r| ==> s[k] == s[..n][k];
  }

  lemma RepeatSnoc<T>(c: T, n: nat)
    ensures Repeat(c, n + 1) == Repeat(c, n) + [c]
  {
  }
}
