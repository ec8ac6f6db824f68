/** `simple_vsprintf`: the format-string walk of the freestanding formatter. The
    variadic arguments are a sequence of 64-bit slots, and the scratch union `u` that
    every conversion stores its argument into is carried along as a 64-bit word. */
module PrintkFormat {
  import opened Base
  import opened Printk

  /** One variadic slot: the 64-bit register value, and for `%s` the C string found at
      that address (a value of 0 is the null pointer). */
  datatype Arg = Arg(word: nat, text: seq<char>)

  predicate ValidArg(a: Arg) {
    a.word < U64 && '\0' in a.text
  }

  predicate ValidArgs(args: seq<Arg>) {
    forall k :: 0 <= k < |args| ==> ValidArg(args[k])
  }

  /** The `k`-th slot; reading past the supplied ones yields a zero word. */
  function ArgAt(args: seq<Arg>, k: nat): (a: Arg)
    ensures ValidArgs(args) ==> ValidArg(a)
    ensures k < |args| ==> a == args[k]
  {
    if k < |args| then args[k] else Arg(0, "\0")
  }

  /** The byte at `format + i`; the modelled memory ends in zeros. */
  function At(fmt: seq<char>, i: nat): char {
    if i < |fmt| then fmt[i] else '\0'
  }

  predicate IsWidth(m: nat) {
    m == U8 || m == U16 || m == U32 || m == U64
  }

  /** Writing the low `m`-modulus part of the union (a member of that size, on a
      little-endian machine): the low part becomes `w`'s, the upper part is kept. */
  function Store(un: nat, w: nat, m: nat): (r: nat)
    requires un < U64 && IsWidth(m)
    ensures r < U64
    ensures r % m == w % m
    ensures r - r % m == un - un % m
  {
    un - un % m + w % m
  }

  // ---------------------------------------------------------------------------
  // The directive: flags and width (lines 156-183)
  // ---------------------------------------------------------------------------

  datatype Directive = Directive(fl: Flags, width: int, conv: nat, ai: nat)

  predicate IsDigit(c: char) {
    '0' <= c <= '9'
  }

  /** The end of the run of '0' flags starting at `p`. */
  function ZeroRun(fmt: seq<char>, p: nat): (q: nat)
    requires p <= |fmt|
    ensures p <= q <= |fmt|
    ensures At(fmt, q) != '0'
    ensures forall k :: p <= k < q ==> fmt[k] == '0'
    decreases |fmt| - p
  {
    if At(fmt, p) == '0' then ZeroRun(fmt, p + 1) else p
  }

  /** The decimal width loop: `acc` times ten plus each digit, up to the first
      non-digit, whose index comes back with the value. */
  function WidthDigits(fmt: seq<char>, p: nat, acc: int): (r: (int, nat))
    requires p <= |fmt|
    ensures p <= r.1 <= |fmt|
    ensures !IsDigit(At(fmt, r.1))
    ensures forall k :: p <= k < r.1 ==> IsDigit(fmt[k])
    decreases |fmt| - p
  {
    if IsDigit(At(fmt, p)) then WidthDigits(fmt, p + 1, acc * 10 + (fmt[p] as int - '0' as int))
    else (acc, p)
  }

  /** The flags '-', '#' and a run of '0' in that order, then '*' (the width from the
      next slot, read as an `int`) or decimal digits. `conv` is the index of the
      character after the directive. */
  function ParseDirective(fmt: seq<char>, p: nat, args: seq<Arg>, ai: nat): (d: Directive)
    requires p <= |fmt|
    ensures p <= d.conv <= |fmt|
    ensures d.ai == ai || d.ai == ai + 1
    ensures d.fl.padRight <==> At(fmt, p) == '-'
  {
    var right := At(fmt, p) == '-';
    var p1 := if right then p + 1 else p;
    var pre := At(fmt, p1) == '#';
    var p2 := if pre then p1 + 1 else p1;
    var p3 := ZeroRun(fmt, p2);
    var fl := Flags(p3 > p2, right, pre);
    if At(fmt, p3) == '*' then
      Directive(fl, Signed(ArgAt(args, ai).word % U32, 0x8000_0000), p3 + 1, ai + 1)
    else
      var r := WidthDigits(fmt, p3, 0);
      Directive(fl, r.0, r.1, ai)
  }

  // ---------------------------------------------------------------------------
  // The conversion (lines 184-462)
  // ---------------------------------------------------------------------------

  /** The length modifier: none, `l` or `ll` (both 64-bit here), `h`, `hh`. */
  datatype Size = Plain | Long | Short | Byte

  /** The modifier at `c` and the index of the conversion letter after it. */
  function Modifier(fmt: seq<char>, c: nat): (r: (Size, nat))
    requires c <= |fmt|
    ensures c <= r.1 <= |fmt|
    ensures r.0 == Plain <==> r.1 == c
    ensures r.0 == Plain ==> At(fmt, c) != 'l' && At(fmt, c) != 'h'
  {
    if At(fmt, c) == 'l' then
      if At(fmt, c + 1) == 'l' then (Long, c + 2) else (Long, c + 1)
    else if At(fmt, c) == 'h' then
      if At(fmt, c + 1) == 'h' then (Byte, c + 2) else (Short, c + 1)
    else (Plain, c)
  }

  datatype NumFormat = NumFormat(base: nat, sign: bool, letbase: char)

  /** The integer conversions: `d u o x X` after any modifier, and `p` without one. */
  function NumFormatOf(size: Size, ch: char): (r: Option<NumFormat>)
    ensures r.Some? ==> ValidNumArgs(r.value.base, r.value.letbase)
    ensures r.Some? && r.value.sign ==> ch == 'd'
  {
    if ch == 'd' then Some(NumFormat(10, true, 'a'))
    else if ch == 'u' then Some(NumFormat(10, false, 'a'))
    else if ch == 'o' then Some(NumFormat(8, false, 'a'))
    else if ch == 'x' then Some(NumFormat(16, false, 'a'))
    else if ch == 'X' then Some(NumFormat(16, false, 'A'))
    else if ch == 'p' && size == Plain then Some(NumFormat(16, false, 'a'))
    else None
  }

  /** The `long long` handed to `printk_write_num`, and the union afterwards. The
      unsigned `h` and `hh` conversions store the short or byte member but pass all 64
      bits of the union read as `u.lli`. */
  function NumValue(size: Size, ch: char, w: nat, un: nat): (r: (int, nat))
    requires w < U64 && un < U64
    ensures IsLongLong(r.0) && r.1 < U64
  {
    match size
    case Plain =>
      if ch == 'p' then (Signed(w, 0x8000_0000_0000_0000), Store(un, w, U64))
      else if ch == 'd' then (Signed(w % U32, 0x8000_0000), Store(un, w, U32))
      else (w % U32, Store(un, w, U32))
    case Long => (Signed(w, 0x8000_0000_0000_0000), Store(un, w, U64))
    case Short =>
      var un' := Store(un, w, U16);
      if ch == 'd' then (Signed(w % U16, 0x8000), un')
      else (Signed(un', 0x8000_0000_0000_0000), un')
    case Byte =>
      var un' := Store(un, w, U8);
      if ch == 'd' then (Signed(w % U8, 0x80), un')
      else (Signed(un', 0x8000_0000_0000_0000), un')
  }

  /** What one conversion emits, the slots it consumes and the union afterwards. */
  datatype Conv = Conv(text: seq<char>, ai: nat, un: nat)

  /** The text `%s` prints: "(null)" for a null pointer. */
  function StringArg(a: Arg): seq<char> {
    if a.word == 0 then "(null)" else CString(a.text)
  }

  function Convert(size: Size, ch: char, fl: Flags, width: int, args: seq<Arg>, ai: nat, un: nat): (r: Conv)
    requires ValidArgs(args) && un < U64
    ensures r.un < U64
    ensures r.ai == ai || r.ai == ai + 1
    ensures r.ai == ai ==> r.text == [] && r.un == un
  {
    var a := ArgAt(args, ai);
    var nf := NumFormatOf(size, ch);
    if nf.Some? then
      var v := NumValue(size, ch, a.word, un);
      Conv(NumText(v.0, nf.value.base, nf.value.sign, width, fl, nf.value.letbase), ai + 1, v.1)
    else if size == Plain && ch == 'c' then
      Conv(Padded(CString([(a.word % U8) as char, '\0']), width, fl), ai + 1, Store(un, a.word, U8))
    else if size == Plain && ch == 's' then
      Conv(Padded(StringArg(a), width, fl), ai + 1, Store(un, a.word, U64))
    else Conv([], ai, un)
  }

  // ---------------------------------------------------------------------------
  // The walk (lines 155-471)
  // ---------------------------------------------------------------------------

  /** What one turn of the loop does at a character other than the terminator: the
      text it emits, where the next turn starts (past the `++format` of the loop
      header), the slot and union state it leaves, and whether it `break`s. */
  datatype Turn = Turn(text: seq<char>, next: nat, ai: nat, un: nat, stop: bool)

  function TurnAt(fmt: seq<char>, i: nat, args: seq<Arg>, ai: nat, un: nat): (t: Turn)
    requires i < |fmt| && fmt[i] != '\0' && ValidArgs(args) && un < U64
    ensures i < t.next <= |fmt| + 1 && t.un < U64
  {
    if fmt[i] != '%' then Turn([fmt[i]], i + 1, ai, un, false)
    else if At(fmt, i + 1) == '\0' then Turn([], i + 1, ai, un, true)
    else if At(fmt, i + 1) == '%' then Turn("%", i + 2, ai, un, false)
    else
      var d := ParseDirective(fmt, i + 1, args, ai);
      var m := Modifier(fmt, d.conv);
      var c := Convert(m.0, At(fmt, m.1), d.fl, d.width, args, d.ai, un);
      Turn(c.text, m.1 + 1, c.ai, c.un, false)
  }

  /** Everything emitted from index `i` of the format on, with slot `ai` next and the
      union holding `un`. */
  function FormatFrom(fmt: seq<char>, i: nat, args: seq<Arg>, ai: nat, un: nat): seq<char>
    requires i <= |fmt| + 1 && ValidArgs(args) && un < U64
    decreases |fmt| + 1 - i
  {
    if At(fmt, i) == '\0' then []
    else
      var t := TurnAt(fmt, i, args, ai, un);
      t.text + if t.stop then [] else FormatFrom(fmt, t.next, args, t.ai, t.un)
  }

  /** An ordinary character is copied. */
  lemma PlainChar(fmt: seq<char>, i: nat, args: seq<Arg>, ai: nat, un: nat)
    requires i < |fmt| && ValidArgs(args) && un < U64
    requires fmt[i] != '\0' && fmt[i] != '%'
    ensures FormatFrom(fmt, i, args, ai, un) == [fmt[i]] + FormatFrom(fmt, i + 1, args, ai, un)
  {
  }

  /** "%%" emits one '%' and consumes no slot. */
  lemma DoublePercent(fmt: seq<char>, i: nat, args: seq<Arg>, ai: nat, un: nat)
    requires i + 1 < |fmt| && ValidArgs(args) && un < U64
    requires fmt[i] == '%' && fmt[i + 1] == '%'
    ensures FormatFrom(fmt, i, args, ai, un) == "%" + FormatFrom(fmt, i + 2, args, ai, un)
  {
  }

  /** A '%' just before the terminator ends the output. */
  lemma TrailingPercent(fmt: seq<char>, i: nat, args: seq<Arg>, ai: nat, un: nat)
    requires i < |fmt| && ValidArgs(args) && un < U64
    requires fmt[i] == '%' && At(fmt, i + 1) == '\0'
    ensures FormatFrom(fmt, i, args, ai, un) == []
  {
    assert TurnAt(fmt, i, args, ai, un).text == [];
  }

  function Format(fmt: seq<char>, args: seq<Arg>, init: nat): seq<char>
    requires ValidArgs(args) && init < U64
  {
    FormatFrom(fmt, 0, args, 0, init)
  }

  lemma NoConversion(size: Size, ch: char, fl: Flags, width: int, args: seq<Arg>, ai: nat, un: nat)
    requires ValidArgs(args) && un < U64
    requires NumFormatOf(size, ch).None? && ch != 'c' && ch != 's'
    ensures Convert(size, ch, fl, width, args, ai, un) == Conv([], ai, un)
  {
  }

  /** A format without directives is copied up to its terminator. */
  lemma {:induction false} PlainText(fmt: seq<char>, i: nat, args: seq<Arg>, ai: nat, un: nat)
    requires i <= |fmt| && '%' !in fmt && ValidArgs(args) && un < U64
    ensures FormatFrom(fmt, i, args, ai, un) == CString(fmt[i..])
    decreases |fmt| - i
  {
    if At(fmt, i) != '\0' {
      PlainText(fmt, i + 1, args, ai, un);
      assert fmt[i..][1..] == fmt[i + 1..];
    }
  }

  /** A '%' followed by a character that is neither a flag, a width, a modifier nor a
      conversion prints nothing and skips that character, consuming no slot. */
  predicate DirectiveStart(c: char) {
    c == '\0' || c == '%' || c == '-' || c == '#' || c == '*' || IsDigit(c)
    || c == 'l' || c == 'h' || c == 'd' || c == 'u' || c == 'o' || c == 'x' || c == 'X'
    || c == 'p' || c == 'c' || c == 's'
  }

  lemma UnknownConversion(fmt: seq<char>, i: nat, args: seq<Arg>, ai: nat, un: nat)
    requires i + 1 < |fmt| && ValidArgs(args) && un < U64
    requires fmt[i] == '%' && !DirectiveStart(fmt[i + 1])
    ensures FormatFrom(fmt, i, args, ai, un) == FormatFrom(fmt, i + 2, args, ai, un)
  {
    var d := ParseDirective(fmt, i + 1, args, ai);
    assert d.conv == i + 1 && d.ai == ai;
    assert Modifier(fmt, i + 1) == (Plain, i + 1);
    NoConversion(Plain, fmt[i + 1], d.fl, d.width, args, ai, un);
    assert TurnAt(fmt, i, args, ai, un) == Turn([], i + 2, ai, un, false);
  }

  /** "%s" with a null pointer prints "(null)". */
  lemma NullString(fmt: seq<char>, i: nat, args: seq<Arg>, ai: nat, un: nat)
    requires i + 1 < |fmt| && ValidArgs(args) && un < U64
    requires fmt[i] == '%' && fmt[i + 1] == 's' && ArgAt(args, ai).word == 0
    ensures FormatFrom(fmt, i, args, ai, un) == "(null)" + FormatFrom(fmt, i + 2, args, ai + 1, 0)
  {
    NullTurn(fmt, i, args, ai, un);
  }

  lemma NullTurn(fmt: seq<char>, i: nat, args: seq<Arg>, ai: nat, un: nat)
    requires i + 1 < |fmt| && ValidArgs(args) && un < U64
    requires fmt[i] == '%' && fmt[i + 1] == 's' && ArgAt(args, ai).word == 0
    ensures TurnAt(fmt, i, args, ai, un) == Turn("(null)", i + 2, ai + 1, 0, false)
  {
    var fl := Flags(false, false, false);
    var d := ParseDirective(fmt, i + 1, args, ai);
    assert d == Directive(fl, 0, i + 1, ai);
    assert Modifier(fmt, i + 1) == (Plain, i + 1);
    NullConvert(args, ai, un);
  }

  lemma NullConvert(args: seq<Arg>, ai: nat, un: nat)
    requires ValidArgs(args) && un < U64 && ArgAt(args, ai).word == 0
    ensures Convert(Plain, 's', Flags(false, false, false), 0, args, ai, un) == Conv("(null)", ai + 1, 0)
  {
    PaddedNoPad("(null)", 0, Flags(false, false, false));
    assert NumFormatOf(Plain, 's') == None;
  }

  /** The width digits read back as their decimal value. */
  lemma {:induction false} WidthValue(fmt: seq<char>, q: nat, p: nat)
    requires q <= p <= |fmt|
    requires forall k :: q <= k < p ==> IsDigit(fmt[k])
    ensures var r := WidthDigits(fmt, p, ValueOf(fmt[q..p], 10));
      q <= r.1 && r.0 == ValueOf(fmt[q..r.1], 10)
    decreases |fmt| - p
  {
    if IsDigit(At(fmt, p)) {
      WidthStep(fmt, q, p);
      WidthValue(fmt, q, p + 1);
    }
  }

  /** One more digit of the width: the accumulator times ten plus the digit. */
  lemma WidthStep(fmt: seq<char>, q: nat, p: nat)
    requires q <= p < |fmt| && IsDigit(fmt[p])
    ensures ValueOf(fmt[q..p + 1], 10) == ValueOf(fmt[q..p], 10) * 10 + (fmt[p] as int - '0' as int)
    ensures WidthDigits(fmt, p, ValueOf(fmt[q..p], 10)) == WidthDigits(fmt, p + 1, ValueOf(fmt[q..p + 1], 10))
  {
    assert fmt[q..p + 1] == fmt[q..p] + [fmt[p]];
    ValueOfSnoc(fmt[q..p], fmt[p], 10);
  }

  lemma WidthIsDecimal(fmt: seq<char>, p: nat)
    requires p <= |fmt|
    ensures var r := WidthDigits(fmt, p, 0);
      r.0 == ValueOf(fmt[p..r.1], 10)
  {
    assert fmt[p..p] == [];
    WidthValue(fmt, p, p);
  }

  // ---------------------------------------------------------------------------
  // Two departures from the evident intent
  // ---------------------------------------------------------------------------

  /** The unsigned `h` and `hh` conversions as evidently intended: the stored short or
      byte member is printed, not the whole union. */
  function NumValueFixed(size: Size, ch: char, w: nat, un: nat): (r: (int, nat))
    requires w < U64 && un < U64
    ensures IsLongLong(r.0) && r.1 < U64
  {
    if size == Short && ch != 'd' then (w % U16, Store(un, w, U16))
    else if size == Byte && ch != 'd' then (w % U8, Store(un, w, U8))
    else NumValue(size, ch, w, un)
  }

  /** The corrected value depends on the argument alone and fits the member. */
  lemma FixedSmallValue(size: Size, ch: char, w: nat, un1: nat, un2: nat)
    requires w < U64 && un1 < U64 && un2 < U64
    requires (size == Short || size == Byte) && ch != 'd'
    ensures NumValueFixed(size, ch, w, un1).0 == NumValueFixed(size, ch, w, un2).0
    ensures 0 <= NumValueFixed(size, ch, w, un1).0 < (if size == Short then U16 else U8)
  {
  }

  /** As written, the printed value is the union; the two agree exactly when the
      union's upper part (left by earlier conversions) is zero. */
  lemma SmallValueAgreement(size: Size, ch: char, w: nat, un: nat)
    requires w < U64 && un < U64
    requires (size == Short || size == Byte) && ch != 'd'
    ensures var m := if size == Short then U16 else U8;
      NumValue(size, ch, w, un) == NumValueFixed(size, ch, w, un) <==> un - un % m == 0
  {
  }

  /** "%lx%hu" with 0x10000 and 5 prints "10000" and then 65541, not 5. */
  lemma ShortReadsUnion()
    ensures NumValue(Long, 'x', 0x1_0000, 0) == (0x1_0000, 0x1_0000)
    ensures NumValue(Short, 'u', 5, 0x1_0000).0 == 0x1_0005
    ensures NumValueFixed(Short, 'u', 5, 0x1_0000).0 == 5
  {
  }

  /** A turn as evidently intended: a directive whose conversion letter is the
      terminator ends the walk there, instead of stepping past it. */
  function TurnFixed(fmt: seq<char>, i: nat, args: seq<Arg>, ai: nat, un: nat): (t: Turn)
    requires i < |fmt| && fmt[i] != '\0' && ValidArgs(args) && un < U64
    ensures i < t.next <= |fmt| + 1 && t.un < U64
  {
    if fmt[i] != '%' || At(fmt, i + 1) == '\0' || At(fmt, i + 1) == '%' then TurnAt(fmt, i, args, ai, un)
    else
      var d := ParseDirective(fmt, i + 1, args, ai);
      var m := Modifier(fmt, d.conv);
      if At(fmt, m.1) == '\0' then Turn([], m.1, ai, un, true)
      else TurnAt(fmt, i, args, ai, un)
  }

  /** Flags and width span only characters before the terminator. */
  lemma DirectiveNoNul(fmt: seq<char>, p: nat, args: seq<Arg>, ai: nat)
    requires p <= |fmt|
    ensures forall k :: p <= k < ParseDirective(fmt, p, args, ai).conv ==> fmt[k] != '\0'
  {
    var p1 := if At(fmt, p) == '-' then p + 1 else p;
    var p2 := if At(fmt, p1) == '#' then p1 + 1 else p1;
    var p3 := ZeroRun(fmt, p2);
    assert forall k :: p2 <= k < p3 ==> fmt[k] == '0';
    if At(fmt, p3) != '*' {
      var r := WidthDigits(fmt, p3, 0);
      assert forall k :: p3 <= k < r.1 ==> IsDigit(fmt[k]);
    }
  }

  /** The corrected turn consumes only characters before the terminator, and a walk
      that does not stop resumes at a character that is still inside the string. */
  lemma TurnFixedStaysInside(fmt: seq<char>, i: nat, args: seq<Arg>, ai: nat, un: nat)
    requires i < |fmt| && fmt[i] != '\0' && ValidArgs(args) && un < U64
    ensures var t := TurnFixed(fmt, i, args, ai, un);
      t.next <= |fmt| && forall k :: i <= k < t.next ==> fmt[k] != '\0'
  {
    if fmt[i] == '%' && At(fmt, i + 1) != '\0' && At(fmt, i + 1) != '%' {
      var d := ParseDirective(fmt, i + 1, args, ai);
      var m := Modifier(fmt, d.conv);
      DirectiveNoNul(fmt, i + 1, args, ai);
      assert forall k :: d.conv <= k < m.1 ==> fmt[k] != '\0';
      if At(fmt, m.1) != '\0' {
        assert TurnFixed(fmt, i, args, ai, un).next == m.1 + 1;
      }
    }
  }

  /** The "%5" half of PastTerminator. */
  lemma PastTerminatorWidth()
    ensures Format("%5\0A\0", [], 0) == "A"
  {
    var fmt := "%5\0A\0";
    assert WidthDigits(fmt, 1, 0) == (5, 2);
    assert ParseDirective(fmt, 1, [], 0) == Directive(Flags(false, false, false), 5, 2, 0);
    assert Modifier(fmt, 2) == (Plain, 2);
    assert TurnAt(fmt, 0, [], 0, 0) == Turn([], 3, 0, 0, false);
    assert TurnAt(fmt, 3, [], 0, 0) == Turn("A", 4, 0, 0, false);
    assert FormatFrom(fmt, 4, [], 0, 0) == [];
  }

  /** As written, "%l" just before the terminator steps over it, and so does "%5", a
      directive cut short after its width: the bytes after the terminator are
      formatted too. */
  lemma PastTerminator()
    ensures TurnAt("%l\0A\0", 0, [], 0, 0).next == 3
    ensures Format("%l\0A\0", [], 0) == "A"
    ensures Format("%5\0A\0", [], 0) == "A"
  {
    PastTerminatorLong();
    PastTerminatorWidth();
  }

  /** The "%l" half of PastTerminator. */
  lemma PastTerminatorLong()
    ensures TurnAt("%l\0A\0", 0, [], 0, 0).next == 3
    ensures Format("%l\0A\0", [], 0) == "A"
  {
    var fmt := "%l\0A\0";
    assert ParseDirective(fmt, 1, [], 0) == Directive(Flags(false, false, false), 0, 1, 0);
    assert Modifier(fmt, 1) == (Long, 2);
    assert TurnAt(fmt, 0, [], 0, 0) == Turn([], 3, 0, 0, false);
    assert TurnAt(fmt, 3, [], 0, 0) == Turn("A", 4, 0, 0, false);
    assert FormatFrom(fmt, 4, [], 0, 0) == [];
  }

  // ---------------------------------------------------------------------------
  // The procedure
  // ---------------------------------------------------------------------------

  /** Lines 156-183: the flags and the width of the directive that starts at `p0`,
      leaving `p` at the character after them. */
  method ReadDirective(fmt: seq<char>, p0: nat, args: seq<Arg>, ai0: nat)
    returns (fl: Flags, width: int, p: nat, ai: nat)
    requires p0 <= |fmt|
    ensures Directive(fl, width, p, ai) == ParseDirective(fmt, p0, args, ai0)
  {
    p, ai, width := p0, ai0, 0;
    var padZero, padRight, prefix := false, false, false;
    if At(fmt, p) == '-' {
      p := p + 1;
      padRight := true;
    }
    if At(fmt, p) == '#' {
      p := p + 1;
      prefix := true;
    }
    var p2 := p;
    p := SkipZeros(fmt, p);
    padZero := p > p2;
    fl := Flags(padZero, padRight, prefix);
    if At(fmt, p) == '*' {
      width := Signed(ArgAt(args, ai).word % U32, 0x8000_0000);
      ai := ai + 1;
      p := p + 1;
    } else {
      width, p := ReadWidth(fmt, p);
    }
  }

  /** The '0' flag loop (lines 170-173). */
  method SkipZeros(fmt: seq<char>, p0: nat) returns (p: nat)
    requires p0 <= |fmt|
    ensures p == ZeroRun(fmt, p0)
  {
    p := p0;
    while At(fmt, p) == '0'
      invariant p0 <= p <= |fmt|
      invariant ZeroRun(fmt, p0) == ZeroRun(fmt, p)
      decreases |fmt| - p
    {
      p := p + 1;
    }
  }

  /** The decimal width loop (lines 178-182). */
  method ReadWidth(fmt: seq<char>, p0: nat) returns (width: int, p: nat)
    requires p0 <= |fmt|
    ensures (width, p) == WidthDigits(fmt, p0, 0)
  {
    p, width := p0, 0;
    while IsDigit(At(fmt, p))
      invariant p0 <= p <= |fmt|
      invariant WidthDigits(fmt, p0, 0) == WidthDigits(fmt, p, width)
      decreases |fmt| - p
    {
      width := width * 10 + (fmt[p] as int - '0' as int);
      p := p + 1;
    }
  }

  /** The conversions without a modifier (lines 185-238). */
  method PlainConversion(sink: Sink, ch: char, fl: Flags, width: int, args: seq<Arg>, ai: nat, un: nat)
    returns (pc: int, ai2: nat, un2: nat)
    requires ValidArgs(args) && un < U64
    modifies sink
    ensures var r := Convert(Plain, ch, fl, width, args, ai, un);
      sink.chars == old(sink.chars) + r.text && pc == |r.text| && ai2 == r.ai && un2 == r.un
  {
    if NumFormatOf(Plain, ch).Some? {
      pc, ai2, un2 := PlainNumber(sink, ch, fl, width, args, ai, un);
    } else if ch == 'c' {
      CharConvert(fl, width, args, ai, un);
      pc, ai2, un2 := CharConversion(sink, fl, width, args, ai, un);
    } else if ch == 's' {
      StringConvert(fl, width, args, ai, un);
      pc, ai2, un2 := StringConversion(sink, fl, width, args, ai, un);
    } else {
      ai2, un2, pc := ai, un, 0;
    }
  }

  /** `d`, `u`, `x`, `X`, `o` read an `int`-sized slot; `p` reads a pointer. */
  method PlainNumber(sink: Sink, ch: char, fl: Flags, width: int, args: seq<Arg>, ai: nat, un: nat)
    returns (pc: int, ai2: nat, un2: nat)
    requires ValidArgs(args) && un < U64 && NumFormatOf(Plain, ch).Some?
    modifies sink
    ensures var r := Convert(Plain, ch, fl, width, args, ai, un);
      sink.chars == old(sink.chars) + r.text && pc == |r.text| && ai2 == r.ai && un2 == r.un
  {
    var w := ArgAt(args, ai).word;
    ai2 := ai + 1;
    var nf := NumFormatOf(Plain, ch).value;
    var v: int;
    if ch == 'p' {
      un2 := Store(un, w, U64);
      v := Signed(w, 0x8000_0000_0000_0000);
    } else {
      un2 := Store(un, w, U32);
      v := if ch == 'd' then Signed(w % U32, 0x8000_0000) else w % U32;
    }
    pc := WriteNum(sink, v, nf.base, nf.sign, width, fl, nf.letbase);
  }

  /** `c` prints the low byte as a one-character string. */
  method CharConversion(sink: Sink, fl: Flags, width: int, args: seq<Arg>, ai: nat, un: nat)
    returns (pc: int, ai2: nat, un2: nat)
    requires ValidArgs(args) && un < U64
    modifies sink
    ensures var w := ArgAt(args, ai).word;
      var text := Padded(CString([(w % U8) as char, '\0']), width, fl);
      sink.chars == old(sink.chars) + text && pc == |text| && ai2 == ai + 1 && un2 == Store(un, w, U8)
  {
    var w := ArgAt(args, ai).word;
    ai2 := ai + 1;
    un2 := Store(un, w, U8);
    pc := Prints(sink, [(w % U8) as char, '\0'], width, fl);
  }

  /** `s` prints the string, or "(null)" for a null pointer. */
  method StringConversion(sink: Sink, fl: Flags, width: int, args: seq<Arg>, ai: nat, un: nat)
    returns (pc: int, ai2: nat, un2: nat)
    requires ValidArgs(args) && un < U64
    modifies sink
    ensures var a := ArgAt(args, ai);
      var text := Padded(StringArg(a), width, fl);
      sink.chars == old(sink.chars) + text && pc == |text| && ai2 == ai + 1 && un2 == Store(un, a.word, U64)
  {
    var a := ArgAt(args, ai);
    ai2 := ai + 1;
    un2 := Store(un, a.word, U64);
    var str := if a.word != 0 then a.text else NullText();
    pc := Prints(sink, str, width, fl);
  }

  /** The C string the code prints for a null `%s` argument. */
  function NullText(): (s: seq<char>)
    ensures '\0' in s && CString(s) == "(null)"
  {
    CStringOf("(null)", []);
    "(null)\0"
  }

  lemma CharConvert(fl: Flags, width: int, args: seq<Arg>, ai: nat, un: nat)
    requires ValidArgs(args) && un < U64
    ensures var w := ArgAt(args, ai).word;
      Convert(Plain, 'c', fl, width, args, ai, un) ==
        Conv(Padded(CString([(w % U8) as char, '\0']), width, fl), ai + 1, Store(un, w, U8))
  {
    assert NumFormatOf(Plain, 'c') == None;
  }

  lemma StringConvert(fl: Flags, width: int, args: seq<Arg>, ai: nat, un: nat)
    requires ValidArgs(args) && un < U64
    ensures var a := ArgAt(args, ai);
      Convert(Plain, 's', fl, width, args, ai, un) ==
        Conv(Padded(StringArg(a), width, fl), ai + 1, Store(un, a.word, U64))
  {
    assert NumFormatOf(Plain, 's') == None;
  }

  /** The `l` and `ll` conversions (lines 239-364): all of them read a 64-bit slot. */
  method LongConversion(sink: Sink, ch: char, fl: Flags, width: int, args: seq<Arg>, ai: nat, un: nat)
    returns (pc: int, ai2: nat, un2: nat)
    requires ValidArgs(args) && un < U64
    modifies sink
    ensures var r := Convert(Long, ch, fl, width, args, ai, un);
      sink.chars == old(sink.chars) + r.text && pc == |r.text| && ai2 == r.ai && un2 == r.un
  {
    var w := ArgAt(args, ai).word;
    var nf := NumFormatOf(Long, ch);
    if nf.Some? {
      ai2 := ai + 1;
      un2 := Store(un, w, U64);
      pc := WriteNum(sink, Signed(w, 0x8000_0000_0000_0000), nf.value.base, nf.value.sign, width, fl, nf.value.letbase);
    } else {
      ai2, un2, pc := ai, un, 0;
    }
  }

  /** The `h` and `hh` conversions (lines 365-459). `d` prints the stored member; the
      others print the whole union as `u.lli`. */
  method SmallConversion(sink: Sink, size: Size, ch: char, fl: Flags, width: int, args: seq<Arg>, ai: nat, un: nat)
    returns (pc: int, ai2: nat, un2: nat)
    requires size == Short || size == Byte
    requires ValidArgs(args) && un < U64
    modifies sink
    ensures var r := Convert(size, ch, fl, width, args, ai, un);
      sink.chars == old(sink.chars) + r.text && pc == |r.text| && ai2 == r.ai && un2 == r.un
  {
    var w := ArgAt(args, ai).word;
    var m, half := if size == Short then U16 else U8, if size == Short then 0x8000 else 0x80;
    var nf := NumFormatOf(size, ch);
    if nf.Some? {
      ai2 := ai + 1;
      un2 := Store(un, w, m);
      var v := if ch == 'd' then Signed(w % m, half) else Signed(un2, 0x8000_0000_0000_0000);
      pc := WriteNum(sink, v, nf.value.base, nf.value.sign, width, fl, nf.value.letbase);
    } else {
      ai2, un2, pc := ai, un, 0;
    }
  }

  /** Reads the length modifier at `c` and performs the conversion, leaving `k` at the
      conversion letter. */
  method ConvertAt(sink: Sink, fmt: seq<char>, c: nat, fl: Flags, width: int, args: seq<Arg>, ai: nat, un: nat)
    returns (pc: int, k: nat, ai2: nat, un2: nat)
    requires c <= |fmt| && ValidArgs(args) && un < U64
    modifies sink
    ensures k == Modifier(fmt, c).1
    ensures var r := Convert(Modifier(fmt, c).0, At(fmt, k), fl, width, args, ai, un);
      sink.chars == old(sink.chars) + r.text && pc == |r.text| && ai2 == r.ai && un2 == r.un
  {
    k := c;
    var size := Plain;
    if At(fmt, c) == 'l' {
      k, size := c + 1, Long;
      if At(fmt, k) == 'l' {
        k := k + 1;
      }
    } else if At(fmt, c) == 'h' {
      k, size := c + 1, Short;
      if At(fmt, k) == 'h' {
        k, size := k + 1, Byte;
      }
    }
    assert (size, k) == Modifier(fmt, c);
    if size == Plain {
      pc, ai2, un2 := PlainConversion(sink, At(fmt, k), fl, width, args, ai, un);
    } else if size == Long {
      pc, ai2, un2 := LongConversion(sink, At(fmt, k), fl, width, args, ai, un);
    } else {
      pc, ai2, un2 := SmallConversion(sink, size, At(fmt, k), fl, width, args, ai, un);
    }
  }

  /** One turn of the loop (lines 155-467) at a character that is not the
      terminator: copy it, or handle the directive it starts. `stop` is the `break` of
      a '%' right before the terminator; otherwise `j` is where the next turn begins,
      past the `++format` of the loop header. */
  method Step(sink: Sink, fmt: seq<char>, i0: nat, args: seq<Arg>, ai: nat, un: nat)
    returns (pc: int, j: nat, ai2: nat, un2: nat, stop: bool, ghost text: seq<char>)
    requires i0 < |fmt| && fmt[i0] != '\0' && ValidArgs(args) && un < U64
    modifies sink
    ensures i0 < j <= |fmt| + 1 && un2 < U64
    ensures FormatFrom(fmt, i0, args, ai, un) == text + if stop then [] else FormatFrom(fmt, j, args, ai2, un2)
    ensures sink.chars == old(sink.chars) + text && pc == |text|
  {
    pc, j, ai2, un2, stop, text := Turn1(sink, fmt, i0, args, ai, un);
  }

  /** The turn itself, against TurnAt. */
  method Turn1(sink: Sink, fmt: seq<char>, i0: nat, args: seq<Arg>, ai: nat, un: nat)
    returns (pc: int, j: nat, ai2: nat, un2: nat, stop: bool, ghost text: seq<char>)
    requires i0 < |fmt| && fmt[i0] != '\0' && ValidArgs(args) && un < U64
    modifies sink
    ensures Turn(text, j, ai2, un2, stop) == TurnAt(fmt, i0, args, ai, un)
    ensures sink.chars == old(sink.chars) + text && pc == |text|
  {
    var i := i0;
    stop, ai2, un2 := false, ai, un;
    if At(fmt, i) == '%' {
      i := i + 1;
      if At(fmt, i) == '\0' {
        return 0, i, ai, un, true, [];
      }
      if At(fmt, i) == '%' {
        sink.Put('%');
        pc := 1;
        text := "%";
      } else {
        var fl, width, c, ai1 := ReadDirective(fmt, i, args, ai);
        var k;
        pc, k, ai2, un2 := ConvertAt(sink, fmt, c, fl, width, args, ai1, un);
        text := Convert(Modifier(fmt, c).0, At(fmt, k), fl, width, args, ai1, un).text;
        i := k;
      }
    } else {
      sink.Put(fmt[i]);
      pc := 1;
      text := [fmt[i]];
    }
    j := i + 1;
  }

  /** The loop's bookkeeping: what has been emitted so far (`done`, after `start`)
      followed by what is still to come is the whole output `total`, and the count
      `pc` is the number of characters emitted. */
  ghost predicate Walking(fmt: seq<char>, args: seq<Arg>, total: seq<char>, start: seq<char>,
                          chars: seq<char>, i: nat, ai: nat, un: nat, pc: int, stop: bool,
                          done: seq<char>)
  {
    i <= |fmt| + 1 && un < U64 && ValidArgs(args) &&
    chars == start + done && pc == |done| &&
    done + (if stop then [] else FormatFrom(fmt, i, args, ai, un)) == total
  }

  /** One turn of the loop keeps the bookkeeping and moves forward. */
  method Advance(sink: Sink, fmt: seq<char>, i: nat, args: seq<Arg>, ai: nat, un: nat, pc: int,
                 ghost start: seq<char>, ghost done: seq<char>, ghost total: seq<char>)
    returns (pc2: int, j: nat, ai2: nat, un2: nat, stop: bool, ghost done2: seq<char>)
    requires i < |fmt| && fmt[i] != '\0'
    requires Walking(fmt, args, total, start, sink.chars, i, ai, un, pc, false, done)
    modifies sink
    ensures i < j && Walking(fmt, args, total, start, sink.chars, j, ai2, un2, pc2, stop, done2)
  {
    ghost var text;
    var n;
    n, j, ai2, un2, stop, text := Step(sink, fmt, i, args, ai, un);
    ConcatAssoc(done, text, if stop then [] else FormatFrom(fmt, j, args, ai2, un2));
    ConcatAssoc(start, done, text);
    done2 := done + text;
    pc2 := pc + n;
  }

  /** When the loop ends, at the terminator or on a `break`, nothing is left to emit. */
  lemma WalkDone(fmt: seq<char>, args: seq<Arg>, total: seq<char>, start: seq<char>,
                 chars: seq<char>, i: nat, ai: nat, un: nat, pc: int, stop: bool, done: seq<char>)
    requires Walking(fmt, args, total, start, chars, i, ai, un, pc, stop, done)
    requires stop || At(fmt, i) == '\0'
    ensures chars == start + total && pc == |total|
  {
    if !stop {
      assert FormatFrom(fmt, i, args, ai, un) == [];
    }
    assert done + [] == done;
  }

  /** `simple_vsprintf(out, format, ap, f)`: the characters emitted are those of
      Format, the count returned is their number, and when writing into a buffer
      (`out` not null) a terminator follows them. */
  method Vsprintf(sink: Sink, fmt: seq<char>, args: seq<Arg>, init: nat, toBuffer: bool)
    returns (pc: int)
    requires ValidArgs(args) && init < U64
    modifies sink
    ensures sink.chars == old(sink.chars) + Format(fmt, args, init) + (if toBuffer then ['\0'] else [])
    ensures pc == |Format(fmt, args, init)|
  {
    pc := 0;
    var i: nat, ai: nat, un: nat := 0, 0, init;
    ghost var done: seq<char> := [];
    ghost var start, total := sink.chars, Format(fmt, args, init);
    var stop := false;
    while !stop && At(fmt, i) != '\0'
      invariant Walking(fmt, args, total, start, sink.chars, i, ai, un, pc, stop, done)
      decreases |fmt| + 1 - i
    {
      pc, i, ai, un, stop, done := Advance(sink, fmt, i, args, ai, un, pc, start, done, total);
    }
    WalkDone(fmt, args, total, start, sink.chars, i, ai, un, pc, stop, done);
    if toBuffer {
      sink.Put('\0');
    }
  }
}
