/** tools/gen_initcode: turns the bytes of a binary into the text of a C source file that
    defines them as `initcode[]`, with their count as `initcode_size`. */
module Initcode {
  import opened Base

  /** The size of the zero-initialised global `buffer` the text is assembled in. */
  const BufferSize: nat := 200000

  const Begin: seq<char> := "char initcode[] = {"
  const Break: seq<char> := "\n    "

  /** The closing line `sprintf` writes after the array. */
  function SizeLine(n: nat): seq<char> {
    "\nlong initcode_size = " + Decimal(n) + ";\n"
  }

  /** `%#x` of one byte: "0" for zero, otherwise "0x" and the lowercase hexadecimal
      digits with no leading zero. */
  function Hex(b: byte): seq<char> {
    if b == 0 then "0"
    else if b < 16 then "0x" + [DigitChar(b, 'a')]
    else "0x" + [DigitChar(b / 16, 'a'), DigitChar(b % 16, 'a')]
  }

  ghost predicate IsHexDigit(c: char) {
    '0' <= c <= '9' || 'a' <= c <= 'f'
  }

  /** Reads a `%#x` text back. */
  function ReadHex(t: seq<char>): nat {
    if |t| >= 2 && t[..2] == "0x" then ValueOf(t[2..], 16) else ValueOf(t, 16)
  }

  /** `%#x` loses nothing: the byte reads back, the "0x" prefix appears exactly for the
      bytes that are not zero, and the digits after it are lowercase, the first not '0'. */
  lemma HexRoundTrip(b: byte)
    ensures ReadHex(Hex(b)) == b
    ensures b == 0 <==> Hex(b) == "0"
    ensures b != 0 ==> |Hex(b)| > 2 && Hex(b)[..2] == "0x" && Hex(b)[2] != '0'
    ensures b != 0 ==> forall k :: 2 <= k < |Hex(b)| ==> IsHexDigit(Hex(b)[k])
    ensures 1 <= |Hex(b)| <= 4 && '\0' !in Hex(b)
  {
    if b == 0 {
      assert ValueOf("0", 16) == ValueOf([], 16) * 16 + DigitValue('0');
    } else if b < 16 {
      var c := DigitChar(b, 'a');
      DigitRoundTrip(b, 'a');
      assert Hex(b)[2..] == [c];
      assert ValueOf([c], 16) == ValueOf([c][..0], 16) * 16 + DigitValue(c);
    } else {
      var h, l := DigitChar(b / 16, 'a'), DigitChar(b % 16, 'a');
      DigitRoundTrip(b / 16, 'a');
      DigitRoundTrip(b % 16, 'a');
      assert Hex(b)[2..] == [h, l];
      assert ValueOf([h], 16) == ValueOf([h][..0], 16) * 16 + DigitValue(h);
      assert ValueOf([h, l], 16) == ValueOf([h, l][..1], 16) * 16 + DigitValue(l);
      assert [h, l][..1] == [h];
    }
  }

  /** The text written for byte `i`: its `%#x`, a comma unless it is the last byte, and a
      line break when `i` is a non-zero multiple of 20. */
  function Cell(s: seq<byte>, i: nat): seq<char>
    requires i < |s|
  {
    Hex(s[i]) + (if i != |s| - 1 then "," else "") + (if i != 0 && i % 20 == 0 then Break else "")
  }

  /** The texts of the first `k` bytes. */
  function Cells(s: seq<byte>, k: nat): seq<char>
    requires k <= |s|
  {
    if k == 0 then [] else Cells(s, k - 1) + Cell(s, k - 1)
  }

  /** No byte's text holds a NUL, so `strlen` sees the whole output. */
  lemma {:induction false} CellsPlain(s: seq<byte>, k: nat)
    requires k <= |s|
    ensures '\0' !in Cells(s, k)
  {
    if k > 0 {
      CellsPlain(s, k - 1);
      HexRoundTrip(s[k - 1]);
      assert '\0' !in Cell(s, k - 1);
    }
  }

  /** The whole generated file. */
  function Text(s: seq<byte>): seq<char> {
    Begin + Cells(s, |s|) + "};" + SizeLine(|s|)
  }

  /** `main(argc, argv)`, with the file read already: it gives up (returns -1) without two
      file names or when the bytes read disagree with the file size (`tellg` is -1 for a
      file that could not be opened), and otherwise writes Text. */
  function Run(argc: int, contents: seq<byte>, fileSize: int): (r: Option<seq<char>>)
    ensures r.None? <==> argc < 3 || |contents| != fileSize
    ensures r.Some? ==> r.value == Text(contents)
  {
    if argc < 3 then None
    else if |contents| != fileSize then None
    else Some(Text(contents))
  }

  /** A file that could not be opened reads as no bytes against a size of -1, so nothing
      is written. */
  lemma MissingFileFails(argc: int)
    ensures Run(argc, [], -1) == None
  {
  }

  /** An empty binary still gives a well-formed file. */
  lemma EmptyText()
    ensures Text([]) == Begin + "};" + "\nlong initcode_size = " + "0" + ";\n"
  {
    assert Cells([], 0) == [];
  }

  function Occurrences(c: char, t: seq<char>): nat {
    if t == [] then 0 else (if t[0] == c then 1 else 0) + Occurrences(c, t[1..])
  }

  lemma {:induction false} OccurrencesConcat(c: char, a: seq<char>, b: seq<char>)
    ensures Occurrences(c, a + b) == Occurrences(c, a) + Occurrences(c, b)
  {
    if a == [] {
      assert a + b == b;
    } else {
      assert (a + b)[0] == a[0] && (a + b)[1..] == a[1..] + b;
      OccurrencesConcat(c, a[1..], b);
    }
  }

  lemma {:induction false} OccurrencesNone(c: char, t: seq<char>)
    requires forall k :: 0 <= k < |t| ==> t[k] != c
    ensures Occurrences(c, t) == 0
  {
    if t != [] {
      OccurrencesNone(c, t[1..]);
    }
  }

  /** A `%#x` text holds no comma and no newline. */
  lemma HexPlain(b: byte)
    ensures Occurrences(',', Hex(b)) == 0 && Occurrences('\n', Hex(b)) == 0
  {
    HexRoundTrip(b);
    OccurrencesNone(',', Hex(b));
    OccurrencesNone('\n', Hex(b));
  }

  /** One cell brings one comma unless it is the last, and one newline exactly at a
      non-zero multiple of 20. */
  lemma CellCounts(s: seq<byte>, i: nat)
    requires i < |s|
    ensures Occurrences(',', Cell(s, i)) == if i != |s| - 1 then 1 else 0
    ensures Occurrences('\n', Cell(s, i)) == if i != 0 && i % 20 == 0 then 1 else 0
  {
    var h := Hex(s[i]);
    var c: seq<char> := if i != |s| - 1 then "," else "";
    var z: seq<char> := if i != 0 && i % 20 == 0 then Break else "";
    HexPlain(s[i]);
    OccurrencesConcat(',', h + c, z);
    OccurrencesConcat(',', h, c);
    OccurrencesConcat('\n', h + c, z);
    OccurrencesConcat('\n', h, c);
    OccurrencesNone(',', Break);
    assert Occurrences('\n', Break) == 1 by {
      OccurrencesNone('\n', Break[1..]);
    }
  }

  /** The bytes are separated by commas: `n` bytes give n - 1 of them. */
  lemma {:induction false} CommaCount(s: seq<byte>, k: nat)
    requires k <= |s|
    ensures Occurrences(',', Cells(s, k)) == if 0 < k == |s| then k - 1 else k
  {
    if k > 0 {
      CommaCount(s, k - 1);
      OccurrencesConcat(',', Cells(s, k - 1), Cell(s, k - 1));
      CellCounts(s, k - 1);
    }
  }

  /** Bytes 1 to 20 share the first line, and every further 20 start a new one: `n` bytes
      take (n - 1) / 20 line breaks. */
  lemma {:induction false} BreakCount(s: seq<byte>, k: nat)
    requires k <= |s|
    ensures Occurrences('\n', Cells(s, k)) == if k == 0 then 0 else (k - 1) / 20
  {
    if k > 0 {
      BreakCount(s, k - 1);
      OccurrencesConcat('\n', Cells(s, k - 1), Cell(s, k - 1));
      CellCounts(s, k - 1);
    }
  }

  /** The texts of fewer bytes are no longer. */
  lemma {:induction false} CellsGrow(s: seq<byte>, i: nat, j: nat)
    requires i <= j <= |s|
    ensures |Cells(s, i)| <= |Cells(s, j)|
    decreases j - i
  {
    if i < j {
      CellsGrow(s, i, j - 1);
      assert |Cells(s, j)| == |Cells(s, j - 1)| + |Cell(s, j - 1)|;
    }
  }

  /** `b` holds `out` followed by nothing but NULs, as the zero-initialised buffer does
      while the text is being written. */
  ghost predicate Written(b: seq<char>, out: seq<char>) {
    |out| < |b| && b[..|out|] == out && forall k :: |out| <= k < |b| ==> b[k] == '\0'
  }

  /** Copying a NUL-free piece (with or without its terminator) to the end of the output
      extends the output, and `strlen` at the copy finds just the piece. */
  lemma Extend(b: seq<char>, out: seq<char>, piece: seq<char>, t: seq<char>)
    requires Written(b, out) && '\0' !in piece && |out| + |piece| < |b|
    requires t == piece || t == piece + ['\0']
    ensures var b' := b[..|out|] + t + b[|out| + |t|..];
      Written(b', out + piece) && CString(b'[|out|..]) == piece
  {
    var b' := b[..|out|] + t + b[|out| + |t|..];
    assert b'[..|out| + |piece|] == out + piece;
    assert b'[|out|..] == piece + b'[|out| + |piece|..];
    assert b'[|out| + |piece|] == '\0';
    assert b'[|out|..] == piece + ['\0'] + b'[|out| + |piece| + 1..];
    CStringOf(piece, b'[|out| + |piece| + 1..]);
  }

  /** `std::copy` of `piece` to `a[p..]`. */
  method CopyAt(a: array<char>, p: nat, piece: seq<char>)
    requires p + |piece| <= a.Length
    modifies a
    ensures a[..] == old(a[..])[..p] + piece + old(a[..])[p + |piece|..]
  {
    var i := 0;
    while i < |piece|
      invariant i <= |piece|
      invariant a[..] == old(a[..])[..p] + piece[..i] + old(a[..])[p + i..]
    {
      a[p + i] := piece[i];
      i := i + 1;
      assert piece[..i] == piece[..i - 1] + [piece[i - 1]];
    }
  }

  /** `strlen(a + p)`. */
  method StrLen(a: array<char>, p: nat) returns (n: nat)
    requires p <= a.Length && '\0' in a[p..]
    ensures n == |CString(a[p..])| && p + n < a.Length && a[p + n] == '\0'
    ensures forall k :: p <= k < p + n ==> a[k] != '\0'
  {
    ghost var t := a[p..];
    n := 0;
    while a[p + n] != '\0'
      invariant p + n < a.Length && n <= |CString(t)|
      invariant forall k :: p <= k < p + n ==> a[k] != '\0'
      decreases a.Length - (p + n)
    {
      assert t[n] == a[p + n];
      n := n + 1;
    }
    assert t[n] == '\0';
  }

  /** One copy of `piece` at the end of the output followed by `p += strlen(p)`. */
  method Emit(a: array<char>, p: nat, piece: seq<char>, terminated: bool, ghost out: seq<char>)
      returns (q: nat)
    requires Written(a[..], out) && p == |out| && '\0' !in piece && |out| + |piece| < a.Length
    modifies a
    ensures Written(a[..], out + piece) && q == p + |piece|
  {
    var t := if terminated then piece + ['\0'] else piece;
    CopyAt(a, p, t);
    Extend(old(a[..]), out, piece, t);
    assert a[p..] == a[..][|out|..];
    var n := StrLen(a, p);
    q := p + n;
  }

  /** Assembles the file in `buffer` as lines 26-44 of gen_initcode do: the opening, then
      per byte its `%#x`, a comma and every 20 bytes a line break, then `};` and the size
      line, and the terminator `sprintf` leaves. */
  method Serialise(s: seq<byte>, buffer: array<char>)
    requires |Text(s)| < buffer.Length
    requires forall k :: 0 <= k < buffer.Length ==> buffer[k] == '\0'
    modifies buffer
    ensures buffer[..|Text(s)| + 1] == Text(s) + ['\0']
  {
    var p := EmitBegin(buffer);
    p := EmitCells(buffer, p, s);
    EmitEnd(buffer, p, s, Begin + Cells(s, |s|));
  }

  /** The opening `char initcode[] = {`: lines 26-28 of gen_initcode. */
  method EmitBegin(buffer: array<char>) returns (p: nat)
    requires |Begin| < buffer.Length
    requires forall k :: 0 <= k < buffer.Length ==> buffer[k] == '\0'
    modifies buffer
    ensures Written(buffer[..], Begin) && p == |Begin|
  {
    ghost var b0 := buffer[..];
    assert Written(b0, []);
    CopyAt(buffer, 0, Begin);
    assert '\0' !in Begin;
    Extend(b0, [], Begin, Begin);
    assert [] + Begin == Begin && b0[..0] + Begin + b0[|Begin|..] == buffer[..];
    p := |Begin|;
  }

  /** The bytes one by one: the loop of lines 29-41 of gen_initcode. */
  method EmitCells(buffer: array<char>, p0: nat, s: seq<byte>) returns (p: nat)
    requires Written(buffer[..], Begin) && p0 == |Begin|
    requires |Begin| + |Cells(s, |s|)| + 2 < buffer.Length
    modifies buffer
    ensures Written(buffer[..], Begin + Cells(s, |s|)) && p == |Begin| + |Cells(s, |s|)|
  {
    p := p0;
    var i := 0;
    NoCells(s);
    while i < |s|
      invariant i <= |s| && p == |Begin| + |Cells(s, i)|
      invariant Written(buffer[..], Begin + Cells(s, i))
    {
      p := EmitNext(buffer, p, s, i);
      i := i + 1;
    }
  }

  lemma NoCells(s: seq<byte>)
    ensures Begin + Cells(s, 0) == Begin
  {
    assert Cells(s, 0) == [];
  }

  /** The text of byte `i` after those of the bytes before it. */
  method EmitNext(buffer: array<char>, p: nat, s: seq<byte>, i: nat) returns (q: nat)
    requires i < |s| && Written(buffer[..], Begin + Cells(s, i)) && p == |Begin| + |Cells(s, i)|
    requires |Begin| + |Cells(s, |s|)| + 2 < buffer.Length
    modifies buffer
    ensures Written(buffer[..], Begin + Cells(s, i + 1)) && q == |Begin| + |Cells(s, i + 1)|
  {
    CellsStep(s, i);
    q := EmitCell(buffer, p, s, i, Begin + Cells(s, i));
  }

  /** One more byte's text extends the output, which stays within the whole. */
  lemma CellsStep(s: seq<byte>, i: nat)
    requires i < |s|
    ensures Begin + Cells(s, i + 1) == Begin + Cells(s, i) + Cell(s, i)
    ensures |Begin + Cells(s, i) + Cell(s, i)| <= |Begin| + |Cells(s, |s|)|
  {
    assert Cells(s, i + 1) == Cells(s, i) + Cell(s, i);
    ConcatAssoc(Begin, Cells(s, i), Cell(s, i));
    CellsGrow(s, i + 1, |s|);
  }

  /** The text of byte `i` at the end of the output: lines 30-40 of gen_initcode. */
  method EmitCell(buffer: array<char>, p: nat, s: seq<byte>, i: nat, ghost out: seq<char>)
      returns (q: nat)
    requires i < |s| && Written(buffer[..], out) && p == |out|
    requires |out| + |Cell(s, i)| + 1 < buffer.Length
    modifies buffer
    ensures Written(buffer[..], out + Cell(s, i)) && q == p + |Cell(s, i)|
  {
    HexRoundTrip(s[i]);
    q := Emit(buffer, p, Hex(s[i]), true, out);
    ghost var done := out + Hex(s[i]);
    if i != |s| - 1 {
      buffer[q] := ',';
      q := q + 1;
      assert Written(buffer[..], done + ",");
      done := done + ",";
    }
    if i != 0 && i % 20 == 0 {
      q := Emit(buffer, q, Break, false, done);
      done := done + Break;
    }
    assert done == out + Cell(s, i);
  }

  /** `};` and the size line after the last byte: lines 42-44 of gen_initcode. */
  method EmitEnd(buffer: array<char>, p: nat, s: seq<byte>, ghost out: seq<char>)
    requires out == Begin + Cells(s, |s|) && Written(buffer[..], out) && p == |out|
    requires |Text(s)| < buffer.Length
    modifies buffer
    ensures buffer[..|Text(s)| + 1] == Text(s) + ['\0']
  {
    var q := p;
    buffer[q] := '}';
    q := q + 1;
    assert Written(buffer[..], out + "}");
    buffer[q] := ';';
    q := q + 1;
    assert Written(buffer[..], out + "};");
    DecimalDigits(|s|);
    q := Emit(buffer, q, SizeLine(|s|), true, out + "};");
    assert out + "};" + SizeLine(|s|) == Text(s);
    assert buffer[|Text(s)|] == '\0';
    assert buffer[..|Text(s)| + 1] == buffer[..|Text(s)|] + [buffer[|Text(s)|]];
  }

  lemma DecimalDigits(n: nat)
    ensures '\0' !in SizeLine(n)
  {
    if n > 0 {
      DigitsShape(n, 10, 'a');
    }
  }
}
