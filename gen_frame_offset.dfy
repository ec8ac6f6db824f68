/** The register-frame offset generator: a walk over the parsed translation unit that
    writes one probe statement per field of every `RegFrame` structure, the probe
    program built around those statements, and the byte offsets the compiled probe
    prints. The parser and the compiler are outside the model: the tree is an input,
    and the layout the compiler picks is modelled by natural alignment. */
module FrameOffset {
  import opened Base

  datatype CursorKind = StructDecl | FieldDecl | OtherKind

  /** A cursor of the parsed translation unit: its kind, its spelling and its children. */
  datatype Cursor = Cursor(kind: CursorKind, spelling: string, children: seq<Cursor>)

  predicate IsRegFrame(node: Cursor) {
    node.kind == StructDecl && node.spelling == "RegFrame"
  }

  /** The macro a field gets: its spelling upper-cased, then `_OFFSET` (line 24). */
  function MacroName(spelling: string): (r: string)
    ensures |r| == |spelling| + 7
    ensures r[..|spelling|] == Upper(spelling) && r[|spelling|..] == "_OFFSET"
  {
    Upper(spelling) + "_OFFSET"
  }

  /** `macro_template.format(name, field)` (lines 5-6): the probe statement that prints
      `#define name <distance of frame.field from frame>`. */
  function ProbeStatement(name: string, field: string): string {
    "\n  std::cout << \"#define " + name + " \" << reinterpret_cast<uint8_t*>(&frame." + field
      + ") - reinterpret_cast<uint8_t*>(&frame) << std::endl;"
  }

  function FieldProbe(field: string): string {
    ProbeStatement(MacroName(field), field)
  }

  /** What `walk(node, flag)` appends to `result` (lines 21-29). Under a flag only the
      node itself is looked at; otherwise the children are walked, flagged when the node
      is the `RegFrame` structure. */
  function Walked(node: Cursor, flag: bool): seq<string>
    decreases node, 1
  {
    if flag then
      if node.kind == FieldDecl then [FieldProbe(node.spelling)] else []
    else
      WalkedAll(node.children, IsRegFrame(node))
  }

  /** The statements appended by walking `nodes` in order under the same flag. */
  function WalkedAll(nodes: seq<Cursor>, flag: bool): seq<string>
    decreases nodes, 0
  {
    if nodes == [] then []
    else WalkedAll(nodes[..|nodes| - 1], flag) + Walked(nodes[|nodes| - 1], flag)
  }

  /** The global `result` list and the recursive `walk` that appends to it. */
  class Walker {
    var result: seq<string>

    constructor()
      ensures result == []
    {
      result := [];
    }

    method Walk(node: Cursor, flag: bool)
      modifies this
      ensures result == old(result) + Walked(node, flag)
      decreases node
    {
      if flag {
        if node.kind == FieldDecl {
          result := result + [FieldProbe(node.spelling)];
        }
        return;
      }
      var f := flag;
      if node.kind == StructDecl && node.spelling == "RegFrame" {
        f := true;
      }
      var i := 0;
      while i < |node.children|
        invariant 0 <= i <= |node.children|
        invariant result == old(result) + WalkedAll(node.children[..i], f)
      {
        Walk(node.children[i], f);
        SliceSnoc(node.children, i);
        ConcatAssoc(old(result), WalkedAll(node.children[..i], f), Walked(node.children[i], f));
        i := i + 1;
      }
      assert node.children[..i] == node.children;
    }
  }

  // ---------------------------------------------------------------------------
  // What the walk collects
  // ---------------------------------------------------------------------------

  /** The spellings of the field declarations among `nodes`, in order. */
  function FieldSpellings(nodes: seq<Cursor>): (r: seq<string>)
    ensures |r| <= |nodes|
  {
    if nodes == [] then []
    else
      var last := nodes[|nodes| - 1];
      FieldSpellings(nodes[..|nodes| - 1]) + (if last.kind == FieldDecl then [last.spelling] else [])
  }

  function Probes(fields: seq<string>): (r: seq<string>)
    ensures |r| == |fields|
    ensures forall k :: 0 <= k < |fields| ==> r[k] == FieldProbe(fields[k])
  {
    if fields == [] then [] else Probes(fields[..|fields| - 1]) + [FieldProbe(fields[|fields| - 1])]
  }

  lemma ProbesAppend(a: seq<string>, b: seq<string>)
    ensures Probes(a + b) == Probes(a) + Probes(b)
  {
  }

  /** Inside a `RegFrame` structure each field declaration child adds one probe, in
      declaration order; other children add nothing and nothing below a child is
      visited. */
  lemma {:induction false} FlaggedChildren(nodes: seq<Cursor>)
    ensures WalkedAll(nodes, true) == Probes(FieldSpellings(nodes))
  {
    if nodes != [] {
      var init, last := nodes[..|nodes| - 1], nodes[|nodes| - 1];
      FlaggedChildren(init);
      if last.kind == FieldDecl {
        ProbesAppend(FieldSpellings(init), [last.spelling]);
        assert Probes([last.spelling]) == [FieldProbe(last.spelling)];
      } else {
        assert FieldSpellings(nodes) == FieldSpellings(init) + [];
      }
    }
  }

  lemma RegFrameProbes(s: Cursor)
    requires IsRegFrame(s)
    ensures Walked(s, false) == Probes(FieldSpellings(s.children))
  {
    FlaggedChildren(s.children);
  }

  /** The tree holds a `RegFrame` structure somewhere. */
  predicate HasRegFrame(node: Cursor)
    decreases node, 1
  {
    IsRegFrame(node) || AnyHasRegFrame(node.children)
  }

  predicate AnyHasRegFrame(nodes: seq<Cursor>)
    decreases nodes, 0
  {
    nodes != [] && (AnyHasRegFrame(nodes[..|nodes| - 1]) || HasRegFrame(nodes[|nodes| - 1]))
  }

  /** A translation unit without the structure contributes no statement. */
  lemma {:induction false} NoRegFrameNoProbes(node: Cursor)
    requires !HasRegFrame(node)
    ensures Walked(node, false) == []
    decreases node, 1
  {
    NoRegFrameNoProbesAll(node.children);
  }

  lemma {:induction false} NoRegFrameNoProbesAll(nodes: seq<Cursor>)
    requires !AnyHasRegFrame(nodes)
    ensures WalkedAll(nodes, false) == []
    decreases nodes, 0
  {
    if nodes != [] {
      NoRegFrameNoProbesAll(nodes[..|nodes| - 1]);
      NoRegFrameNoProbes(nodes[|nodes| - 1]);
    }
  }

  /** The flag is passed down each branch and never reset, so a second `RegFrame`
      elsewhere in the tree contributes too (two sibling structures here). */
  lemma EveryRegFrameContributes(a: string, b: string)
    ensures Walked(Cursor(OtherKind, "", [
        Cursor(StructDecl, "RegFrame", [Cursor(FieldDecl, a, [])]),
        Cursor(StructDecl, "RegFrame", [Cursor(FieldDecl, b, [])])]), false)
      == [FieldProbe(a), FieldProbe(b)]
  {
    var s1 := Cursor(StructDecl, "RegFrame", [Cursor(FieldDecl, a, [])]);
    var s2 := Cursor(StructDecl, "RegFrame", [Cursor(FieldDecl, b, [])]);
    var both := [s1, s2];
    assert both[..1] == [s1] && [s1][..0] == [];
    assert Walked(Cursor(OtherKind, "", both), false) == WalkedAll(both, false);
    assert WalkedAll(both, false) == WalkedAll([s1], false) + Walked(s2, false);
    assert WalkedAll([s1], false) == WalkedAll([], false) + Walked(s1, false);
    assert Walked(s1, false) == [FieldProbe(a)] by {
      assert WalkedAll(s1.children, true) == WalkedAll([], true) + Walked(s1.children[0], true);
    }
    assert Walked(s2, false) == [FieldProbe(b)] by {
      assert WalkedAll(s2.children, true) == WalkedAll([], true) + Walked(s2.children[0], true);
    }
  }

  // ---------------------------------------------------------------------------
  // The probe program (lines 8-17, 36)
  // ---------------------------------------------------------------------------

  function Join(parts: seq<string>): string {
    if parts == [] then [] else Join(parts[..|parts| - 1]) + parts[|parts| - 1]
  }

  const ProgramHead: string :=
    "\n#include <iostream>\n#include \"kernel/regs_frame.hpp\"\n#include \"lib/types.h\"\nint main() {\n  kernel::RegFrame frame;\n  "
  const ProgramTail: string := "\n  return 0;\n}\n"

  /** `source_template.format(''.join(result))`. */
  function ProbeProgram(statements: seq<string>): (r: string)
    ensures |r| >= |ProgramHead| + |ProgramTail|
    ensures r[..|ProgramHead|] == ProgramHead
    ensures r[|r| - |ProgramTail|..] == ProgramTail
  {
    ProgramHead + Join(statements) + ProgramTail
  }

  /** Without the structure the probe is still a complete program: a frame and
      `return 0` with nothing between them. */
  lemma EmptyProbeProgram(root: Cursor)
    requires !HasRegFrame(root)
    ensures ProbeProgram(Walked(root, false)) == ProgramHead + ProgramTail
  {
    NoRegFrameNoProbes(root);
  }

  // ---------------------------------------------------------------------------
  // The offsets the compiled probe prints
  // ---------------------------------------------------------------------------

  /** A field's storage: its size and its alignment in bytes. */
  datatype FieldType = FieldType(size: nat, align: nat)

  predicate WellFormed(types: seq<FieldType>) {
    forall k :: 0 <= k < |types| ==> types[k].align > 0
  }

  /** The first offset at or after `at` that is a multiple of `align`. */
  function AlignUp(at: nat, align: nat): (r: nat)
    requires align > 0
    ensures at <= r < at + align
    ensures at % align == 0 ==> r == at
  {
    if at % align == 0 then at else at + (align - at % align)
  }

  /** The offsets of fields laid out in declaration order from `at`, each at the first
      multiple of its alignment that follows the previous field. */
  function Offsets(types: seq<FieldType>, at: nat): (r: seq<nat>)
    requires WellFormed(types)
    ensures |r| == |types|
    ensures forall k :: 0 <= k < |types| ==> r[k] >= at
  {
    if types == [] then []
    else
      var o := AlignUp(at, types[0].align);
      [o] + Offsets(types[1..], o + types[0].size)
  }

  /** Each field starts after the end of the one before it, so offsets never decrease. */
  lemma {:induction false} OffsetsOrdered(types: seq<FieldType>, at: nat, k: nat)
    requires WellFormed(types)
    requires k + 1 < |types|
    ensures Offsets(types, at)[k] + types[k].size <= Offsets(types, at)[k + 1]
    decreases k
  {
    var o := AlignUp(at, types[0].align);
    var rest := types[1..];
    assert WellFormed(rest) by {
      forall q | 0 <= q < |rest| ensures rest[q].align > 0 {
        assert rest[q] == types[q + 1];
      }
    }
    if k > 0 {
      OffsetsOrdered(rest, o + types[0].size, k - 1);
      assert rest[k - 1] == types[k];
    }
  }

  const Word: FieldType := FieldType(8, 8)

  function Words(n: nat): (r: seq<FieldType>)
    ensures |r| == n
    ensures forall k :: 0 <= k < n ==> r[k] == Word
  {
    Repeat(Word, n)
  }

  /** The 34 registers in the order `RegFrame` declares them (kernel/regs_frame.hpp). */
  const RegisterFields: seq<string> := [
    "ra", "sp", "gp", "tp", "t0", "t1", "t2", "s0", "s1",
    "a0", "a1", "a2", "a3", "a4", "a5", "a6", "a7",
    "s2", "s3", "s4", "s5", "s6", "s7", "s8", "s9", "s10", "s11",
    "t3", "t4", "t5", "t6", "mepc", "mcause", "kernel_sp"]

  /** The field types of `RegFrame`: 34 words, then `reserved_space[128 - 34]` and
      `temporary_space[128]`. */
  function RegFrameTypes(): (r: seq<FieldType>)
    ensures |r| == 36 && WellFormed(r)
  {
    Words(34) + [FieldType(8 * (128 - 34), 8), FieldType(8 * 128, 8)]
  }

  /** Register `k` of the frame sits at byte `8 * k`; in particular a7 at 128 and mepc
      at 248, and the two scratch arrays at 272 and 1024. */
  lemma RegFrameOffsets()
    ensures forall k :: 0 <= k < 34 ==> Offsets(RegFrameTypes(), 0)[k] == 8 * k
    ensures RegisterFields[16] == "a7" && Offsets(RegFrameTypes(), 0)[16] == 128
    ensures RegisterFields[31] == "mepc" && Offsets(RegFrameTypes(), 0)[31] == 248
    ensures Offsets(RegFrameTypes(), 0)[34] == 272
    ensures Offsets(RegFrameTypes(), 0)[35] == 1024
  {
    RegisterOffsets();
    ScratchOffsets();
  }

  /** The 34 registers are laid out one word apart from offset 0. */
  lemma RegisterOffsets()
    ensures forall k :: 0 <= k < 34 ==> Offsets(RegFrameTypes(), 0)[k] == 8 * k
  {
    var tail := [FieldType(8 * (128 - 34), 8), FieldType(8 * 128, 8)];
    assert RegFrameTypes() == Words(34) + tail;
    WordOffsetsPrefix(34, tail, 0);
  }

  /** The two scratch arrays follow the last register without a gap. */
  lemma ScratchOffsets()
    ensures Offsets(RegFrameTypes(), 0)[34] == 272
    ensures Offsets(RegFrameTypes(), 0)[35] == 1024
  {
    RegisterOffsets();
    RegFrameTail();
    ScratchAfter(RegFrameTypes());
  }

  lemma RegFrameTail()
    ensures var types := RegFrameTypes();
      types[33] == Word && types[34] == FieldType(8 * (128 - 34), 8) && types[35] == FieldType(8 * 128, 8)
  {
  }

  /** A 752-byte and a 1024-byte word-aligned array after a word at 264 start at 272
      and 1024. */
  lemma ScratchAfter(types: seq<FieldType>)
    requires WellFormed(types) && |types| == 36
    requires types[33] == Word && types[34] == FieldType(8 * (128 - 34), 8) && types[35] == FieldType(8 * 128, 8)
    requires Offsets(types, 0)[33] == 264
    ensures Offsets(types, 0)[34] == 272 && Offsets(types, 0)[35] == 1024
  {
    OffsetsTail(types, 0, 34);
    OffsetsTail(types, 0, 35);
  }

  lemma {:induction false} WordOffsetsPrefix(n: nat, tail: seq<FieldType>, at: nat)
    requires at % 8 == 0 && WellFormed(tail)
    ensures WellFormed(Words(n) + tail)
    ensures forall k :: 0 <= k < n ==> Offsets(Words(n) + tail, at)[k] == at + 8 * k
    decreases n
  {
    var ts := Words(n) + tail;
    assert WellFormed(ts) by {
      forall q | 0 <= q < |ts| ensures ts[q].align > 0 {
        if q >= n {
          assert ts[q] == tail[q - n];
        }
      }
    }
    if n > 0 {
      WordOffsetsPrefix(n - 1, tail, at + 8);
      assert AlignUp(at, 8) == at;
      assert ts[1..] == Words(n - 1) + tail;
    }
  }

  /** When the previous field ends on a multiple of this field's alignment, this field
      starts exactly there. */
  lemma {:induction false} OffsetsTail(types: seq<FieldType>, at: nat, k: nat)
    requires WellFormed(types)
    requires 0 < k < |types|
    requires (Offsets(types, at)[k - 1] + types[k - 1].size) % types[k].align == 0
    ensures Offsets(types, at)[k] == Offsets(types, at)[k - 1] + types[k - 1].size
    decreases k
  {
    var o := AlignUp(at, types[0].align);
    var rest := types[1..];
    assert WellFormed(rest) by {
      forall q | 0 <= q < |rest| ensures rest[q].align > 0 {
        assert rest[q] == types[q + 1];
      }
    }
    if k > 1 {
      assert rest[k - 2] == types[k - 1] && rest[k - 1] == types[k];
      OffsetsTail(rest, o + types[0].size, k - 1);
    } else {
      assert rest[0] == types[1];
    }
  }

  /** The probe's output line for one field: `#define NAME_OFFSET n`, `std::endl`
      ending it. */
  function ProbeLine(field: string, offset: nat): string {
    "#define " + MacroName(field) + " " + Decimal(offset) + "\n"
  }

  /** The header the compiled probe prints, one line per field in declaration order. */
  function ProbeOutput(fields: seq<string>, offsets: seq<nat>): (r: string)
    requires |fields| == |offsets|
  {
    if fields == [] then []
    else
      var n := |fields| - 1;
      ProbeOutput(fields[..n], offsets[..n]) + ProbeLine(fields[n], offsets[n])
  }

  /** `{x: int32, y: int32}` is laid out at 0 and 4. */
  lemma TwoIntOffsets()
    ensures Offsets([FieldType(4, 4), FieldType(4, 4)], 0) == [0, 4]
  {
    var xs := [FieldType(4, 4), FieldType(4, 4)];
    assert xs[1..] == [FieldType(4, 4)] && xs[1..][1..] == [];
    assert Offsets(xs[1..][1..], 8) == [];
    assert Offsets(xs[1..], 4) == [4];
  }

  /** `{a: int32, b: int64, c: int8}` is laid out at 0, 8 and 16. */
  lemma MixedOffsets()
    ensures Offsets([FieldType(4, 4), FieldType(8, 8), FieldType(1, 1)], 0) == [0, 8, 16]
  {
    var ys := [FieldType(4, 4), FieldType(8, 8), FieldType(1, 1)];
    assert ys[1..] == [FieldType(8, 8), FieldType(1, 1)] && ys[1..][1..] == [FieldType(1, 1)];
    assert ys[1..][1..][1..] == [];
    assert AlignUp(4, 8) == 8;
    assert Offsets(ys[1..][1..][1..], 17) == [];
    assert Offsets(ys[1..][1..], 16) == [16];
    assert Offsets(ys[1..], 4) == [8, 16];
  }

  /** The probe for `{x, y}` prints `#define X_OFFSET 0` and `#define Y_OFFSET 4`. */
  lemma TwoIntProbeOutput()
    ensures ProbeOutput(["x", "y"], [0, 4]) == "#define X_OFFSET 0\n#define Y_OFFSET 4\n"
  {
    var fs, os := ["x", "y"], [0, 4];
    assert fs[..1] == ["x"] && os[..1] == [0] && fs[..1][..0] == [] && os[..1][..0] == [];
    ProbeLineX();
    ProbeLineY();
    assert ProbeOutput(["x"], [0]) == ProbeLine("x", 0);
  }

  lemma ProbeLineX()
    ensures ProbeLine("x", 0) == "#define X_OFFSET 0\n"
  {
    assert Upper("x") == "X";
    assert MacroName("x") == "X_OFFSET";
  }

  lemma ProbeLineY()
    ensures ProbeLine("y", 4) == "#define Y_OFFSET 4\n"
  {
    assert Decimal(4) == "4" by {
      assert Digits(4, 10, 'a') == Digits(0, 10, 'a') + [DigitChar(4, 'a')];
    }
    assert Upper("y") == "Y";
    assert MacroName("y") == "Y_OFFSET";
  }
}
