# orange-os core routines in Dafny

orange-os is a small RISC-V teaching kernel with a freestanding C++ runtime and a few
host-side build generators. This project models the sequential, deterministic parts of
that code and proves what they compute. The parts are:

- **Freestanding library.**
  - The `printk` formatter: `prints`, `printk_write_num`, `simple_vsprintf`.
  - The `mem*`/`str*` routines.
  - `lib::common::SplitString`.
  - The `lib::vector` and `lib::string` containers.
  - `lib::StringStream`.
  - The RFC 1071 Internet checksum `math_utils::in_cksum`.
- **Kernel tables and buffers.**
  - The virtio descriptor bitmap and the used-ring drain of the block device.
  - The console's 256-byte ring buffer of typed characters.
  - The syscall dispatch table.
  - The external-interrupt registry that maps a PLIC interrupt number to a device.
- **Build generators.**
  - `gen_syscall_impl.py` writes one RISC-V `li a7 / ecall / ret` stub per declared syscall.
  - `gen_frame_offset.py` writes one `#define X_OFFSET` probe per `RegFrame` field.
  - `gen_initcode.cc` writes a binary as a C array literal.

Layout: one Dafny module per source file, plus `Base`.

- **`Base`** holds `Option`, bytes, C strings, decimal and hexadecimal digits, and a few
  sequence lemmas.
- **Code that works in place stays imperative.** Classes keep the source's fields, arrays
  are the source's buffers, and loops carry their invariants.
- **Each method is proved against a specification function.** The properties the source
  promises are proved about that function as lemmas.
- **Machine widths are written out wherever they matter:**
  - the 8-bit console indices;
  - the 16-bit `used.idx` against the 32-bit `last_seen_used_idx_`;
  - the 32-bit checksum accumulator;
  - the 64-bit `printk` union;
  - the 32-bit vector sizes.
- **Parts that cannot be modelled become parameters:**
  - the compiler and clang calls of the generators;
  - the variadic arguments of `printk`;
  - handler bodies;
  - device registers.

Two behaviours of the generators are easy to misread:

- `walk` in tools/gen_frame_offset.py sets its flag per branch of the walk, so every
  `RegFrame` that is not nested inside another one contributes its fields.
  `FrameOffset.EveryRegFrameContributes` shows two sibling frames both producing probes.
- `re.match` in lib/gen_syscall_impl.py anchors only at the start of the line, so text
  after the `);` is accepted. `SyscallStubs.ScanLineIffPattern` is a prefix match.

## Model

| member | source | states |
|---|---|---|
| Printk.Sink.Put | lib/printk.cc:5-13 | `simple_outputchar` appends exactly one character to the output |
| Printk.PaddedShape | lib/printk.cc:25-50 | the emitted length is max(len, width); the text sits on the left with PAD_RIGHT and on the right otherwise, and every other character is the pad character |
| Printk.PaddedNoPad | lib/printk.cc:30-31 | a text at least as long as the width is emitted unchanged |
| Printk.PaddedKeeps | lib/printk.cc:34-50 | padding adds only ' ' or '0': any other character occurs in the output iff it occurs in the text |
| Printk.Length | lib/printk.cc:26-29 | the length loop counts the characters before the terminator |
| Printk.PadSetup | lib/printk.cc:25-36 | the padding still owed is max(0, width - len) and the pad character is '0' only for PAD_ZERO without PAD_RIGHT and a positive width |
| Printk.PutPadding | lib/printk.cc:38-41 | a padding loop emits max(0, width) copies of the pad character and counts them |
| Printk.PutText | lib/printk.cc:43-46 | the text loop emits exactly the C string and counts it |
| Printk.Prints | lib/printk.cc:21-53 | `prints` emits left padding, the text, right padding as Padded says, and returns the number emitted |
| Printk.Magnitude | lib/printk.cc:69-80 | the magnitude fits 64 bits |
| Printk.MagnitudeMod | lib/printk.cc:69-80 | `u` is -i for a printed negative and i modulo 2^64 otherwise |
| Printk.DigitsFit | lib/printk.cc:86-96 | at most 22 digits for any 64-bit magnitude in base 8, 10 or 16, so the 64-byte buffer never underflows |
| Printk.FillDigits | lib/printk.cc:86-96 | the digit loop leaves the digits of u, most significant first, followed by a NUL at the end of the buffer |
| Printk.Prepend | lib/printk.cc:100-127 | `*--s = c` puts one character in front of the buffer's text |
| Printk.EmitLead | lib/printk.cc:99-128 | under zero padding the sign and then the prefix are emitted directly and counted |
| Printk.PrependLead | lib/printk.cc:99-128 | without zero padding the prefix and then the sign are put in front of the digits in the buffer |
| Printk.PrependPrefix | lib/printk.cc:109-127 | the PREFIX text is "0" for octal and "0x" or "0X" by letbase for hexadecimal |
| Printk.WriteZero | lib/printk.cc:71-75 | zero prints the text "0" through `prints` |
| Printk.WriteZeroPadded | lib/printk.cc:99-130 | with zero padding: sign, prefix, then the digits padded to the width less one for the sign |
| Printk.WriteSpacePadded | lib/printk.cc:99-130 | otherwise: prefix, sign and digits padded together to the width |
| Printk.WriteNum | lib/printk.cc:63-131 | `printk_write_num` emits NumText and returns its length |
| Printk.NumTextMinus | lib/printk.cc:77-80 | a '-' appears in the output iff the value is a signed base-10 negative |
| Printk.NumTextWidth | lib/printk.cc:99-130 | the output is at least `width` long and never shorter than sign, prefix and digits together |
| Printk.NumTextDigits | lib/printk.cc:86-96 | without PAD_RIGHT the output ends with the digits, which read back in the base as the magnitude |
| Printk.ZeroPaddedDigits | lib/printk.cc:99-130 | under zero padding the output is exactly the sign, the prefix, max(0, w - |digits|) copies of '0' and the digits, w being the width less one for a sign; the prefix does not shorten the run |
| Printk.SpacePaddedDigits | lib/printk.cc:99-130 | without zero padding or PAD_RIGHT the output is exactly max(0, width - n) spaces, the prefix, the sign and the digits, n being the length of those three |
| Printk.NumTextLead | lib/printk.cc:99-128 | with zero padding the sign comes first and the prefix after it; otherwise the prefix precedes the sign |
| Printk.NumTextZero | lib/printk.cc:71-75 | zero prints a lone "0" among padding: no sign and no prefix |
| PrintkFormat.ArgAt | lib/printk.cc:175-186 | `va_arg` reads slot k for every supplied slot; past them the model reads a zero word, where C leaves the read undefined |
| PrintkFormat.Store | lib/printk.cc:138-152 | writing a member of the union replaces its low bytes and keeps the upper ones |
| PrintkFormat.ZeroRun | lib/printk.cc:170-173 | the '0' flag loop stops at the first character that is not '0' |
| PrintkFormat.WidthDigits | lib/printk.cc:178-182 | the width loop consumes exactly the run of decimal digits |
| PrintkFormat.WidthValue | lib/printk.cc:178-182 | the accumulated width is the decimal value of the digit run |
| PrintkFormat.WidthIsDecimal | lib/printk.cc:178-182 | starting from zero, the width is the decimal value of the digits it spans |
| PrintkFormat.ParseDirective | lib/printk.cc:156-183 | the flags come in the order '-', '#', '0'; a '*' takes the width from one slot; PAD_RIGHT is set iff '-' follows the '%' |
| PrintkFormat.DirectiveNoNul | lib/printk.cc:156-183 | flags and width span only characters before the terminator |
| PrintkFormat.Modifier | lib/printk.cc:240-392 | the modifiers are none, `l`, `ll`, `h` and `hh`, and no modifier leaves the index unmoved |
| PrintkFormat.NumFormatOf | lib/printk.cc:185-450 | the integer conversions and their base, sign and letbase; only `d` is signed |
| PrintkFormat.NumValue | lib/printk.cc:185-450 | the value handed to `printk_write_num` is a `long long`, and the union stays 64-bit |
| PrintkFormat.Convert | lib/printk.cc:184-462 | a conversion consumes at most one slot; one that consumes none emits nothing and leaves the union alone |
| PrintkFormat.NoConversion | lib/printk.cc:452-461 | an unknown conversion letter emits nothing and consumes nothing |
| PrintkFormat.TurnAt | lib/printk.cc:154-467 | one turn of the loop always moves forward in the format |
| PrintkFormat.PlainChar | lib/printk.cc:463-467 | an ordinary character is copied and counted |
| PrintkFormat.DoublePercent | lib/printk.cc:160-161 | "%%" emits one '%' |
| PrintkFormat.TrailingPercent | lib/printk.cc:156-159 | a '%' just before the terminator ends the output |
| PrintkFormat.PlainText | lib/printk.cc:154-468 | a format without '%' is copied up to its terminator |
| PrintkFormat.UnknownConversion | lib/printk.cc:460-461 | '%' followed by a character that starts no directive emits nothing and skips both |
| PrintkFormat.NullString | lib/printk.cc:234-238 | `%s` with a null pointer prints "(null)" |
| PrintkFormat.NullTurn | lib/printk.cc:234-238 | the turn at a `%s` with a null pointer emits "(null)" and consumes one slot |
| PrintkFormat.NullConvert | lib/printk.cc:234-238 | the `%s` conversion of a null pointer is "(null)" |
| PrintkFormat.NullText | lib/printk.cc:237 | the literal used for null is a C string reading "(null)" |
| PrintkFormat.CharConvert | lib/printk.cc:227-232 | `%c` prints the low byte as a one-character string |
| PrintkFormat.StringConvert | lib/printk.cc:234-238 | `%s` prints the C string at the pointer, padded |
| PrintkFormat.ReadDirective | lib/printk.cc:156-183 | the flag and width code computes ParseDirective |
| PrintkFormat.SkipZeros | lib/printk.cc:170-173 | the '0' loop computes ZeroRun |
| PrintkFormat.ReadWidth | lib/printk.cc:178-182 | the width loop computes WidthDigits |
| PrintkFormat.PlainConversion | lib/printk.cc:185-239 | the conversions without a modifier emit Convert's text and return its length |
| PrintkFormat.PlainNumber | lib/printk.cc:185-225 | `d u o x X p` emit the number through `printk_write_num` |
| PrintkFormat.CharConversion | lib/printk.cc:227-232 | `%c` emits the padded character |
| PrintkFormat.StringConversion | lib/printk.cc:234-238 | `%s` emits the padded string or "(null)" |
| PrintkFormat.LongConversion | lib/printk.cc:240-351 | the `l` and `ll` conversions read a 64-bit slot and emit Convert's text |
| PrintkFormat.SmallConversion | lib/printk.cc:352-459 | the `h` and `hh` conversions emit Convert's text, including the unsigned ones that print the whole union |
| PrintkFormat.ConvertAt | lib/printk.cc:184-462 | the modifier and conversion code emits Convert's text and stops at the conversion letter |
| PrintkFormat.Turn1 | lib/printk.cc:155-467 | one turn emits TurnAt's text |
| PrintkFormat.Step | lib/printk.cc:155-467 | one turn peels its text off the front of what the rest of the format emits |
| PrintkFormat.Advance | lib/printk.cc:154-468 | the loop's bookkeeping (emitted so far + still to come == total) is kept by each turn |
| PrintkFormat.WalkDone | lib/printk.cc:154-471 | at the terminator or a `break` everything has been emitted |
| PrintkFormat.Vsprintf | lib/printk.cc:133-472 | `simple_vsprintf` emits Format(fmt, args), adds a NUL only when writing to a buffer, and returns the count without the NUL |
| PrintkFormat.ShortReadsUnion | lib/printk.cc:362-367 | "%lx%hu" with 0x10000 and 5 prints 0x10005 for the `%hu` |
| PrintkFormat.SmallValueAgreement | lib/printk.cc:362-450 | the union read and the intended value agree exactly when the upper bytes of the union are zero |
| PrintkFormat.NumValueFixed | lib/printk.cc:362-450 | corrected: the unsigned `h`/`hh` conversions read the member just stored |
| PrintkFormat.FixedSmallValue | lib/printk.cc:362-450 | corrected: the value depends on the argument alone and fits the member |
| PrintkFormat.PastTerminator | lib/printk.cc:240-242 | "%l" just before the terminator steps over it and formats the bytes after it |
| PrintkFormat.TurnFixed | lib/printk.cc:154-467 | corrected: a directive cut short by the terminator ends the walk |
| PrintkFormat.TurnFixedStaysInside | lib/printk.cc:154-467 | corrected: a turn consumes only characters before the terminator |
| StringLib.Memset | lib/string.cc:5-11 | the first `size` bytes become v modulo 256, the rest is untouched, and the result is `s` |
| StringLib.Memcpy | lib/string.cc:13-20 | the first `n` bytes of dest become those of src, the rest is untouched, and the result is dest |
| StringLib.Memmove | lib/string.cc:22-29 | the downward copy loop computes MoveDown |
| StringLib.MoveDownOutside | lib/string.cc:25-27 | bytes outside the destination keep their values |
| StringLib.MoveDownCopies | lib/string.cc:22-29 | with dest at or above src, or no overlap, the destination receives the source's former bytes |
| StringLib.MoveDownOverlapBelow | lib/string.cc:25-27 | with dest below an overlapping src the copy goes wrong: [1,2,3] moved down by one over two bytes gives [3,3,3] |
| StringLib.MemmoveFixed | lib/string.cc:22-29 | corrected: the destination receives the source's former bytes for any overlap, and nothing else changes |
| StringLib.PointerOrder | lib/string.cc:31-43 | what `memcmp` answers: 0 for no bytes or equal pointers, else the order of the addresses |
| StringLib.Memcmp | lib/string.cc:31-43 | the loop returns the order of the two pointers |
| StringLib.MemcmpAddresses | lib/string.cc:35-40 | two ranges holding the same byte compare unequal |
| StringLib.FirstDiff | lib/string.cc:34-41 | the first index where two sequences differ, equal to the length iff they are equal |
| StringLib.MemcmpFixed | lib/string.cc:31-43 | corrected: 0 iff the bytes are equal, otherwise the sign of the first differing byte |
| StringLib.Strlen | lib/string.cc:45-51 | the count of characters before the first NUL |
| StringLib.Lex | lib/string.cc:61-69 | the comparison of equal-length texts answers -1, 0 or 1 |
| StringLib.LexZero | lib/string.cc:61-69 | equal-length texts compare 0 iff they are equal |
| StringLib.LexAntisymmetric | lib/string.cc:61-69 | swapping the texts negates the answer |
| StringLib.Strcmp | lib/string.cc:53-70 | `strcmp` orders by length first and lexicographically between equal lengths |
| StringLib.StrOrderProperties | lib/string.cc:53-70 | that order is 0 exactly for equal texts and antisymmetric, and a longer text is greater whatever its characters |
| StringLib.Strchr | lib/string.cc:72-80 | the index of the first `c` before the terminator, or none when `c` is absent; '\0' is never found |
| SplitString.SkipDelims | lib/common.cc:14-16 | the delimiter loop stops at the end or at a non-delimiter |
| SplitString.DelimRun | lib/common.cc:14-16 | everything it skipped is a delimiter |
| SplitString.SkipToken | lib/common.cc:24-26 | the token loop stops at the end or at a delimiter |
| SplitString.TokenRun | lib/common.cc:24-26 | everything it skipped is a non-delimiter |
| SplitString.Starts | lib/common.cc:13-27 | the recorded starts are increasing and each lies on a non-delimiter |
| SplitString.StartsGaps | lib/common.cc:13-27 | between two starts there is exactly one token run followed by one delimiter run |
| SplitString.Token | lib/common.cc:29 | every token is non-empty |
| SplitString.Tokens | lib/common.cc:28-35 | one token per start, each running from its start to the next start, or to the end for the last one |
| SplitString.Pieces | lib/common.cc:29 | the slices between consecutive starts |
| SplitString.PiecesJoin | lib/common.cc:29 | the pieces concatenate back to the text from the first start |
| SplitString.PiecesCons | lib/common.cc:29 | the first piece runs to the second start |
| SplitString.TokensCover | lib/common.cc:13-35 | the tokens concatenate to the text after its leading delimiters |
| SplitString.FirstLong | lib/common.cc:30-32 | the first token of 32 or more characters, where copying stops |
| SplitString.NoTokens | lib/common.cc:13-36 | the result is 0 iff the text is empty or only delimiters |
| SplitString.ResultOf | lib/common.cc:20-36 | the result is -1 when a token is too long, otherwise the token count |
| SplitString.TrailingDelimiter | lib/common.cc:29 | "cd /" splits into "cd " and "/": a non-last token keeps its trailing delimiters |
| SplitString.FixedToken | lib/common.cc:24-29 | corrected: a token is the run of non-delimiters only |
| SplitString.FixedTokens | lib/common.cc:13-35 | corrected: the same number of tokens, each non-empty and free of the delimiter |
| SplitString.FixedTokensTrim | lib/common.cc:29 | corrected tokens are the written tokens with their trailing delimiters removed |
| SplitString.TrimOne | lib/common.cc:29 | one corrected token is a prefix of the written one followed only by delimiters |
| SplitString.Scan | lib/common.cc:10-27 | the first loop records the token starts, or -1 for more than 16 tokens |
| SplitString.SkipRun | lib/common.cc:14-26 | the two inner loops compute SkipDelims and SkipToken |
| SplitString.Snapshot | lib/common.cc:9 | the rows of the `char[16][32]` array as sequences |
| SplitString.CopyRow | lib/common.cc:33-34 | one token is copied into its row and NUL-terminated; no other row changes |
| SplitString.CopyToken | lib/common.cc:29-34 | a token is copied iff it is shorter than 32 |
| SplitString.CopyRows | lib/common.cc:28-35 | the copy loop fills the rows up to the first long token and returns Result |
| SplitString.TokenLength | lib/common.cc:29 | the length is the next start minus this start, or `strlen` for the last token |
| SplitString.Length | lib/common.cc:29 | `strlen` from a position |
| SplitString.Split | lib/common.cc:9-37 | `SplitString` returns Result and leaves the rows holding the NUL-terminated tokens written before any failure |
| SplitString.FilledCells | lib/common.cc:28-35 | after the copy loop each written row holds its token and a NUL, and every other cell is untouched |
| StlVector.Grown | lib/stl/vector.h:86-91 | the new capacity is exactly 8 for an old capacity below 4, exactly twice the old one from 4 up to 2^31, and at least 8 and below 2^32 always |
| StlVector.Vector.Elements | lib/stl/vector.h:159-161 | the first `size_` slots of the buffer |
| StlVector.Vector.constructor | lib/stl/vector.h:15-19 | empty, no buffer, capacity 0 |
| StlVector.Vector.Sized | lib/stl/vector.h:21-25 | size and capacity n |
| StlVector.Vector.Filled | lib/stl/vector.h:27-34 | n copies of the initial value, capacity n |
| StlVector.Vector.Copy | lib/stl/vector.h:36-43 | corrected copy: the same elements and the same capacity, with a buffer of that capacity |
| StlVector.Vector.Assign | lib/stl/vector.h:134-142 | corrected assignment: the same elements and capacity as the source |
| StlVector.Vector.Size | lib/stl/vector.h:53-55 | the number of elements |
| StlVector.Vector.Capacity | lib/stl/vector.h:49-51 | at least the size, below 2^32 |
| StlVector.Vector.Empty | lib/stl/vector.h:57-59 | true iff there are no elements |
| StlVector.Vector.Front | lib/stl/vector.h:77-79 | the first element |
| StlVector.Vector.Back | lib/stl/vector.h:81-83 | the last element |
| StlVector.Vector.Reserve | lib/stl/vector.h:100-119 | never shrinks, keeps the elements, and reallocates only when asked for more |
| StlVector.Vector.PushBack | lib/stl/vector.h:85-94 | appends the value and keeps the earlier elements; when full, capacity becomes Grown(capacity) |
| StlVector.Vector.PopBack | lib/stl/vector.h:96-98 | drops the last element and keeps the buffer |
| StlVector.Vector.Resize | lib/stl/vector.h:121-124 | the size becomes n exactly, the capacity grows to n if needed, and the kept prefix is unchanged |
| StlVector.Vector.At | lib/stl/vector.h:126-132 | the element for an index below the size, and none (the exit) otherwise |
| StlVector.Vector.Set | lib/stl/vector.h:126-132 | assignment through `operator[]` changes exactly that element, or nothing when out of range |
| StlVector.Vector.Clear | lib/stl/vector.h:144-148 | size and capacity 0 and no buffer |
| StlVector.CopyOf | lib/stl/vector.h:110-114 | a fresh buffer whose first k slots copy the old ones |
| StlVector.CopyThenPushOverruns | lib/stl/vector.h:36-94 | a copy of a vector with spare capacity has slots for `size_` only, and the next push_back writes past them |
| StlVector.CopyFixed | lib/stl/vector.h:36-43 | corrected: the copy has as many slots as its capacity, so every push_back slot exists |
| StringPP.Str.Contents | lib/stringpp.cc:52-54 | the elements of the underlying vector |
| StringPP.Str.constructor | lib/stringpp.cc:7 | an empty string |
| StringPP.Str.FromCString | lib/stringpp.cc:9-14 | the characters before the NUL |
| StringPP.Str.Copy | lib/stringpp.cc:16-18 | corrected: `data_ = str.data_` through the corrected Vector.Assign, so the copy holds the same characters and every later append has a slot |
| StringPP.Str.Size | lib/stringpp.cc:52-54 | the number of characters |
| StringPP.Str.Empty | lib/stringpp.cc:40-42 | true iff there are no characters |
| StringPP.Str.CharAt | lib/stringpp.cc:72-74 | the character at the position truncated to 32 bits, or none (the exit) past the end |
| StringPP.Str.AppendChar | lib/stringpp.cc:36-38 | one character is added at the end |
| StringPP.Str.Append | lib/stringpp.cc:20-25 | the other string's characters are added at the end |
| StringPP.Str.AppendCString | lib/stringpp.cc:27-34 | the C string's characters are added at the end |
| StringPP.Str.PushAll | lib/stringpp.cc:20-34 | the reserve and push_back loop appends a sequence |
| StringPP.Str.Plus | lib/stringpp.cc:76-80 | corrected: through the corrected copy, a fresh string holding the concatenation; the receiver is not changed |
| StringPP.Str.PlusCString | lib/stringpp.cc:82-86 | corrected: through the corrected copy, a fresh string holding the receiver and the C string |
| StringPP.Str.CStr | lib/stringpp.cc:88-92 | a NUL follows the characters in the buffer, so the buffer reads back as the string |
| Base.CStringOf | lib/stringpp.cc:88-92 | a text without NUL, followed by a NUL and anything at all, reads back as that text |
| StringPP.Clamped | lib/stringpp.cc:95-97 | `len` is cut to `size - pos` when pos + len exceeds the size |
| StringPP.SubstrText | lib/stringpp.cc:94-103 | as written: the characters from pos up to the clamped len, at most size - pos of them |
| StringPP.Str.SubstrAsWritten | lib/stringpp.cc:94-103 | as written: the loop runs from pos to the clamped len, treating len as an end index |
| StringPP.SubstrDropsTail | lib/stringpp.cc:99 | "abc".substr(1, 2) is "b" and "abc".substr(2, 1) is empty |
| StringPP.SubstrIntendedOnlyFromZero | lib/stringpp.cc:94-103 | the written and the intended substring agree for every text exactly when pos is 0 or len is 0 |
| StringPP.Str.Substr | lib/stringpp.cc:94-103 | corrected: the min(len, size - pos) characters starting at pos |
| StringStreams.StringStream.constructor | lib/stringstream.cc:7-10 | the stream reads the given buffer of the given size from position 0 |
| StringStreams.StringStream.Size | lib/stringstream.cc:23-25 | the size given at construction |
| StringStreams.StringStream.Seek | lib/stringstream.cc:12-14 | the position becomes min(pos, size - 1); on an empty stream `size - 1` wraps, so it is pos |
| StringStreams.StringStream.Read | lib/stringstream.cc:16-21 | copies and returns min(size - position, n) bytes from the position, leaves the rest of dst alone and advances the position by as many |
| Checksum.Word | lib/math_utils.cc:7-11 | the 16-bit word read little-endian |
| Checksum.FullFold | lib/math_utils.cc:21-22 | folding carries until none is left gives a 16-bit value |
| Checksum.Checksum | lib/math_utils.cc:5-26 | the 16-bit complement of the folded sum of the 32-bit accumulator |
| Checksum.InCksum | lib/math_utils.cc:5-26 | `in_cksum` computes Checksum for every length, negative included |
| Checksum.AddMod | lib/math_utils.cc:8-18 | the 32-bit wrap of the running sum commutes with the additions |
| Checksum.TwoFolds | lib/math_utils.cc:21-22 | two folds fully fold any 32-bit sum |
| Checksum.Complemented | lib/math_utils.cc:21-25 | folding twice and complementing give 0xffff minus the full fold |
| Checksum.NotLow16 | lib/math_utils.cc:24 | the low 16 bits of the 32-bit `~x` |
| Checksum.FoldCongruent | lib/math_utils.cc:21-22 | folding keeps the value modulo 0xffff, the one's-complement congruence of RFC 1071 section 1 |
| Checksum.FoldZero | lib/math_utils.cc:21-24 | only a zero sum folds to zero, so only an all-zero sum gives 0xffff |
| Checksum.EmptyChecksum | lib/math_utils.cc:10-24 | no bytes, or a non-positive len, give 0xffff |
| Checksum.TotalWord | lib/math_utils.cc:10-13 | two more bytes after an even prefix add one little-endian word |
| Checksum.TotalOddByte | lib/math_utils.cc:15-19 | an odd trailing byte is added zero-extended |
| Checksum.WordSumPrefix | lib/math_utils.cc:10-13 | the word sum reads only the bytes it covers |
| Checksum.WordSumBound | lib/math_utils.cc:10-13 | k words sum to at most k * 0xffff |
| Checksum.NoWrap | lib/math_utils.cc:8-11 | up to 2^17 bytes the accumulator cannot wrap, so the checksum complements the exact one's-complement sum |
| Virtio.Mark | driver/virtio.cc:16 | setting the bit keeps the 4-byte map |
| Virtio.Unmark | driver/virtio.cc:30 | clearing the bit keeps the 4-byte map |
| Virtio.SetBit | driver/virtio.cc:16 | `|= 1 << k` sets bit k and no other |
| Virtio.ClearBit | driver/virtio.cc:30 | `&= ~(1 << k)` clears bit k and no other |
| Virtio.MarkBits | driver/virtio.cc:16 | after marking, exactly the old descriptors and i are in use |
| Virtio.UnmarkBits | driver/virtio.cc:30 | after unmarking, exactly the old descriptors other than i are in use |
| Virtio.UnmarkMark | driver/virtio.cc:13-30 | freeing a descriptor just allocated restores the map |
| Virtio.Device.constructor | driver/virtio.h:248-281 | all 32 descriptors free and `last_seen_used_idx_` 0 |
| Virtio.Device.AllocDesc | driver/virtio.cc:13-21 | the lowest free index, marked in the map with no other bit changed; -1 with the map unchanged when all 32 are in use |
| Virtio.MultipleOfEightPanics | driver/virtio.cc:29 | as written, freeing any multiple of 8 panics |
| Virtio.FreeDescMaskWrong | driver/virtio.cc:29 | as written, freeing allocated descriptor 0 panics |
| Virtio.Device.FreeDescAsWritten | driver/virtio.cc:27-32 | as written: panics on index 32 or more or when `byte & (idx % 8)` is 0; otherwise clears the bit and zeroes the descriptor |
| Virtio.Device.FreeDesc | driver/virtio.cc:27-32 | corrected: panics iff the index is 32 or more or not in use; otherwise clears only that bit and zeroes only that descriptor |
| Virtio.Freed | driver/virtio.cc:34-38 | the bitmap after freeing a list in order keeps the 4-byte shape |
| Virtio.FreedBits | driver/virtio.cc:34-38 | after freeing a list, a descriptor is in use iff it was in use and is not listed |
| Virtio.FirstPanic | driver/virtio.cc:34-38 | the first entry whose free panics once the earlier ones are freed, or the list length when none does |
| Virtio.PanicsAtMeans | driver/virtio.cc:27-38 | with the corrected test, freeing list[k] panics iff it is 32 or more, was not in use, or occurs earlier in the list |
| Virtio.FreeListNoPanic | driver/virtio.cc:34-38 | the corrected list free goes through iff the list names distinct descriptors, all in range and in use |
| Virtio.FreeListMaskWrong | driver/virtio.cc:29 | as written, freeing the list [0] with only descriptor 0 allocated panics at its first entry; corrected, it goes through |
| Virtio.Device.FreeDescsAsWritten | driver/virtio.cc:34-38 | as written: frees with the as-written test up to the first panicking entry n; panics iff n is inside the list; the bitmap loses exactly the listed bits before n, those descriptors are zeroed and all others keep their value |
| Virtio.Device.FreeDescs | driver/virtio.cc:34-38 | corrected: the same walk with the corrected test; panics iff an entry is out of range, not in use or repeated, and up to that entry the listed descriptors are freed and zeroed and nothing else changes |
| Virtio.Drain | driver/virtio.cc:206-211 | draining keeps the flag table's size |
| Virtio.DrainFlags | driver/virtio.cc:206-211 | after draining `count` entries a flag is still set iff it was set and no drained ring entry names it |
| Virtio.Residue32 | driver/virtio.cc:208 | the 32-bit wrap of the index does not change the ring slot `% 32` |
| Virtio.Distance | driver/virtio.cc:206 | the number of increments from a to b modulo m, 0 iff they are equal |
| Virtio.DistanceStep | driver/virtio.cc:210 | one increment shortens the distance by one |
| Virtio.Residue16 | driver/virtio.cc:210 | incrementing the 32-bit index and reducing to 16 bits agree |
| Virtio.DrainsAgree | driver/virtio.cc:206-211 | before `used.idx` wraps, the 32-bit loop and a 16-bit loop drain the same entries |
| Virtio.DrainAfterWrap | driver/virtio.cc:206-211 | after used.idx wraps from 65535 to 0, the 32-bit index is 2^32 - 65535 increments away instead of 1 |
| Virtio.Device.ProcessInterruptAsWritten | driver/virtio.cc:202-212 | as written: the flags drained are those Distance gives for the 32-bit index, which ends equal to used.idx |
| Virtio.Device.ProcessInterrupt | driver/virtio.cc:202-212 | corrected: the 16-bit distance is drained, one flag per used entry, and the index ends equal to used.idx modulo 2^16 |
| Console.Next | kernel/console.cc:33 | the 8-bit index increment |
| Console.Prev | kernel/console.cc:77 | the 8-bit decrement, undone by Next |
| Console.Count | kernel/console.cc:29 | the number of pending characters, 0 iff the indices are equal |
| Console.Pending | kernel/console.cc:29-33 | the characters between read and write index, Count of them |
| Console.Taken | kernel/console.cc:28-38 | `read` takes at most len characters and at most what is pending |
| Console.TakenStops | kernel/console.cc:28-38 | no newline comes before the last character taken; it stops short of len and of the pending text only right after a newline |
| Console.TakenAt | kernel/console.cc:34-37 | a newline ends the count, anything else continues it |
| Console.Console.constructor | kernel/console.h:27-30 | both indices 0 |
| Console.Console.TakeInto | kernel/console.cc:32-35 | one character is taken from the ring, translated, and written at p[cnt] |
| Console.Console.Read | kernel/console.cc:25-41 | `read` returns Taken chars, writes them translated, consumes exactly them, and reports the sleep when it runs dry before len with no newline |
| Console.FullAsWritten | kernel/console.cc:71 | the full test as written |
| Console.FullNeverHolds | kernel/console.cc:71-84 | with 8-bit indices and 256 slots the full test can never hold |
| Console.Full | kernel/console.cc:71-84 | corrected full test: one more store would make the ring look empty |
| Console.FullMeans | kernel/console.cc:71-84 | that test holds iff 255 characters are pending |
| Console.StoreAppends | kernel/console.cc:81-82 | storing at the write index and incrementing appends the character to the pending text |
| Console.StoreWhenFullLosesAll | kernel/console.cc:81-82 | a store with 255 pending makes all 256 vanish |
| Console.BackspaceDrops | kernel/console.cc:76-79 | a backspace drops the last pending character; with nothing pending, 255 stale characters appear |
| Console.Feed | kernel/console.cc:75-91 | as written: the ring after a burst of input |
| Console.FeedAdvances | kernel/console.cc:75-91 | as written, input without backspaces moves the write index to (w + |input|) mod 256: the 8-bit wrap, with no full check |
| Console.OverflowLosesInput | kernel/console.cc:71-88 | 256 characters typed into an empty ring leave nothing pending |
| Console.FeedFixed | kernel/console.cc:75-91 | corrected: stop once full, and ignore a backspace with nothing pending |
| Console.FeedFixedAppends | kernel/console.cc:75-91 | corrected, for input without backspaces: the pending text gains a prefix of the input, in order, and nothing already pending is lost |
| Console.Console.Store | kernel/console.cc:81-82 | the character goes to the write slot and the index moves on |
| Console.Console.InterruptHandlerAsWritten | kernel/console.cc:69-92 | as written: the ring and index become Feed of the input |
| Console.Console.InterruptHandler | kernel/console.cc:69-92 | corrected: the ring and index become FeedFixed of the input |
| Initcode.HexRoundTrip | tools/gen_initcode.cc:30-31 | `%#x` of a byte: "0" for zero, otherwise "0x" and lowercase digits without a leading zero, reading back as the byte |
| Initcode.CellsPlain | tools/gen_initcode.cc:29-41 | the cells hold no NUL, so each `strlen` finds the end of what was written |
| Initcode.Run | tools/gen_initcode.cc:10-48 | no output when argc < 3 or when the read length differs from the file size; otherwise Text |
| Initcode.MissingFileFails | tools/gen_initcode.cc:14-23 | a file that cannot be opened (tellg -1) gives no output |
| Initcode.EmptyText | tools/gen_initcode.cc:26-44 | an empty binary gives `char initcode[] = {};` and a size line of 0 |
| Initcode.OccurrencesConcat | tools/gen_initcode.cc:29-41 | counts add over concatenation |
| Initcode.OccurrencesNone | tools/gen_initcode.cc:29-41 | a character absent from a text occurs zero times |
| Initcode.HexPlain | tools/gen_initcode.cc:31 | a hex literal holds no comma and no newline |
| Initcode.CellCounts | tools/gen_initcode.cc:33-40 | a cell holds one comma unless it is the last byte, and one newline when i != 0 and i % 20 == 0 |
| Initcode.CommaCount | tools/gen_initcode.cc:33-35 | a comma follows every byte but the last |
| Initcode.BreakCount | tools/gen_initcode.cc:36-40 | the first k bytes carry (k - 1) / 20 line breaks |
| Initcode.CellsGrow | tools/gen_initcode.cc:29-41 | the text only grows along the loop |
| Initcode.CopyAt | tools/gen_initcode.cc:27-38 | `std::copy` overwrites exactly the piece's positions |
| Initcode.StrLen | tools/gen_initcode.cc:32-39 | the count of characters up to the first NUL |
| Initcode.Emit | tools/gen_initcode.cc:31-39 | writing a piece and moving `p` by `strlen` extends the written text by the piece |
| Initcode.EmitBegin | tools/gen_initcode.cc:26-28 | the buffer starts with `char initcode[] = {` and p is its length |
| Initcode.EmitCell | tools/gen_initcode.cc:30-40 | one turn writes the byte's literal, its comma and its line break |
| Initcode.EmitNext | tools/gen_initcode.cc:29-41 | one turn extends the written text by one cell |
| Initcode.CellsStep | tools/gen_initcode.cc:29-41 | the first i + 1 cells are the first i and cell i |
| Initcode.NoCells | tools/gen_initcode.cc:26-29 | before the loop nothing follows the opening text |
| Initcode.EmitCells | tools/gen_initcode.cc:29-41 | after the loop the buffer holds the opening text and every cell |
| Initcode.EmitEnd | tools/gen_initcode.cc:42-44 | `};` and the size line close the text and a NUL ends it |
| Initcode.DecimalDigits | tools/gen_initcode.cc:44 | the size line holds no NUL |
| Initcode.Serialise | tools/gen_initcode.cc:26-44 | the buffer ends up holding Text(s) and a NUL |
| SyscallStubs.TrimEnd | lib/gen_syscall_impl.py:11 | the end of the text after trailing whitespace is dropped |
| SyscallStubs.Strip | lib/gen_syscall_impl.py:11 | `strip()` leaves no whitespace at either end, whitespace being every character Python 3's `str.isspace()` accepts |
| SyscallStubs.SeparatorIsSpace | lib/gen_syscall_impl.py:11-13 | "void", 0x1C, "foo();" gives the name foo: the information separators count as whitespace |
| SyscallStubs.SkipNonSpace | lib/gen_syscall_impl.py:11 | the `\S+` run from p |
| SyscallStubs.SkipSpace | lib/gen_syscall_impl.py:11 | the `\s+` run from p |
| SyscallStubs.FindChar | lib/gen_syscall_impl.py:11-13 | the first occurrence of c from p |
| SyscallStubs.FindCharUnique | lib/gen_syscall_impl.py:13 | that first occurrence is unique |
| SyscallStubs.SkipNonSpaceUnique | lib/gen_syscall_impl.py:11 | the run end is unique |
| SyscallStubs.SkipSpaceUnique | lib/gen_syscall_impl.py:11 | the run end is unique |
| SyscallStubs.SkipNonSpacePast | lib/gen_syscall_impl.py:11 | a run extends past every non-space position reached |
| SyscallStubs.FindCloseSemi | lib/gen_syscall_impl.py:11 | the first `);` or newline from p |
| SyscallStubs.FindCloseSemiHits | lib/gen_syscall_impl.py:11 | it finds a `);` wherever one lies before a newline |
| SyscallStubs.BeforeFirst | lib/gen_syscall_impl.py:13 | `split('(')[0]`: the prefix before the first c, containing no c |
| SyscallStubs.MatchLineSound | lib/gen_syscall_impl.py:11 | a name is found only for a line whose prefix matches the pattern |
| SyscallStubs.ScanPositions | lib/gen_syscall_impl.py:11 | any match of the pattern fixes the two tokens and the first `(` |
| SyscallStubs.MatchForcesScan | lib/gen_syscall_impl.py:11-13 | any match of the pattern yields the second token up to its first `(` |
| SyscallStubs.ScanLineIffPattern | lib/gen_syscall_impl.py:11-12 | a line gives a name iff its stripped prefix matches `\S+\s+\S+\(.*\);` |
| SyscallStubs.ScanLineName | lib/gen_syscall_impl.py:13 | the name is `split()[1].split('(')[0]` of the matched text |
| SyscallStubs.TokenBeforeParen | lib/gen_syscall_impl.py:13 | the second whitespace token of the match starts at the second token and holds its first `(` |
| SyscallStubs.SecondToken | lib/gen_syscall_impl.py:13 | `split()[1]` of the match is the second token |
| SyscallStubs.Somes | lib/gen_syscall_impl.py:12-13 | the names of the matching lines, no more than the lines |
| SyscallStubs.SomesAppend | lib/gen_syscall_impl.py:10-13 | collecting distributes over concatenation |
| SyscallStubs.SomesAllPresent | lib/gen_syscall_impl.py:10-13 | when every line matches, every name is kept in place |
| SyscallStubs.Map | lib/gen_syscall_impl.py:10 | applying the scan line by line |
| SyscallStubs.MapAppend | lib/gen_syscall_impl.py:10 | that distributes over concatenation |
| SyscallStubs.Scans | lib/gen_syscall_impl.py:10-12 | one scan result per line |
| SyscallStubs.Names | lib/gen_syscall_impl.py:8-13 | the names collected, at most one per line |
| SyscallStubs.NamesAppend | lib/gen_syscall_impl.py:8-13 | names keep file order across concatenation |
| SyscallStubs.NamesOne | lib/gen_syscall_impl.py:11-13 | one line gives its name or nothing |
| SyscallStubs.NamesIgnoreDecoy | lib/gen_syscall_impl.py:12 | a non-matching line contributes nothing |
| SyscallStubs.NamesAllMatch | lib/gen_syscall_impl.py:8-13 | N matching lines give N names in file order, duplicates kept |
| SyscallStubs.NamesSnoc | lib/gen_syscall_impl.py:10-13 | one more line appends its name if it matches |
| SyscallStubs.ScanDeclarations | lib/gen_syscall_impl.py:8-13 | the scan loop computes Names |
| SyscallStubs.EscapeRoundTrip | lib/gen_syscall_impl.py:14-16 | the shell's backslash removal undoes the `"` escaping (ignoring `$` and back-quote expansion) |
| SyscallStubs.UnquoteEscaped | lib/gen_syscall_impl.py:14-16 | `\"` unquotes to `"` |
| SyscallStubs.UnquotePlain | lib/gen_syscall_impl.py:14-16 | other characters pass backslash removal unchanged (ignoring `$` and back-quote expansion) |
| SyscallStubs.ShellUnquoteAppend | lib/gen_syscall_impl.py:14-16 | backslash removal on an escaped prefix yields the prefix (ignoring `$` and back-quote expansion) |
| SyscallStubs.CompilerSeesBodies | lib/gen_syscall_impl.py:14-16 | after backslash removal the compiler receives the declarations with `{}` bodies (ignoring `$` and back-quote expansion) |
| SyscallStubs.BlocksAppend | lib/gen_syscall_impl.py:19-25 | blocks for concatenated symbol lists concatenate, names paired by position |
| SyscallStubs.BlocksCons | lib/gen_syscall_impl.py:19-25 | the first block pairs the first symbol with the first name |
| SyscallStubs.BlocksPositional | lib/gen_syscall_impl.py:19-25 | block i is made of symbol i and name i |
| SyscallStubs.BlocksSnoc | lib/gen_syscall_impl.py:19-25 | one more symbol appends its block |
| SyscallStubs.StubFile | lib/gen_syscall_impl.py:17-25 | the file starts with the include line and a blank line; it exists iff there are no more symbols than names |
| SyscallStubs.EmitStubs | lib/gen_syscall_impl.py:17-25 | the emission loop computes StubFile, failing at the first symbol without a name |
| SyscallStubs.Run | lib/gen_syscall_impl.py:4-27 | nothing unless exactly four arguments are given; the file goes to argv[3], and at most one stub per name |
| FrameOffset.MacroName | tools/gen_frame_offset.py:24 | the spelling upper-cased followed by `_OFFSET` |
| FrameOffset.Walker.constructor | tools/gen_frame_offset.py:19 | the global `result` starts empty |
| FrameOffset.Walker.Walk | tools/gen_frame_offset.py:21-29 | `walk` appends exactly Walked(node, flag) to `result` |
| FrameOffset.FieldSpellings | tools/gen_frame_offset.py:22-25 | the spellings of the FIELD_DECL children, at most one per child |
| FrameOffset.Probes | tools/gen_frame_offset.py:5-24 | one probe statement per field |
| FrameOffset.ProbesAppend | tools/gen_frame_offset.py:24 | probes distribute over concatenation |
| FrameOffset.FlaggedChildren | tools/gen_frame_offset.py:21-29 | with the flag set, the children contribute exactly their direct fields, and nothing nested is descended |
| FrameOffset.RegFrameProbes | tools/gen_frame_offset.py:26-29 | a `RegFrame` declaration contributes one probe per direct field |
| FrameOffset.NoRegFrameNoProbes | tools/gen_frame_offset.py:21-29 | a tree without `RegFrame` contributes nothing |
| FrameOffset.NoRegFrameNoProbesAll | tools/gen_frame_offset.py:28-29 | nor does a list of such trees |
| FrameOffset.EveryRegFrameContributes | tools/gen_frame_offset.py:26-29 | two sibling `RegFrame` declarations both contribute |
| FrameOffset.ProbeProgram | tools/gen_frame_offset.py:8-36 | the program text is the template head, the probes, then the template tail |
| FrameOffset.EmptyProbeProgram | tools/gen_frame_offset.py:35-36 | with no `RegFrame` the program is the bare template, still well-formed |
| FrameOffset.AlignUp | tools/gen_frame_offset.py:6 | the smallest multiple of the alignment at or above the position |
| FrameOffset.Offsets | tools/gen_frame_offset.py:6 | the byte distance of each field from the frame base |
| FrameOffset.OffsetsOrdered | tools/gen_frame_offset.py:6 | fields do not overlap and come in declaration order |
| FrameOffset.OffsetsTail | tools/gen_frame_offset.py:6 | a field whose position right after the previous field is already aligned sits there |
| FrameOffset.Words | kernel/regs_frame.hpp:10-43 | n `uint64_t` fields |
| FrameOffset.RegFrameTypes | kernel/regs_frame.hpp:9-46 | the 36 fields of `RegFrame` |
| FrameOffset.WordOffsetsPrefix | kernel/regs_frame.hpp:10-43 | n leading `uint64_t` fields sit at 8k |
| FrameOffset.RegisterOffsets | kernel/regs_frame.hpp:10-43 | the 34 register fields sit at 8k |
| FrameOffset.ScratchAfter | kernel/regs_frame.hpp:44-46 | the two arrays sit at 272 and 1024 |
| FrameOffset.ScratchOffsets | kernel/regs_frame.hpp:44-46 | the same for the frame's own field list |
| FrameOffset.RegFrameTail | kernel/regs_frame.hpp:44-46 | the array types after the 34 words |
| FrameOffset.RegFrameOffsets | kernel/regs_frame.hpp:9-46 | field k at 8k, A7_OFFSET 128, MEPC_OFFSET 248 |
| FrameOffset.TwoIntOffsets | tools/gen_frame_offset.py:6 | two `int` fields sit at 0 and 4 |
| FrameOffset.MixedOffsets | tools/gen_frame_offset.py:6 | int, 8-byte and 1-byte fields sit at 0, 8 and 16 |
| FrameOffset.ProbeLineX | tools/gen_frame_offset.py:6 | the probe for field x at 0 prints `#define X_OFFSET 0` |
| FrameOffset.ProbeLineY | tools/gen_frame_offset.py:6 | the probe for field y at 4 prints `#define Y_OFFSET 4` |
| FrameOffset.TwoIntProbeOutput | tools/gen_frame_offset.py:5-36 | the probe program for two ints prints two `#define` lines |
| SyscallManager.DoWork | kernel/syscalls/manager.cc:25-31 | -1 when num < 0, num >= Sum or the entry is null; otherwise the handler's result |
| SyscallManager.TableShape | kernel/syscalls/manager.cc:12-23 | Sum is 2, with fork at 0 and write at 1 |
| SyscallManager.Dispatch | kernel/syscalls/manager.cc:25-31 | 0 runs fork, 1 runs write, and any other number gives -1 |
| SyscallManager.Unreached | kernel/syscalls/manager.cc:26-29 | an invalid number runs no handler: the result does not depend on the handlers |
| ExternControllers.Lookup | kernel/extern_controller.cc:10-17 | the device of the first entry for the number; none iff no entry has it |
| ExternControllers.LookupFirst | kernel/extern_controller.cc:11-14 | the earliest matching registration wins |
| ExternControllers.LookupAfterRegister | kernel/extern_controller.cc:10-33 | registering a number already present changes no lookup; a new number is then found with its device |
| ExternControllers.ExternController.constructor | kernel/extern_controller.h:27-28 | no registrations |
| ExternControllers.ExternController.Register | kernel/extern_controller.cc:29-33 | the pair is appended and the count grows by one |
| ExternControllers.ExternController.GetDeviceByIRQ | kernel/extern_controller.cc:10-17 | the scan returns Lookup over the registrations, which names a registered pair |

## Findings

| source | as written | input that shows it | evidently intended | confidence | as-written member | corrected member |
|---|---|---|---|---|---|---|
| lib/printk.cc:362-450 | `%hu %ho %hx %hX` and the `hh` forms store a short or byte member of the union and then print `u.lli`, the whole 64-bit union | "%lx%hu" with 0x10000 and 5: the `%hu` prints 65541 | print the member just stored | not executed | PrintkFormat.ShortReadsUnion | PrintkFormat.NumValueFixed |
| lib/printk.cc:240-242 | when the terminator ends a directive, after `l`, `ll`, `h` or `hh` or straight after flags or a width, the loop's `++format` moves past it | "%l\0A\0" and "%5\0A\0" print "A" | stop at the terminator | not executed | PrintkFormat.PastTerminator | PrintkFormat.TurnFixed |
| lib/string.cc:22-29 | `memmove` always copies from the top down | dest 0, src 1, size 2 over [1,2,3] gives [3,3,3] | copy upwards when dest < src | not executed | StringLib.MoveDownOverlapBelow | StringLib.MemmoveFixed |
| lib/string.cc:31-43 | `memcmp` compares the two pointers, never the bytes | the 1-byte ranges at 0 and 1 of [7,7] give -1 | the sign of the first differing byte | not executed | StringLib.MemcmpAddresses | StringLib.MemcmpFixed |
| lib/common.cc:29 | a non-last token runs to the next token's start, keeping the delimiters between them | "cd /" gives "cd " and "/", so the shell's `strcmp(argv[0], "cd")` fails | tokens without delimiters | not executed | SplitString.TrailingDelimiter | SplitString.FixedTokens |
| lib/stl/vector.h:36-43 | the copy constructor (and `operator=` at 134-142, which `string(const string&)` at lib/stringpp.cc:16-18 uses, and through it `operator+` at 76-86) allocates `size_` slots but keeps `capacity_` | copy a vector of size 1 and capacity 8, then push_back: it writes slot 1 of a 1-slot buffer; likewise appending to a copied string | allocate `capacity_` slots | not executed | StlVector.CopyThenPushOverruns | StlVector.CopyFixed |
| lib/stringpp.cc:99 | `substr` loops from pos to the clamped len, as if len were an end index | "abc".substr(1, 2) is "b"; "abc".substr(2, 1) is empty | the min(len, size - pos) characters from pos | not executed | StringPP.SubstrDropsTail | StringPP.Str.Substr |
| driver/virtio.cc:29 | the in-use test masks with `desc_index % 8` instead of `1 << (desc_index % 8)`, for one descriptor and for a list | freeing allocated descriptor 0, alone or as the list [0], panics | test bit `desc_index % 8` | not executed | Virtio.FreeListMaskWrong | Virtio.Device.FreeDescs |
| driver/virtio.cc:206-211 | the 32-bit `last_seen_used_idx_` is compared with the 16-bit `used.idx` | after 65536 completions used.idx wraps to 0 and the loop runs 2^32 - 65535 more turns | compare modulo 2^16 | not executed | Virtio.DrainAfterWrap | Virtio.Device.ProcessInterrupt |
| kernel/console.cc:71-84 | the full test needs `w % 256 == r % 256` and `r != w`, impossible with 8-bit indices | 256 characters typed into an empty ring leave nothing to read | stop when one more store would make the ring look empty | not executed | Console.OverflowLosesInput | Console.Console.InterruptHandler |
| kernel/console.cc:76-79 | a backspace decrements the write index even with nothing pending | one backspace on an empty ring makes 255 stale characters readable | ignore it when nothing is pending | not executed | Console.BackspaceDrops | Console.FeedFixed |

## Left out

- **I/O and environment:**
  - All file I/O, `stdout` messages and the `os.popen` and clang calls of the generators. The compiler's symbol list, clang's cursor tree and the compiler's field layout are parameters.
  - gen_initcode's `Total file size` message and the `.cc` output file.
  - Clang parsing of `regs_frame.hpp`: the field layout is given as sizes and alignments.
- **Locks and the scheduler:**
  - Console locking, sleeping and waking. `Console.Console.Read` returns a `blocked` flag where the source would sleep.
  - The character echo, `Console::write` and `Console::get_name`, which only forward to a device or copy a literal.
- **Device registers and the PLIC:**
  - The MMIO interrupt acknowledge of `BlockDevice::ProcessInterrupt`.
  - `ExternController::DoWork` claims an interrupt through MMIO, panics or calls the device, then completes the claim. It is made only of device and register I/O.
  - Device registration from the `Device` constructor.
- **Handler bodies:** `sys_fork` and `sys_write` are the `invoke` parameter of `SyscallManager.DoWork`.
- **The rest of the containers and streams:**
  - `vector` and `string` `begin`/`end`/`data`, which only expose the buffer.
  - `StringStream::At`, `operator+` and the base-class interface.
- **Not modelled, each with its reason:**
  - The `printf` warning before `DoWork` returns -1: output only.
  - `f(c)` output through a callback is the same `Sink` as output to a buffer.
  - A `%s` argument pointer that is neither null nor a C string: undefined behaviour.
  - PrintkFormat.ArgAt: a directive that reads past the supplied arguments gets a zero word. In C such a `va_arg` is undefined and reads whatever the register save area or stack holds.
  - printk varargs of mismatched types are not modelled: each slot is a 64-bit word plus, for `%s`, the string it points to.
  - StringPP.Str.Plus, StringPP.Str.PlusCString: build `string substr(*this)` with the corrected Str.Copy. As written, the copy has `size_` slots and capacity 8 for `string("a")`, so `string("a") + "b"` writes past its buffer (see Findings).
  - StringPP.Str.Copy: copies through the corrected Vector.Assign. As written, `operator=` allocates only `size_` slots, so appending to a copied string writes past its buffer (see Findings).
  - SyscallStubs.CompilerSeesBodies, SyscallStubs.EscapeRoundTrip, SyscallStubs.ShellUnquoteAppend, SyscallStubs.UnquotePlain: ShellUnquote models only the backslash removal of `echo "..."`. /bin/sh also expands `$name`, `${...}`, `$(...)`, back-quotes and `$((...))` inside the double quotes, so a declaration holding `$` or a back-quote (with `x` unset, `int f$x();` becomes `int f();`) does not reach the compiler as written, although these lemmas say it does.
  - StringLib.Memmove: indexes with unbounded naturals. lib/string.cc:25 counts with an `int i = size - 1`, which is truncated for sizes of 2^31 or more.
  - PrintkFormat.WidthValue: the width is an unbounded integer. lib/printk.cc:180-181 accumulates it in an `int`, which overflows once the digits spell a value above 2^31 - 1.
  - FrameOffset.MacroName: upper-cases ASCII letters only. Python's `str.upper` also maps non-ASCII letters, which C++ field names in this repository do not use.
  - SyscallStubs.ScanDeclarations: lines are given already split at `\n`. Python's universal-newline reading also ends a line at a lone `\r`.
- **Deliberately weaker contracts and ruled-out preconditions:**
  - StlVector.Vector.PopBack: requires a non-empty vector. On an empty one `size_--` wraps to 2^32 - 1, and every later access is undefined.
  - StlVector.Vector.Front, StlVector.Vector.Back: require a non-empty vector. Otherwise they read outside the buffer.
  - StlVector.Vector.PushBack: requires that growth does not overflow 32 bits (capacity below 2^31).
  - StlVector.Vector.Sized, StlVector.Vector.Reserve, StlVector.Vector.Resize: sizes are below 2^32, as `uint32_t` arguments.
  - StringPP.Str.FromCString, StringPP.Str.Append, StringPP.Str.AppendCString: require the result to stay within the 32-bit vector size.
  - StringPP.Str.Substr, StringPP.Str.SubstrAsWritten: require pos <= size. For a larger pos, `size() - pos` wraps and the loop reads out of range, which exits.
  - StringStreams.StringStream.Read: requires position <= size, which Seek keeps except on an empty stream. It also requires that dst is not the stream's own buffer.
  - Console.Console.Read: requires that p is not the ring buffer.
  - Virtio.Device.ProcessInterrupt, Virtio.Device.ProcessInterruptAsWritten: `used.idx` is an input read once, before the drain. driver/virtio.cc:206-207 re-reads it after a `__sync_synchronize()` on every turn, so entries the device posts during the loop are also drained there.
  - Virtio.Device.ProcessInterrupt, Virtio.Device.ProcessInterruptAsWritten: require ring entries naming descriptors below 32, which the device guarantees.
  - ExternControllers.ExternController.Register: requires fewer than 8 registrations. A ninth writes past `std::array`, which is undefined behaviour.
  - Initcode.Serialise: requires that the text fits the 200000-byte buffer. A larger binary overflows it.
