/** The system-call stub generator: it scans single-line declarations for function
    names, has an oracle compiler report the linker symbols of the same declarations,
    and emits one RISC-V `li a7 / ecall / ret` trampoline per symbol. */
module SyscallStubs {
  import opened Base

  // ---------------------------------------------------------------------------
  // Whitespace, `str.strip()` and `str.split()`
  // ---------------------------------------------------------------------------

  /** The characters Python 3's `str.isspace()` accepts, which are also what `\s` in a
      `str` pattern, `str.strip()` and `str.split()` treat as whitespace: the ASCII
      controls 0x09-0x0D and 0x1C-0x1F, the space, and the Unicode separators. */
  predicate IsSpace(c: char) {
    var n := c as int;
    (0x09 <= n <= 0x0D) || (0x1C <= n <= 0x20) || n == 0x85 || n == 0xA0 || n == 0x1680 ||
    (0x2000 <= n <= 0x200A) || n == 0x2028 || n == 0x2029 || n == 0x202F || n == 0x205F ||
    n == 0x3000
  }

  /** The end of `s[a..e]` once trailing whitespace is dropped. */
  function TrimEnd(s: string, a: nat, e: nat): (q: nat)
    requires a <= e <= |s|
    ensures a <= q <= e
    ensures forall k :: q <= k < e ==> IsSpace(s[k])
    ensures q > a ==> !IsSpace(s[q - 1])
    decreases e
  {
    if e > a && IsSpace(s[e - 1]) then TrimEnd(s, a, e - 1) else e
  }

  /** Python's `line.strip()`: leading and trailing whitespace removed. */
  function Strip(s: string): (r: string)
    ensures r != [] ==> !IsSpace(r[0]) && !IsSpace(r[|r| - 1])
  {
    var a := SkipSpace(s, 0);
    s[a..TrimEnd(s, a, |s|)]
  }

  /** The first index at or after `p` holding whitespace, or `|s|`. */
  function SkipNonSpace(s: string, p: nat): (q: nat)
    requires p <= |s|
    ensures p <= q <= |s|
    ensures forall k :: p <= k < q ==> !IsSpace(s[k])
    ensures q < |s| ==> IsSpace(s[q])
    decreases |s| - p
  {
    if p == |s| || IsSpace(s[p]) then p else SkipNonSpace(s, p + 1)
  }

  /** The first index at or after `p` holding a non-whitespace character, or `|s|`. */
  function SkipSpace(s: string, p: nat): (q: nat)
    requires p <= |s|
    ensures p <= q <= |s|
    ensures forall k :: p <= k < q ==> IsSpace(s[k])
    ensures q < |s| ==> !IsSpace(s[q])
    decreases |s| - p
  {
    if p == |s| || !IsSpace(s[p]) then p else SkipSpace(s, p + 1)
  }

  /** The first index at or after `p` holding `c`, or `|s|`. */
  function FindChar(s: string, p: nat, c: char): (q: nat)
    requires p <= |s|
    ensures p <= q <= |s|
    ensures forall k :: p <= k < q ==> s[k] != c
    ensures q < |s| ==> s[q] == c
    decreases |s| - p
  {
    if p == |s| || s[p] == c then p else FindChar(s, p + 1, c)
  }

  lemma {:induction false} FindCharUnique(s: string, p: nat, c: char, q: nat)
    requires p <= q <= |s|
    requires forall k :: p <= k < q ==> s[k] != c
    requires q < |s| ==> s[q] == c
    ensures FindChar(s, p, c) == q
    decreases q - p
  {
    if p < q {
      FindCharUnique(s, p + 1, c, q);
    }
  }

  lemma {:induction false} SkipNonSpaceUnique(s: string, p: nat, q: nat)
    requires p <= q <= |s|
    requires forall k :: p <= k < q ==> !IsSpace(s[k])
    requires q < |s| ==> IsSpace(s[q])
    ensures SkipNonSpace(s, p) == q
    decreases q - p
  {
    if p < q {
      SkipNonSpaceUnique(s, p + 1, q);
    }
  }

  lemma {:induction false} SkipSpaceUnique(s: string, p: nat, q: nat)
    requires p <= q <= |s|
    requires forall k :: p <= k < q ==> IsSpace(s[k])
    requires q < |s| ==> !IsSpace(s[q])
    ensures SkipSpace(s, p) == q
    decreases q - p
  {
    if p < q {
      SkipSpaceUnique(s, p + 1, q);
    }
  }

  /** A run of non-whitespace from `p` to `q` is skipped entirely. */
  lemma {:induction false} SkipNonSpacePast(s: string, p: nat, q: nat)
    requires p <= q <= |s|
    requires forall k :: p <= k < q ==> !IsSpace(s[k])
    ensures SkipNonSpace(s, p) >= q
    decreases q - p
  {
    if p < q {
      SkipNonSpacePast(s, p + 1, q);
    }
  }

  /** With no newline before a `);` at `m`, the scan for `);` stops on a `);`. */
  lemma {:induction false} FindCloseSemiHits(s: string, p: nat, m: nat)
    requires p <= m
    requires CloseSemiAt(s, m)
    requires forall q :: p <= q < m ==> s[q] != '\n'
    ensures FindCloseSemi(s, p) <= m
    ensures CloseSemiAt(s, FindCloseSemi(s, p))
    decreases m - p
  {
    if p < m && !CloseSemiAt(s, p) {
      FindCloseSemiHits(s, p + 1, m);
    }
  }

  /** Python's `s.split()`: the maximal runs of non-whitespace, in order. */
  function PySplit(s: string): (r: seq<string>) {
    SplitFrom(s, SkipSpace(s, 0))
  }

  /** The runs of non-whitespace of `s` from position `p`, which starts a run. */
  function SplitFrom(s: string, p: nat): (r: seq<string>)
    requires p <= |s|
    requires p < |s| ==> !IsSpace(s[p])
    decreases |s| - p
  {
    if p == |s| then []
    else
      var e := SkipNonSpace(s, p);
      [s[p..e]] + SplitFrom(s, SkipSpace(s, e))
  }

  /** Python's `t.split(c)[0]`: the part of `t` before its first `c`. */
  function BeforeFirst(t: string, c: char): (r: string)
    ensures c !in r
    ensures |r| <= |t| && r == t[..|r|]
    ensures |r| < |t| ==> t[|r|] == c
  {
    t[..FindChar(t, 0, c)]
  }

  // ---------------------------------------------------------------------------
  // The declaration pattern `\S+\s+\S+\(.*\);`
  // ---------------------------------------------------------------------------

  predicate CloseSemiAt(s: string, m: nat) {
    m + 1 < |s| && s[m] == ')' && s[m + 1] == ';'
  }

  /** `re.match` succeeds with `\S+` = s[..i], `\s+` = s[i..j], `\S+` = s[j..k],
      `\(` = s[k], `.*` = s[k+1..m] and `\);` = s[m..m+2]. */
  ghost predicate MatchesAt(s: string, i: nat, j: nat, k: nat, m: nat) {
    && 0 < i < j < k < m
    && m + 2 <= |s|
    && s[k] == '(' && CloseSemiAt(s, m)
    && (forall p :: 0 <= p < i ==> !IsSpace(s[p]))
    && (forall p :: i <= p < j ==> IsSpace(s[p]))
    && (forall p :: j <= p < k ==> !IsSpace(s[p]))
    && (forall p :: k < p < m ==> s[p] != '\n')
  }

  /** The prefix of `s` matches the declaration pattern. */
  ghost predicate PatternMatches(s: string) {
    exists i, j, k, m :: MatchesAt(s, i, j, k, m)
  }

  /** The first index at or after `p` that is a newline or starts `);`, or `|s|`. */
  function FindCloseSemi(s: string, p: nat): (q: nat)
    requires p <= |s|
    ensures p <= q <= |s|
    ensures forall k :: p <= k < q ==> s[k] != '\n' && !CloseSemiAt(s, k)
    ensures q < |s| ==> s[q] == '\n' || CloseSemiAt(s, q)
    decreases |s| - p
  {
    if p == |s| || s[p] == '\n' || CloseSemiAt(s, p) then p else FindCloseSemi(s, p + 1)
  }

  /** The name a stripped line `s` declares: the second token up to its first `(`,
      if the line matches the pattern. */
  function MatchLine(s: string): Option<string> {
    var i := SkipNonSpace(s, 0);
    var j := SkipSpace(s, i);
    if i == 0 || i == j || j == |s| then None
    else
      var e := SkipNonSpace(s, j);
      var k := FindChar(s, j + 1, '(');
      if k >= e then None
      else
        var m := FindCloseSemi(s, k + 1);
        if m < |s| && CloseSemiAt(s, m) then Some(s[j..FindChar(s, j, '(')]) else None
  }

  /** The name extracted from one line of the declaration file (lines 11-13). */
  function ScanLine(line: string): Option<string> {
    MatchLine(Strip(line))
  }

  /** An information separator between the return type and the name separates them
      like a space: "void", 0x1C, "foo();" yields the name "foo". */
  lemma SeparatorIsSpace()
    ensures ScanLine("void\U{1C}foo();") == Some("foo")
  {
    var s := "void\U{1C}foo();";
    SeparatorTokens();
    assert Strip(s) == s;
    assert CloseSemiAt(s, 9) && FindCloseSemi(s, 9) == 9;
    assert s[5..8] == "foo";
  }

  /** The runs and the `(` that MatchLine finds in "void", 0x1C, "foo();". */
  lemma SeparatorTokens()
    ensures var s := "void\U{1C}foo();";
      SkipSpace(s, 0) == 0 && TrimEnd(s, 0, |s|) == |s| &&
      SkipNonSpace(s, 0) == 4 && SkipSpace(s, 4) == 5 && SkipNonSpace(s, 5) == 11 &&
      FindChar(s, 6, '(') == 8 && FindChar(s, 5, '(') == 8
  {
    var s := "void\U{1C}foo();";
    assert SkipNonSpace(s, 0) == 4;
    assert SkipNonSpace(s, 5) == 11;
  }

  lemma MatchLineSound(s: string)
    requires MatchLine(s).Some?
    ensures PatternMatches(s)
  {
    var i := SkipNonSpace(s, 0);
    var j := SkipSpace(s, i);
    var k := FindChar(s, j + 1, '(');
    var m := FindCloseSemi(s, k + 1);
    assert MatchesAt(s, i, j, k, m);
  }

  /** Any match of the pattern forces the scanner's first token end `i`, second token
      start `j`, and puts the scanner's `(` no later than the match's. */
  lemma ScanPositions(s: string, i: nat, j: nat, k: nat, m: nat)
    requires MatchesAt(s, i, j, k, m)
    ensures SkipNonSpace(s, 0) == i
    ensures SkipSpace(s, i) == j
    ensures FindChar(s, j, '(') <= k
    ensures FindChar(s, j + 1, '(') <= k < SkipNonSpace(s, j)
  {
    SkipNonSpaceUnique(s, 0, i);
    SkipSpaceUnique(s, i, j);
    SkipNonSpacePast(s, j, k + 1);
  }

  /** ... and the scanner's `);` search then stops on a `);`, so the line is taken. */
  lemma MatchForcesScan(s: string, i: nat, j: nat, k: nat, m: nat)
    requires MatchesAt(s, i, j, k, m)
    ensures MatchLine(s) == Some(s[j..FindChar(s, j, '(')])
  {
    ScanPositions(s, i, j, k, m);
    var k' := FindChar(s, j + 1, '(');
    forall q | k' + 1 <= q < m
      ensures s[q] != '\n'
    {
      if q <= k {
        assert !IsSpace(s[q]);
      }
    }
    FindCloseSemiHits(s, k' + 1, m);
  }

  /** A stripped line is taken exactly when a prefix of it matches `\S+\s+\S+\(.*\);`. */
  lemma {:induction false} ScanLineIffPattern(line: string)
    ensures ScanLine(line).Some? <==> PatternMatches(Strip(line))
  {
    var s := Strip(line);
    if MatchLine(s).Some? {
      MatchLineSound(s);
    } else if PatternMatches(s) {
      var i, j, k, m :| MatchesAt(s, i, j, k, m);
      MatchForcesScan(s, i, j, k, m);
    }
  }

  lemma ScanLineName(s: string, i: nat, j: nat, k: nat, m: nat)
    requires MatchesAt(s, i, j, k, m)
    ensures |PySplit(s[..m + 2])| >= 2
    ensures MatchLine(s) == Some(BeforeFirst(PySplit(s[..m + 2])[1], '('))
  {
    MatchForcesScan(s, i, j, k, m);
    SecondToken(s, i, j, k, m);
    TokenBeforeParen(s, i, j, k, m);
  }

  /** The part of the match's second token before `(` is what the scanner returns. */
  lemma TokenBeforeParen(s: string, i: nat, j: nat, k: nat, m: nat)
    requires MatchesAt(s, i, j, k, m)
    ensures var g := s[..m + 2]; j <= SkipNonSpace(g, j)
    ensures var g := s[..m + 2];
      BeforeFirst(g[j..SkipNonSpace(g, j)], '(') == s[j..FindChar(s, j, '(')]
  {
    ScanPositions(s, i, j, k, m);
    var g := s[..m + 2];
    SkipNonSpacePast(g, j, k + 1);
    var e := SkipNonSpace(g, j);
    var tok := g[j..e];
    var f := FindChar(s, j, '(');
    forall q | 0 <= q < f - j
      ensures tok[q] != '('
    {
      assert tok[q] == s[j + q];
    }
    assert tok[f - j] == s[f];
    FindCharUnique(tok, 0, '(', f - j);
    assert tok[..f - j] == s[j..f] by {
      assert |tok[..f - j]| == f - j;
      forall q | 0 <= q < f - j
        ensures tok[..f - j][q] == s[j..f][q]
      {
        assert tok[q] == s[j + q];
      }
    }
  }

  /** The second entry of `ret.group().split()` runs from the match's `j` to the
      first whitespace after it, past the `(` at `k`. */
  lemma SecondToken(s: string, i: nat, j: nat, k: nat, m: nat)
    requires MatchesAt(s, i, j, k, m)
    ensures SkipNonSpace(s[..m + 2], j) > k
    ensures |PySplit(s[..m + 2])| >= 2
    ensures PySplit(s[..m + 2])[1] == s[..m + 2][j..SkipNonSpace(s[..m + 2], j)]
  {
    var g := s[..m + 2];
    assert forall q :: 0 <= q < |g| ==> g[q] == s[q];
    SkipSpaceUnique(g, 0, 0);
    SkipNonSpaceUnique(g, 0, i);
    SkipSpaceUnique(g, i, j);
    SkipNonSpacePast(g, j, k + 1);
    var first := SplitFrom(g, 0);
    assert first == [g[0..i]] + SplitFrom(g, j);
    assert first[1] == SplitFrom(g, j)[0];
  }

  // ---------------------------------------------------------------------------
  // Declaration scan (lines 8-13)
  // ---------------------------------------------------------------------------

  /** The values present in `rs`, in order. */
  function Somes(rs: seq<Option<string>>): (r: seq<string>)
    ensures |r| <= |rs|
  {
    if rs == [] then [] else (if rs[0].Some? then [rs[0].value] else []) + Somes(rs[1..])
  }

  /** `f` applied to each element of `s`. */
  function Map<A, B>(f: A -> B, s: seq<A>): (r: seq<B>)
    ensures |r| == |s|
    ensures forall k :: 0 <= k < |s| ==> r[k] == f(s[k])
  {
    if s == [] then [] else [f(s[0])] + Map(f, s[1..])
  }

  lemma {:induction false} MapAppend<A, B>(f: A -> B, a: seq<A>, b: seq<A>)
    ensures Map(f, a + b) == Map(f, a) + Map(f, b)
    decreases |a|
  {
    if a == [] {
      assert a + b == b;
    } else {
      assert (a + b)[1..] == a[1..] + b;
      MapAppend(f, a[1..], b);
      ConcatAssoc([f(a[0])], Map(f, a[1..]), Map(f, b));
    }
  }

  /** The result of scanning each line. */
  function Scans(lines: seq<string>): (rs: seq<Option<string>>)
    ensures |rs| == |lines|
  {
    Map(ScanLine, lines)
  }

  /** The names of the matching lines, in file order, duplicates kept. */
  function Names(lines: seq<string>): (funs: seq<string>)
    ensures |funs| <= |lines|
  {
    Somes(Scans(lines))
  }

  lemma {:induction false} SomesAppend(a: seq<Option<string>>, b: seq<Option<string>>)
    ensures Somes(a + b) == Somes(a) + Somes(b)
    decreases |a|
  {
    if a == [] {
      assert a + b == b;
    } else {
      assert (a + b)[1..] == a[1..] + b;
      SomesAppend(a[1..], b);
      var h := if a[0].Some? then [a[0].value] else [];
      ConcatAssoc(h, Somes(a[1..]), Somes(b));
    }
  }

  /** When every entry is present, each contributes its value at its own position. */
  lemma {:induction false} SomesAllPresent(rs: seq<Option<string>>)
    requires forall k :: 0 <= k < |rs| ==> rs[k].Some?
    ensures |Somes(rs)| == |rs|
    ensures forall k :: 0 <= k < |rs| ==> Somes(rs)[k] == rs[k].value
  {
    if rs != [] {
      var tail := rs[1..];
      assert forall k :: 0 <= k < |tail| ==> tail[k] == rs[k + 1];
      SomesAllPresent(tail);
      assert Somes(rs) == [rs[0].value] + Somes(tail);
    }
  }

  lemma NamesAppend(a: seq<string>, b: seq<string>)
    ensures Names(a + b) == Names(a) + Names(b)
  {
    MapAppend(ScanLine, a, b);
    SomesAppend(Scans(a), Scans(b));
  }

  lemma NamesOne(line: string)
    ensures ScanLine(line).None? ==> Names([line]) == []
    ensures ScanLine(line).Some? ==> Names([line]) == [ScanLine(line).value]
  {
    var rs := Scans([line]);
    assert rs == [ScanLine(line)];
    assert rs[1..] == [];
  }

  /** A line that does not match (a comment, an include, a blank line, a multi-line
      declaration piece) can be inserted anywhere without changing the names. */
  lemma NamesIgnoreDecoy(a: seq<string>, decoy: string, b: seq<string>)
    requires ScanLine(decoy).None?
    ensures Names(a + [decoy] + b) == Names(a + b)
  {
    NamesAppend(a + [decoy], b);
    NamesAppend(a, [decoy]);
    NamesAppend(a, b);
    NamesOne(decoy);
    assert Names(a) + [] == Names(a);
  }

  /** Every line that matches contributes exactly one name, so N matching lines give N
      names in the same order. */
  lemma NamesAllMatch(lines: seq<string>)
    requires forall k :: 0 <= k < |lines| ==> ScanLine(lines[k]).Some?
    ensures |Names(lines)| == |lines|
    ensures forall k :: 0 <= k < |lines| ==> Names(lines)[k] == ScanLine(lines[k]).value
  {
    SomesAllPresent(Scans(lines));
  }

  lemma NamesSnoc(lines: seq<string>, idx: nat)
    requires idx < |lines|
    ensures ScanLine(lines[idx]).None? ==> Names(lines[..idx + 1]) == Names(lines[..idx])
    ensures ScanLine(lines[idx]).Some? ==>
      Names(lines[..idx + 1]) == Names(lines[..idx]) + [ScanLine(lines[idx]).value]
  {
    SliceSnoc(lines, idx);
    NamesAppend(lines[..idx], [lines[idx]]);
    NamesOne(lines[idx]);
    assert Names(lines[..idx]) + [] == Names(lines[..idx]);
  }

  /** The scan loop of lines 9-13: append the name of each matching line. */
  method ScanDeclarations(lines: seq<string>) returns (funs: seq<string>)
    ensures funs == Names(lines)
  {
    funs := [];
    var idx := 0;
    while idx < |lines|
      invariant 0 <= idx <= |lines|
      invariant funs == Names(lines[..idx])
    {
      var ret := ScanLine(lines[idx]);
      NamesSnoc(lines, idx);
      if ret.Some? {
        funs := funs + [ret.value];
      }
      idx := idx + 1;
    }
    assert lines[..idx] == lines;
  }

  // ---------------------------------------------------------------------------
  // Compiler input (line 14-16)
  // ---------------------------------------------------------------------------

  /** `sed s/;$/{}/`: a trailing `;` becomes an empty body. */
  function SemiToBody(line: string): (r: string)
    ensures line != [] && line[|line| - 1] == ';' ==> r == line[..|line| - 1] + "{}"
    ensures line == [] || line[|line| - 1] != ';' ==> r == line
  {
    if line != [] && line[|line| - 1] == ';' then line[..|line| - 1] + "{}" else line
  }

  /** `sed 's/"/\\"/g'`: every `"` becomes `\"`. */
  function EscapeQuotes(s: string): (r: string)
  {
    if s == [] then []
    else (if s[0] == '"' then "\\\"" else [s[0]]) + EscapeQuotes(s[1..])
  }

  /** The shell's backslash removal in the text between double quotes: a backslash
      before `"`, `\`, `$` or a back-quote is removed. Parameter expansion (`$name`,
      `${...}`), command substitution (`$(...)`, back-quotes) and arithmetic expansion,
      which the shell also performs there, are not part of this function. */
  function ShellUnquote(s: string): string {
    if |s| >= 2 && s[0] == '\\' && (s[1] == '"' || s[1] == '\\' || s[1] == '$' || s[1] == '`')
    then [s[1]] + ShellUnquote(s[2..])
    else if s == [] then []
    else [s[0]] + ShellUnquote(s[1..])
  }

  /** Escaping quotes for the `echo "..."` pipeline hands the compiler the text
      unchanged, as long as the text has no backslash of its own. */
  lemma {:induction false} EscapeRoundTrip(s: string)
    requires '\\' !in s
    ensures ShellUnquote(EscapeQuotes(s)) == s
  {
    if s != [] {
      EscapeRoundTrip(s[1..]);
      if s[0] == '"' {
        assert EscapeQuotes(s) == "\\\"" + EscapeQuotes(s[1..]);
      } else {
        assert EscapeQuotes(s) == [s[0]] + EscapeQuotes(s[1..]);
        assert EscapeQuotes(s)[0] != '\\';
      }
    }
  }

  /** The file after both `sed` commands, line by line. */
  function SedOutput(lines: seq<string>): string {
    if lines == [] then [] else EscapeQuotes(SemiToBody(lines[0])) + "\n" + SedOutput(lines[1..])
  }

  /** The declarations with bodies, the text the compiler should see. */
  function WithBodies(lines: seq<string>): string {
    if lines == [] then [] else SemiToBody(lines[0]) + "\n" + WithBodies(lines[1..])
  }

  /** The `content` argument of line 15: the sed output inside double quotes. */
  function CompilerInput(lines: seq<string>): string {
    "\"" + SedOutput(lines) + "\""
  }

  lemma UnquoteEscaped(s: string)
    requires |s| >= 2 && s[0] == '\\' && s[1] == '"'
    ensures ShellUnquote(s) == ['"'] + ShellUnquote(s[2..])
  {
  }

  lemma UnquotePlain(s: string)
    requires s != [] && s[0] != '\\'
    ensures ShellUnquote(s) == [s[0]] + ShellUnquote(s[1..])
  {
  }

  lemma {:induction false} ShellUnquoteAppend(a: string, b: string)
    requires '\\' !in a
    ensures ShellUnquote(EscapeQuotes(a) + b) == a + ShellUnquote(b)
    decreases |a|
  {
    if a == [] {
      assert EscapeQuotes(a) + b == b;
    } else {
      ShellUnquoteAppend(a[1..], b);
      var e := EscapeQuotes(a[1..]);
      var rest := e + b;
      var head := if a[0] == '"' then "\\\"" else [a[0]];
      assert EscapeQuotes(a) == head + e;
      ConcatAssoc(head, e, b);
      var s := head + rest;
      if a[0] == '"' {
        assert s[2..] == rest;
        UnquoteEscaped(s);
      } else {
        assert s[1..] == rest;
        UnquotePlain(s);
      }
      ConcatAssoc([a[0]], a[1..], ShellUnquote(b));
      assert [a[0]] + a[1..] == a;
    }
  }

  /** What the shell passes on from `content`, for declarations without backslashes,
      is the declaration file with every trailing `;` turned into `{}`. */
  lemma {:induction false} CompilerSeesBodies(lines: seq<string>)
    requires forall k :: 0 <= k < |lines| ==> '\\' !in lines[k]
    ensures ShellUnquote(SedOutput(lines)) == WithBodies(lines)
  {
    if lines != [] {
      var l := SemiToBody(lines[0]);
      assert '\\' !in l;
      CompilerSeesBodies(lines[1..]);
      assert SedOutput(lines) == EscapeQuotes(l) + ("\n" + SedOutput(lines[1..]));
      ShellUnquoteAppend(l, "\n" + SedOutput(lines[1..]));
      assert ShellUnquote("\n" + SedOutput(lines[1..])) == "\n" + ShellUnquote(SedOutput(lines[1..]));
    }
  }

  // ---------------------------------------------------------------------------
  // Stub emission (lines 17-25)
  // ---------------------------------------------------------------------------

  const Header: string := "#include \"kernel/syscalls/syscall_num_def.h\"\n\n"

  /** One trampoline: export the symbol, load the syscall number into a7, trap, return. */
  function Block(symbol: string, fun: string): string {
    ".global " + symbol + "\n" + symbol + ":\n" + "  li  a7, SYSCALL_" + fun + "\n" + "  ecall\n" + "  ret\n\n"
  }

  /** The blocks for the oracle's symbol lines, paired by position with the names. */
  function Blocks(items: seq<string>, funs: seq<string>): string
    requires |items| <= |funs|
  {
    if items == [] then [] else Block(Strip(items[0]), funs[0]) + Blocks(items[1..], funs[1..])
  }

  lemma {:induction false} BlocksAppend(a: seq<string>, b: seq<string>, funs: seq<string>)
    requires |a| + |b| <= |funs|
    ensures Blocks(a + b, funs) == Blocks(a, funs) + Blocks(b, funs[|a|..])
    decreases |a|
  {
    if a == [] {
      assert a + b == b;
      assert funs[0..] == funs;
    } else {
      assert (a + b)[0] == a[0];
      assert (a + b)[1..] == a[1..] + b;
      BlocksAppend(a[1..], b, funs[1..]);
      assert funs[1..][|a| - 1..] == funs[|a|..];
    }
  }

  lemma BlocksCons(items: seq<string>, funs: seq<string>)
    requires 0 < |items| <= |funs|
    ensures Blocks(items, funs) == Block(Strip(items[0]), funs[0]) + Blocks(items[1..], funs[1..])
  {
  }

  /** Block `i` is made of symbol line `i` and name `i`: the text splits into the blocks
      before it, that block, and the blocks after it. */
  lemma BlocksPositional(items: seq<string>, funs: seq<string>, i: nat)
    requires |items| <= |funs|
    requires i < |items|
    ensures Blocks(items, funs)
      == Blocks(items[..i], funs) + Block(Strip(items[i]), funs[i]) + Blocks(items[i + 1..], funs[i + 1..])
  {
    SliceSplit(items, i);
    BlocksAppend(items[..i], items[i..], funs);
    BlocksCons(items[i..], funs[i..]);
    DropCons(items, i);
    DropCons(funs, i);
    ConcatAssoc(Blocks(items[..i], funs), Block(Strip(items[i]), funs[i]), Blocks(items[i + 1..], funs[i + 1..]));
  }

  lemma BlocksSnoc(items: seq<string>, funs: seq<string>, i: nat)
    requires i < |items| && i < |funs|
    ensures Blocks(items[..i + 1], funs) == Blocks(items[..i], funs) + Block(Strip(items[i]), funs[i])
  {
    SliceSnoc(items, i);
    BlocksAppend(items[..i], [items[i]], funs);
    var one := [items[i]];
    assert one[0] == items[i] && one[1..] == [];
    assert funs[i..][0] == funs[i];
    BlocksCons(one, funs[i..]);
    assert Blocks(one[1..], funs[i..][1..]) == [];
    assert Block(Strip(items[i]), funs[i]) + [] == Block(Strip(items[i]), funs[i]);
  }

  /** The stub file, or None when symbol line `index` has no declaration name at that
      position: `funs[index]` raises and nothing is written. */
  function StubFile(funs: seq<string>, items: seq<string>): (r: Option<string>)
    ensures r.Some? <==> |items| <= |funs|
    ensures r.Some? ==> |r.value| >= |Header| && r.value[..|Header|] == Header
  {
    if |items| <= |funs| then Some(Header + Blocks(items, funs)) else None
  }

  /** The emission loop, writing one block per symbol line. */
  method EmitStubs(funs: seq<string>, items: seq<string>) returns (r: Option<string>)
    ensures r == StubFile(funs, items)
  {
    var text := Header;
    var index := 0;
    while index < |items|
      invariant 0 <= index <= |items|
      invariant index <= |funs|
      invariant text == Header + Blocks(items[..index], funs)
    {
      if index >= |funs| {
        return None;
      }
      var item := Strip(items[index]);
      BlocksSnoc(items, funs, index);
      ConcatAssoc(Header, Blocks(items[..index], funs), Block(item, funs[index]));
      text := text + Block(item, funs[index]);
      index := index + 1;
    }
    assert items[..index] == items;
    return Some(text);
  }

  /** The whole program: with exactly four arguments (compiler, input, output, include
      path) it writes the stub file to argv[3]; otherwise, or when the pairing fails,
      nothing is written. `oracle` stands for the compiler pipeline of line 16, given
      the compiler, the quoted source and the include path, returning its label lines. */
  function Run(argv: seq<string>, lines: seq<string>, oracle: (string, string, string) -> seq<string>)
    : (r: Option<(string, string)>)
    ensures |argv| != 5 ==> r.None?
    ensures r.Some? ==> r.value.0 == argv[3]
    ensures r.Some? ==> |oracle(argv[1], CompilerInput(lines), argv[4])| <= |Names(lines)|
  {
    if |argv| != 5 then None
    else
      var items := oracle(argv[1], CompilerInput(lines), argv[4]);
      match StubFile(Names(lines), items)
      case Some(text) => Some((argv[3], text))
      case None => None
  }
}
