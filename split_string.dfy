/** `SplitString(str, vec, dim)`: record where each run of non-delimiters starts, then
    copy each token into a row of a 16 x 32 character table. */
module SplitString {
  import opened Base

  const MaxLevel: nat := 16
  const RowLen: nat := 32

  /** The first index from `p` on that does not hold the delimiter (or the end). */
  function SkipDelims(t: seq<char>, p: nat, dim: char): (q: nat)
    requires p <= |t|
    ensures p <= q <= |t|
    ensures q < |t| ==> t[q] != dim
    decreases |t| - p
  {
    if p < |t| && t[p] == dim then SkipDelims(t, p + 1, dim) else p
  }

  /** The first index from `p` on that holds the delimiter (or the end). */
  function SkipToken(t: seq<char>, p: nat, dim: char): (q: nat)
    requires p <= |t|
    ensures p <= q <= |t|
    ensures q < |t| ==> t[q] == dim
    decreases |t| - p
  {
    if p < |t| && t[p] != dim then SkipToken(t, p + 1, dim) else p
  }

  /** Everything SkipDelims steps over is a delimiter. */
  lemma {:induction false} DelimRun(t: seq<char>, p: nat, dim: char)
    requires p <= |t|
    ensures forall k :: p <= k < SkipDelims(t, p, dim) ==> t[k] == dim
    decreases |t| - p
  {
    if p < |t| && t[p] == dim {
      DelimRun(t, p + 1, dim);
    }
  }

  /** Nothing SkipToken steps over is a delimiter. */
  lemma {:induction false} TokenRun(t: seq<char>, p: nat, dim: char)
    requires p <= |t|
    ensures forall k :: p <= k < SkipToken(t, p, dim) ==> t[k] != dim
    decreases |t| - p
  {
    if p < |t| && t[p] != dim {
      TokenRun(t, p + 1, dim);
    }
  }

  /** Where the tokens of `t[p..]` start: after each run of delimiters that is not at
      the end. */
  function Starts(t: seq<char>, p: nat, dim: char): (st: seq<nat>)
    requires p <= |t|
    ensures forall k :: 0 <= k < |st| ==> p <= st[k] < |t| && t[st[k]] != dim
    ensures forall k :: 0 <= k < |st| - 1 ==> st[k] < st[k + 1]
    decreases |t| - p
  {
    var q := SkipDelims(t, p, dim);
    if q == |t| then [] else [q] + Starts(t, SkipToken(t, q, dim), dim)
  }

  /** Token `i` as the code copies it: up to the start of the next token, so trailing
      delimiters are kept, and the last one up to the end of the text. */
  function Token(t: seq<char>, st: seq<nat>, i: nat): (tok: seq<char>)
    requires i < |st|
    requires forall k :: 0 <= k < |st| ==> st[k] < |t|
    requires forall k :: 0 <= k < |st| - 1 ==> st[k] < st[k + 1]
    ensures |tok| > 0
  {
    t[st[i]..End(|t|, st, i)]
  }

  /** Where token `i` ends as copied: the next start, or `n`, the end of the text. */
  function End(n: nat, st: seq<nat>, i: nat): nat
    requires i < |st|
  {
    if i + 1 < |st| then st[i + 1] else n
  }

  /** The tokens of `t` in order, as the code copies them. */
  function Tokens(t: seq<char>, dim: char): (toks: seq<seq<char>>)
    ensures |toks| == |Starts(t, 0, dim)|
    ensures forall k :: 0 <= k < |toks| ==> toks[k] == Token(t, Starts(t, 0, dim), k)
  {
    var st := Starts(t, 0, dim);
    seq(|st|, k requires 0 <= k < |st| => Token(t, st, k))
  }

  /** The first token of `RowLen` characters or more, or |toks| when there is none. */
  function FirstLong(toks: seq<seq<char>>, i: nat): (f: nat)
    requires i <= |toks|
    ensures i <= f <= |toks|
    ensures f < |toks| ==> |toks[f]| >= RowLen
    ensures forall k :: i <= k < f ==> |toks[k]| < RowLen
    decreases |toks| - i
  {
    if i == |toks| then i
    else if |toks[i]| >= RowLen then i
    else FirstLong(toks, i + 1)
  }

  /** The number of rows the call fills in, and its return value. */
  function Written(t: seq<char>, dim: char): nat {
    var toks := Tokens(t, dim);
    if |toks| > MaxLevel then 0 else FirstLong(toks, 0)
  }

  function Result(t: seq<char>, dim: char): int {
    var toks := Tokens(t, dim);
    if |toks| > MaxLevel then -1
    else if FirstLong(toks, 0) < |toks| then -1
    else |toks|
  }

  /** The character at row `i`, column `j` after the call, given the one before. */
  function Cell(t: seq<char>, dim: char, i: nat, j: nat, before: char): char {
    if i < Written(t, dim) then RowCell(Tokens(t, dim)[i], j, before) else before
  }

  /** Column `j` of a row holding `tok` and its terminator over `before`. */
  function RowCell(tok: seq<char>, j: nat, before: char): char {
    if j < |tok| then tok[j] else if j == |tok| then '\0' else before
  }

  // ---------------------------------------------------------------------------
  // Properties
  // ---------------------------------------------------------------------------

  /** The call returns 0 exactly when the text is empty or holds only delimiters. */
  lemma NoTokens(t: seq<char>, dim: char)
    ensures Result(t, dim) == 0 <==> forall k :: 0 <= k < |t| ==> t[k] == dim
  {
    DelimRun(t, 0, dim);
    var q := SkipDelims(t, 0, dim);
    if q < |t| {
      assert Starts(t, 0, dim)[0] == q;
    }
  }

  /** The tokens of the starts `st`, as the code copies them. */
  function Pieces(t: seq<char>, st: seq<nat>): (ps: seq<seq<char>>)
    requires forall k :: 0 <= k < |st| ==> st[k] < |t|
    requires forall k :: 0 <= k < |st| - 1 ==> st[k] < st[k + 1]
    ensures |ps| == |st|
    ensures forall k :: 0 <= k < |st| ==> ps[k] == Token(t, st, k)
  {
    seq(|st|, k requires 0 <= k < |st| => Token(t, st, k))
  }

  /** The characters of the tokens, one after the other. */
  function Joined(toks: seq<seq<char>>): seq<char> {
    if toks == [] then [] else toks[0] + Joined(toks[1..])
  }

  /** Since each copied token runs up to the start of the next, the tokens joined
      together give back the whole text after its leading delimiters. */
  lemma TokensCover(t: seq<char>, dim: char)
    ensures Joined(Tokens(t, dim)) == t[SkipDelims(t, 0, dim)..]
  {
    var st := Starts(t, 0, dim);
    assert Tokens(t, dim) == Pieces(t, st);
    if st != [] {
      PiecesJoin(t, st);
    }
  }

  /** Pieces that each run to the next start join up to the text from the first. */
  lemma {:induction false} PiecesJoin(t: seq<char>, st: seq<nat>)
    requires st != []
    requires forall k :: 0 <= k < |st| ==> st[k] < |t|
    requires forall k :: 0 <= k < |st| - 1 ==> st[k] < st[k + 1]
    ensures Joined(Pieces(t, st)) == t[st[0]..]
    decreases |st|
  {
    var ps := Pieces(t, st);
    if |st| == 1 {
      assert ps[0] == t[st[0]..|t|] == t[st[0]..];
      assert ps == [t[st[0]..]];
      assert Joined(ps) == t[st[0]..] + Joined([]);
    } else {
      var q, rest := st[0], st[1..];
      assert st == [q] + rest;
      assert forall k :: 0 <= k < |rest| - 1 ==> rest[k] < rest[k + 1] by {
        forall k | 0 <= k < |rest| - 1 ensures rest[k] < rest[k + 1] {
          assert rest[k] == st[k + 1] && rest[k + 1] == st[k + 2];
        }
      }
      PiecesCons(t, q, rest);
      PiecesJoin(t, rest);
      assert Joined(ps) == ps[0] + Joined(ps[1..]);
      assert t[q..] == t[q..rest[0]] + t[rest[0]..];
    }
  }

  /** Adding a start in front adds the piece that runs to the old first start. */
  lemma PiecesCons(t: seq<char>, q: nat, rest: seq<nat>)
    requires rest != [] && q < rest[0]
    requires forall k :: 0 <= k < |rest| ==> rest[k] < |t|
    requires forall k :: 0 <= k < |rest| - 1 ==> rest[k] < rest[k + 1]
    ensures var st := [q] + rest;
      (forall k :: 0 <= k < |st| ==> st[k] < |t|) &&
      (forall k :: 0 <= k < |st| - 1 ==> st[k] < st[k + 1]) &&
      Pieces(t, st) == [t[q..rest[0]]] + Pieces(t, rest)
  {
    var st := [q] + rest;
    assert forall k :: 0 <= k < |st| - 1 ==> st[k] < st[k + 1] by {
      forall k | 0 <= k < |st| - 1 ensures st[k] < st[k + 1] {
        if k > 0 {
          assert st[k] == rest[k - 1] && st[k + 1] == rest[k];
        }
      }
    }
    var ps, pr := Pieces(t, st), Pieces(t, rest);
    forall k | 0 <= k < |rest| ensures ps[k + 1] == pr[k] {
      assert st[k + 1] == rest[k];
      assert End(|t|, st, k + 1) == End(|t|, rest, k);
    }
    assert ps == [t[q..rest[0]]] + pr;
  }

  /** As written, a token other than the last keeps the delimiters that follow it:
      the shell line "cd /" yields the command "cd ", which differs from "cd". */
  lemma TrailingDelimiter()
    ensures Tokens("cd /", ' ') == ["cd ", "/"]
    ensures Result("cd /", ' ') == 2
  {
    var t := "cd /";
    assert SkipDelims(t, 0, ' ') == 0;
    assert SkipToken(t, 0, ' ') == 2;
    assert SkipDelims(t, 2, ' ') == 3;
    assert SkipToken(t, 3, ' ') == 4;
    assert Starts(t, 4, ' ') == [];
    var st := Starts(t, 0, ' ');
    assert st == [0, 3];
    var toks := Tokens(t, ' ');
    assert toks[0] == Token(t, st, 0) == t[0..3];
    assert toks[1] == Token(t, st, 1) == t[3..];
    assert t[0..3] == "cd " && t[3..] == "/";
    assert |toks| == 2;
    assert FirstLong(toks, 2) == 2;
  }

  /** Between a token start and the end of its copied token lie the token's
      characters, then only delimiters. */
  ghost predicate Gapped(t: seq<char>, st: seq<nat>, dim: char)
  {
    forall k :: 0 <= k < |st| && st[k] <= |t| ==>
      End(|t|, st, k) == SkipDelims(t, SkipToken(t, st[k], dim), dim)
  }

  lemma {:induction false} StartsGaps(t: seq<char>, p: nat, dim: char)
    requires p <= |t|
    ensures Gapped(t, Starts(t, p, dim), dim)
    decreases |t| - p
  {
    var q := SkipDelims(t, p, dim);
    if q < |t| {
      var e := SkipToken(t, q, dim);
      var rest := Starts(t, e, dim);
      var st := Starts(t, p, dim);
      assert st == [q] + rest;
      assert rest == [] <==> SkipDelims(t, e, dim) == |t|;
      assert rest != [] ==> rest[0] == SkipDelims(t, e, dim);
      StartsGaps(t, e, dim);
      forall k | 0 <= k < |st| && st[k] <= |t|
        ensures End(|t|, st, k) == SkipDelims(t, SkipToken(t, st[k], dim), dim)
      {
        if k > 0 {
          assert st[k] == rest[k - 1] && End(|t|, st, k) == End(|t|, rest, k - 1);
        } else {
          assert st[0] == q && SkipToken(t, st[0], dim) == e;
          if rest != [] {
            assert End(|t|, st, 0) == rest[0];
          } else {
            assert |st| == 1 && End(|t|, st, 0) == |t|;
          }
        }
      }
    }
  }

  /** The tokens as evidently intended: each from its start up to the next delimiter
      or the end, so no token holds a delimiter. */
  function FixedTokens(t: seq<char>, dim: char): (toks: seq<seq<char>>)
    ensures |toks| == |Tokens(t, dim)|
    ensures forall k :: 0 <= k < |toks| ==> |toks[k]| > 0 && dim !in toks[k]
  {
    var st := Starts(t, 0, dim);
    seq(|st|, k requires 0 <= k < |st| => FixedToken(t, st[k], dim))
  }

  /** The word that starts at `p`: up to the next delimiter or the end. */
  function FixedToken(t: seq<char>, p: nat, dim: char): (tok: seq<char>)
    requires p < |t| && t[p] != dim
    ensures |tok| > 0 && dim !in tok
  {
    TokenRun(t, p, dim);
    t[p..SkipToken(t, p, dim)]
  }

  /** Each token as the code copies it is the intended token followed by nothing but
      delimiters. */
  lemma FixedTokensTrim(t: seq<char>, dim: char)
    ensures var toks, fixed := Tokens(t, dim), FixedTokens(t, dim);
      forall k :: 0 <= k < |toks| ==>
        |fixed[k]| <= |toks[k]| && toks[k][..|fixed[k]|] == fixed[k] &&
        forall j :: |fixed[k]| <= j < |toks[k]| ==> toks[k][j] == dim
  {
    StartsGaps(t, 0, dim);
    forall k | 0 <= k < |Tokens(t, dim)| {
      TrimOne(t, dim, k);
    }
  }

  lemma TrimOne(t: seq<char>, dim: char, k: nat)
    requires k < |Starts(t, 0, dim)|
    requires var st := Starts(t, 0, dim);
      End(|t|, st, k) == SkipDelims(t, SkipToken(t, st[k], dim), dim)
    ensures var tok, fix := Tokens(t, dim)[k], FixedTokens(t, dim)[k];
      |fix| <= |tok| && tok[..|fix|] == fix && forall j :: |fix| <= j < |tok| ==> tok[j] == dim
  {
    var st := Starts(t, 0, dim);
    var a, e, b := st[k], SkipToken(t, st[k], dim), End(|t|, st, k);
    assert Tokens(t, dim)[k] == t[a..b];
    assert FixedTokens(t, dim)[k] == t[a..e];
    DelimRun(t, e, dim);
    PaddedSlice(t, a, e, b, dim);
  }

  /** A slice whose tail past `e` holds only `d` is the slice up to `e` padded with `d`. */
  lemma PaddedSlice<T>(t: seq<T>, a: nat, e: nat, b: nat, d: T)
    requires a <= e <= b <= |t|
    requires forall j :: e <= j < b ==> t[j] == d
    ensures t[a..b][..e - a] == t[a..e]
    ensures forall j :: e - a <= j < b - a ==> t[a..b][j] == d
  {
  }

  // ---------------------------------------------------------------------------
  // The procedure
  // ---------------------------------------------------------------------------

  /** The scan loop (lines 13-27): the token starts, or -1 once a seventeenth token
      begins. */
  method Scan(str: seq<char>, dim: char) returns (paths: array<nat>, level: int)
    requires '\0' in str
    ensures fresh(paths) && paths.Length == MaxLevel
    ensures var st := Starts(CString(str), 0, dim);
      if |st| > MaxLevel then level == -1
      else level == |st| && paths[..level] == st
  {
    ghost var t := CString(str);
    paths := new nat[MaxLevel];
    level := 0;
    var p: nat := 0;
    while true
      invariant p <= |t| && 0 <= level <= MaxLevel
      invariant paths[..level] + Starts(t, p, dim) == Starts(t, 0, dim)
      decreases |t| - p
    {
      ghost var p0 := p;
      p := SkipRun(str, p, dim, true);
      if str[p] == '\0' {
        assert Starts(t, p0, dim) == [];
        assert paths[..level] + [] == paths[..level];
        break;
      }
      ghost var rest := Starts(t, SkipToken(t, p, dim), dim);
      assert Starts(t, p0, dim) == [p] + rest;
      if level == MaxLevel {
        assert |Starts(t, 0, dim)| > MaxLevel;
        return paths, -1;
      }
      paths[level] := p;
      level := level + 1;
      assert paths[..level] == paths[..level - 1] + [p];
      ConcatAssoc(paths[..level - 1], [p], rest);
      p := SkipRun(str, p, dim, false);
    }
  }

  /** `while (*str && (*str == dim) == delims) ++str;` */
  method SkipRun(str: seq<char>, p0: nat, dim: char, delims: bool) returns (p: nat)
    requires '\0' in str && p0 <= |CString(str)|
    ensures p == if delims then SkipDelims(CString(str), p0, dim) else SkipToken(CString(str), p0, dim)
  {
    ghost var t := CString(str);
    p := p0;
    while str[p] != '\0' && (str[p] == dim) == delims
      invariant p0 <= p <= |t|
      invariant if delims then SkipDelims(t, p0, dim) == SkipDelims(t, p, dim)
        else SkipToken(t, p0, dim) == SkipToken(t, p, dim)
      decreases |t| - p
    {
      p := p + 1;
    }
  }

  /** The table's contents as rows. */
  ghost function Snapshot(vec: array2<char>): (rows: seq<seq<char>>)
    reads vec
    ensures |rows| == vec.Length0
    ensures forall a :: 0 <= a < |rows| ==> |rows[a]| == vec.Length1
    ensures forall a, b :: 0 <= a < vec.Length0 && 0 <= b < vec.Length1 ==> rows[a][b] == vec[a, b]
  {
    seq(vec.Length0, a requires 0 <= a < vec.Length0 reads vec =>
      seq(vec.Length1, b requires 0 <= b < vec.Length1 reads vec => vec[a, b]))
  }

  /** `vec` is the 16 x 32 table and `before` has its shape. */
  ghost predicate Table(vec: array2<char>, before: seq<seq<char>>) {
    vec.Length0 == MaxLevel == |before| && vec.Length1 == RowLen &&
    forall a :: 0 <= a < MaxLevel ==> |before[a]| == RowLen
  }

  /** `paths[..level]` holds the token starts of the text in `str`. */
  ghost predicate Scanned(str: seq<char>, dim: char, paths: array<nat>, level: nat)
    reads paths
  {
    '\0' in str &&
    var st := Starts(CString(str), 0, dim);
    level == |st| <= MaxLevel == paths.Length && paths[..level] == st
  }

  /** Rows below `i` hold the tokens, the others what they held `before`. */
  ghost predicate Filled(vec: array2<char>, before: seq<seq<char>>, toks: seq<seq<char>>, i: nat)
    requires Table(vec, before) && i <= |toks|
    reads vec
  {
    forall a, b :: 0 <= a < MaxLevel && 0 <= b < RowLen ==>
      vec[a, b] == (if a < i then RowCell(toks[a], b, before[a][b]) else before[a][b])
  }

  /** `std::copy(from, from + len, vec[i])` followed by `vec[i][len] = '\0'`: row `i`
      gets token `i`. */
  method CopyRow(vec: array2<char>, i: nat, str: seq<char>, from: nat, len: nat,
                 ghost before: seq<seq<char>>, ghost toks: seq<seq<char>>)
    requires Table(vec, before)
    requires i < |toks| && i < MaxLevel && len < RowLen && from + len <= |str|
    requires str[from..from + len] == toks[i]
    requires Filled(vec, before, toks, i)
    modifies vec
    ensures Filled(vec, before, toks, i + 1)
  {
    var j := 0;
    while j < len
      invariant j <= len
      invariant forall a, b :: 0 <= a < MaxLevel && 0 <= b < RowLen ==>
        vec[a, b] == (if a < i || (a == i && b < j) then RowCell(toks[a], b, before[a][b]) else before[a][b])
    {
      assert str[from + j] == toks[i][j];
      vec[i, j] := str[from + j];
      j := j + 1;
    }
    vec[i, len] := '\0';
  }

  /** `SplitString(str, vec, dim)` into a 16 x 32 table. */
  method Split(str: seq<char>, vec: array2<char>, dim: char) returns (r: int)
    requires '\0' in str
    requires vec.Length0 == MaxLevel && vec.Length1 == RowLen
    modifies vec
    ensures r == Result(CString(str), dim)
    ensures forall a, b :: 0 <= a < MaxLevel && 0 <= b < RowLen ==>
      vec[a, b] == Cell(CString(str), dim, a, b, old(vec[a, b]))
  {
    ghost var before := Snapshot(vec);
    var paths, level := Scan(str, dim);
    if level < 0 {
      return -1;
    }
    ghost var w;
    r, w := CopyRows(str, vec, dim, paths, level, before);
    FilledCells(CString(str), dim, vec, before, w);
  }

  /** The copy loop (lines 28-38): row `i` gets token `i` until a token does not fit;
      `w` rows are written. */
  method CopyRows(str: seq<char>, vec: array2<char>, dim: char, paths: array<nat>, level: nat,
                  ghost before: seq<seq<char>>)
    returns (r: int, ghost w: nat)
    requires Table(vec, before) && Scanned(str, dim, paths, level)
    requires Filled(vec, before, Tokens(CString(str), dim), 0)
    modifies vec
    ensures r == Result(CString(str), dim) && w == Written(CString(str), dim)
    ensures w <= |Tokens(CString(str), dim)| && Filled(vec, before, Tokens(CString(str), dim), w)
  {
    ghost var t := CString(str);
    ghost var toks := Tokens(t, dim);
    var i := 0;
    while i < level
      invariant i <= level && FirstLong(toks, 0) == FirstLong(toks, i)
      invariant Filled(vec, before, toks, i)
    {
      var fits := CopyToken(str, vec, dim, paths, level, i, before, toks);
      if !fits {
        ResultOf(t, dim, i);
        return -1, i;
      }
      i := i + 1;
    }
    ResultOf(t, dim, i);
    return level, i;
  }

  /** One turn of the copy loop: token `i` is copied into row `i` when it fits. */
  method CopyToken(str: seq<char>, vec: array2<char>, dim: char, paths: array<nat>, level: nat, i: nat,
                   ghost before: seq<seq<char>>, ghost toks: seq<seq<char>>)
    returns (fits: bool)
    requires Table(vec, before) && Scanned(str, dim, paths, level) && i < level
    requires toks == Tokens(CString(str), dim) && Filled(vec, before, toks, i)
    modifies vec
    ensures fits <==> |toks[i]| < RowLen
    ensures Filled(vec, before, toks, if fits then i + 1 else i)
  {
    var len := TokenLength(str, dim, paths, level, i);
    if len >= RowLen {
      return false;
    }
    CopyRow(vec, i, str, paths[i], len, before, toks);
    return true;
  }

  /** The return value and the rows written, once the first long token is known. */
  lemma ResultOf(t: seq<char>, dim: char, f: nat)
    requires |Tokens(t, dim)| <= MaxLevel && f == FirstLong(Tokens(t, dim), 0)
    ensures Written(t, dim) == f
    ensures Result(t, dim) == if f < |Tokens(t, dim)| then -1 else |Tokens(t, dim)|
  {
  }

  /** Once the written rows are filled, every cell is what Cell says. */
  lemma FilledCells(t: seq<char>, dim: char, vec: array2<char>, before: seq<seq<char>>, w: nat)
    requires Table(vec, before)
    requires w == Written(t, dim) && w <= |Tokens(t, dim)| && Filled(vec, before, Tokens(t, dim), w)
    ensures forall a, b :: 0 <= a < MaxLevel && 0 <= b < RowLen ==>
      vec[a, b] == Cell(t, dim, a, b, before[a][b])
  {
  }

  /** `len` of token `i`: the distance to the next start, or `strlen` for the last. */
  method TokenLength(str: seq<char>, dim: char, paths: array<nat>, level: nat, i: nat) returns (len: nat)
    requires Scanned(str, dim, paths, level) && i < level
    ensures len == |Tokens(CString(str), dim)[i]|
    ensures paths[i] + len <= |str| && str[paths[i]..paths[i] + len] == Tokens(CString(str), dim)[i]
  {
    ghost var t := CString(str);
    ghost var st := Starts(t, 0, dim);
    assert paths[i] == st[i];
    if i < level - 1 {
      assert paths[i + 1] == st[i + 1];
      len := paths[i + 1] - paths[i];
    } else {
      len := Length(str, paths[i]);
    }
    assert paths[i] + len == End(|t|, st, i);
    assert Tokens(t, dim)[i] == t[paths[i]..paths[i] + len];
    assert t[paths[i]..paths[i] + len] == str[paths[i]..paths[i] + len];
  }

  /** `strlen(str + from)` for a start inside the text. */
  method Length(str: seq<char>, from: nat) returns (n: nat)
    requires '\0' in str && from <= |CString(str)|
    ensures n == |CString(str)| - from
  {
    n := 0;
    while str[from + n] != '\0'
      invariant from + n <= |CString(str)|
      decreases |CString(str)| - from - n
    {
      n := n + 1;
    }
  }
}
