/** The freestanding `mem*` and `str*` routines. Memory is an array of bytes; a
    pointer into it is an index. Read-only C strings are character sequences that
    hold a terminator. */
module StringLib {
  import opened Base

  /** `memset(s, v, size)`: the first `size` bytes become the low byte of `v`, the rest
      is untouched; the result is `s` itself. */
  method Memset(s: array<byte>, v: int, size: nat) returns (r: array<byte>)
    requires size <= s.Length
    modifies s
    ensures r == s
    ensures forall k :: 0 <= k < size ==> s[k] == v % 0x100
    ensures s[size..] == old(s[size..])
  {
    var i := 0;
    while i < size
      invariant i <= size
      invariant forall k :: 0 <= k < i ==> s[k] == v % 0x100
      invariant s[size..] == old(s[size..])
    {
      s[i] := v % 0x100;
      i := i + 1;
    }
    r := s;
  }

  /** `memcpy(dest, src, n)`: the first `n` bytes of `dest` become those of `src`. The
      two may be the same array, in which case nothing changes. */
  method Memcpy(dest: array<byte>, src: array<byte>, n: nat) returns (r: array<byte>)
    requires n <= dest.Length && n <= src.Length
    modifies dest
    ensures r == dest
    ensures dest[..n] == old(src[..n])
    ensures dest[n..] == old(dest[n..])
    ensures src[..] == old(src[..])
  {
    var i := 0;
    while i < n
      invariant i <= n
      invariant dest[..i] == old(src[..i])
      invariant dest[i..] == old(dest[i..])
      invariant src[..] == old(src[..])
    {
      dest[i] := src[i];
      assert dest[..i + 1] == dest[..i] + [dest[i]];
      assert old(src[..i + 1]) == old(src[..i]) + [old(src[i])];
      i := i + 1;
    }
    r := dest;
  }

  // ---------------------------------------------------------------------------
  // memmove (lines 22-29)
  // ---------------------------------------------------------------------------

  /** The state after the copy loop of `memmove` when it has processed the indices
      from `n - 1` down to 0, one byte at a time, within one memory `m` that holds both
      the destination (at `dest`) and the source (at `src`). */
  function MoveDown(m: seq<byte>, dest: nat, src: nat, n: nat): (r: seq<byte>)
    requires dest + n <= |m| && src + n <= |m|
    ensures |r| == |m|
    decreases n
  {
    if n == 0 then m
    else MoveDown(m[dest + n - 1 := m[src + n - 1]], dest, src, n - 1)
  }

  /** `memmove(m + dest, m + src, size)` as written: copies from the highest index
      down. */
  method Memmove(m: array<byte>, dest: nat, src: nat, size: nat)
    requires dest + size <= m.Length && src + size <= m.Length
    modifies m
    ensures m[..] == MoveDown(old(m[..]), dest, src, size)
  {
    var i: nat := size;
    while i > 0
      invariant i <= size
      invariant MoveDown(m[..], dest, src, i) == MoveDown(old(m[..]), dest, src, size)
    {
      ghost var before := m[..];
      i := i - 1;
      m[dest + i] := m[src + i];
      assert m[..] == before[dest + i := before[src + i]];
    }
  }

  /** Indices outside the destination keep their bytes. */
  lemma {:induction false} MoveDownOutside(m: seq<byte>, dest: nat, src: nat, n: nat, k: nat)
    requires dest + n <= |m| && src + n <= |m| && k < |m|
    requires k < dest || dest + n <= k
    ensures MoveDown(m, dest, src, n)[k] == m[k]
    decreases n
  {
    if n > 0 {
      MoveDownOutside(m[dest + n - 1 := m[src + n - 1]], dest, src, n - 1, k);
    }
  }

  /** With the destination at or above the source, or the two apart, the destination
      ends up holding the source's former bytes. */
  lemma {:induction false} MoveDownCopies(m: seq<byte>, dest: nat, src: nat, n: nat)
    requires dest + n <= |m| && src + n <= |m|
    requires dest >= src || dest + n <= src
    ensures MoveDown(m, dest, src, n)[dest..dest + n] == m[src..src + n]
    decreases n
  {
    if n > 0 {
      var m1 := m[dest + n - 1 := m[src + n - 1]];
      assert m1[src..src + n - 1] == m[src..src + n - 1] by {
        forall k | src <= k < src + n - 1
          ensures m1[k] == m[k]
        {
          assert k != dest + n - 1;
        }
      }
      MoveDownCopies(m1, dest, src, n - 1);
      MoveDownOutside(m1, dest, src, n - 1, dest + n - 1);
      var r := MoveDown(m, dest, src, n);
      assert r[dest..dest + n] == r[dest..dest + n - 1] + [r[dest + n - 1]];
      assert m[src..src + n] == m[src..src + n - 1] + [m[src + n - 1]];
    }
  }

  /** With the destination below an overlapping source the copy goes wrong: moving
      [1, 2, 3] one place down over two bytes gives [3, 3, 3], not [2, 3, 3]. */
  lemma MoveDownOverlapBelow()
    ensures MoveDown([1, 2, 3], 0, 1, 2) == [3, 3, 3]
  {
    assert [1, 2, 3][1 := 3] == [1, 3, 3];
    assert [1, 3, 3][0 := 3] == [3, 3, 3];
  }

  /** `memmove` as evidently intended: copy upwards when the destination lies below
      the source, downwards otherwise, so that any overlap is safe. */
  method MemmoveFixed(m: array<byte>, dest: nat, src: nat, size: nat)
    requires dest + size <= m.Length && src + size <= m.Length
    modifies m
    ensures m[dest..dest + size] == old(m[src..src + size])
    ensures forall k :: 0 <= k < m.Length && (k < dest || dest + size <= k) ==> m[k] == old(m[k])
  {
    if dest < src {
      var i := 0;
      while i < size
        invariant i <= size
        invariant forall j :: dest <= j < dest + i ==> m[j] == old(m[j - dest + src])
        invariant forall j :: src + i <= j < src + size ==> m[j] == old(m[j])
        invariant forall j :: 0 <= j < m.Length && (j < dest || dest + size <= j) ==> m[j] == old(m[j])
      {
        m[dest + i] := m[src + i];
        i := i + 1;
      }
    } else {
      var i: nat := size;
      while i > 0
        invariant i <= size
        invariant forall j :: dest + i <= j < dest + size ==> m[j] == old(m[j - dest + src])
        invariant forall j :: src <= j < src + i ==> m[j] == old(m[j])
        invariant forall j :: 0 <= j < m.Length && (j < dest || dest + size <= j) ==> m[j] == old(m[j])
      {
        i := i - 1;
        m[dest + i] := m[src + i];
      }
    }
    ghost var a, b := m[dest..dest + size], old(m[src..src + size]);
    assert forall j :: 0 <= j < size ==> a[j] == m[dest + j];
    assert forall j :: 0 <= j < size ==> b[j] == old(m[src + j]);
    assert a == b;
  }

  // ---------------------------------------------------------------------------
  // memcmp (lines 31-43)
  // ---------------------------------------------------------------------------

  /** What `memcmp` as written answers: the order of the two addresses, 0 for an
      empty range. */
  function PointerOrder(p1: nat, p2: nat, num: nat): (r: int)
    ensures num == 0 || p1 == p2 ==> r == 0
    ensures num > 0 && p1 > p2 ==> r == 1
    ensures num > 0 && p1 < p2 ==> r == -1
  {
    if num == 0 || p1 == p2 then 0 else if p1 > p2 then 1 else -1
  }

  /** `memcmp(m + p1, m + p2, num)` as written: the loop compares the two pointers,
      never the bytes, and returns on its first turn. */
  method Memcmp(m: seq<byte>, p1: nat, p2: nat, num: nat) returns (r: int)
    requires p1 + num <= |m| && p2 + num <= |m|
    ensures r == PointerOrder(p1, p2, num)
  {
    var i := 0;
    while i < num
      invariant i <= num
      invariant i > 0 ==> p1 == p2
    {
      if p1 > p2 {
        return 1;
      }
      if p1 < p2 {
        return -1;
      }
      i := i + 1;
    }
    return 0;
  }

  /** Two places holding the same byte compare unequal: in [7, 7] the one-byte ranges
      at 0 and at 1 are equal, yet `memcmp` answers -1. */
  lemma MemcmpAddresses()
    ensures [7, 7][0..1] == [7, 7][1..2] && PointerOrder(0, 1, 1) == -1
  {
  }

  /** Where two byte strings of the same length first differ (their length when they
      are equal). */
  function FirstDiff(a: seq<byte>, b: seq<byte>): (d: nat)
    requires |a| == |b|
    ensures d <= |a| && a[..d] == b[..d]
    ensures d < |a| ==> a[d] != b[d]
    ensures d == |a| <==> a == b
  {
    if a == [] then 0
    else if a[0] != b[0] then 0
    else
      var d := 1 + FirstDiff(a[1..], b[1..]);
      assert a[..d] == [a[0]] + a[1..][..d - 1];
      assert b[..d] == [b[0]] + b[1..][..d - 1];
      assert a == [a[0]] + a[1..] && b == [b[0]] + b[1..];
      d
  }

  /** `memcmp` as evidently intended: the sign of the first differing byte, 0 when the
      two ranges hold the same bytes. */
  method MemcmpFixed(m: seq<byte>, p1: nat, p2: nat, num: nat) returns (r: int)
    requires p1 + num <= |m| && p2 + num <= |m|
    ensures var a, b := m[p1..p1 + num], m[p2..p2 + num];
      var d := FirstDiff(a, b);
      (r == 0 <==> a == b) && (r == 1 <==> d < num && a[d] > b[d]) && (r == -1 <==> d < num && a[d] < b[d])
  {
    ghost var a, b := m[p1..p1 + num], m[p2..p2 + num];
    ghost var d := FirstDiff(a, b);
    var i := 0;
    while i < num
      invariant i <= d
    {
      assert a[i] == m[p1 + i] && b[i] == m[p2 + i];
      if m[p1 + i] != m[p2 + i] {
        return if m[p1 + i] > m[p2 + i] then 1 else -1;
      }
      i := i + 1;
    }
    r := 0;
  }

  // ---------------------------------------------------------------------------
  // strlen, strcmp, strchr (lines 45-80)
  // ---------------------------------------------------------------------------

  /** `strlen(s)`: the number of characters before the terminator. */
  method Strlen(s: seq<char>) returns (n: nat)
    requires '\0' in s
    ensures n == |CString(s)|
  {
    n := 0;
    while s[n] != '\0'
      invariant n <= |CString(s)|
      decreases |CString(s)| - n
    {
      n := n + 1;
    }
  }

  /** Lexicographic order of two texts of equal length: the sign of the first
      differing character. */
  function Lex(a: seq<char>, b: seq<char>): (r: int)
    requires |a| == |b|
    ensures -1 <= r <= 1
  {
    if a == [] then 0
    else if a[0] > b[0] then 1
    else if a[0] < b[0] then -1
    else Lex(a[1..], b[1..])
  }

  lemma {:induction false} LexZero(a: seq<char>, b: seq<char>)
    requires |a| == |b|
    ensures Lex(a, b) == 0 <==> a == b
  {
    if a != [] {
      LexZero(a[1..], b[1..]);
      if a[0] == b[0] {
        assert a == [a[0]] + a[1..] && b == [b[0]] + b[1..];
      }
    }
  }

  lemma {:induction false} LexAntisymmetric(a: seq<char>, b: seq<char>)
    requires |a| == |b|
    ensures Lex(a, b) == -Lex(b, a)
  {
    if a != [] {
      LexAntisymmetric(a[1..], b[1..]);
    }
  }

  /** The order `strcmp` defines: by length first, and lexicographically between
      texts of the same length. */
  function StrOrder(t1: seq<char>, t2: seq<char>): int {
    if |t1| > |t2| then 1 else if |t1| < |t2| then -1 else Lex(t1, t2)
  }

  /** `strcmp(s1, s2)`. */
  method Strcmp(s1: seq<char>, s2: seq<char>) returns (r: int)
    requires '\0' in s1 && '\0' in s2
    ensures r == StrOrder(CString(s1), CString(s2))
  {
    var len1 := Strlen(s1);
    var len2 := Strlen(s2);
    if len1 > len2 {
      return 1;
    } else if len1 < len2 {
      return -1;
    }
    ghost var t1, t2 := CString(s1), CString(s2);
    var i := 0;
    while i < len1
      invariant i <= len1
      invariant Lex(t1, t2) == Lex(t1[i..], t2[i..])
    {
      if s1[i] > s2[i] {
        return 1;
      }
      if s1[i] < s2[i] {
        return -1;
      }
      assert t1[i..][1..] == t1[i + 1..] && t2[i..][1..] == t2[i + 1..];
      i := i + 1;
    }
    return 0;
  }

  /** The order is total and antisymmetric, and compares equal exactly for equal
      texts; a longer text is greater whatever its characters. */
  lemma StrOrderProperties(t1: seq<char>, t2: seq<char>)
    ensures StrOrder(t1, t2) == 0 <==> t1 == t2
    ensures StrOrder(t1, t2) == -StrOrder(t2, t1)
    ensures |t1| > |t2| ==> StrOrder(t1, t2) == 1
  {
    if |t1| == |t2| {
      LexZero(t1, t2);
      LexAntisymmetric(t1, t2);
    }
  }

  /** `strchr(str, c)`: the index of the first `c` before the terminator, or none; the
      terminator itself is never found. */
  method Strchr(str: seq<char>, c: char) returns (r: Option<nat>)
    requires '\0' in str
    ensures r.Some? ==> (r.value < |CString(str)| && str[r.value] == c
      && forall j :: 0 <= j < r.value ==> str[j] != c)
    ensures r.None? <==> c !in CString(str)
    ensures c == '\0' ==> r.None?
  {
    var i := 0;
    while str[i] != '\0'
      invariant i <= |CString(str)|
      invariant forall j :: 0 <= j < i ==> str[j] != c
      decreases |CString(str)| - i
    {
      if str[i] == c {
        return Some(i);
      }
      i := i + 1;
    }
    return None;
  }
}
