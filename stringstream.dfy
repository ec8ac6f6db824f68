/** lib::StringStream: a read cursor over a caller's buffer of `size` characters. */
module StringStreams {
  import opened Base

  function Min(a: nat, b: nat): nat {
    if a <= b then a else b
  }

  class StringStream {
    /** `buf_`, `size_` and the `position_` inherited from StreamBase; the last two are
        64-bit `size_t`s. */
    var buf: array<char>
    var size: nat
    var position: nat

    ghost predicate Valid()
      reads this
    {
      size <= buf.Length && size < U64 && position < U64
    }

    /** `StringStream(s, size)`: the cursor starts at 0. */
    constructor (s: array<char>, n: nat)
      requires n <= s.Length && n < U64
      ensures Valid() && buf == s && size == n && position == 0
    {
      buf, size, position := s, n, 0;
    }

    /** `Size()`: the size given at construction. */
    function Size(): (n: nat)
      reads this
      requires Valid()
      ensures n == size && n <= buf.Length
    {
      size
    }

    /** `Seek(pos)`: the cursor moves to `pos`, clamped to size - 1; that bound is computed
        in 64 bits, so an empty stream does not clamp at all. */
    method Seek(pos: nat)
      requires Valid() && pos < U64
      modifies this
      ensures Valid() && buf == old(buf) && size == old(size)
      ensures size > 0 ==> position == if pos < size then pos else size - 1
      ensures size > 0 ==> position < size
      ensures size == 0 ==> position == pos
    {
      position := Min(pos, (size + U64 - 1) % U64);
    }

    /** `Read(buf, size)`: copies min(size - position, n) characters from the cursor into
        `dst`, advances the cursor by as many and returns that count. */
    method Read(dst: array<char>, n: nat) returns (m: nat)
      requires Valid() && position <= size && n < U64 && n <= dst.Length && dst != buf
      modifies this, dst
      ensures Valid() && buf == old(buf) && size == old(size)
      ensures m == Min(size - old(position), n)
      ensures dst[..m] == buf[old(position)..old(position) + m]
      ensures dst[m..] == old(dst[m..])
      ensures position == old(position) + m <= size
    {
      m := Min(size - position, n);
      var i := 0;
      while i < m
        invariant i <= m && position + m <= size
        invariant buf == old(buf) && size == old(size) && position == old(position)
        invariant dst[..i] == buf[position..position + i]
        invariant dst[m..] == old(dst[m..])
      {
        dst[i] := buf[position + i];
        i := i + 1;
      }
      position := position + m;
    }
  }
}
