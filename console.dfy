/** kernel::Console: a 256-character ring buffer filled by the UART interrupt and drained
    by `read`, with 8-bit read and write indices. */
module Console {

  const BufLen: nat := 256
  const Backspace: char := 127 as char

  /** The 8-bit increment of an index, wrapping from 255 to 0. */
  function Next(i: nat): (j: nat)
    requires i < BufLen
    ensures j < BufLen
  {
    if i == 255 then 0 else i + 1
  }

  /** The 8-bit decrement of an index, wrapping from 0 to 255. */
  function Prev(i: nat): (j: nat)
    requires i < BufLen
    ensures j < BufLen && Next(j) == i
  {
    if i == 0 then 255 else i - 1
  }

  /** How many increments take index `r` to index `w`. */
  function Count(r: nat, w: nat): (n: nat)
    requires r < BufLen && w < BufLen
    ensures n < BufLen && (n == 0 <==> r == w)
  {
    if r <= w then w - r else 256 - r + w
  }

  /** The characters waiting between the read and the write index, oldest first. */
  function Pending(buf: seq<char>, r: nat, w: nat): (p: seq<char>)
    requires |buf| == BufLen && r < BufLen && w < BufLen
    ensures |p| == Count(r, w)
    decreases Count(r, w)
  {
    if r == w then [] else [buf[r]] + Pending(buf, Next(r), w)
  }

  /** `read` turns a carriage return into a newline. */
  function Translate(c: char): char {
    if c == '\r' then '\n' else c
  }

  function TranslateAll(s: seq<char>): (t: seq<char>)
    ensures |t| == |s|
    ensures forall k :: 0 <= k < |s| ==> t[k] == Translate(s[k])
  {
    seq(|s|, k requires 0 <= k < |s| => Translate(s[k]))
  }

  /** How many pending characters a read of at most `len` takes: up to and including the
      first one that reads as a newline, and no more than there are. */
  function Taken(p: seq<char>, len: nat): (n: nat)
    ensures n <= len && n <= |p|
  {
    if len == 0 || p == [] then 0
    else if Translate(p[0]) == '\n' then 1
    else 1 + Taken(p[1..], len - 1)
  }

  /** One more character read: a newline ends the read, anything else leaves the rest of
      the read to the characters after it. */
  lemma TakenAt(p: seq<char>, len: nat, cnt: nat)
    requires cnt < len && cnt < |p| && Taken(p, len) == cnt + Taken(p[cnt..], len - cnt)
    ensures Translate(p[cnt]) == '\n' ==> Taken(p, len) == cnt + 1
    ensures Translate(p[cnt]) != '\n' ==> Taken(p, len) == cnt + 1 + Taken(p[cnt + 1..], len - cnt - 1)
  {
    assert p[cnt..][0] == p[cnt] && p[cnt..][1..] == p[cnt + 1..];
  }

  /** A read takes something whenever it can, no newline before its last character, and
      stops short of `len` and of what is pending only at a newline. */
  lemma {:induction false} TakenStops(p: seq<char>, len: nat)
    ensures var n := Taken(p, len);
      (forall k :: 0 <= k < n - 1 ==> Translate(p[k]) != '\n') &&
      (n < len && n < |p| ==> n > 0 && Translate(p[n - 1]) == '\n') &&
      (len > 0 && |p| > 0 ==> n > 0)
    decreases len
  {
    if len > 0 && p != [] && Translate(p[0]) != '\n' {
      TakenStops(p[1..], len - 1);
      var n := Taken(p, len);
      forall k | 0 <= k < n - 1
        ensures Translate(p[k]) != '\n'
      {
        if k > 0 {
          assert p[k] == p[1..][k - 1];
        }
      }
    }
  }

  /** The full-buffer test of InterruptHandler: the indices agree modulo 256 and yet
      differ. */
  predicate FullAsWritten(r: nat, w: nat) {
    w % 256 - r % 256 == 0 && r != w
  }

  /** With 8-bit indices and a 256-slot buffer the full test can never hold. */
  lemma FullNeverHolds(r: nat, w: nat)
    requires r < BufLen && w < BufLen
    ensures !FullAsWritten(r, w)
  {
  }

  /** The full test as evidently intended: 255 characters are pending, the most 8-bit
      indices can tell apart from none. */
  predicate Full(r: nat, w: nat)
    requires r < BufLen && w < BufLen
  {
    Next(w) == r
  }

  lemma FullMeans(buf: seq<char>, r: nat, w: nat)
    requires |buf| == BufLen && r < BufLen && w < BufLen
    ensures Full(r, w) <==> |Pending(buf, r, w)| == 255
  {
  }

  /** Storing a character at the write index appends it to the pending characters when
      fewer than 255 are pending. */
  lemma {:induction false} StoreAppends(buf: seq<char>, r: nat, w: nat, c: char)
    requires |buf| == BufLen && r < BufLen && w < BufLen && !Full(r, w)
    ensures Pending(buf[w := c], r, Next(w)) == Pending(buf, r, w) + [c]
    decreases Count(r, w)
  {
    if r == w {
      assert Pending(buf[w := c], Next(r), Next(w)) == [];
    } else {
      StoreAppends(buf, Next(r), w, c);
      assert [buf[r]] + (Pending(buf, Next(r), w) + [c]) == Pending(buf, r, w) + [c];
    }
  }

  /** With 255 pending, storing one more makes the indices meet, so all 256 characters
      read as none. */
  lemma StoreWhenFullLosesAll(buf: seq<char>, r: nat, w: nat, c: char)
    requires |buf| == BufLen && r < BufLen && w < BufLen && Full(r, w)
    ensures |Pending(buf, r, w)| == 255
    ensures Pending(buf[w := c], r, Next(w)) == []
  {
  }

  /** A backspace takes back the last pending character; with none pending, the write
      index moves behind the read index and 255 stale characters appear. */
  lemma {:induction false} BackspaceDrops(buf: seq<char>, r: nat, w: nat)
    requires |buf| == BufLen && r < BufLen && w < BufLen
    ensures var p := Pending(buf, r, w);
      p != [] ==> Pending(buf, r, Prev(w)) == p[..|p| - 1]
    ensures Pending(buf, r, w) == [] ==> |Pending(buf, r, Prev(w))| == 255
    decreases Count(r, w)
  {
    var p := Pending(buf, r, w);
    if |p| >= 2 {
      var r1 := Next(r);
      BackspaceDrops(buf, r1, w);
      var p1 := Pending(buf, r1, w);
      assert p == [buf[r]] + p1;
      assert [buf[r]] + p1[..|p1| - 1] == p[..|p| - 1];
    }
  }

  /** The state InterruptHandler as written leaves after the characters of `s`: each
      backspace moves the write index back, any other character is stored and moves it
      forward. */
  function Feed(buf: seq<char>, w: nat, s: seq<char>): (st: (seq<char>, nat))
    requires |buf| == BufLen && w < BufLen
    ensures |st.0| == BufLen && st.1 < BufLen
    decreases |s|
  {
    if s == [] then (buf, w)
    else if s[0] == Backspace then Feed(buf, Prev(w), s[1..])
    else Feed(buf[w := s[0]], Next(w), s[1..])
  }

  /** What InterruptHandler as evidently intended keeps of `s`: it stops storing once 255
      characters are pending and takes a backspace only when one is pending. */
  function FeedFixed(buf: seq<char>, r: nat, w: nat, s: seq<char>): (st: (seq<char>, nat))
    requires |buf| == BufLen && r < BufLen && w < BufLen
    ensures |st.0| == BufLen && st.1 < BufLen
    decreases |s|
  {
    if s == [] || Full(r, w) then (buf, w)
    else if s[0] == Backspace then
      FeedFixed(buf, r, if w == r then w else Prev(w), s[1..])
    else FeedFixed(buf[w := s[0]], r, Next(w), s[1..])
  }

  /** Without backspaces the intended handler appends what fits: the pending
      characters grow by a prefix of the input. */
  lemma {:induction false} FeedFixedAppends(buf: seq<char>, r: nat, w: nat, s: seq<char>)
    requires |buf| == BufLen && r < BufLen && w < BufLen
    requires Backspace !in s
    ensures var st := FeedFixed(buf, r, w, s);
      exists n :: 0 <= n <= |s| && Pending(st.0, r, st.1) == Pending(buf, r, w) + s[..n]
    decreases |s|
  {
    var p := Pending(buf, r, w);
    if s == [] || Full(r, w) {
      assert p + s[..0] == p;
    } else {
      StoreAppends(buf, r, w, s[0]);
      assert Backspace !in s[1..];
      FeedFixedAppends(buf[w := s[0]], r, Next(w), s[1..]);
      var st := FeedFixed(buf, r, w, s);
      var n :| 0 <= n <= |s[1..]| &&
        Pending(st.0, r, st.1) == Pending(buf[w := s[0]], r, Next(w)) + s[1..][..n];
      assert s[..n + 1] == [s[0]] + s[1..][..n];
    }
  }

  /** 256 characters typed with nothing read leave nothing to read. */
  lemma OverflowLosesInput(buf: seq<char>, r: nat, s: seq<char>)
    requires |buf| == BufLen && r < BufLen && |s| == 256 && Backspace !in s
    ensures var st := Feed(buf, r, s); st.1 == r && Pending(st.0, r, st.1) == []
  {
    FeedAdvances(buf, r, s);
  }

  /** Without backspaces the write index moves by the input length modulo 256. */
  lemma {:induction false} FeedAdvances(buf: seq<char>, w: nat, s: seq<char>)
    requires |buf| == BufLen && w < BufLen && Backspace !in s
    ensures Feed(buf, w, s).1 == (w + |s|) % 256
    decreases |s|
  {
    if s != [] {
      assert Backspace !in s[1..];
      FeedAdvances(buf[w := s[0]], Next(w), s[1..]);
      assert Next(w) == (w + 1) % 256;
    }
  }

  class Console {
    /** `context.buf`, `context.read_index` and `context.write_index`. */
    var buf: array<char>
    var readIndex: nat
    var writeIndex: nat

    ghost predicate Valid()
      reads this
    {
      buf.Length == BufLen && readIndex < BufLen && writeIndex < BufLen
    }

    /** The characters waiting to be read. */
    ghost function Waiting(): seq<char>
      reads this, buf
      requires Valid()
    {
      Pending(buf[..], readIndex, writeIndex)
    }

    /** An empty console. */
    constructor ()
      ensures Valid() && fresh(buf) && readIndex == 0 && writeIndex == 0
    {
      buf := new char[BufLen](_ => '\0');
      readIndex, writeIndex := 0, 0;
    }

    /** `read(p, len)`: copies pending characters into `p`, turning '\r' into '\n', until
        `len` are copied or a newline has been; `blocked` says the source would sleep for
        more input, which the model does not. */
    method Read(p: array<char>, len: nat) returns (cnt: nat, blocked: bool)
      requires Valid() && len <= p.Length && p != buf
      modifies this, p
      ensures Valid() && buf == old(buf) && writeIndex == old(writeIndex)
      ensures cnt == Taken(old(Waiting()), len)
      ensures p[..cnt] == TranslateAll(old(Waiting())[..cnt]) && p[cnt..] == old(p[cnt..])
      ensures Waiting() == old(Waiting())[cnt..]
      ensures blocked <==> cnt < len && cnt == |old(Waiting())| && (cnt == 0 || p[cnt - 1] != '\n')
    {
      ghost var pend := Waiting();
      ghost var p0 := p[..];
      cnt, blocked := 0, false;
      while cnt < len
        invariant Valid() && buf == old(buf) && writeIndex == old(writeIndex)
        invariant cnt <= len && cnt <= |pend| && Waiting() == pend[cnt..]
        invariant Copied(p[..], p0, pend, cnt)
        invariant Taken(pend, len) == cnt + Taken(pend[cnt..], len - cnt)
        invariant cnt > 0 ==> p[cnt - 1] != '\n'
      {
        if readIndex == writeIndex {
          assert cnt == |pend| && Taken(pend[cnt..], len - cnt) == 0;
          blocked := true;
          break;
        }
        ghost var rest, q := Waiting(), p[..];
        var c := TakeInto(p, cnt);
        assert rest[1..] == pend[cnt + 1..];
        TakenAt(pend, len, cnt);
        CopiedStep(q, p0, pend, cnt, c);
        cnt := cnt + 1;
        if c == '\n' {
          break;
        }
      }
    }

    /** One character taken at the read index into `p[cnt]`, with '\r' read as '\n'. */
    method TakeInto(p: array<char>, cnt: nat) returns (c: char)
      requires Valid() && readIndex != writeIndex && p != buf && cnt < p.Length
      modifies this, p
      ensures Valid() && buf == old(buf) && writeIndex == old(writeIndex)
      ensures old(Waiting()) != [] && c == Translate(old(Waiting())[0])
      ensures Waiting() == old(Waiting())[1..]
      ensures p[..] == old(p[..])[cnt := c]
    {
      ReadStep(buf[..], readIndex, writeIndex);
      c := buf[readIndex % BufLen];
      readIndex := Next(readIndex);
      c := if c == '\r' then '\n' else c;
      p[cnt] := c;
    }

    /** `InterruptHandler(s, len)` as written: the full test never holds, so it stores
        every character; the echo and the wakeup are left out. */
    method InterruptHandlerAsWritten(s: seq<char>, len: nat)
      requires Valid() && len <= |s|
      modifies this, buf
      ensures Valid() && buf == old(buf) && readIndex == old(readIndex)
      ensures (buf[..], writeIndex) == Feed(old(buf[..]), old(writeIndex), s[..len])
    {
      // The full test guarding the loop, and the one after each store, never hold.
      FullNeverHolds(readIndex, writeIndex);
      ghost var t := s[..len];
      ghost var goal := Feed(buf[..], writeIndex, t);
      var i := 0;
      while i < len
        invariant Valid() && buf == old(buf) && readIndex == old(readIndex) && i <= len
        invariant Feed(buf[..], writeIndex, t[i..]) == goal
      {
        assert t[i..][1..] == t[i + 1..] && t[i..][0] == s[i];
        if s[i] == Backspace {
          writeIndex := Prev(writeIndex);
        } else {
          Store(s[i]);
          FullNeverHolds(readIndex, writeIndex);
        }
        i := i + 1;
      }
    }

    /** `InterruptHandler(s, len)` as evidently intended: it stops once the buffer is
        full and ignores a backspace with nothing pending. */
    method InterruptHandler(s: seq<char>, len: nat)
      requires Valid() && len <= |s|
      modifies this, buf
      ensures Valid() && buf == old(buf) && readIndex == old(readIndex)
      ensures (buf[..], writeIndex) == FeedFixed(old(buf[..]), readIndex, old(writeIndex), s[..len])
    {
      if Full(readIndex, writeIndex) {
        return;
      }
      ghost var t := s[..len];
      ghost var goal := FeedFixed(buf[..], readIndex, writeIndex, t);
      var i := 0;
      while i < len
        invariant Valid() && buf == old(buf) && readIndex == old(readIndex) && i <= len
        invariant !Full(readIndex, writeIndex)
        invariant FeedFixed(buf[..], readIndex, writeIndex, t[i..]) == goal
      {
        assert t[i..][1..] == t[i + 1..] && t[i..][0] == s[i];
        if s[i] == Backspace {
          if writeIndex != readIndex {
            writeIndex := Prev(writeIndex);
          }
        } else {
          Store(s[i]);
          if Full(readIndex, writeIndex) {
            assert t[i + 1..] == [] || FeedFixed(buf[..], readIndex, writeIndex, t[i + 1..]) == (buf[..], writeIndex);
            return;
          }
        }
        i := i + 1;
      }
    }
    /** One character stored at the write index, which moves forward. */
    method Store(c: char)
      requires Valid()
      modifies this, buf
      ensures Valid() && buf == old(buf) && readIndex == old(readIndex)
      ensures buf[..] == old(buf[..])[old(writeIndex) := c] && writeIndex == Next(old(writeIndex))
    {
      buf[writeIndex % BufLen] := c;
      writeIndex := Next(writeIndex);
    }
  }

  /** `p` holds the first `cnt` pending characters, translated, and is unchanged beyond. */
  ghost predicate Copied(p: seq<char>, p0: seq<char>, pend: seq<char>, cnt: nat) {
    cnt <= |p| == |p0| && cnt <= |pend| &&
    p[..cnt] == TranslateAll(pend[..cnt]) && p[cnt..] == p0[cnt..]
  }

  lemma CopiedStep(p: seq<char>, p0: seq<char>, pend: seq<char>, cnt: nat, c: char)
    requires Copied(p, p0, pend, cnt) && cnt < |p| && cnt < |pend| && c == Translate(pend[cnt])
    ensures Copied(p[cnt := c], p0, pend, cnt + 1)
  {
    var q := p[cnt := c];
    assert q[..cnt + 1] == p[..cnt] + [c];
    assert TranslateAll(pend[..cnt + 1]) == TranslateAll(pend[..cnt]) + [c];
    assert q[cnt + 1..] == p[cnt + 1..];
  }

  /** Taking one pending character leaves the rest pending. */
  lemma ReadStep(buf: seq<char>, r: nat, w: nat)
    requires |buf| == BufLen && r < BufLen && w < BufLen && r != w
    ensures var p := Pending(buf, r, w);
      p != [] && p[0] == buf[r] && Pending(buf, Next(r), w) == p[1..]
  {
  }
}
