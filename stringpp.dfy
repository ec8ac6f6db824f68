/** lib::string: a text kept in a vector<char> and grown by push_back. */
module StringPP {
  import opened Base
  import opened StlVector

  class Str {
    var data: Vector<char>

    ghost predicate Valid()
      reads this, data
    {
      data.Valid()
    }

    /** The characters of the string. */
    function Contents(): (s: seq<char>)
      reads this, data, data.buffer
      requires Valid()
      ensures |s| == data.size
    {
      data.Elements()
    }

    /** `string()`: the empty string. */
    constructor ()
      ensures Valid() && Contents() == [] && fresh(data) && data.buffer == null
    {
      data := new Vector();
    }

    /** `string(const char*)`: the characters before the terminator, one push_back each. */
    constructor FromCString(s: seq<char>)
      requires |CString(s)| < 0x8000_0000
      ensures Valid() && Contents() == CString(s)
      ensures fresh(data) && (data.buffer == null || fresh(data.buffer))
    {
      var v := new Vector();
      var i := 0;
      while i < |s| && s[i] != '\0'
        invariant i <= |CString(s)|
        invariant v.Valid() && v.Elements() == s[..i]
        invariant fresh(v) && (v.buffer == null || fresh(v.buffer))
      {
        v.PushBack(s[i]);
        i := i + 1;
      }
      assert i == |CString(s)|;
      data := v;
    }

    /** `string(const string&)`: an empty vector, then `data_ = str.data_` through
        Vector.Assign, which allocates as many slots as the capacity (the corrected
        `operator=`). */
    constructor Copy(other: Str)
      requires other.Valid()
      ensures Valid() && Contents() == other.Contents()
      ensures fresh(data) && (data.buffer == null || fresh(data.buffer))
    {
      var v := new Vector();
      v.Assign(other.data);
      data := v;
    }

    function Size(): (n: nat)
      reads this, data, data.buffer
      requires Valid()
      ensures n == |Contents()|
    {
      data.Size()
    }

    function Empty(): (b: bool)
      reads this, data, data.buffer
      requires Valid()
      ensures b <==> Contents() == []
    {
      data.Empty()
    }

    /** `operator[](size_t)`: the vector's index is 32 bits wide, so `pos` is truncated;
        None is the program exit of an index past the end. */
    function CharAt(pos: nat): (r: Option<char>)
      reads this, data, data.buffer
      requires Valid()
      ensures r.Some? <==> pos % U32 < |Contents()|
      ensures r.Some? ==> r.value == Contents()[pos % U32]
    {
      data.At(pos % U32)
    }

    /** `append(char)`. */
    method AppendChar(c: char)
      requires Valid() && data.CanPush()
      modifies data, data.buffer
      ensures Valid() && Contents() == old(Contents()) + [c]
      ensures data.buffer == old(data.buffer) || fresh(data.buffer)
    {
      data.PushBack(c);
    }

    /** `append(const string&)`: reserves room for both, then pushes the characters of
        `other` as they were when the call began (so appending a string to itself
        doubles it). */
    method Append(other: Str)
      requires Valid() && other.Valid()
      requires |Contents()| + |other.Contents()| < U32
      modifies data, data.buffer
      ensures Valid() && Contents() == old(Contents()) + old(other.Contents())
      ensures data.buffer == old(data.buffer) || fresh(data.buffer)
    {
      var src := other.Contents();
      PushAll(src);
    }

    /** `append(const char*)`: reserves strlen(s) more, then pushes up to the terminator. */
    method AppendCString(s: seq<char>)
      requires Valid()
      requires |Contents()| + |CString(s)| < U32
      modifies data, data.buffer
      ensures Valid() && Contents() == old(Contents()) + CString(s)
      ensures data.buffer == old(data.buffer) || fresh(data.buffer)
    {
      PushAll(CString(s));
    }

    /** Reserves room for `src`, then pushes it character by character. */
    method PushAll(src: seq<char>)
      requires Valid() && |Contents()| + |src| < U32
      modifies data, data.buffer
      ensures Valid() && Contents() == old(Contents()) + src
      ensures data.buffer == old(data.buffer) || fresh(data.buffer)
    {
      data.Reserve(data.Size() + |src|);
      var i := 0;
      while i < |src|
        invariant i <= |src|
        invariant data.Valid() && data.Elements() == old(data.Elements()) + src[..i]
        invariant data.capacity >= old(data.size) + |src|
        invariant data.buffer == old(data.buffer) || fresh(data.buffer)
      {
        data.PushBack(src[i]);
        assert src[..i + 1] == src[..i] + [src[i]];
        i := i + 1;
      }
      assert src[..i] == src;
    }

    /** `operator+(const string&)`: a new string; the receiver is left as it is. The
        copy `string substr(*this)` is the corrected Copy. */
    method Plus(other: Str) returns (r: Str)
      requires Valid() && other.Valid()
      requires |Contents()| + |other.Contents()| < U32
      ensures fresh(r) && fresh(r.data) && r.Valid()
      ensures r.Contents() == Contents() + other.Contents()
    {
      r := new Str.Copy(this);
      r.Append(other);
    }

    /** `operator+(const char*)`, through the corrected Copy as Plus is. */
    method PlusCString(s: seq<char>) returns (r: Str)
      requires Valid()
      requires |Contents()| + |CString(s)| < U32
      ensures fresh(r) && fresh(r.data) && r.Valid()
      ensures r.Contents() == Contents() + CString(s)
    {
      r := new Str.Copy(this);
      r.AppendCString(s);
    }

    /** `c_str()`: reserves one more slot and writes a terminator just past the text. */
    method CStr() returns (b: array<char>)
      requires Valid() && |Contents()| + 1 < U32
      modifies data, data.buffer
      ensures Valid() && Contents() == old(Contents())
      ensures b == data.buffer && |Contents()| < b.Length && b[|Contents()|] == '\0'
      ensures '\0' !in Contents() ==> CString(b[..]) == Contents()
    {
      data.Reserve(data.Size() + 1);
      b := data.buffer;
      b[data.size] := '\0';
      assert b[..] == Contents() + ['\0'] + b[data.size + 1..];
      if '\0' !in Contents() {
        CStringOf(Contents(), b[data.size + 1..]);
      }
    }

    /** `substr(pos, len)` as written: `len` is clamped to size - pos when pos + len
        (in 64-bit arithmetic) exceeds the size, and then indices pos up to len - 1 are
        copied; None is the program exit of an index past the end. */
    method SubstrAsWritten(pos: nat, len: nat) returns (r: Option<Str>)
      requires Valid() && pos <= |Contents()| < 0x8000_0000 && len < U64
      ensures r == None <==> SubstrText(Contents(), pos, len) == None
      ensures r.Some? ==>
        fresh(r.value) && r.value.Valid() && Some(r.value.Contents()) == SubstrText(Contents(), pos, len)
    {
      ghost var text := Contents();
      var l := Clamped(Size(), pos, len);
      var sub := new Str();
      var i := pos;
      while i < l
        invariant sub.Valid() && fresh(sub) && fresh(sub.data)
        invariant sub.data.buffer == null || fresh(sub.data.buffer)
        invariant pos <= i && (if pos < l then i <= l else i == pos) && |sub.Contents()| == i - pos
        invariant i <= |text| && sub.Contents() == text[pos..i]
        invariant sub.data.size < 0x8000_0000
      {
        var c := data.At(i);
        if c.None? {
          return None;
        }
        assert text[pos..i + 1] == text[pos..i] + [c.value];
        sub.AppendChar(c.value);
        i := i + 1;
      }
      if l > pos {
        assert i == l && SubstrText(text, pos, len) == Some(text[pos..l]);
      } else {
        assert sub.Contents() == [] && SubstrText(text, pos, len) == Some([]);
      }
      return Some(sub);
    }

    /** `substr(pos, len)` as evidently intended: the `len` characters from `pos`, or as
        many as there are. */
    method Substr(pos: nat, len: nat) returns (r: Str)
      requires Valid() && pos <= |Contents()| < 0x8000_0000
      ensures fresh(r) && r.Valid()
      ensures var n := if len < |Contents()| - pos then len else |Contents()| - pos;
        r.Contents() == Contents()[pos..pos + n]
    {
      ghost var text := Contents();
      var n := if len < Size() - pos then len else Size() - pos;
      var sub := new Str();
      var i := pos;
      while i < pos + n
        invariant sub.Valid() && fresh(sub) && fresh(sub.data)
        invariant sub.data.buffer == null || fresh(sub.data.buffer)
        invariant pos <= i <= pos + n && |sub.Contents()| == i - pos
        invariant sub.Contents() == text[pos..i]
        invariant sub.data.size < 0x8000_0000
      {
        var c := data.At(i);
        assert text[pos..i + 1] == text[pos..i] + [c.value];
        sub.AppendChar(c.value);
        i := i + 1;
      }
      return sub;
    }
  }

  /** The bound substr loops up to: `len`, or size - pos when pos + len, wrapped to 64
      bits, exceeds the size. */
  function Clamped(n: nat, pos: nat, len: nat): (l: nat)
    requires pos <= n && len < U64
    ensures l <= n - pos || l == len
  {
    if (len + pos) % U64 > n then n - pos else len
  }

  /** What substr as written yields: indices pos..l-1 for the clamped bound l, or None
      when that range reaches past the end. */
  function SubstrText(s: seq<char>, pos: nat, len: nat): (r: Option<seq<char>>)
    requires pos <= |s| && len < U64
    ensures r.Some? ==> |r.value| <= |s| - pos
  {
    var l := Clamped(|s|, pos, len);
    if l <= pos then Some([])
    else if l > |s| then None
    else Some(s[pos..l])
  }

  /** substr copies indices pos up to len - 1, not the `len` characters from `pos`:
      on "abc", substr(1, 2) gives "b" rather than "bc", and substr(2, 1) gives "". */
  lemma SubstrDropsTail()
    ensures SubstrText("abc", 1, 2) == Some("b")
    ensures SubstrText("abc", 2, 1) == Some("")
  {
    assert "abc"[1..2] == "b";
  }

  /** Unless pos + len wraps, substr yields the intended text exactly when it starts at
      0 or the intended text is empty. */
  lemma SubstrIntendedOnlyFromZero(s: seq<char>, pos: nat, len: nat)
    requires pos <= |s| && len + pos < U64
    ensures var n := if len < |s| - pos then len else |s| - pos;
      SubstrText(s, pos, len) == Some(s[pos..pos + n]) <==> pos == 0 || n == 0
  {
    var n := if len < |s| - pos then len else |s| - pos;
    var l := Clamped(|s|, pos, len);
    assert (len + pos) % U64 == len + pos;
    if pos > 0 && n > 0 && l > pos {
      assert |s[pos..l]| == l - pos;
    }
  }
}
