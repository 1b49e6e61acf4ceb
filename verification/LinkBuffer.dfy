/** `FileStatReader::readFileName`: reading a symbolic link into a buffer that grows until it is large enough. */
module LinkBuffer {
  import opened Common
  import opened Numerals

  lemma {:induction false} CStringOfPadded(t: seq<char>, rest: seq<char>)
    requires rest != [] && rest[0] == NUL
    ensures CString(t + rest) == CString(t)
  {
    if t == [] {
      assert t + rest == rest;
    } else {
      assert (t + rest)[1..] == t[1..] + rest;
      CStringOfPadded(t[1..], rest);
    }
  }

  /** readlink(2): fills at most `len` characters, adds no terminator, and reports how many it wrote, or -1. */
  method ReadLink(target: Option<seq<char>>, buf: array<char>, len: nat) returns (r: int)
    requires len <= buf.Length
    modifies buf
    ensures target.None? ==> r == -1 && buf[..] == old(buf[..])
    ensures target.Some? ==> r == (if |target.value| < len then |target.value| else len)
                             && buf[..r] == target.value[..r] && buf[r..] == old(buf[r..])
  {
    if target.None? {
      return -1;
    }
    r := if |target.value| < len then |target.value| else len;
    forall i | 0 <= i < r {
      buf[i] := target.value[i];
    }
  }

  method Clear(buf: array<char>, len: nat)
    requires len <= buf.Length
    modifies buf
    ensures forall i :: 0 <= i < len ==> buf[i] == NUL
  {
    forall i | 0 <= i < len {
      buf[i] := NUL;
    }
  }

  /** The name is the link target up to its first NUL (the whole target, by CStringWhole, when
      there is none), "" when the link cannot be read. The last buffer size tried is the least
      1024 * 4^k above the target's length: either the first one, or at most four times that length. */
  method ReadFileName(target: Option<seq<char>>) returns (name: seq<char>, size: nat, ghost k: nat)
    ensures name == if target.Some? then CString(target.value) else ""
    ensures size == 1024 * Pow(4, k)
    ensures target.None? ==> size == 1024
    ensures target.Some? ==> size > |target.value| && (size == 1024 || size <= 4 * |target.value|)
  {
    size, k := 1024, 0;
    var filename := new char[size + 1];
    Clear(filename, size);
    var r := ReadLink(target, filename, size);
    while r == size
      invariant fresh(filename) && filename.Length == size + 1
      invariant size == 1024 * Pow(4, k)
      invariant target.None? ==> r == -1 && size == 1024
      invariant target.Some? ==>
                  && r == (if |target.value| < size then |target.value| else size)
                  && filename[..r] == target.value[..r]
                  && (size == 1024 || size <= 4 * |target.value|)
      invariant forall i :: (if r < 0 then 0 else r) <= i < size ==> filename[i] == NUL
      decreases if target.Some? then |target.value| - size else 0
    {
      size, k := size * 4, k + 1;
      filename := new char[size + 1];
      Clear(filename, size);
      r := ReadLink(target, filename, size);
    }
    filename[size] := NUL;
    name := CString(filename[..]);
    if target.Some? {
      assert filename[..r] == target.value[..r] == target.value;
      assert filename[..] == target.value + filename[r..];
      CStringOfPadded(target.value, filename[r..]);
    } else {
      assert filename[0] == NUL;
    }
  }
}
