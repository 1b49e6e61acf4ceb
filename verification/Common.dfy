/** Values shared by every component: attribute pairs, C integer conversions, C character classes. */
module Common {
  datatype Option<+T> = None | Some(value: T)

  /** A `cphf_attribute`: an attribute id and its text. */
  datatype Attr = Attr(id: int, value: string)

  // C integer conversions: `unsigned int`, `unsigned long long`, `int` and `long long`.

  function U32(x: int): (r: nat) { x % 0x1_0000_0000 }

  function U64(x: int): (r: nat) { x % 0x1_0000_0000_0000_0000 }

  function I32(x: int): (r: int) {
    var y := U32(x);
    if y < 0x8000_0000 then y else y - 0x1_0000_0000
  }

  function I64(x: int): (r: int) {
    var y := U64(x);
    if y < 0x8000_0000_0000_0000 then y else y - 0x1_0000_0000_0000_0000
  }

  predicate IsInt32(x: int) { -0x8000_0000 <= x < 0x8000_0000 }

  /** An `int` key converted back to `unsigned int` gives the low 32 bits of the value it came from. */
  lemma NarrowingChain(x: int)
    ensures IsInt32(I32(x))
    ensures I32(U32(x)) == I32(x) == I32(U64(x))
    ensures U32(I32(x)) == U32(x) == U32(U64(x))
    ensures IsInt32(x) ==> I32(x) == x
  {
    LowBits(x, 0x1_0000_0000 * (x / 0x1_0000_0000_0000_0000));
    assert U64(x) == x - 0x1_0000_0000 * (0x1_0000_0000 * (x / 0x1_0000_0000_0000_0000));
    LowBits(x, if U32(x) < 0x8000_0000 then x / 0x1_0000_0000 else x / 0x1_0000_0000 + 1);
  }

  lemma U64Successor(x: int)
    ensures U64(U64(x) + 1) == U64(x + 1)
  {
    var q := x / 0x1_0000_0000_0000_0000;
    assert x == 0x1_0000_0000_0000_0000 * q + U64(x);
    if U64(x) + 1 == 0x1_0000_0000_0000_0000 {
      assert x + 1 == 0x1_0000_0000_0000_0000 * (q + 1);
    }
  }

  lemma LowBits(x: int, k: int)
    ensures U32(x - 0x1_0000_0000 * k) == U32(x)
  {
    var q := x / 0x1_0000_0000;
    assert x - 0x1_0000_0000 * k == 0x1_0000_0000 * (q - k) + U32(x);
  }

  /** C division and remainder, which truncate toward zero. */
  function TDiv(a: int, b: int): (q: int)
    requires b > 0
  {
    if a >= 0 then a / b else -((-a) / b)
  }

  function TMod(a: int, b: int): (r: int)
    requires b > 0
  {
    if a >= 0 then a % b else -((-a) % b)
  }

  // isspace in the C locale, and the two scans every tokenising loop is made of.

  predicate IsSpace(c: char) {
    c == ' ' || c == '\t' || c == '\n' || c == '\U{0B}' || c == '\U{0C}' || c == '\r'
  }

  lemma SpaceCodes(c: char)
    ensures IsSpace(c) <==> c as int == 32 || 9 <= c as int <= 13
  {
  }

  predicate AllSpace(s: string) { forall i :: 0 <= i < |s| ==> IsSpace(s[i]) }

  predicate SpaceFree(s: string) { forall i :: 0 <= i < |s| ==> !IsSpace(s[i]) }

  /** A non-empty run without white space: what `%s` or `>>` into a string can deliver. */
  predicate IsWord(s: string) { s != "" && SpaceFree(s) }

  /** `s` without its leading white space. */
  function SkipSpaces(s: string): (r: string)
    ensures |r| <= |s|
    ensures r == [] || !IsSpace(r[0])
  {
    if s != [] && IsSpace(s[0]) then SkipSpaces(s[1..]) else s
  }

  /** Length of the longest white-space-free prefix. */
  function WordLength(s: string): (n: nat)
    ensures n <= |s|
    ensures SpaceFree(s[..n])
    ensures n < |s| ==> IsSpace(s[n])
  {
    if s == [] || IsSpace(s[0]) then 0 else 1 + WordLength(s[1..])
  }

  lemma {:induction false} SkipSpacesOver(gap: string, s: string)
    requires AllSpace(gap)
    ensures SkipSpaces(gap + s) == SkipSpaces(s)
  {
    if gap != [] {
      assert (gap + s)[1..] == gap[1..] + s;
      SkipSpacesOver(gap[1..], s);
    } else {
      assert gap + s == s;
    }
  }

  lemma {:induction false} WordLengthOver(w: string, s: string)
    requires SpaceFree(w)
    requires s == [] || IsSpace(s[0])
    ensures WordLength(w + s) == |w|
  {
    if w == [] {
      assert w + s == s;
    } else {
      assert (w + s)[1..] == w[1..] + s;
      WordLengthOver(w[1..], s);
    }
  }

  // C strings.

  const NUL := '\0'

  predicate NulFree(s: string) { forall i :: 0 <= i < |s| ==> s[i] != NUL }

  /** The C string at the start of a character sequence. */
  function CString(s: string): (r: string)
    ensures |r| <= |s| && r == s[..|r|] && NulFree(r)
  {
    if s == [] || s[0] == NUL then [] else [s[0]] + CString(s[1..])
  }

  /** A C string is the whole sequence exactly when that holds no NUL. */
  lemma {:induction false} CStringWhole(t: string)
    ensures CString(t) == t <==> NulFree(t)
  {
    if t != [] && t[0] != NUL {
      CStringWhole(t[1..]);
      assert t == [t[0]] + t[1..];
      assert NulFree(t) ==> NulFree(t[1..]);
    }
  }

  /** It is the part of the sequence in front of its first NUL. */
  lemma {:induction false} CStringExactly(t: string, s: string)
    ensures s == CString(t) <==>
            |s| <= |t| && s == t[..|s|] && NulFree(s) && (|s| == |t| || t[|s|] == '\0')
  {
    var r := CString(t);
    CStringEnds(t);
  }

  lemma {:induction false} CStringEnds(t: string)
    ensures |CString(t)| == |t| || t[|CString(t)|] == '\0'
  {
    if t != [] && t[0] != NUL {
      CStringEnds(t[1..]);
    }
  }
}
