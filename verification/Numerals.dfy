/** Decimal and hexadecimal numerals, the C++ stream renderings of unsigned values, and `atoi`. */
module Numerals {
  import opened Common

  predicate IsBase(b: nat) { b == 10 || b == 16 }

  function Digit(d: nat): (c: char)
    requires d < 16
    ensures DigitValue(c) == d
    ensures !IsSpace(c) && c != '-' && c != '+' && c != ':' && c != '/' && c != 'x'
  {
    if d < 10 then '0' + d as char else 'a' + (d - 10) as char
  }

  /** The value of a digit character; 16 for every other character. */
  function DigitValue(c: char): (d: nat) {
    if '0' <= c <= '9' then (c - '0') as int
    else if 'a' <= c <= 'f' then (c - 'a') as int + 10
    else 16
  }

  predicate AllDigits(s: string, b: nat) { forall i :: 0 <= i < |s| ==> DigitValue(s[i]) < b }

  /** The numeral a stream writes for `n`, without base prefix. */
  function Numeral(n: nat, b: nat): (s: string)
    requires IsBase(b)
    ensures s != []
  {
    if n < b then [Digit(n)] else Numeral(n / b, b) + [Digit(n % b)]
  }

  /** A number with one more digit behind it. */
  function Next(acc: nat, d: nat, b: nat): (n: nat) { acc * b + d }

  /** The value of a digit string. */
  function Value(s: string, b: nat): (n: nat) {
    if s == [] then 0 else Next(Value(s[..|s| - 1], b), DigitValue(s[|s| - 1]), b)
  }

  function Pow(b: nat, k: nat): (p: nat)
  {
    if k == 0 then 1 else b * Pow(b, k - 1)
  }

  /** Reading a numeral back gives the number, and a numeral carries no useless leading zero. */
  lemma {:induction false} NumeralValue(n: nat, b: nat)
    requires IsBase(b)
    ensures AllDigits(Numeral(n, b), b)
    ensures Value(Numeral(n, b), b) == n
    ensures n > 0 ==> Numeral(n, b)[0] != '0'
  {
    if n >= b {
      NumeralValue(n / b, b);
      var head := Numeral(n / b, b);
      assert Numeral(n, b)[..|head|] == head;
    } else {
      var s := Numeral(n, b);
      assert s[..0] == [];
    }
  }

  lemma QuotientAndRest(v: nat, b: nat, d: nat)
    requires IsBase(b) && d < b
    ensures Next(v, d, b) / b == v && Next(v, d, b) % b == d
    ensures v > 0 ==> Next(v, d, b) >= b
    ensures Next(0, d, b) == d
  {
  }

  /** Every digit string without useless leading zero is the numeral of its value. */
  lemma {:induction false} ValueNumeral(s: string, b: nat)
    requires IsBase(b) && s != [] && AllDigits(s, b)
    requires |s| == 1 || s[0] != '0'
    ensures Numeral(Value(s, b), b) == s
  {
    hide Next;
    var head, d := s[..|s| - 1], DigitValue(s[|s| - 1]);
    assert s == head + [s[|s| - 1]];
    assert Digit(d) == s[|s| - 1];
    QuotientAndRest(Value(head, b), b, d);
    if |s| == 1 {
      assert Value(head, b) == 0;
    } else {
      ValueNumeral(head, b);
      ValuePositive(head, b);
    }
  }

  lemma {:induction false} ValuePositive(s: string, b: nat)
    requires IsBase(b) && s != [] && AllDigits(s, b) && s[0] != '0'
    ensures Value(s, b) > 0
  {
    if |s| > 1 {
      ValuePositive(s[..|s| - 1], b);
    }
  }

  /** No digit string with the same value is shorter. */
  lemma {:induction false} NumeralShortest(s: string, b: nat)
    requires IsBase(b) && s != [] && AllDigits(s, b)
    ensures |Numeral(Value(s, b), b)| <= |s|
  {
    if |s| > 1 {
      var head, d := s[..|s| - 1], DigitValue(s[|s| - 1]);
      NumeralShortest(head, b);
      assert Value(s, b) / b == Value(head, b) && Value(s, b) % b == d;
    } else {
      assert Value(s[..0], b) == 0;
    }
  }

  /** `k` digits suffice exactly for the numbers below `b^k`. */
  lemma {:induction false} NumeralLength(n: nat, b: nat, k: nat)
    requires IsBase(b) && k > 0
    ensures |Numeral(n, b)| <= k <==> n < Pow(b, k)
  {
    if k > 1 && n >= b {
      NumeralLength(n / b, b, k - 1);
      assert n / b < Pow(b, k - 1) <==> n < b * Pow(b, k - 1);
    } else if k > 1 {
      PowPositive(b, k - 1);
    } else {
      assert Pow(b, 1) == b * Pow(b, 0) == b;
    }
  }

  lemma {:induction false} PowPositive(b: nat, k: nat)
    requires b > 0
    ensures Pow(b, k) > 0
  {
    if k > 0 {
      PowPositive(b, k - 1);
    }
  }

  // atoi: section 7.22.1.2 of ISO/IEC 9899:2011.

  /** Number of leading decimal digits. */
  function DigitsLength(s: string): (n: nat)
    ensures n <= |s|
    ensures AllDigits(s[..n], 10)
    ensures n < |s| ==> DigitValue(s[n]) >= 10
  {
    if s == [] || DigitValue(s[0]) >= 10 then 0 else 1 + DigitsLength(s[1..])
  }

  /** Optional sign, then the leading digits (0 when there are none). A value outside
      `int` is undefined in C; the model takes its low 32 bits. */
  function Atoi(text: string): (v: int)
    ensures IsInt32(v)
  {
    var s := SkipSpaces(text);
    I32(if s != [] && s[0] == '-' then 0 - Value(s[1..][..DigitsLength(s[1..])], 10)
        else if s != [] && s[0] == '+' then Value(s[1..][..DigitsLength(s[1..])], 10)
        else Value(s[..DigitsLength(s)], 10))
  }

  lemma {:induction false} DigitsLengthOver(w: string, s: string)
    requires AllDigits(w, 10)
    requires s == [] || DigitValue(s[0]) >= 10
    ensures DigitsLength(w + s) == |w|
  {
    if w == [] {
      assert w + s == s;
    } else {
      assert (w + s)[1..] == w[1..] + s;
      DigitsLengthOver(w[1..], s);
    }
  }

  lemma AtoiOfDigits(s: string)
    requires s != [] && AllDigits(s, 10)
    ensures Atoi(s) == I32(Value(s, 10))
  {
    assert DigitValue(s[0]) < 10;
    assert SkipSpaces(s) == s;
    DigitsLengthOver(s, "");
    assert s + "" == s && s[..|s|] == s;
  }

  /** No digit where a number would start, behind white space and one sign. */
  predicate NoNumber(text: string) {
    var s := SkipSpaces(text);
    var u := if s != "" && (s[0] == '-' || s[0] == '+') then s[1..] else s;
    u == "" || DigitValue(u[0]) >= 10
  }

  /** Such a text reads as 0. */
  lemma AtoiOfNoNumber(text: string)
    requires NoNumber(text)
    ensures Atoi(text) == 0
  {
    var s := SkipSpaces(text);
    var u := if s != "" && (s[0] == '-' || s[0] == '+') then s[1..] else s;
    assert DigitsLength(u) == 0;
    assert u[..0] == "" && Value("", 10) == 0;
  }

  lemma SignedStart(gap: string, sign: string, u: string)
    requires AllSpace(gap) && (sign == "" || sign == "-" || sign == "+") && u != "" && DigitValue(u[0]) < 10
    ensures var t := SkipSpaces(gap + (sign + u));
            var signed := t != "" && (t[0] == '-' || t[0] == '+');
            && (if signed then t[1..] else t) == u
            && (signed && t[0] == '-' <==> sign == "-")
  {
    var t := sign + u;
    assert DigitValue('-') == 16 && DigitValue('+') == 16;
    SkipSpacesOver(gap, t);
    assert SkipSpaces(t) == t;
    if sign == "" {
      assert t == u;
    } else {
      assert t[0] == sign[0] && t[1..] == u;
    }
  }

  /** Every other text is white space, a sign or none, a digit string and a rest: it reads as that
      number, up to the 32 bits of an `int`. */
  lemma AtoiReads(gap: string, sign: string, digits: string, rest: string)
    requires AllSpace(gap) && (sign == "" || sign == "-" || sign == "+")
    requires digits != "" && AllDigits(digits, 10) && (rest == "" || DigitValue(rest[0]) >= 10)
    ensures Atoi(gap + (sign + (digits + rest))) == I32(if sign == "-" then 0 - Value(digits, 10) else Value(digits, 10))
  {
    hide I32, Value, DigitsLength, SkipSpaces;
    var u := digits + rest;
    assert u[0] == digits[0] && DigitValue(u[0]) < 10;
    SignedStart(gap, sign, u);
    DigitsLengthOver(digits, rest);
    assert u[..|digits|] == digits;
  }

  /** `atoi` inverts decimal rendering, up to the 32 bits of an `int`. */
  lemma AtoiOfNumeral(n: nat)
    ensures Atoi(Numeral(n, 10)) == I32(n)
  {
    var s := Numeral(n, 10);
    assert AllDigits(s, 10) && Value(s, 10) == n by { NumeralValue(n, 10); }
    AtoiOfDigits(s);
  }

  // ----- reading a number, independently of the above: digit by digit from the front -----

  const DIGITS := "0123456789abcdef"

  /** The first position of a character, or the length. */
  function IndexOf(c: char, s: string): (i: nat)
    ensures i <= |s|
    ensures c !in s[..i] && (i < |s| ==> s[i] == c)
  {
    if s == "" || s[0] == c then 0 else 1 + IndexOf(c, s[1..])
  }

  lemma IndexOfOver(c: char, w: string, u: string)
    requires c !in w && u != "" && u[0] == c
    ensures IndexOf(c, w + u) == |w|
  {
    hide IndexOf;
    var s, i := w + u, IndexOf(c, w + u);
    assert s[|w|] == c;
    assert forall j :: 0 <= j < |w| ==> s[j] == w[j];
  }

  function ReadOn(acc: nat, s: string, b: nat): (n: Option<nat>)
    decreases |s|
  {
    if s == "" then Some(acc)
    else if IndexOf(s[0], DIGITS) >= b then None
    else ReadOn(Next(acc, IndexOf(s[0], DIGITS), b), s[1..], b)
  }

  /** A number in its one canonical form: at least one digit, no useless leading zero. */
  function ReadNumber(s: string, b: nat): (n: Option<nat>) {
    if s == "" || (|s| > 1 && s[0] == '0') then None else ReadOn(0, s, b)
  }

  lemma DigitAt(d: nat)
    requires d < 16
    ensures |DIGITS| == 16 && DIGITS[d] == Digit(d)
  {
  }

  lemma DigitIndex(c: char)
    ensures IndexOf(c, DIGITS) == DigitValue(c)
  {
    DigitAt(0);
    hide DIGITS, Digit, IndexOf;
    var i, v := IndexOf(c, DIGITS), DigitValue(c);
    if i < 16 {
      DigitAt(i);
    }
    if v < 16 {
      DigitAt(v);
      SameDigit(c, Digit(v));
    }
  }

  lemma SameDigit(c: char, d: char)
    requires DigitValue(c) == DigitValue(d) < 16
    ensures c == d
  {
  }

  lemma {:induction false} ReadOnSnoc(acc: nat, s: string, c: char, b: nat)
    ensures ReadOn(acc, s + [c], b) ==
            match ReadOn(acc, s, b)
            case None => None
            case Some(n) => if DigitValue(c) >= b then None else Some(Next(n, DigitValue(c), b))
    decreases |s|
  {
    hide DigitValue, Next, IndexOf, DIGITS;
    DigitIndex(c);
    if s == "" {
      assert (s + [c])[1..] == "";
    } else {
      assert (s + [c])[1..] == s[1..] + [c];
      if IndexOf(s[0], DIGITS) < b {
        ReadOnSnoc(Next(acc, IndexOf(s[0], DIGITS), b), s[1..], c, b);
      }
    }
  }

  lemma DigitsSnoc(s: string, b: nat)
    requires s != ""
    ensures AllDigits(s, b) <==> AllDigits(s[..|s| - 1], b) && DigitValue(s[|s| - 1]) < b
  {
    hide DigitValue;
  }

  lemma {:induction false} ReadOnValue(s: string, b: nat)
    ensures ReadOn(0, s, b) == if AllDigits(s, b) then Some(Value(s, b)) else None
  {
    if s != "" {
      hide Next, AllDigits, DigitValue, IndexOf;
      var n := |s| - 1;
      ReadOnValue(s[..n], b);
      ReadOnSnoc(0, s[..n], s[n], b);
      DigitsSnoc(s, b);
      assert s == s[..n] + [s[n]];
    }
  }

  /** The reader accepts a text for a number exactly when it is the number's numeral. */
  lemma NumberReadsBack(s: string, n: nat, b: nat)
    requires IsBase(b)
    ensures ReadNumber(s, b) == Some(n) <==> s == Numeral(n, b)
  {
    assert |Numeral(0, b)| == 1;
    hide ReadOn, Value, Numeral;
    ReadOnValue(s, b);
    NumeralValue(n, b);
    if ReadNumber(s, b) == Some(n) {
      ValueNumeral(s, b);
    }
  }
}
