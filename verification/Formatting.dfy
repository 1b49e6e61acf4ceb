/** Text renderings of numbers: sizes and ids, address ranges, CPU time. */
module Formatting {
  import opened Common
  import opened Numerals

  /** `CPHFReader::format`: the argument is an `unsigned int`, so wider values are cut on the way in. */
  function Format(value: nat): (s: string) {
    Numeral(U32(value), 10)
  }

  /** The text parses back to the value modulo 2^32, no digit string with that value is
      shorter, and it is the value itself exactly when the value is below 2^32. */
  lemma FormatExact(value: nat, other: string)
    ensures AllDigits(Format(value), 10) && Value(Format(value), 10) == value % 0x1_0000_0000
    ensures Value(Format(value), 10) == value <==> value < 0x1_0000_0000
    ensures other != [] && AllDigits(other, 10) && Value(other, 10) == U32(value)
            ==> |Format(value)| <= |other|
  {
    NumeralValue(U32(value), 10);
    if other != [] && AllDigits(other, 10) && Value(other, 10) == U32(value) {
      NumeralShortest(other, 10);
    }
  }

  /** `std::hex` with `std::showbase`: zero is written without prefix. */
  function HexBase(n: nat): (s: string) {
    if n == 0 then "0" else "0x" + Numeral(n, 16)
  }

  /** The end value '!' that stands for no end address. */
  const NO_END: nat := 33
  const SEPARATOR := "  -  "

  /** `ProcReader::format(begin, end)`. */
  function FormatRange(begin: nat, end: nat): (s: string) {
    HexBase(begin) + if end != NO_END then SEPARATOR + HexBase(end) else ""
  }

  /** A hexadecimal number in C++ stream form: "0", or "0x" and digits without leading zero. */
  function ReadHex(s: string): (n: Option<nat>) {
    if s == "0" then Some(0)
    else if |s| < 2 || s[..2] != "0x" || ReadNumber(s[2..], 16) == Some(0) then None
    else ReadNumber(s[2..], 16)
  }

  lemma HexReadsBack(s: string, n: nat)
    ensures ReadHex(s) == Some(n) <==> s == HexBase(n)
  {
    hide ReadNumber;
    if |s| >= 2 {
      NumberReadsBack(s[2..], n, 16);
      assert s == s[..2] + s[2..];
    }
    if n > 0 && s == HexBase(n) {
      assert s[2..] == Numeral(n, 16) && s[..2] == "0x";
    }
  }

  /** One address, or two with the separator between them. */
  function ReadAddresses(s: string): (r: Option<(nat, Option<nat>)>) {
    var n := IndexOf(' ', s);
    match ReadHex(s[..n])
    case None => None
    case Some(begin) =>
      if n == |s| then Some((begin, None))
      else if |s| < n + 5 || s[n..n + 5] != "  -  " then None
      else match ReadHex(s[n + 5..]) case None => None case Some(end) => Some((begin, Some(end)))
  }

  lemma HexBlankFree(n: nat)
    ensures ' ' !in HexBase(n)
  {
    hide Numeral, Value;
    NumeralValue(n, 16);
    assert DigitValue(' ') >= 16;
  }

  lemma AddressesOver(begin: string, rest: string)
    requires ' ' !in begin && (rest == "" || rest[0] == ' ')
    ensures var n := IndexOf(' ', begin + rest);
            n == |begin| && (begin + rest)[..n] == begin && (begin + rest)[n..] == rest
  {
    if rest == "" {
      assert begin + rest == begin;
    } else {
      IndexOfOver(' ', begin, rest);
    }
  }

  /** A text is read as a begin address and an end address (none for the sentinel) exactly when it
      is the text formatted for these. */
  lemma RangeReadsBack(s: string, begin: nat, end: nat)
    ensures ReadAddresses(s) == Some((begin, if end == 33 then None else Some(end))) <==> s == FormatRange(begin, end)
  {
    hide ReadHex, HexBase, IndexOf;
    var rest := if end != NO_END then SEPARATOR + HexBase(end) else "";
    HexReadsBack(HexBase(begin), begin);
    HexReadsBack(HexBase(end), end);
    HexBlankFree(begin);
    AddressesOver(HexBase(begin), rest);
    if end != NO_END {
      assert rest[..5] == SEPARATOR && rest[5..] == HexBase(end);
    }
    var n := IndexOf(' ', s);
    HexReadsBack(s[..n], begin);
    assert s == s[..n] + s[n..];
    if |s| >= n + 5 {
      HexReadsBack(s[n + 5..], end);
      assert s[n..] == s[n..n + 5] + s[n + 5..];
    }
  }

  /** So the rendering determines both addresses, sentinel outputs included. */
  lemma FormatRangeInjective(b: nat, e: nat, b': nat, e': nat)
    ensures FormatRange(b, e) == FormatRange(b', e') <==> b == b' && e == e'
  {
    RangeReadsBack(FormatRange(b, e), b, e);
    RangeReadsBack(FormatRange(b', e'), b', e');
  }

  // CPU time.

  /** `%d` */
  function PrintInt(v: int): (s: string) {
    if v < 0 then "-" + Numeral(-v, 10) else Numeral(v, 10)
  }

  /** `%02d`: the sign counts towards the width. */
  function PrintInt02(v: int): (s: string) {
    if 0 <= v < 10 then "0" + Numeral(v, 10) else PrintInt(v)
  }

  /** Whole seconds as the code stores them: a C division, then an `int`. */
  function CpuSeconds(ticks: nat, clockTick: nat): (sec: int)
    requires clockTick > 0
    ensures IsInt32(sec)
  {
    I32(TDiv(I64(ticks), clockTick))
  }

  function HmsText(sec: int): (s: string) {
    PrintInt(TDiv(sec, 3600)) + ":" +
    PrintInt02(TDiv(TMod(sec, 3600), 60)) + ":" +
    PrintInt02(TMod(TMod(sec, 3600), 60))
  }

  /** `snprintf` with size 13 keeps 12 characters. */
  const TIME_TEXT_MAX: nat := 12

  /** `CPHFReader::readETime` with `CPHF_FORMAT_TIME`. */
  function ReadETime(ticks: nat, clockTick: nat): (s: string)
    requires clockTick > 0
    ensures |s| <= TIME_TEXT_MAX
  {
    var text := HmsText(CpuSeconds(ticks, clockTick));
    if |text| <= TIME_TEXT_MAX then text else text[..TIME_TEXT_MAX]
  }

  /** Reads `h:mm:ss` back to seconds: canonical hours, minutes and seconds below 60. */
  function ParseHms(s: string): (r: Option<nat>) {
    var n := |s|;
    if n >= 7 && s[n - 3] == ':' && s[n - 6] == ':'
       && AllDigits(s[..n - 6], 10) && AllDigits(s[n - 5..n - 3], 10) && AllDigits(s[n - 2..], 10)
       && (n == 7 || s[0] != '0') && Value(s[n - 5..n - 3], 10) < 60 && Value(s[n - 2..], 10) < 60
    then Some(Value(s[..n - 6], 10) * 3600 + Value(s[n - 5..n - 3], 10) * 60 + Value(s[n - 2..], 10))
    else None
  }

  /** The three parts of a non-negative time recombine, and each stays in its range. */
  lemma HmsDecomposition(sec: nat)
    ensures var h, m, s := TDiv(sec, 3600), TDiv(TMod(sec, 3600), 60), TMod(TMod(sec, 3600), 60);
            h >= 0 && 0 <= m < 60 && 0 <= s < 60 && h * 3600 + m * 60 + s == sec
  {
  }

  lemma TwoDigits(v: nat)
    requires v < 60
    ensures var t := PrintInt02(v); |t| == 2 && AllDigits(t, 10) && Value(t, 10) == v
  {
    var t := PrintInt02(v);
    NumeralValue(v, 10);
    if v < 10 {
      assert t == "0" + [Digit(v)] && t[..1] == "0" && t[..1][..0] == "";
    } else {
      assert Numeral(v, 10) == [Digit(v / 10)] + [Digit(v % 10)];
    }
  }

  lemma SplitHms(a: string, bb: string, cc: string)
    requires a != "" && |bb| == 2 && |cc| == 2
    ensures var t := a + ":" + bb + ":" + cc;
            && |t| == |a| + 6 && t[|a|] == ':' && t[|a| + 3] == ':'
            && t[..|a|] == a && t[|a| + 1..|a| + 3] == bb && t[|a| + 4..] == cc
  {
  }

  lemma ParseHmsOf(a: string, bb: string, cc: string)
    requires a != "" && |bb| == 2 && |cc| == 2
    requires AllDigits(a, 10) && AllDigits(bb, 10) && AllDigits(cc, 10)
    requires (|a| == 1 || a[0] != '0') && Value(bb, 10) < 60 && Value(cc, 10) < 60
    ensures ParseHms(a + ":" + bb + ":" + cc)
            == Some(Value(a, 10) * 3600 + Value(bb, 10) * 60 + Value(cc, 10))
  {
    hide Value, DigitValue;
    SplitHms(a, bb, cc);
  }

  lemma HmsTextReadsBack(sec: nat)
    ensures ParseHms(HmsText(sec)) == Some(sec)
    ensures |HmsText(sec)| == |Numeral(sec / 3600, 10)| + 6
  {
    hide Value, DigitValue, Numeral, PrintInt02, ParseHms;
    var h, m, s := TDiv(sec, 3600), TDiv(TMod(sec, 3600), 60), TMod(TMod(sec, 3600), 60);
    assert h >= 0 && 0 <= m < 60 && 0 <= s < 60 && h * 3600 + m * 60 + s == sec by {
      HmsDecomposition(sec);
    }
    TwoDigits(m);
    TwoDigits(s);
    NumeralValue(h, 10);
    NumberReadsBack(Numeral(h, 10), h, 10);
    ParseHmsOf(PrintInt(h), PrintInt02(m), PrintInt02(s));
  }

  lemma TwoDigitsOnly(t: string)
    requires |t| == 2 && AllDigits(t, 10) && Value(t, 10) < 60
    ensures t == PrintInt02(Value(t, 10))
  {
    assert Value(t[..1], 10) == DigitValue(t[0]) by {
      assert t[..1][..0] == "" && t[..1][0] == t[0];
    }
    var v := Value(t, 10);
    assert v == DigitValue(t[0]) * 10 + DigitValue(t[1]);
    if v >= 10 {
      hide Value, Numeral;
      ValueNumeral(t, 10);
    } else {
      assert t == "0" + [t[1]] && Digit(DigitValue(t[1])) == t[1];
    }
  }

  lemma HmsParts(h: nat, m: nat, s: nat)
    requires m < 60 && s < 60
    ensures var sec := h * 3600 + m * 60 + s;
            TDiv(sec, 3600) == h && TDiv(TMod(sec, 3600), 60) == m && TMod(TMod(sec, 3600), 60) == s
  {
  }

  /** A text is read as a time exactly when it is the text written for it. */
  lemma HmsReadsBack(t: string, sec: nat)
    ensures ParseHms(t) == Some(sec) <==> t == HmsText(sec)
  {
    hide Value, Numeral, PrintInt02, TDiv, TMod;
    HmsTextReadsBack(sec);
    if ParseHms(t) == Some(sec) {
      var n := |t|;
      var a, bb, cc := t[..n - 6], t[n - 5..n - 3], t[n - 2..];
      assert t == a + ":" + bb + ":" + cc;
      HmsParts(Value(a, 10), Value(bb, 10), Value(cc, 10));
      ValueNumeral(a, 10);
      TwoDigitsOnly(bb);
      TwoDigitsOnly(cc);
    }
  }

  /** Every `int` number of seconds fits the buffer: at most six hour digits. */
  lemma HmsTextFits(sec: nat)
    requires IsInt32(sec)
    ensures |HmsText(sec)| <= TIME_TEXT_MAX
  {
    HmsTextReadsBack(sec);
    assert Pow(10, 6) == 1000000 by {
      assert Pow(10, 0) == 1;
      assert Pow(10, 1) == 10;
      assert Pow(10, 2) == 100;
      assert Pow(10, 3) == 1000;
      assert Pow(10, 4) == 10000;
      assert Pow(10, 5) == 100000;
    }
    NumeralLength(sec / 3600, 10, 6);
  }

  /** A sign anywhere in the text makes it no `h:mm:ss`. */
  lemma SignedTextRejected(s: string, i: nat)
    requires i < |s| && s[i] == '-'
    ensures ParseHms(s) == None
  {
    var n := |s|;
    if n >= 7 {
      assert DigitValue('-') == 16;
      if i < n - 6 {
        assert s[..n - 6][i] == '-';
      } else if n - 5 <= i < n - 3 {
        assert s[n - 5..n - 3][i - (n - 5)] == '-';
      } else if i >= n - 2 {
        assert s[n - 2..][i - (n - 2)] == '-';
      }
    }
  }

  lemma NegativeParts(sec: int)
    requires sec < 0
    ensures var h, m, s := TDiv(sec, 3600), TDiv(TMod(sec, 3600), 60), TMod(TMod(sec, 3600), 60);
            h < 0 || (h == 0 && (m < 0 || (m == 0 && s < 0)))
  {
  }

  /** A sign within the first six characters is kept. */
  lemma KeptSign(t: string, i: nat)
    requires i < 6 && i < |t| && t[i] == '-'
    ensures ParseHms(if |t| <= TIME_TEXT_MAX then t else t[..TIME_TEXT_MAX]) == None
  {
    SignedTextRejected(if |t| <= TIME_TEXT_MAX then t else t[..TIME_TEXT_MAX], i);
  }

  /** A negative second count always shows a sign among the characters that survive. */
  lemma NegativeTimeRejected(sec: int)
    requires sec < 0
    ensures var t := HmsText(sec); ParseHms(if |t| <= TIME_TEXT_MAX then t else t[..TIME_TEXT_MAX]) == None
  {
    hide ParseHms, TDiv, TMod;
    NegativeParts(sec);
    assert Numeral(0, 10) == "0";
    hide Numeral;
    var h, m, s := TDiv(sec, 3600), TDiv(TMod(sec, 3600), 60), TMod(TMod(sec, 3600), 60);
    KeptSign(HmsText(sec), if h < 0 then 0 else if m < 0 then 2 else 5);
  }

  /** What the 12 kept characters of a time text say, for any second count. */
  lemma KeptTimeText(sec: int)
    requires IsInt32(sec)
    ensures var t := HmsText(sec);
            var kept := if |t| <= TIME_TEXT_MAX then t else t[..TIME_TEXT_MAX];
            && ParseHms(kept) == (if sec < 0 then None else Some(sec))
            && (sec >= 0 ==> kept == t)
  {
    if sec < 0 {
      NegativeTimeRejected(sec);
    } else {
      HmsTextFits(sec);
      HmsTextReadsBack(sec);
    }
  }

  lemma TicksBelow(ticks: nat, clockTick: nat)
    requires 0 < clockTick <= 0x1_0000_0000 && ticks / clockTick < 0x8000_0000
    ensures ticks < 0x8000_0000_0000_0000
  {
    var q := ticks / clockTick;
    assert ticks < (q + 1) * clockTick;
    assert (q + 1) * clockTick <= 0x8000_0000 * clockTick;
  }

  /** The second count is the true one whenever that fits an `int`. */
  lemma CpuSecondsExact(ticks: nat, clockTick: nat)
    requires 0 < clockTick <= 0x1_0000_0000
    ensures ticks / clockTick < 0x8000_0000 ==> CpuSeconds(ticks, clockTick) == ticks / clockTick
  {
    if ticks / clockTick < 0x8000_0000 {
      TicksBelow(ticks, clockTick);
      assert I64(ticks) == ticks;
      var q := ticks / clockTick;
      assert CpuSeconds(ticks, clockTick) == I32(q);
      NarrowingChain(q);
    }
  }

  /** The CPU time shown is the true number of seconds exactly when it fits an `int`. In that
      case the 13-byte `snprintf` has not cut anything. */
  lemma CpuTimeExact(ticks: nat, clockTick: nat)
    requires 0 < clockTick <= 0x1_0000_0000
    ensures ParseHms(ReadETime(ticks, clockTick)) == Some(ticks / clockTick)
            <==> ticks / clockTick < 0x8000_0000
    ensures ticks / clockTick < 0x8000_0000
            ==> ReadETime(ticks, clockTick) == HmsText(ticks / clockTick)
  {
    hide CpuSeconds, HmsText, ParseHms;
    CpuSecondsExact(ticks, clockTick);
    KeptTimeText(CpuSeconds(ticks, clockTick));
  }

  /** What a time text says: the true time if its seconds fit an `int` (and the tick rate 32 bits);
      otherwise what the conversions leave. */
  ghost predicate ShowsTime(t: string, ticks: nat, clockTick: nat)
    requires clockTick > 0
  {
    if clockTick <= 0x1_0000_0000 && ticks / clockTick < 0x8000_0000
    then ParseHms(t) == Some(ticks / clockTick)
    else t == ReadETime(ticks, clockTick)
  }

  lemma TimeShown(t: string, ticks: nat, clockTick: nat)
    requires clockTick > 0
    ensures t == ReadETime(ticks, clockTick) <==> ShowsTime(t, ticks, clockTick)
  {
    hide ReadETime, ParseHms, HmsText;
    if clockTick <= 0x1_0000_0000 && ticks / clockTick < 0x8000_0000 {
      CpuTimeExact(ticks, clockTick);
      HmsReadsBack(t, ticks / clockTick);
    }
  }

  /** A size or id text is read as the value modulo 2^32, and is the only text read so. */
  lemma FormatReadsBack(t: string, value: nat)
    ensures t == Format(value) <==> ReadNumber(t, 10) == Some(value % 0x1_0000_0000)
  {
    NumberReadsBack(t, U32(value), 10);
  }

  lemma WrappedSeconds()
    ensures CpuSeconds(214748364800, 100) == -2147483648
    ensures TDiv(-2147483648, 3600) == -596523 && TMod(-2147483648, 3600) == -848
    ensures TDiv(-848, 60) == -14 && TMod(-848, 60) == -8
  {
  }

  lemma NumeralStep(q: nat, d: nat)
    requires q > 0 && d < 10
    ensures Numeral(10 * q + d, 10) == Numeral(q, 10) + [Digit(d)]
  {
  }

  lemma WrappedNumerals()
    ensures Numeral(596523, 10) == "596523" && Numeral(14, 10) == "14" && Numeral(8, 10) == "8"
  {
    assert Numeral(5, 10) == "5" && Numeral(1, 10) == "1" && Numeral(8, 10) == "8";
    hide Numeral;
    NumeralStep(5, 9);
    NumeralStep(59, 6);
    NumeralStep(596, 5);
    NumeralStep(5965, 2);
    NumeralStep(59652, 3);
    NumeralStep(1, 4);
  }

  /** Beyond an `int`, the seconds wrap and the text is cut: here 2^31 seconds at 100 ticks a second. */
  lemma WrappedTimeCut()
    ensures ReadETime(214748364800, 100) == "-596523:-14:"
  {
    hide Numeral, TDiv, TMod, CpuSeconds;
    WrappedSeconds();
    WrappedNumerals();
    var t := HmsText(-2147483648);
    assert t == "-596523:-14:-8";
    assert t[..12] == "-596523:-14:";
  }
}
