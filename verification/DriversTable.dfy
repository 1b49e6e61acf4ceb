/** Reading `/proc/tty/drivers`: the tokenising loop of `buildDeviceMap`, and the layout it reads. */
module DriversTable {
  import opened Common
  import opened Numerals
  import opened DeviceIndex

  // ----- stream extraction; a failed one throws, because failbit is in the exception mask -----

  datatype Got<+T> = Got(value: T, rest: string) | Failed

  function ReadWord(s: string): (g: Got<string>)
    ensures g.Got? ==> |g.rest| < |s| && IsWord(g.value)
  {
    var t := SkipSpaces(s);
    var n := WordLength(t);
    if n == 0 then Failed else Got(t[..n], t[n..])
  }

  function ReadChar(s: string): (g: Got<char>)
    ensures g.Got? ==> |g.rest| < |s|
  {
    var t := SkipSpaces(s);
    if t == "" then Failed else Got(t[0], t[1..])
  }

  const ULONG_MAX: nat := 0xFFFF_FFFF_FFFF_FFFF

  /** An `unsigned long`: optional sign, digits; too large fails; a minus sign wraps. */
  function ReadULong(s: string): (g: Got<nat>)
    ensures g.Got? ==> |g.rest| < |s|
  {
    var t := SkipSpaces(s);
    var signed := t != "" && (t[0] == '-' || t[0] == '+');
    var u := if signed then t[1..] else t;
    var n := DigitsLength(u);
    var v := Value(u[..n], 10);
    if n == 0 || v > ULONG_MAX then Failed
    else Got(if signed && t[0] == '-' then U64(0 - v) else v, u[n..])
  }

  /** One turn of the loop: a row, the end of input or a stream failure (both caught), or the
      exception of `substr(5)` on a shorter path (not caught). */
  datatype Turn = RowRead(row: Row, rest: string) | StreamFailure | PathTooShort

  function ReadRow(s: string): (t: Turn)
    ensures t.RowRead? ==> |t.rest| < |s|
  {
    match ReadWord(s)
    case Failed => StreamFailure
    case Got(_, s1) =>
      match ReadWord(s1)
      case Failed => StreamFailure
      case Got(path, s2) =>
        if |path| < 5 then PathTooShort
        else
          match ReadULong(s2)
          case Failed => StreamFailure
          case Got(major, s3) =>
            match ReadULong(s3)
            case Failed => StreamFailure
            case Got(min, s4) => ReadRange(major, min, path[5..], s4)
  }

  /** The rest of a turn, from the range check on. The character read may be the first of the type. */
  function ReadRange(major: nat, min: nat, name: string, s: string): (t: Turn)
    ensures t.RowRead? ==> |t.rest| < |s|
  {
    match ReadChar(s)
    case Failed => StreamFailure
    case Got(c, s1) =>
      var max := if c == '-' then ReadULong(s1) else Got(min, s1);
      match max
      case Failed => StreamFailure
      case Got(m, s2) =>
        match ReadWord(s2)
        case Failed => StreamFailure
        case Got(_, s3) => RowRead(Row(major, Range(min, m), name), s3)
  }

  /** All rows read before the loop ends, and whether it ended with the uncaught exception. */
  datatype Parsed = Parsed(rows: seq<Row>, threw: bool)

  function ParseTable(s: string): (p: Parsed)
    decreases |s|
  {
    match ReadRow(s)
    case StreamFailure => Parsed([], false)
    case PathTooShort => Parsed([], true)
    case RowRead(row, rest) => var p := ParseTable(rest); Parsed([row] + p.rows, p.threw)
  }

  class DeviceMap {
    var majors: Majors

    constructor ()
      ensures majors == map[]
    {
      majors := map[];
    }

    /** `buildDeviceMap`: reads rows until the stream fails and adds each as it comes. */
    method BuildDeviceMap(text: string) returns (threw: bool)
      modifies this
      ensures majors == AddRows(old(majors), ParseTable(text).rows)
      ensures threw == ParseTable(text).threw
    {
      hide ReadRow, Insert;
      var fsin := text;
      ghost var all, done := ParseTable(text), [];
      threw := false;
      var turn := ReadRow(fsin);
      while turn.RowRead?
        invariant turn == ReadRow(fsin)
        invariant all == Parsed(done + ParseTable(fsin).rows, ParseTable(fsin).threw)
        invariant majors == AddRows(old(majors), done)
        decreases |fsin|
      {
        var row := turn.row;
        assert (done + [row])[..|done|] == done;
        if row.major in majors {
          // the inner map is copied, so the insertion never reaches the outer map
          var minMap := majors[row.major];
          minMap := Insert(minMap, row.range, row.name);
        } else {
          var minMap := Insert(Leaf, row.range, row.name);
          majors := majors[row.major := minMap];
        }
        done := done + [row];
        fsin := turn.rest;
        turn := ReadRow(fsin);
      }
      threw := turn.PathTooShort?;
      assert all.rows == done;
    }
  }

  // ----- the layout -----

  /** A row of the file: driver name, device path, major, minor or minor range, type; and the white
      space between the columns. */
  datatype Line = Line(
    name: string, path: string, major: nat, min: nat, max: Option<nat>, kind: string,
    gap1: string, gap2: string, gap3: string, gap4: string)

  predicate IsGap(s: string) { s != "" && AllSpace(s) }

  function MinorText(l: Line): (s: string) {
    Numeral(l.min, 10) + match l.max case None => "" case Some(max) => "-" + Numeral(max, 10)
  }

  /** A row in front of the rest of the file. */
  function LineText(l: Line, rest: string): (s: string) {
    l.name + (l.gap1 + (l.path + (l.gap2 + (Numeral(l.major, 10) + (l.gap3 + (MinorText(l) + (l.gap4 + (l.kind + rest))))))))
  }

  function TableText(lines: seq<Line>): (s: string) {
    if lines == [] then "" else LineText(lines[0], "\n" + TableText(lines[1..]))
  }

  /** What every row of the file is like, but for its type column. */
  predicate Shaped(l: Line) {
    && IsWord(l.name) && IsWord(l.path) && |l.path| >= 5 && IsWord(l.kind)
    && l.major <= ULONG_MAX && l.min <= ULONG_MAX && (l.max.Some? ==> l.max.value <= ULONG_MAX)
    && IsGap(l.gap1) && IsGap(l.gap2) && IsGap(l.gap3) && IsGap(l.gap4)
    && (l.max.None? ==> l.kind[0] != '-')
  }

  /** The type still has a character left after the range check took one. */
  predicate Recoverable(l: Line) { l.max.Some? || |l.kind| >= 2 }

  function RowOf(l: Line): (r: Row)
    requires Shaped(l)
  {
    Row(l.major, Range(l.min, match l.max case None => l.min case Some(max) => max), l.path[5..])
  }

  // ----- reading back what was written -----

  predicate Stops(s: string) { s == "" || IsSpace(s[0]) }

  lemma ReadWordOver(gap: string, w: string, rest: string)
    requires AllSpace(gap) && IsWord(w) && Stops(rest)
    ensures ReadWord(gap + (w + rest)) == Got(w, rest)
  {
    var t := w + rest;
    SkipSpacesOver(gap, t);
    assert SkipSpaces(t) == t;
    WordLengthOver(w, rest);
    assert t[..|w|] == w && t[|w|..] == rest;
  }

  lemma ReadCharOver(gap: string, c: char, rest: string)
    requires AllSpace(gap) && !IsSpace(c)
    ensures ReadChar(gap + ([c] + rest)) == Got(c, rest)
  {
    SkipSpacesOver(gap, [c] + rest);
    assert SkipSpaces([c] + rest) == [c] + rest;
  }

  lemma ReadULongOver(gap: string, n: nat, rest: string)
    requires AllSpace(gap) && n <= ULONG_MAX && (rest == "" || DigitValue(rest[0]) >= 10)
    ensures ReadULong(gap + (Numeral(n, 10) + rest)) == Got(n, rest)
  {
    var w := Numeral(n, 10);
    var t := w + rest;
    NumeralValue(n, 10);
    assert t[0] == w[0] && DigitValue(w[0]) < 10;
    assert DigitValue('-') == 16 && DigitValue('+') == 16;
    SkipSpacesOver(gap, t);
    assert SkipSpaces(t) == t;
    DigitsLengthOver(w, rest);
    assert t[..|w|] == w && t[|w|..] == rest;
  }

  /** With a sign: a number beyond 64 bits fails, a minus sign wraps. */
  lemma ReadULongExactly(gap: string, sign: string, n: nat, rest: string)
    requires AllSpace(gap) && (sign == "" || sign == "-" || sign == "+") && (rest == "" || DigitValue(rest[0]) >= 10)
    ensures ReadULong(gap + (sign + (Numeral(n, 10) + rest))) ==
            if n >= 0x1_0000_0000_0000_0000 then Failed
            else Got(if sign == "-" && n > 0 then 0x1_0000_0000_0000_0000 - n else n, rest)
  {
    hide Numeral, Value, DigitsLength, U64;
    var w := Numeral(n, 10);
    NumeralValue(n, 10);
    var u := w + rest;
    var t := sign + u;
    assert u[0] == w[0] && DigitValue(w[0]) < 10;
    SignedStart(gap, sign, u);
    DigitsLengthOver(w, rest);
    assert u[..|w|] == w && u[|w|..] == rest;
    if n < 0x1_0000_0000_0000_0000 {
      MinusWraps(n);
    }
  }

  lemma MinusWraps(n: nat)
    requires n < 0x1_0000_0000_0000_0000
    ensures U64(0 - n) == if n > 0 then 0x1_0000_0000_0000_0000 - n else 0
  {
  }

  lemma SpaceIsNoDigit(s: string)
    requires s != "" && IsSpace(s[0])
    ensures DigitValue(s[0]) >= 10
  {
  }

  /** The range check and what follows it. */
  lemma ReadRangeOver(l: Line, rest: string)
    requires Shaped(l) && Recoverable(l) && Stops(rest)
    ensures match l.max
            case None =>
              ReadRange(l.major, l.min, l.path[5..], l.gap4 + (l.kind + rest)) == RowRead(RowOf(l), rest)
            case Some(max) =>
              ReadRange(l.major, l.min, l.path[5..], "-" + Numeral(max, 10) + (l.gap4 + (l.kind + rest))) == RowRead(RowOf(l), rest)
  {
    hide Numeral, ReadULong, ReadWord, ReadChar;
    match l.max
    case None =>
      var c, tail := l.kind[0], l.kind[1..];
      assert l.kind + rest == [c] + (tail + rest);
      ReadCharOver(l.gap4, c, tail + rest);
      assert "" + (tail + rest) == tail + rest;
      ReadWordOver("", tail, rest);
    case Some(max) =>
      var after := l.gap4 + (l.kind + rest);
      assert "-" + Numeral(max, 10) + after == "" + (['-'] + (Numeral(max, 10) + after));
      ReadCharOver("", '-', Numeral(max, 10) + after);
      assert "" + (Numeral(max, 10) + after) == Numeral(max, 10) + after;
      SpaceIsNoDigit(after);
      ReadULongOver("", max, after);
      ReadWordOver(l.gap4, l.kind, rest);
  }

  /** Everything before the range check, for any row, whatever is left behind the minor number. */
  lemma ReadRowHead(gap: string, l: Line, after: string)
    requires Shaped(l) && AllSpace(gap) && after != "" && DigitValue(after[0]) >= 10
    ensures ReadRow(gap + (l.name + (l.gap1 + (l.path + (l.gap2 + (Numeral(l.major, 10) + (l.gap3 + (Numeral(l.min, 10) + after))))))))
            == ReadRange(l.major, l.min, l.path[5..], after)
  {
    hide ReadULong, ReadWord, ReadRange, Numeral;
    var s4 := l.gap3 + (Numeral(l.min, 10) + after);
    var s3 := l.gap2 + (Numeral(l.major, 10) + s4);
    var s2 := l.gap1 + (l.path + s3);
    ReadWordOver(gap, l.name, s2);
    ReadWordOver(l.gap1, l.path, s3);
    SpaceIsNoDigit(s4);
    ReadULongOver(l.gap2, l.major, s4);
    ReadULongOver(l.gap3, l.min, after);
  }

  lemma LineTextSplit(l: Line, rest: string)
    requires Shaped(l)
    ensures var tail := l.gap4 + (l.kind + rest);
            var after := match l.max case None => tail case Some(max) => "-" + Numeral(max, 10) + tail;
            && LineText(l, rest) ==
               l.name + (l.gap1 + (l.path + (l.gap2 + (Numeral(l.major, 10) + (l.gap3 + (Numeral(l.min, 10) + after))))))
            && after != "" && DigitValue(after[0]) >= 10
  {
    var tail := l.gap4 + (l.kind + rest);
    match l.max
    case None =>
      assert MinorText(l) == Numeral(l.min, 10);
      SpaceIsNoDigit(tail);
    case Some(max) =>
      assert MinorText(l) + tail == Numeral(l.min, 10) + ("-" + Numeral(max, 10) + tail);
  }

  lemma ReadRowOver(gap: string, l: Line, rest: string)
    requires Shaped(l) && Recoverable(l) && AllSpace(gap) && Stops(rest)
    ensures ReadRow(gap + LineText(l, rest)) == RowRead(RowOf(l), rest)
  {
    hide Numeral, ReadRow, ReadRange, LineText;
    var tail := l.gap4 + (l.kind + rest);
    var after := match l.max case None => tail case Some(max) => "-" + Numeral(max, 10) + tail;
    LineTextSplit(l, rest);
    ReadRowHead(gap, l, after);
    ReadRangeOver(l, rest);
  }

  predicate AllShaped(lines: seq<Line>) { forall i :: 0 <= i < |lines| ==> Shaped(lines[i]) }

  predicate AllRecoverable(lines: seq<Line>) { forall i :: 0 <= i < |lines| ==> Recoverable(lines[i]) }

  predicate Readable(lines: seq<Line>) { AllShaped(lines) && AllRecoverable(lines) }

  function RowsOf(lines: seq<Line>): (rows: seq<Row>)
    requires AllShaped(lines)
    ensures |rows| == |lines|
  {
    if lines == [] then [] else [RowOf(lines[0])] + RowsOf(lines[1..])
  }

  lemma NothingLeft(gap: string)
    requires AllSpace(gap)
    ensures ReadRow(gap) == StreamFailure
  {
    SkipSpacesOver(gap, "");
    assert gap + "" == gap;
  }

  // A single minor with a one-letter type: the range check takes the letter, and the read of the
  // type takes the next word of the file, if there is one.

  lemma OneLetterAtEnd(l: Line, rest: string)
    requires Shaped(l) && !Recoverable(l) && AllSpace(rest)
    ensures ReadRange(l.major, l.min, l.path[5..], l.gap4 + (l.kind + rest)) == StreamFailure
  {
    hide ReadULong;
    assert l.kind + rest == [l.kind[0]] + rest;
    ReadCharOver(l.gap4, l.kind[0], rest);
    SkipSpacesOver(rest, "");
    assert rest + "" == rest;
    assert ReadWord(rest) == Failed;
  }

  lemma OneLetterBefore(l: Line, gap: string, word: string, rest: string)
    requires Shaped(l) && !Recoverable(l) && AllSpace(gap) && IsWord(word) && Stops(rest)
    ensures ReadRange(l.major, l.min, l.path[5..], l.gap4 + (l.kind + (gap + (word + rest)))) == RowRead(RowOf(l), rest)
  {
    hide ReadULong, ReadWord, ReadChar;
    var after := gap + (word + rest);
    assert l.kind + after == [l.kind[0]] + after;
    ReadCharOver(l.gap4, l.kind[0], after);
    ReadWordOver(gap, word, rest);
  }

  lemma ReadUnrecoverable(gap: string, l: Line, rest: string)
    requires Shaped(l) && !Recoverable(l) && AllSpace(gap) && Stops(rest)
    ensures ReadRow(gap + LineText(l, rest)) == ReadRange(l.major, l.min, l.path[5..], l.gap4 + (l.kind + rest))
  {
    hide ReadRow, ReadRange, LineText, Numeral, IsWord;
    LineTextSplit(l, rest);
    ReadRowHead(gap, l, l.gap4 + (l.kind + rest));
  }

  /** What is left of a row once its name is gone. */
  function AfterName(l: Line, rest: string): (s: string) {
    l.gap1 + (l.path + (l.gap2 + (Numeral(l.major, 10) + (l.gap3 + (MinorText(l) + (l.gap4 + (l.kind + rest)))))))
  }

  /** The path is then taken for the name and the major for the path, which is too short. */
  lemma NextRowThrows(l: Line, rest: string)
    requires Shaped(l) && |Numeral(l.major, 10)| < 5
    ensures ReadRow(AfterName(l, rest)) == PathTooShort
  {
    var s2 := l.gap3 + (MinorText(l) + (l.gap4 + (l.kind + rest)));
    NumeralWord(l.major);
    hide ReadULong, ReadWord, ReadRange, Numeral, MinorText;
    ReadWordOver(l.gap1, l.path, l.gap2 + (Numeral(l.major, 10) + s2));
    ReadWordOver(l.gap2, Numeral(l.major, 10), s2);
  }

  lemma NumeralWord(n: nat)
    ensures IsWord(Numeral(n, 10))
  {
    NumeralValue(n, 10);
    forall c: char | DigitValue(c) < 10 ensures !IsSpace(c) {}
  }

  // ----- whole tables -----

  /** Majors behind another row have at most four digits. */
  predicate ShortMajors(lines: seq<Line>) { forall i :: 0 < i < |lines| ==> lines[i].major < 10000 }

  /** What a table reads back as: all rows up to the first one with a one-letter type. If that is
      the last row, it is lost; otherwise it is still read, and the turn after it throws. */
  function ReadBack(lines: seq<Line>): (p: Parsed)
    requires AllShaped(lines)
  {
    if lines == [] then Parsed([], false)
    else if Recoverable(lines[0]) then
      var p := ReadBack(lines[1..]);
      Parsed([RowOf(lines[0])] + p.rows, p.threw)
    else if |lines| == 1 then Parsed([], false)
    else Parsed([RowOf(lines[0])], true)
  }

  lemma ParseTurn(s: string, row: Row, rest: string)
    requires ReadRow(s) == RowRead(row, rest)
    ensures ParseTable(s) == Parsed([row] + ParseTable(rest).rows, ParseTable(rest).threw)
  {
  }

  lemma ParseUnrecoverable(gap: string, lines: seq<Line>)
    requires AllSpace(gap) && AllShaped(lines) && lines != [] && !Recoverable(lines[0])
    requires |lines| > 1 ==> lines[1].major < 10000
    ensures ParseTable(gap + TableText(lines)) == ReadBack(lines)
  {
    var l, rest := lines[0], "\n" + TableText(lines[1..]);
    hide ReadRow, ReadRange, LineText, Numeral, IsWord, RowOf, Shaped, Recoverable, AfterName;
    ReadUnrecoverable(gap, l, rest);
    if |lines| == 1 {
      assert rest == "\n";
      OneLetterAtEnd(l, rest);
    } else {
      var l1, rest1 := lines[1], "\n" + TableText(lines[1..][1..]);
      assert rest == "\n" + LineText(l1, rest1);
      SwallowsName(l, l1, rest1);
      ParseTurn(gap + TableText(lines), RowOf(l), AfterName(l1, rest1));
    }
  }

  /** A one-letter type takes the next row's name, and the turn after that throws. */
  lemma SwallowsName(l: Line, l1: Line, rest1: string)
    requires Shaped(l) && Shaped(l1) && !Recoverable(l) && l1.major < 10000
    ensures ReadRange(l.major, l.min, l.path[5..], l.gap4 + (l.kind + ("\n" + LineText(l1, rest1)))) ==
            RowRead(RowOf(l), AfterName(l1, rest1))
    ensures ParseTable(AfterName(l1, rest1)) == Parsed([], true)
  {
    hide ReadRow, ReadRange, LineText, Numeral, IsWord, RowOf, Shaped, Recoverable, AfterName;
    MajorIsShort(l1.major);
    NameFirst(l1, rest1);
    WordAndGap(l1, rest1);
    OneLetterBefore(l, "\n", l1.name, AfterName(l1, rest1));
    NextRowThrows(l1, rest1);
  }

  lemma NameFirst(l: Line, rest: string)
    ensures LineText(l, rest) == l.name + AfterName(l, rest)
  {
  }

  lemma WordAndGap(l: Line, rest: string)
    requires Shaped(l)
    ensures IsWord(l.name) && Stops(AfterName(l, rest))
  {
  }

  /** At most four digits. */
  lemma MajorIsShort(n: nat)
    requires n < 10000
    ensures |Numeral(n, 10)| < 5
  {
    NumeralLength(n, 10, 4);
    assert Pow(10, 0) == 1 && Pow(10, 1) == 10 && Pow(10, 2) == 100 && Pow(10, 3) == 1000;
  }

  lemma {:induction false} ParseAfterGap(gap: string, lines: seq<Line>)
    requires AllSpace(gap) && AllShaped(lines)
    requires ShortMajors(lines) || AllRecoverable(lines)
    ensures ParseTable(gap + TableText(lines)) == ReadBack(lines)
    decreases lines
  {
    hide ReadRow, LineText, IsWord, RowOf, Shaped, Recoverable;
    if lines == [] {
      NothingLeft(gap);
      assert gap + "" == gap;
    } else if Recoverable(lines[0]) {
      var rest := "\n" + TableText(lines[1..]);
      ReadRowOver(gap, lines[0], rest);
      ParseAfterGap("\n", lines[1..]);
      ParseTurn(gap + TableText(lines), RowOf(lines[0]), rest);
    } else {
      ParseUnrecoverable(gap, lines);
    }
  }

  lemma {:induction false} ReadBackWhole(lines: seq<Line>)
    requires AllShaped(lines)
    ensures ReadBack(lines) == Parsed(RowsOf(lines), false) <==> AllRecoverable(lines)
    ensures |ReadBack(lines).rows| <= |lines|
  {
    hide RowOf, Shaped, Recoverable;
    if lines != [] && Recoverable(lines[0]) {
      var p, rows := ReadBack(lines[1..]), RowsOf(lines[1..]);
      ReadBackWhole(lines[1..]);
      assert ([RowOf(lines[0])] + p.rows)[1..] == p.rows && ([RowOf(lines[0])] + rows)[1..] == rows;
      assert AllRecoverable(lines) <==> AllRecoverable(lines[1..]);
    }
  }

  /** The rows that are read: all up to the first one with a one-letter type, and that one too
      unless it is the last. */
  function LinesRead(lines: seq<Line>): (read: seq<Line>) {
    if lines == [] then []
    else if Recoverable(lines[0]) then [lines[0]] + LinesRead(lines[1..])
    else if |lines| == 1 then []
    else [lines[0]]
  }

  /** Some row but the last has a one-letter type. */
  ghost predicate FaultBeforeLast(lines: seq<Line>) { exists i :: 0 <= i < |lines| - 1 && !Recoverable(lines[i]) }

  lemma {:induction false} ReadBackRows(lines: seq<Line>)
    requires AllShaped(lines)
    ensures AllShaped(LinesRead(lines)) && ReadBack(lines).rows == RowsOf(LinesRead(lines))
    ensures ReadBack(lines).threw <==> FaultBeforeLast(lines)
    ensures AllRecoverable(lines) ==> LinesRead(lines) == lines
  {
    hide RowOf, Shaped, Recoverable;
    if lines != [] && Recoverable(lines[0]) {
      var rest := lines[1..];
      ReadBackRows(rest);
      assert ([lines[0]] + LinesRead(rest))[1..] == LinesRead(rest);
      if i :| 0 <= i < |lines| - 1 && !Recoverable(lines[i]) {
        assert !Recoverable(rest[i - 1]);
      }
      if i :| 0 <= i < |rest| - 1 && !Recoverable(rest[i]) {
        assert !Recoverable(lines[i + 1]);
      }
    } else if lines != [] {
      assert [lines[0]][1..] == [];
    }
  }

  lemma TableReadBack(lines: seq<Line>)
    requires AllShaped(lines) && (ShortMajors(lines) || AllRecoverable(lines))
    ensures ParseTable(TableText(lines)) == ReadBack(lines)
  {
    hide ParseTable, TableText, ReadBack, AllShaped, AllRecoverable, ShortMajors;
    ParseAfterGap("", lines);
    assert "" + TableText(lines) == TableText(lines);
  }

  /** Every table of rows, in any column spacing, is read back in full: path suffix, major, and
      minor range, also where the range check takes the first letter of the type. */
  lemma DriversRoundTrip(lines: seq<Line>)
    requires Readable(lines)
    ensures ParseTable(TableText(lines)) == Parsed(RowsOf(lines), false)
  {
    hide ParseTable, TableText, RowsOf, ReadBack, AllShaped, AllRecoverable;
    TableReadBack(lines);
    ReadBackWhole(lines);
  }

  /** For majors of at most four digits (a table of one row may have any), the condition on the types is
      exact: the table is read back exactly when every row has a minor range or a type of at least
      two characters. Otherwise the first other row is lost, if it is the last of the table, or the
      turn after it throws. */
  lemma DriversRoundTripExactly(lines: seq<Line>)
    requires AllShaped(lines) && ShortMajors(lines)
    ensures ParseTable(TableText(lines)) == ReadBack(lines)
    ensures ParseTable(TableText(lines)) == Parsed(RowsOf(lines), false) <==> AllRecoverable(lines)
  {
    hide ParseTable, TableText, RowsOf, ReadBack, AllShaped, AllRecoverable;
    TableReadBack(lines);
    ReadBackWhole(lines);
  }

  /** The two ways to fail, for a first row with a one-letter type behind readable ones. */
  lemma {:induction false} ReadBackFails(before: seq<Line>, l: Line, after: seq<Line>)
    requires Readable(before) && Shaped(l) && !Recoverable(l) && AllShaped(after)
    ensures AllShaped(before + [l] + after)
    ensures ReadBack(before + [l] + after) ==
            if after == [] then Parsed(RowsOf(before), false) else Parsed(RowsOf(before) + [RowOf(l)], true)
  {
    hide RowOf, Shaped, Recoverable;
    var lines := before + [l] + after;
    if before == [] {
      assert lines == [l] + after;
    } else {
      assert lines[0] == before[0] && lines[1..] == before[1..] + [l] + after;
      ReadBackFails(before[1..], l, after);
      assert [RowOf(before[0])] + (RowsOf(before[1..]) + [RowOf(l)]) == [RowOf(before[0])] + RowsOf(before[1..]) + [RowOf(l)];
    }
  }

  /** Longer majors can hide the fault: here the type of the first row has one letter, and the
      second row's type happens to continue with its own numbers. */
  const LONG_MAJOR_TABLE := [
    Line("a", "/dev/a", 1, 1, None, "x", " ", " ", " ", " "),
    Line("b", "/dev/", 12345, 12345, None, "12345ab", " ", " ", " ", " ")]

  lemma LongMajorNumeral()
    ensures Numeral(12345, 10) == "12345"
  {
    assert Numeral(1, 10) == "1" && Numeral(12, 10) == "12" && Numeral(123, 10) == "123" && Numeral(1234, 10) == "1234";
  }

  lemma LongMajorShaped()
    ensures AllShaped(LONG_MAJOR_TABLE) && !Recoverable(LONG_MAJOR_TABLE[0])
  {
    hide Numeral, Value;
  }

  lemma LongMajorText()
    ensures var n := Numeral(12345, 10);
            AfterName(LONG_MAJOR_TABLE[1], "\n") ==
            " " + ("/dev/" + (" " + (n + (" " + (n + (" " + (n + ("" + (['a'] + ("" + ("b" + "\n")))))))))))
  {
    LongMajorNumeral();
    assert MinorText(LONG_MAJOR_TABLE[1]) == "12345";
    hide Numeral, MinorText;
  }

  lemma LongMajorSecondTurn()
    ensures ReadRow(AfterName(LONG_MAJOR_TABLE[1], "\n")) == RowRead(Row(12345, Range(12345, 12345), ""), "\n")
  {
    hide Numeral, MinorText, AfterName, ReadWord, ReadULong, ReadChar;
    LongMajorText();
    LongMajorNumeral();
    NumeralWord(12345);
    var n, type1 := Numeral(12345, 10), "" + ("b" + "\n");
    var tail := "" + (['a'] + type1);
    ReadWordOver(" ", "/dev/", " " + (n + (" " + (n + (" " + (n + tail))))));
    ReadWordOver(" ", n, " " + (n + (" " + (n + tail))));
    ReadULongOver(" ", 12345, " " + (n + tail));
    ReadULongOver(" ", 12345, tail);
    ReadCharOver("", 'a', type1);
    ReadWordOver("", "b", "\n");
  }

  lemma LongMajorParts()
    ensures var l, l1 := LONG_MAJOR_TABLE[0], LONG_MAJOR_TABLE[1];
            && AllShaped(LONG_MAJOR_TABLE)
            && RowOf(l1) == Row(12345, Range(12345, 12345), "")
            && RowsOf(LONG_MAJOR_TABLE) == [RowOf(l)] + ([RowOf(l1)] + [])
            && TableText(LONG_MAJOR_TABLE) == "" + LineText(l, "\n" + (l1.name + AfterName(l1, "\n")))
  {
    var l, l1 := LONG_MAJOR_TABLE[0], LONG_MAJOR_TABLE[1];
    LongMajorShaped();
    NameFirst(l1, "\n");
    hide LineText, AfterName, Shaped;
    assert LONG_MAJOR_TABLE[1..] == [l1] && [l1][1..] == [];
    assert TableText([l1]) == LineText(l1, "\n");
  }

  /** So the bound on the majors is needed. */
  lemma LongMajorHidesFault()
    ensures AllShaped(LONG_MAJOR_TABLE) && !AllRecoverable(LONG_MAJOR_TABLE)
    ensures ParseTable(TableText(LONG_MAJOR_TABLE)) == Parsed(RowsOf(LONG_MAJOR_TABLE), false)
  {
    var l, l1 := LONG_MAJOR_TABLE[0], LONG_MAJOR_TABLE[1];
    LongMajorShaped();
    LongMajorParts();
    NothingLeft("\n");
    assert ParseTable("\n") == Parsed([], false);
    hide ReadRow, ReadRange, LineText, Numeral, IsWord, RowOf, Shaped, Recoverable, AfterName, RowsOf, TableText, ParseTable;
    WordAndGap(l1, "\n");
    ReadUnrecoverable("", l, "\n" + (l1.name + AfterName(l1, "\n")));
    OneLetterBefore(l, "\n", l1.name, AfterName(l1, "\n"));
    ParseTurn(TableText(LONG_MAJOR_TABLE), RowOf(l), AfterName(l1, "\n"));
    LongMajorSecondTurn();
    ParseTurn(AfterName(l1, "\n"), RowOf(l1), "\n");
  }
}
