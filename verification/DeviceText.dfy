/** `readDevice` from the text of `/proc/tty/drivers` to the text shown. */
module DeviceText {
  import opened Common
  import opened Numerals
  import opened DeviceIndex
  import opened DriversTable

  /** The device text for the text of the file; None when the exception of a short path escapes. */
  function DeviceAnswer(drivers: string, major: nat, minor: nat): (s: Option<string>) {
    if ParseTable(drivers).threw then None
    else Some(ReadDevice(AddRows(map[], ParseTable(drivers).rows), major, minor))
  }

  /** The whole of `readDevice`, for given major and minor. */
  method ReadDeviceFrom(drivers: string, major: nat, minor: nat) returns (s: Option<string>)
    ensures s == DeviceAnswer(drivers, major, minor)
  {
    var deviceMap := new DeviceMap();
    var threw := deviceMap.BuildDeviceMap(drivers);
    s := if threw then None else Some(ReadDevice(deviceMap.majors, major, minor));
  }

  /** The first row of the file with a major. */
  function FirstLine(lines: seq<Line>, major: nat): (l: Option<Line>) {
    if lines == [] then None
    else if lines[0].major == major then Some(lines[0])
    else FirstLine(lines[1..], major)
  }

  /** The name that row gives for a minor. */
  function NameInFile(lines: seq<Line>, major: nat, minor: nat): (name: Option<string>)
    requires AllShaped(lines)
  {
    FirstLineShaped(lines, major);
    match FirstLine(lines, major)
    case None => None
    case Some(l) => if Contains(Shown(RowOf(l).range), minor) then Some(l.path[5..]) else None
  }

  lemma {:induction false} FirstLineShaped(lines: seq<Line>, major: nat)
    requires AllShaped(lines)
    ensures FirstLine(lines, major).Some? ==> Shaped(FirstLine(lines, major).value)
  {
    hide Shaped;
    if lines != [] && lines[0].major != major {
      FirstLineShaped(lines[1..], major);
    }
  }

  lemma {:induction false} FirstRowOfLines(lines: seq<Line>, major: nat)
    requires AllShaped(lines)
    ensures FirstLine(lines, major).Some? ==> Shaped(FirstLine(lines, major).value)
    ensures FirstRow(RowsOf(lines), major) ==
            match FirstLine(lines, major) case None => None case Some(l) => Some(RowOf(l))
  {
    hide Shaped;
    FirstLineShaped(lines, major);
    if lines != [] {
      FirstRowOfLines(lines[1..], major);
      assert RowsOf(lines)[1..] == RowsOf(lines[1..]);
    }
  }

  /** From file to lookup: the index built from a file's text answers with the first row of the
      major among the rows read, for the minors that row shows, and with nothing otherwise. */
  lemma LookupInFile(lines: seq<Line>, major: nat, minor: nat)
    requires AllShaped(lines) && (ShortMajors(lines) || AllRecoverable(lines))
    ensures AllShaped(LinesRead(lines)) && (AllRecoverable(lines) ==> LinesRead(lines) == lines)
    ensures ParseTable(TableText(lines)).threw <==> FaultBeforeLast(lines)
    ensures Lookup(AddRows(map[], ParseTable(TableText(lines)).rows), major, minor) ==
            NameInFile(LinesRead(lines), major, minor)
  {
    var read := LinesRead(lines);
    TableReadBack(lines);
    ReadBackRows(lines);
    LookupAsWritten(RowsOf(read), major, minor);
    FirstRowOfLines(read, major);
    hide ParseTable, TableText, Lookup, AddRows, FirstRow, FirstLine, RowsOf, Shaped, Shown, LinesRead, FaultBeforeLast, ReadBack;
  }

  /** From file to text: the exception escapes exactly when a row before the last has a one-letter
      type. Otherwise the text is the two numbers, a tab, and the name of the first row with the major
      (among those read) with the minor behind it; it ends in a question mark exactly when that row is
      missing or does not show the minor. */
  lemma DeviceOfFile(lines: seq<Line>, major: nat, minor: nat)
    requires AllShaped(lines) && (ShortMajors(lines) || AllRecoverable(lines))
    ensures AllShaped(LinesRead(lines))
    ensures DeviceAnswer(TableText(lines), major, minor).None? <==> FaultBeforeLast(lines)
    ensures DeviceAnswer(TableText(lines), major, minor).Some? ==>
              var s, n := DeviceAnswer(TableText(lines), major, minor).value, Numeral(minor, 10);
              var prefix := Numeral(major, 10) + "," + n + "\t";
              match NameInFile(LinesRead(lines), major, minor)
              case None => s == prefix + "?"
              case Some(name) =>
                && s[|s| - 1] != '?'
                && (Occurs(name, "tty") ==> s == prefix + (name + n))
                && (Occurs(name, "pts") && !Occurs(name, "tty") ==> s == prefix + (name + "/" + n))
                && (!Occurs(name, "pts") && !Occurs(name, "tty") ==> s == prefix)
  {
    hide ParseTable, TableText, Lookup, AddRows, NameInFile, HasText, Numeral, LinesRead, FaultBeforeLast, Occurs, AllShaped,
      ShortMajors, AllRecoverable;
    LookupInFile(lines, major, minor);
    var majors := AddRows(map[], ParseTable(TableText(lines)).rows);
    UnknownDeviceShown(majors, major, minor);
    if NameInFile(LinesRead(lines), major, minor).Some? {
      HasTextExactly(NameInFile(LinesRead(lines), major, minor).value, "tty");
      HasTextExactly(NameInFile(LinesRead(lines), major, minor).value, "pts");
    }
    var s, prefix := ReadDevice(majors, major, minor), Numeral(major, 10) + "," + Numeral(minor, 10) + "\t";
    assert prefix + "" == prefix;
  }
}
