/** The shared label table: every reader inserts its own ids, and an existing entry wins. */
module Labels {
  import opened Common
  import opened Files
  import Ids = AttributeIds
  import P = ProcReader
  import F = FileStatReader

  datatype Reader = LsofReader | ProcReader | FileStatReader

  type LabelMap = map<int, string>

  const PID_LABEL := "Process ID (PID)"
  const FD_LABEL := "File Descriptor"
  const FLAGS_LABEL := "File Flags"
  const CMD_LABEL := "Command"
  const FILENAME_LABEL := "Filename"
  const DEVICE_LABEL := "Device"
  const INODE_LABEL := "Inode"
  const PROCGID_LABEL := "Process Group ID (PGID)"
  const PPID_LABEL := "Parent PID"
  const LOGINNAME_LABEL := "User Name"
  const UID_LABEL := "User ID (UID)"
  const UGID_NAME_LABEL := "User Group Name"
  const UGID_LABEL := "User Group ID (UGID)"
  const FILEMODE_LABEL := "File Mode"
  const PSTATE_LABEL := "Current State"
  const PERMS_LABEL := "Permissions"
  const PSTART_TIME_LABEL := "Start Time"
  const ACCESS_T_LABEL := "Last Accessed"
  const MOD_T_LABEL := "Last Modified"
  const STAT_CHANGE_T_LABEL := "Last Status Change"
  const PCPU_TIME_LABEL := "CPU Time"
  const FILESIZE_LABEL := "File Size (bytes)"
  const PVMS_LABEL := "Virtual Memory (bytes)"
  const PRSS_LABEL := "Resident Set (pages)"
  const TEXT_REGION_LABEL := "Text Region"
  const DATA_REGION_LABEL := "Data Region"
  const STACK_REGION_LABEL := "Stack"
  const EPI_LABEL := "Instruction Pointer"

  /** What each `do_createAttribMap` inserts, in order. */
  function LabelRows(r: Reader): (rows: seq<(int, string)>) {
    match r
    case LsofReader => [(Ids.FD, FD_LABEL), (Ids.FLAGS, FLAGS_LABEL), (Ids.PID, PID_LABEL)]
    case ProcReader => [
      (Ids.CMD, CMD_LABEL), (Ids.PPID, PPID_LABEL), (Ids.PROCGID, PROCGID_LABEL),
      (Ids.LOGINNAME, LOGINNAME_LABEL), (Ids.UID, UID_LABEL), (Ids.UGID_NAME, UGID_NAME_LABEL),
      (Ids.UGID, UGID_LABEL), (Ids.PSTART_TIME, PSTART_TIME_LABEL), (Ids.PCPU_TIME, PCPU_TIME_LABEL),
      (Ids.DEVICE, DEVICE_LABEL), (Ids.PVMS, PVMS_LABEL), (Ids.PRSS, PRSS_LABEL),
      (Ids.TEXT_REGION, TEXT_REGION_LABEL), (Ids.DATA_REGION, DATA_REGION_LABEL),
      (Ids.STACK_REGION, STACK_REGION_LABEL), (Ids.EPI, EPI_LABEL), (Ids.PERMS, PERMS_LABEL),
      (Ids.PSTATE, PSTATE_LABEL)]
    case FileStatReader => [
      (Ids.FILENAME, FILENAME_LABEL), (Ids.INODE, INODE_LABEL), (Ids.UID, UID_LABEL), (Ids.UGID, UGID_LABEL),
      (Ids.FILEMODE, FILEMODE_LABEL), (Ids.ACCESS_T, ACCESS_T_LABEL), (Ids.MOD_T, MOD_T_LABEL),
      (Ids.STAT_CHANGE_T, STAT_CHANGE_T_LABEL), (Ids.DEVICE, DEVICE_LABEL), (Ids.PID, PID_LABEL),
      (Ids.FILESIZE, FILESIZE_LABEL), (Ids.PERMS, PERMS_LABEL)]
  }

  function InsertRows(flags: LabelMap, rows: seq<(int, string)>): (flags': LabelMap) {
    if rows == [] then flags
    else
      var n := |rows| - 1;
      InsertFirst(InsertRows(flags, rows[..n]), rows[n].0, rows[n].1)
  }

  /** The table after the readers have run, in this order, on a given table. */
  function LabelsAfter(flags: LabelMap, readers: seq<Reader>): (flags': LabelMap) {
    if readers == [] then flags
    else
      var n := |readers| - 1;
      InsertRows(LabelsAfter(flags, readers[..n]), LabelRows(readers[n]))
  }

  ghost predicate HasRow(r: Reader, id: int) {
    exists i :: 0 <= i < |LabelRows(r)| && LabelRows(r)[i].0 == id
  }

  /** Some reader inserts this label for this id. */
  ghost predicate IsLabel(id: int, text: string) {
    exists r, i :: 0 <= i < |LabelRows(r)| && LabelRows(r)[i] == (id, text)
  }

  /** A reader inserts every id once. */
  lemma RowsDistinct(r: Reader, i: nat, j: nat)
    requires i < j < |LabelRows(r)|
    ensures LabelRows(r)[i].0 != LabelRows(r)[j].0
  {
    hide PID_LABEL, FD_LABEL, FLAGS_LABEL, CMD_LABEL, FILENAME_LABEL, DEVICE_LABEL, INODE_LABEL,
      PROCGID_LABEL, PPID_LABEL, LOGINNAME_LABEL, UID_LABEL, UGID_NAME_LABEL, UGID_LABEL, FILEMODE_LABEL,
      PSTATE_LABEL, PERMS_LABEL, PSTART_TIME_LABEL, ACCESS_T_LABEL, MOD_T_LABEL, STAT_CHANGE_T_LABEL, PCPU_TIME_LABEL,
      FILESIZE_LABEL, PVMS_LABEL, PRSS_LABEL, TEXT_REGION_LABEL, DATA_REGION_LABEL, STACK_REGION_LABEL, EPI_LABEL;
  }

  lemma RowsAgreeAcross(r: Reader, i: nat, r': Reader, j: nat)
    requires r != r' && i < |LabelRows(r)| && j < |LabelRows(r')| && LabelRows(r)[i].0 == LabelRows(r')[j].0
    ensures LabelRows(r)[i].1 == LabelRows(r')[j].1
  {
    hide PID_LABEL, FD_LABEL, FLAGS_LABEL, CMD_LABEL, FILENAME_LABEL, DEVICE_LABEL, INODE_LABEL,
      PROCGID_LABEL, PPID_LABEL, LOGINNAME_LABEL, UID_LABEL, UGID_NAME_LABEL, UGID_LABEL, FILEMODE_LABEL,
      PSTATE_LABEL, PERMS_LABEL, PSTART_TIME_LABEL, ACCESS_T_LABEL, MOD_T_LABEL, STAT_CHANGE_T_LABEL, PCPU_TIME_LABEL,
      FILESIZE_LABEL, PVMS_LABEL, PRSS_LABEL, TEXT_REGION_LABEL, DATA_REGION_LABEL, STACK_REGION_LABEL, EPI_LABEL;
    match r {
      case LsofReader =>
      case ProcReader =>
      case FileStatReader =>
    }
  }

  /** Ids that several readers insert carry one label. */
  lemma RowsAgree(r: Reader, i: nat, r': Reader, j: nat)
    requires i < |LabelRows(r)| && j < |LabelRows(r')| && LabelRows(r)[i].0 == LabelRows(r')[j].0
    ensures LabelRows(r)[i].1 == LabelRows(r')[j].1
  {
    hide LabelRows;
    if r != r' {
      RowsAgreeAcross(r, i, r', j);
    } else if i != j {
      RowsDistinct(r, if i < j then i else j, if i < j then j else i);
    }
  }

  lemma LabelUnique(id: int, a: string, b: string)
    requires IsLabel(id, a) && IsLabel(id, b)
    ensures a == b
  {
    hide LabelRows;
    var r, i :| 0 <= i < |LabelRows(r)| && LabelRows(r)[i] == (id, a);
    var r', j :| 0 <= j < |LabelRows(r')| && LabelRows(r')[j] == (id, b);
    RowsAgree(r, i, r', j);
  }

  ghost predicate Genuine(flags: LabelMap) { forall id :: id in flags ==> IsLabel(id, flags[id]) }

  lemma {:induction false} InsertRowsContents(flags: LabelMap, rows: seq<(int, string)>)
    requires Genuine(flags)
    requires forall i :: 0 <= i < |rows| ==> IsLabel(rows[i].0, rows[i].1)
    ensures Genuine(InsertRows(flags, rows))
    ensures forall id :: id in InsertRows(flags, rows) <==>
              id in flags || exists i :: 0 <= i < |rows| && rows[i].0 == id
  {
    hide IsLabel;
    if rows != [] {
      var n := |rows| - 1;
      var before := rows[..n];
      InsertRowsContents(flags, before);
      forall id ensures id in InsertRows(flags, rows) <==>
          id in flags || exists i :: 0 <= i < |rows| && rows[i].0 == id
      {
        if i :| 0 <= i < |rows| && rows[i].0 == id {
          assert i == n || before[i].0 == id;
        }
        if i :| 0 <= i < |before| && before[i].0 == id {
          assert rows[i].0 == id;
        }
        assert id == rows[n].0 ==> exists i :: 0 <= i < |rows| && rows[i].0 == id;
      }
    }
  }

  ghost predicate Labelled(readers: seq<Reader>, id: int) {
    exists j :: 0 <= j < |readers| && HasRow(readers[j], id)
  }

  /** The table holds exactly the ids of the readers that ran, each with a label some reader gives it. */
  lemma {:induction false} LabelsContents(readers: seq<Reader>)
    ensures Genuine(LabelsAfter(map[], readers))
    ensures forall id :: id in LabelsAfter(map[], readers) <==> Labelled(readers, id)
  {
    hide LabelRows;
    if readers != [] {
      var n := |readers| - 1;
      var before, rows := readers[..n], LabelRows(readers[n]);
      LabelsContents(before);
      forall i: nat | i < |rows| ensures IsLabel(rows[i].0, rows[i].1) {
        assert LabelRows(readers[n])[i] == (rows[i].0, rows[i].1);
      }
      InsertRowsContents(LabelsAfter(map[], before), rows);
      hide IsLabel, InsertRows;
      forall id ensures id in LabelsAfter(map[], readers) <==> Labelled(readers, id) {
        if j :| 0 <= j < |before| && HasRow(before[j], id) {
          assert HasRow(readers[j], id);
        }
        if j :| 0 <= j < |readers| && HasRow(readers[j], id) {
          assert j == n || HasRow(before[j], id);
        }
        assert HasRow(readers[n], id) ==> Labelled(readers, id);
      }
    }
  }

  ghost predicate HasReader(readers: seq<Reader>, r: Reader) {
    exists j :: 0 <= j < |readers| && readers[j] == r
  }

  lemma LabelledWithin(readers: seq<Reader>, readers': seq<Reader>, id: int)
    requires forall r :: HasReader(readers, r) ==> HasReader(readers', r)
    requires Labelled(readers, id)
    ensures Labelled(readers', id)
  {
    hide HasRow;
    var j :| 0 <= j < |readers| && HasRow(readers[j], id);
    assert HasReader(readers, readers[j]);
    var i :| 0 <= i < |readers'| && readers'[i] == readers[j];
  }

  /** The table does not depend on the order (or repetition) of the readers. */
  lemma LabelsOrderIndependent(readers: seq<Reader>, readers': seq<Reader>)
    requires forall r :: HasReader(readers, r) <==> HasReader(readers', r)
    ensures LabelsAfter(map[], readers) == LabelsAfter(map[], readers')
  {
    var l, l' := LabelsAfter(map[], readers), LabelsAfter(map[], readers');
    LabelsContents(readers);
    LabelsContents(readers');
    hide IsLabel, LabelsAfter, Labelled, HasReader;
    forall id ensures id in l <==> id in l' {
      if id in l {
        LabelledWithin(readers, readers', id);
      } else if id in l' {
        LabelledWithin(readers', readers, id);
      }
    }
    assert l.Keys == l'.Keys;
    forall id | id in l ensures l[id] == l'[id] {
      LabelUnique(id, l[id], l'[id]);
    }
  }

  // ----- every id a reader can add has a row of that reader -----

  lemma ProcIdsHaveRows(c: char)
    requires P.OptId(c).Some?
    ensures HasRow(ProcReader, P.OptId(c).value)
  {
    var rows := LabelRows(ProcReader);
    assert rows[0].0 == Ids.CMD && rows[1].0 == Ids.PPID && rows[2].0 == Ids.PROCGID && rows[3].0 == Ids.LOGINNAME;
    assert rows[4].0 == Ids.UID && rows[5].0 == Ids.UGID_NAME && rows[6].0 == Ids.UGID;
    assert rows[7].0 == Ids.PSTART_TIME && rows[8].0 == Ids.PCPU_TIME && rows[9].0 == Ids.DEVICE;
    assert rows[10].0 == Ids.PVMS && rows[11].0 == Ids.PRSS && rows[12].0 == Ids.TEXT_REGION;
    assert rows[13].0 == Ids.DATA_REGION && rows[14].0 == Ids.STACK_REGION && rows[15].0 == Ids.EPI;
    assert rows[16].0 == Ids.PERMS && rows[17].0 == Ids.PSTATE;
  }

  lemma FileIdsHaveRows(c: char)
    requires F.OptId(c).Some?
    ensures HasRow(FileStatReader, F.OptId(c).value)
  {
    var rows := LabelRows(FileStatReader);
    assert rows[0].0 == Ids.FILENAME && rows[1].0 == Ids.INODE && rows[2].0 == Ids.UID && rows[3].0 == Ids.UGID;
    assert rows[4].0 == Ids.FILEMODE && rows[5].0 == Ids.ACCESS_T && rows[6].0 == Ids.MOD_T;
    assert rows[7].0 == Ids.STAT_CHANGE_T && rows[8].0 == Ids.DEVICE && rows[10].0 == Ids.FILESIZE;
    assert rows[11].0 == Ids.PERMS;
  }

  lemma LsofIdsHaveRows()
    ensures HasRow(LsofReader, Ids.PID) && HasRow(LsofReader, Ids.FLAGS)
  {
    var rows := LabelRows(LsofReader);
    assert rows[1].0 == Ids.FLAGS && rows[2].0 == Ids.PID;
  }

  // ----- the output as a reader sees it: labels and their places -----

  /** The place of a label in a list of attributes; -1 for any other text. */
  function Place(text: string): (place: int) {
    if text == "Command" then 0
    else if text == "Filename" then 2
    else if text == "Process ID (PID)" then 5
    else if text == "Device" then 6
    else if text == "Inode" then 8
    else if text == "Process Group ID (PGID)" then 10
    else if text == "Parent PID" then 15
    else if text == "User Name" then 20
    else if text == "User ID (UID)" then 25
    else if text == "User Group Name" then 30
    else if text == "User Group ID (UGID)" then 35
    else if text == "File Mode" then 39
    else if text == "Current State" then 40
    else if text == "File Flags" then 41
    else if text == "Permissions" then 42
    else if text == "Start Time" then 45
    else if text == "Last Accessed" then 46
    else if text == "Last Modified" then 47
    else if text == "Last Status Change" then 48
    else if text == "CPU Time" then 50
    else if text == "File Size (bytes)" then 57
    else if text == "Virtual Memory (bytes)" then 60
    else if text == "Resident Set (pages)" then 65
    else if text == "Text Region" then 70
    else if text == "Data Region" then 75
    else if text == "Stack" then 80
    else if text == "Instruction Pointer" then 90
    else if text == "File Descriptor" then 105
    else -1
  }

  lemma PlaceOfRow(r: Reader, i: nat)
    requires i < |LabelRows(r)|
    ensures Place(LabelRows(r)[i].1) == LabelRows(r)[i].0
  {
  }
}
