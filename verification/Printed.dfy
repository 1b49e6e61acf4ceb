/** What a whole run prints, as a reader of the output sees it: literal labels, and under each the
    text that says its own field of what the system answered. */
module Printed {
  import opened Common
  import opened Numerals
  import opened Formatting
  import opened Paths
  import opened LsofStream
  import opened LsofGrouping
  import opened Files
  import opened Pipeline
  import opened Labels
  import opened ProcFileEntryBuilder
  import opened Plan
  import opened Flatten
  import opened Canonical
  import opened Cphf
  import L = LsofReader
  import P = ProcReader
  import F = FileStatReader

  // ----- labels -----

  lemma ProcLabelTable()
    ensures IsLabel(0, "Command")
    ensures IsLabel(5, "Process ID (PID)")
    ensures IsLabel(6, "Device")
    ensures IsLabel(10, "Process Group ID (PGID)")
    ensures IsLabel(15, "Parent PID")
    ensures IsLabel(20, "User Name")
    ensures IsLabel(25, "User ID (UID)")
    ensures IsLabel(30, "User Group Name")
    ensures IsLabel(35, "User Group ID (UGID)")
    ensures IsLabel(40, "Current State")
    ensures IsLabel(42, "Permissions")
    ensures IsLabel(45, "Start Time")
    ensures IsLabel(50, "CPU Time")
    ensures IsLabel(60, "Virtual Memory (bytes)")
    ensures IsLabel(65, "Resident Set (pages)")
    ensures IsLabel(70, "Text Region")
    ensures IsLabel(75, "Data Region")
    ensures IsLabel(80, "Stack")
    ensures IsLabel(90, "Instruction Pointer")
  {
    var l, p := LabelRows(LsofReader), LabelRows(ProcReader);
    assert l[2] == (5, "Process ID (PID)") && p[0] == (0, "Command");
    assert p[1] == (15, "Parent PID") && p[2] == (10, "Process Group ID (PGID)");
    assert p[3] == (20, "User Name") && p[4] == (25, "User ID (UID)");
    assert p[5] == (30, "User Group Name") && p[6] == (35, "User Group ID (UGID)");
    assert p[7] == (45, "Start Time") && p[8] == (50, "CPU Time");
    assert p[9] == (6, "Device") && p[10] == (60, "Virtual Memory (bytes)");
    assert p[11] == (65, "Resident Set (pages)") && p[12] == (70, "Text Region");
    assert p[13] == (75, "Data Region") && p[14] == (80, "Stack");
    assert p[15] == (90, "Instruction Pointer") && p[16] == (42, "Permissions");
    assert p[17] == (40, "Current State");
  }

  lemma FileLabelTable()
    ensures IsLabel(2, "Filename")
    ensures IsLabel(6, "Device")
    ensures IsLabel(8, "Inode")
    ensures IsLabel(25, "User ID (UID)")
    ensures IsLabel(35, "User Group ID (UGID)")
    ensures IsLabel(39, "File Mode")
    ensures IsLabel(41, "File Flags")
    ensures IsLabel(42, "Permissions")
    ensures IsLabel(46, "Last Accessed")
    ensures IsLabel(47, "Last Modified")
    ensures IsLabel(48, "Last Status Change")
    ensures IsLabel(57, "File Size (bytes)")
  {
    var l, f := LabelRows(LsofReader), LabelRows(FileStatReader);
    assert l[1] == (41, "File Flags") && f[0] == (2, "Filename");
    assert f[1] == (8, "Inode") && f[2] == (25, "User ID (UID)");
    assert f[3] == (35, "User Group ID (UGID)") && f[4] == (39, "File Mode");
    assert f[5] == (46, "Last Accessed") && f[6] == (47, "Last Modified");
    assert f[7] == (48, "Last Status Change") && f[8] == (6, "Device");
    assert f[10] == (57, "File Size (bytes)") && f[11] == (42, "Permissions");
  }

  lemma LabelPlace(id: int, text: string)
    requires IsLabel(id, text)
    ensures Place(text) == id
  {
    hide LabelRows, Place;
    var r, i :| 0 <= i < |LabelRows(r)| && LabelRows(r)[i] == (id, text);
    PlaceOfRow(r, i);
  }

  lemma GenuineLabel(flags: LabelMap, id: int)
    requires Genuine(flags) && id in flags
    ensures IsLabel(id, flags[id])
  {
  }

  lemma FinalLabelsGenuine(proc: string, file: string)
    ensures Genuine(FinalLabels(proc, file))
  {
    LabelsContents(ReadersOf(DiggersFor(proc, file)));
    hide LabelsAfter, IsLabel, DiggersFor;
  }

  /** Under a label stand exactly the texts of the label's id. */
  lemma PrintedLine(attrs: seq<Attr>, flags: LabelMap, id: int, text: string, t: string)
    requires Genuine(flags) && PrintedLines(attrs, flags).Some? && IsLabel(id, text)
    ensures (text, t) in PrintedLines(attrs, flags).value <==> Attr(id, t) in attrs
  {
    hide PrintedLines, IsLabel, Genuine, Place;
    var lines := PrintedLines(attrs, flags).value;
    LabelPlace(id, text);
    if (text, t) in lines {
      var i :| 0 <= i < |lines| && lines[i] == (text, t);
      GenuineLabel(flags, attrs[i].id);
      LabelPlace(attrs[i].id, text);
      assert attrs[i] == Attr(id, t);
    }
    if Attr(id, t) in attrs {
      var i :| 0 <= i < |attrs| && attrs[i] == Attr(id, t);
      GenuineLabel(flags, id);
      LabelUnique(id, flags[id], text);
      assert lines[i] == (text, t);
    }
  }

  // ----- places -----

  /** The lines stand in the order of the places of their labels, no label twice. */
  ghost predicate InPlace(lines: Lines) {
    forall i, j :: 0 <= i < j < |lines| ==> Place(lines[i].0) < Place(lines[j].0)
  }

  ghost function PlacesOf(lines: Lines): set<int> { set i | 0 <= i < |lines| :: Place(lines[i].0) }

  lemma LinesInPlace(attrs: seq<Attr>, flags: LabelMap)
    requires Genuine(flags) && PrintedLines(attrs, flags).Some?
    ensures InPlace(PrintedLines(attrs, flags).value) <==> AscendingIds(attrs)
    ensures PlacesOf(PrintedLines(attrs, flags).value) == IdSet(attrs)
  {
    hide PrintedLines, IsLabel, Genuine, Place;
    var lines := PrintedLines(attrs, flags).value;
    forall i | 0 <= i < |lines| ensures Place(lines[i].0) == attrs[i].id {
      GenuineLabel(flags, attrs[i].id);
      LabelPlace(attrs[i].id, flags[attrs[i].id]);
    }
    forall x ensures x in PlacesOf(lines) <==> x in IdSet(attrs) {
      if i :| 0 <= i < |lines| && Place(lines[i].0) == x {
        assert attrs[i].id == x;
      }
      if i :| 0 <= i < |attrs| && attrs[i].id == x {
        assert Place(lines[i].0) == x;
      }
    }
  }

  // ----- blocks of a finished run -----

  /** Entry q of the output is a block about entry e of the final queue. */
  ghost predicate IsBlock(env: Env, proc: string, file: string, blocks: seq<Lines>, q: nat, e: Entry)
    requires env.Sound() && AllPass(Ops(proc, file, true))
  {
    var t := FinalTable(env, proc, file);
    var es := FlattenTable(t, proc != NO, file != NO);
    Reports(blocks, t, es, FinalLabels(proc, file)) && q < |es| && es[q] == e
  }

  lemma BlockAttrs(env: Env, proc: string, file: string, blocks: seq<Lines>, q: nat, e: Entry)
    requires env.Sound() && AllPass(Ops(proc, file, true)) && IsBlock(env, proc, file, blocks, q, e)
    ensures proc != "no" || file != "no"
    ensures var t := FinalTable(env, proc, file);
            && Exists(t, e) && q < |blocks| && (if e.ProcEntry? then proc != "no" else file != "no")
            && PrintedLines(AttrsOf(t, e), FinalLabels(proc, file)) == Some(blocks[q])
  {
    hide FinalTable, FinalLabels, AllPass, FlattenTable, PrintedLines;
    var t := FinalTable(env, proc, file);
    var es := FlattenTable(t, proc != NO, file != NO);
    FlattenOrder(t, proc != NO, file != NO);
    assert Holds(es, e);
  }

  // ----- processes -----

  /** Which text stands under each label of a process, for every option letter. */
  ghost predicate ProcBlockSays(lines: Lines, opts: string, info: P.ProcInfo, clockTick: nat, t: string)
    requires clockTick > 0
  {
    && (("Command", t) in lines <==> 'c' in opts && t == info.command)
    && (("Parent PID", t) in lines <==> 'P' in opts && ReadNumber(t, 10) == Some(info.ppid % 0x1_0000_0000))
    && (("Process Group ID (PGID)", t) in lines <==> 'n' in opts && ReadNumber(t, 10) == Some(info.procgid % 0x1_0000_0000))
    && (("User Name", t) in lines <==> 'U' in opts && t == info.loginName)
    && (("User ID (UID)", t) in lines <==> 'u' in opts && ReadNumber(t, 10) == Some(info.uid))
    && (("User Group Name", t) in lines <==> 'G' in opts && t == info.groupName)
    && (("User Group ID (UGID)", t) in lines <==> 'g' in opts && ReadNumber(t, 10) == Some(info.gid))
    && (("Start Time", t) in lines <==> 'e' in opts && t == info.startTime)
    && (("CPU Time", t) in lines <==> 'q' in opts && ShowsTime(t, info.utime + info.stime, clockTick))
    && (("Current State", t) in lines <==> 's' in opts && t == info.state)
    && (("Device", t) in lines <==> 'd' in opts && t == info.device)
    && (("Virtual Memory (bytes)", t) in lines <==> 'v' in opts && ReadNumber(t, 10) == Some(info.vms % 0x1_0000_0000))
    && (("Resident Set (pages)", t) in lines <==> 'r' in opts && ReadNumber(t, 10) == Some(info.rss % 0x1_0000_0000))
    && (("Text Region", t) in lines <==> 'T' in opts && ReadAddresses(t) == Some((info.textBegin, P.EndOf(info.textEnd))))
    && (("Data Region", t) in lines <==> 'D' in opts && ReadAddresses(t) == Some((info.dataBegin, P.EndOf(info.dataEnd))))
    && (("Stack", t) in lines <==> 'S' in opts && ReadAddresses(t) == Some((info.stackBegin, P.EndOf(info.esp))))
    && (("Instruction Pointer", t) in lines <==> 'i' in opts && ReadAddresses(t) == Some((info.epi, None)))
    && (("Permissions", t) in lines <==> 'M' in opts && t == info.perms)
  }

  lemma ProcLinesSay(attrs: seq<Attr>, flags: LabelMap, opts: string, info: P.ProcInfo, clockTick: nat, t: string)
    requires clockTick > 0 && Genuine(flags) && PrintedLines(attrs, flags).Some? && P.ListSays(attrs, opts, info, clockTick, t)
    ensures ProcBlockSays(PrintedLines(attrs, flags).value, opts, info, clockTick, t)
  {
    hide PrintedLines, IsLabel, Genuine, ReadNumber, ReadAddresses, ShowsTime;
    ProcLabelTable();
    PrintedLine(attrs, flags, 0, "Command", t);
    PrintedLine(attrs, flags, 15, "Parent PID", t);
    PrintedLine(attrs, flags, 10, "Process Group ID (PGID)", t);
    PrintedLine(attrs, flags, 20, "User Name", t);
    PrintedLine(attrs, flags, 25, "User ID (UID)", t);
    PrintedLine(attrs, flags, 30, "User Group Name", t);
    PrintedLine(attrs, flags, 35, "User Group ID (UGID)", t);
    PrintedLine(attrs, flags, 45, "Start Time", t);
    PrintedLine(attrs, flags, 50, "CPU Time", t);
    PrintedLine(attrs, flags, 40, "Current State", t);
    PrintedLine(attrs, flags, 6, "Device", t);
    PrintedLine(attrs, flags, 60, "Virtual Memory (bytes)", t);
    PrintedLine(attrs, flags, 65, "Resident Set (pages)", t);
    PrintedLine(attrs, flags, 70, "Text Region", t);
    PrintedLine(attrs, flags, 75, "Data Region", t);
    PrintedLine(attrs, flags, 80, "Stack", t);
    PrintedLine(attrs, flags, 90, "Instruction Pointer", t);
    PrintedLine(attrs, flags, 42, "Permissions", t);
  }

  /** The process list of a finished run says, letter by letter, what was answered for the process. */
  lemma ProcListSays(env: Env, proc: string, file: string, k: int, info: P.ProcInfo, t: string)
    requires env.Sound() && AllPass(Ops(proc, file, true)) && proc != "no"
    requires k in FinalTable(env, proc, file) && env.procStat(k % 0x1_0000_0000) == Some(info)
    ensures P.ListSays(FinalTable(env, proc, file)[k].attributes, proc, info, env.clockTick, t)
  {
    hide FinalTable, Handled, P.OptId, P.Texts, P.ListSays, OfLetter, PidAttrs, Passes, L.WellFormed;
    PassesKnown(proc, file);
    var attrs, base := FinalTable(env, proc, file)[k].attributes, PidAttrs(env.Records(), k);
    PidAttrsAreOnlyPid(env.Records(), k);
    forall a ensures a in attrs <==> a in base || OfLetter(proc, P.OptId, P.Texts(info, env.clockTick), a) {
      ProcTexts(env, proc, file, k, a);
    }
    P.LettersSay(attrs, base, proc, info, env.clockTick, t);
  }

  /** What the block of a process shows under each label. */
  lemma ProcBlock(env: Env, proc: string, file: string, blocks: seq<Lines>, q: nat, k: int, info: P.ProcInfo, t: string)
    requires env.Sound() && AllPass(Ops(proc, file, true)) && IsBlock(env, proc, file, blocks, q, ProcEntry(k))
    requires env.procStat(k % 0x1_0000_0000) == Some(info)
    ensures q < |blocks| && ProcBlockSays(blocks[q], proc, info, env.clockTick, t)
  {
    hide FinalTable, FinalLabels, PrintedLines, AllPass, Genuine, IsBlock, ProcBlockSays, P.ListSays, L.WellFormed;
    BlockAttrs(env, proc, file, blocks, q, ProcEntry(k));
    ProcListSays(env, proc, file, k, info, t);
    FinalLabelsGenuine(proc, file);
    ProcLinesSay(FinalTable(env, proc, file)[k].attributes, FinalLabels(proc, file), proc, info, env.clockTick, t);
  }

  lemma LetterNotPid(opts: string, textOf: char -> string, t: string)
    requires P.Known(opts)
    ensures !OfLetter(opts, P.OptId, textOf, Attr(5, t))
  {
    forall i | 0 <= i < |opts| ensures P.OptId(opts[i]).value != 5 {
      P.OptIdInjective(opts[i], opts[i]);
    }
  }

  lemma FinalPids(env: Env, proc: string, file: string, k: int, t: string)
    requires env.Sound() && AllPass(Ops(proc, file, true)) && (proc != "no" || file != "no")
    requires k in FinalTable(env, proc, file)
    ensures Attr(5, t) in FinalTable(env, proc, file)[k].attributes <==> Attr(5, t) in PidAttrs(env.Records(), k)
  {
    hide FinalTable, Handled, P.OptId, P.Texts, OfLetter, PidAttrs, Passes, L.WellFormed;
    PassesKnown(proc, file);
    ProcTexts(env, proc, file, k, Attr(5, t));
    if proc != NO && env.procStat(U32(k)).Some? {
      LetterNotPid(proc, P.Texts(env.procStat(U32(k)).value, env.clockTick), t);
    }
  }

  /** Under the PID label of a process stand the texts of its process records. */
  lemma ProcBlockPids(env: Env, proc: string, file: string, blocks: seq<Lines>, q: nat, k: int, t: string)
    requires env.Sound() && AllPass(Ops(proc, file, true)) && IsBlock(env, proc, file, blocks, q, ProcEntry(k))
    ensures var rs := env.Records();
            q < |blocks| && (("Process ID (PID)", t) in blocks[q] <==>
              exists i :: 0 <= i < |rs| && rs[i].tag == 'p' && Atoi(rs[i].value) == k && rs[i].value == t)
  {
    hide FinalTable, FinalLabels, PrintedLines, AllPass, Genuine, IsBlock, IsLabel, PidAttrs, Atoi, L.WellFormed;
    BlockAttrs(env, proc, file, blocks, q, ProcEntry(k));
    FinalPids(env, proc, file, k, t);
    PidAttrsContents(env.Records(), k, Attr(5, t));
    FinalLabelsGenuine(proc, file);
    ProcLabelTable();
    PrintedLine(FinalTable(env, proc, file)[k].attributes, FinalLabels(proc, file), 5, "Process ID (PID)", t);
  }

  lemma ProcIdsAre(opts: string)
    requires P.Known(opts)
    ensures P.LetterIds(opts) <= {0, 5, 6, 10, 15, 20, 25, 30, 35, 40, 42, 45, 50, 60, 65, 70, 75, 80, 90}
  {
    forall c | P.OptId(c).Some? ensures P.OptId(c).value in {0, 5, 6, 10, 15, 20, 25, 30, 35, 40, 42, 45, 50, 60, 65, 70, 75, 80, 90} {}
  }

  /** The lines of a process: in the order of their places, without repetition, exactly if there was
      one process record; and nothing but the PID and what letters stand for. */
  lemma ProcBlockOrder(env: Env, proc: string, file: string, blocks: seq<Lines>, q: nat, k: int)
    requires env.Sound() && AllPass(Ops(proc, file, true)) && IsBlock(env, proc, file, blocks, q, ProcEntry(k))
    ensures q < |blocks|
    ensures InPlace(blocks[q]) <==> |PidRecords(env.Records(), k)| == 1
    ensures PlacesOf(blocks[q]) <= {0, 5, 6, 10, 15, 20, 25, 30, 35, 40, 42, 45, 50, 60, 65, 70, 75, 80, 90}
    ensures env.procStat(k % 0x1_0000_0000).None? ==> PlacesOf(blocks[q]) == {5}
  {
    hide FinalTable, FinalLabels, PrintedLines, Passes, Genuine, IsBlock, P.LetterIds, PidRecords, P.Known, AscendingIds,
      IdSet, PlacesOf, InPlace, L.WellFormed;
    PassesKnown(proc, file);
    BlockAttrs(env, proc, file, blocks, q, ProcEntry(k));
    FinalLabelsGenuine(proc, file);
    ProcListCanonical(env, proc, file, k);
    ProcIdsAre(proc);
    LinesInPlace(FinalTable(env, proc, file)[k].attributes, FinalLabels(proc, file));
  }

  // ----- files -----

  /** Which text stands under each label of a file, for every option letter. */
  ghost predicate FileBlockSays(lines: Lines, opts: string, info: F.FileInfo, t: string) {
    && (("Filename", t) in lines <==> 'n' in opts && F.ShowsLink(t, info.link))
    && (("Inode", t) in lines <==> 'i' in opts && ReadNumber(t, 10) == Some(info.ino % 0x1_0000_0000))
    && (("User ID (UID)", t) in lines <==> 'u' in opts && ReadNumber(t, 10) == Some(info.uid % 0x1_0000_0000))
    && (("User Group ID (UGID)", t) in lines <==> 'g' in opts && ReadNumber(t, 10) == Some(info.gid % 0x1_0000_0000))
    && (("File Mode", t) in lines <==> 'M' in opts && t == info.mode)
    && (("Last Accessed", t) in lines <==> 'a' in opts && t == info.atime)
    && (("Last Modified", t) in lines <==> 'm' in opts && t == info.mtime)
    && (("Last Status Change", t) in lines <==> 'c' in opts && t == info.ctime)
    && (("Device", t) in lines <==> 'd' in opts && t == info.device)
    && (("File Size (bytes)", t) in lines <==> 's' in opts && ReadNumber(t, 10) == Some(info.size % 0x1_0000_0000))
    && (("Permissions", t) in lines <==> 'p' in opts && t == info.perms)
  }

  lemma FileLinesSay(attrs: seq<Attr>, flags: LabelMap, opts: string, info: F.FileInfo, t: string)
    requires Genuine(flags) && PrintedLines(attrs, flags).Some? && F.ListSays(attrs, opts, info, t)
    ensures FileBlockSays(PrintedLines(attrs, flags).value, opts, info, t)
  {
    hide PrintedLines, IsLabel, Genuine, ReadNumber, F.ShowsLink;
    FileLabelTable();
    PrintedLine(attrs, flags, 2, "Filename", t);
    PrintedLine(attrs, flags, 8, "Inode", t);
    PrintedLine(attrs, flags, 25, "User ID (UID)", t);
    PrintedLine(attrs, flags, 35, "User Group ID (UGID)", t);
    PrintedLine(attrs, flags, 39, "File Mode", t);
    PrintedLine(attrs, flags, 46, "Last Accessed", t);
    PrintedLine(attrs, flags, 47, "Last Modified", t);
    PrintedLine(attrs, flags, 48, "Last Status Change", t);
    PrintedLine(attrs, flags, 6, "Device", t);
    PrintedLine(attrs, flags, 57, "File Size (bytes)", t);
    PrintedLine(attrs, flags, 42, "Permissions", t);
  }

  /** What stat is asked about for the file under (k, f): the executable if f exceeds the bound, the
      descriptor f otherwise, of process k. */
  function Target(txtFd: nat, k: int, f: int): (target: (nat, Option<nat>)) {
    (k % 0x1_0000_0000, if f % 0x1_0000_0000 > txtFd then None else Some(f % 0x1_0000_0000))
  }

  lemma AskedPath(env: Env, k: int, f: int, path: string)
    requires ReadPath(path) == Some(Target(env.txtFd, k, f))
    ensures StatOf(env, k, f) == env.fileStat(path)
  {
    PathReadsBack(path, env.txtFd, U32(k), U32(f));
    hide FormPath, ReadPath;
  }

  /** The file list of a finished run says, letter by letter, what stat answered for its path. */
  lemma FileListSays(env: Env, proc: string, file: string, k: int, f: int, path: string, info: F.FileInfo, t: string)
    requires env.Sound() && AllPass(Ops(proc, file, true)) && file != "no"
    requires k in FinalTable(env, proc, file) && f in FinalTable(env, proc, file)[k].ulFiles
    requires ReadPath(path) == Some(Target(env.txtFd, k, f)) && env.fileStat(path) == Some(info)
    ensures F.ListSays(FinalTable(env, proc, file)[k].ulFiles[f].attributes, file, info, t)
  {
    hide FinalTable, Handled, F.OptId, F.Texts, F.ListSays, OfLetter, FlagAttrs, Passes, L.WellFormed, StatOf, ReadPath, Target;
    PassesKnown(proc, file);
    AskedPath(env, k, f, path);
    var attrs, base := FinalTable(env, proc, file)[k].ulFiles[f].attributes, FlagAttrs(env.txtFd, env.Records(), k, f);
    FlagAttrsAreOnlyFlags(env.txtFd, env.Records(), k, f);
    forall a ensures a in attrs <==> a in base || OfLetter(file, F.OptId, F.Texts(info), a) {
      FileTexts(env, proc, file, k, f, a);
    }
    F.LettersSay(attrs, base, file, info, t);
  }

  /** What the block of a file shows under each label. */
  lemma FileBlock(env: Env, proc: string, file: string, blocks: seq<Lines>, q: nat, k: int, f: int,
                  path: string, info: F.FileInfo, t: string)
    requires env.Sound() && AllPass(Ops(proc, file, true)) && IsBlock(env, proc, file, blocks, q, FileEntry(k, f))
    requires ReadPath(path) == Some(Target(env.txtFd, k, f)) && env.fileStat(path) == Some(info)
    ensures q < |blocks| && FileBlockSays(blocks[q], file, info, t)
  {
    hide FinalTable, FinalLabels, PrintedLines, AllPass, Genuine, IsBlock, FileBlockSays, F.ListSays, L.WellFormed, ReadPath, Target;
    BlockAttrs(env, proc, file, blocks, q, FileEntry(k, f));
    FileListSays(env, proc, file, k, f, path, info, t);
    FinalLabelsGenuine(proc, file);
    FileLinesSay(FinalTable(env, proc, file)[k].ulFiles[f].attributes, FinalLabels(proc, file), file, info, t);
  }

  lemma LetterNotFlags(opts: string, textOf: char -> string, t: string)
    requires F.Known(opts)
    ensures !OfLetter(opts, F.OptId, textOf, Attr(41, t))
  {
    forall i | 0 <= i < |opts| ensures F.OptId(opts[i]).value != 41 {
      F.OptIdInjective(opts[i], opts[i]);
    }
  }

  lemma FinalFlags(env: Env, proc: string, file: string, k: int, f: int, t: string)
    requires env.Sound() && AllPass(Ops(proc, file, true)) && (proc != "no" || file != "no")
    requires k in FinalTable(env, proc, file) && f in FinalTable(env, proc, file)[k].ulFiles
    ensures Attr(41, t) in FinalTable(env, proc, file)[k].ulFiles[f].attributes <==>
            Attr(41, t) in FlagAttrs(env.txtFd, env.Records(), k, f)
  {
    hide FinalTable, Handled, F.OptId, F.Texts, OfLetter, FlagAttrs, Passes, L.WellFormed, StatOf;
    PassesKnown(proc, file);
    FileTexts(env, proc, file, k, f, Attr(41, t));
    if file != NO && StatOf(env, k, f).Some? {
      LetterNotFlags(file, F.Texts(StatOf(env, k, f).value), t);
    }
  }

  /** A file has a flags line, always empty, exactly if a flags record follows a record of its place
      with no other file record between. */
  lemma FileBlockFlags(env: Env, proc: string, file: string, blocks: seq<Lines>, q: nat, k: int, f: int, t: string)
    requires env.Sound() && AllPass(Ops(proc, file, true)) && IsBlock(env, proc, file, blocks, q, FileEntry(k, f))
    ensures var rs := env.Records();
            q < |blocks| && (("File Flags", t) in blocks[q] <==>
              t == "" && exists i :: 0 <= i < |rs| && rs[i].tag == 'G' && L.LastFile(env.txtFd, rs[..i]) == Some((k, f)))
  {
    hide FinalTable, FinalLabels, PrintedLines, AllPass, Genuine, IsBlock, IsLabel, FlagAttrs, L.LastFile, L.WellFormed;
    BlockAttrs(env, proc, file, blocks, q, FileEntry(k, f));
    FinalFlags(env, proc, file, k, f, t);
    FlagAttrsContents(env.txtFd, env.Records(), k, f, Attr(41, t));
    FinalLabelsGenuine(proc, file);
    FileLabelTable();
    PrintedLine(FinalTable(env, proc, file)[k].ulFiles[f].attributes, FinalLabels(proc, file), 41, "File Flags", t);
  }

  lemma FileIdsAre(opts: string)
    requires F.Known(opts)
    ensures F.LetterIds(opts) <= {2, 6, 8, 25, 35, 39, 41, 42, 46, 47, 48, 57}
  {
    forall c | F.OptId(c).Some? ensures F.OptId(c).value in {2, 6, 8, 25, 35, 39, 41, 42, 46, 47, 48, 57} {}
  }

  /** The lines of a file: if no flags record is about it, in the order of their places without
      repetition; and nothing but its flags and what letters stand for. */
  lemma FileBlockOrder(env: Env, proc: string, file: string, blocks: seq<Lines>, q: nat, k: int, f: int)
    requires env.Sound() && AllPass(Ops(proc, file, true)) && IsBlock(env, proc, file, blocks, q, FileEntry(k, f))
    ensures q < |blocks|
    ensures file != NO && F.Known(file)
    ensures var flags := FlagAttrs(env.txtFd, env.Records(), k, f);
            InPlace(blocks[q]) <==>
            flags == [] || (|flags| == 1 && (StatOf(env, k, f).Some? ==> NothingBelowFlags(file)))
    ensures PlacesOf(blocks[q]) <= {2, 6, 8, 25, 35, 39, 41, 42, 46, 47, 48, 57}
  {
    hide FinalTable, FinalLabels, PrintedLines, Passes, Genuine, IsBlock, F.LetterIds, FlagAttrs, F.Known, AscendingIds,
      IdSet, PlacesOf, InPlace, L.WellFormed, StatOf, NothingBelowFlags;
    PassesKnown(proc, file);
    BlockAttrs(env, proc, file, blocks, q, FileEntry(k, f));
    FinalLabelsGenuine(proc, file);
    FileListCanonical(env, proc, file, k, f);
    FlagIds(env, k, f);
    FileIdsAre(file);
    LinesInPlace(FinalTable(env, proc, file)[k].ulFiles[f].attributes, FinalLabels(proc, file));
  }

  lemma FlagIds(env: Env, k: int, f: int)
    requires env.Sound()
    ensures IdSet(FlagAttrs(env.txtFd, env.Records(), k, f)) <= {41}
  {
    hide FlagAttrs;
    FlagAttrsAreOnlyFlags(env.txtFd, env.Records(), k, f);
  }
}
