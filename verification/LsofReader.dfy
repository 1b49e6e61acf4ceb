/** `LSOFReader::bufferedRead`: the one-pass loop that turns lsof's records into the process map. */
module LsofReader {
  import opened Common
  import opened Numerals
  import opened LsofStream
  import opened Files
  import Ids = AttributeIds

  const TAG_FD := 'f'
  const TAG_PID := 'p'
  const TAG_FLAGS := 'G'

  // ----- where a record belongs, read off the stream itself -----

  /** Key of the latest process record. */
  function LastProc(rs: seq<Record>): (k: Option<int>) {
    if rs == [] then None
    else
      var r := rs[|rs| - 1];
      if r.tag == TAG_PID then Some(Atoi(r.value)) else LastProc(rs[..|rs| - 1])
  }

  predicate IsTxt(r: Record) { r.tag == TAG_FD && r.value == "txt" }

  function TxtCount(rs: seq<Record>): (n: nat)
    ensures n <= |rs|
  {
    if rs == [] then 0
    else TxtCount(rs[..|rs| - 1]) + if IsTxt(rs[|rs| - 1]) then 1 else 0
  }

  /** The 64-bit file id of record i. */
  function FidOf(txtFd: nat, rs: seq<Record>, i: nat): (fid: nat)
    requires i < |rs|
  {
    if IsTxt(rs[i]) then U64(txtFd + 1 + TxtCount(rs[..i])) else U64(Atoi(rs[i].value))
  }

  /** Keys of the file that a flags record would go to. */
  function LastFile(txtFd: nat, rs: seq<Record>): (kf: Option<(int, int)>) {
    if rs == [] then None
    else
      var n := |rs| - 1;
      if rs[n].tag != TAG_FD then LastFile(txtFd, rs[..n])
      else
        match LastProc(rs[..n])
        case None => None
        case Some(k) => Some((k, FileKey(FidOf(txtFd, rs, n))))
  }

  predicate HasFile(rs: seq<Record>) {
    rs != [] && (rs[|rs| - 1].tag == TAG_FD || HasFile(rs[..|rs| - 1]))
  }

  /** Every file record has a process record before it, every flags record a file record;
      otherwise the loop would use a null pointer. */
  predicate WellFormed(rs: seq<Record>) {
    forall i :: 0 <= i < |rs| ==>
      && (rs[i].tag == TAG_FD ==> LastProc(rs[..i]).Some?)
      && (rs[i].tag == TAG_FLAGS ==> HasFile(rs[..i]))
  }

  lemma PrefixOfPrefix(rs: seq<Record>, n: nat, i: nat)
    requires i <= n <= |rs|
    ensures rs[..n][..i] == rs[..i]
  {
  }

  lemma WellFormedPrefix(rs: seq<Record>, n: nat)
    requires WellFormed(rs) && n <= |rs|
    ensures WellFormed(rs[..n])
  {
    forall i | 0 <= i < n ensures rs[..n][i] == rs[i] && rs[..n][..i] == rs[..i] {
      PrefixOfPrefix(rs, n, i);
    }
  }

  // ----- the loop on values -----

  /** Loop state: the map, the current process and file (`pf` and `ulf`), and the counter. */
  datatype Scan = Scan(table: Table, cur: Option<int>, file: Option<(int, int)>, counter: nat)

  /** The current pointers point into the map. */
  ghost predicate Linked(s: Scan) {
    && (s.cur.Some? ==> s.cur.value in s.table)
    && (s.file.Some? ==> s.file.value.0 in s.table && s.file.value.1 in s.table[s.file.value.0].ulFiles)
  }

  ghost predicate Ready(s: Scan, r: Record) {
    && Linked(s)
    && (r.tag == TAG_FD ==> s.cur.Some?)
    && (r.tag == TAG_FLAGS ==> s.file.Some?)
  }

  ghost function StepFile(txtFd: nat, s: Scan, text: string): (s': Scan)
    requires Linked(s) && s.cur.Some?
  {
    var txt := text == "txt";
    var fid := if txt then s.counter else U64(Atoi(text));
    var k := s.cur.value;
    Scan(s.table[k := WithFile(s.table[k], FileKey(fid), NewFile(txtFd, U64(k), fid))],
         s.cur, Some((k, FileKey(fid))), if txt then U64(s.counter + 1) else s.counter)
  }

  /** The string buffer is empty when a flags record is handled, so its text is always "". */
  ghost function StepFlags(s: Scan): (s': Scan)
    requires Linked(s) && s.file.Some?
  {
    var (k, f) := s.file.value;
    s.(table := s.table[k := WithFileAttr(s.table[k], f, Attr(Ids.FLAGS, ""))])
  }

  ghost function StepPid(s: Scan, text: string): (s': Scan) {
    var k := Atoi(text);
    var t := InsertFirst(s.table, k, NEW_PROC);
    s.(table := t[k := ProcAdd(t[k], Attr(Ids.PID, text))], cur := Some(k))
  }

  ghost function Step(txtFd: nat, s: Scan, r: Record): (s': Scan)
    requires Ready(s, r)
    ensures Linked(s')
  {
    if r.tag == TAG_FD then StepFile(txtFd, s, r.value)
    else if r.tag == TAG_FLAGS then StepFlags(s)
    else if r.tag == TAG_PID then StepPid(s, r.value)
    else s
  }

  /** The state after a whole stream. */
  ghost function Run(t0: Table, txtFd: nat, rs: seq<Record>): (s: Scan)
    requires WellFormed(rs)
    ensures Linked(s)
    ensures s.cur == LastProc(rs)
    ensures s.file.Some? <==> HasFile(rs)
  {
    if rs == [] then Scan(t0, None, None, U64(txtFd + 1))
    else
      var n := |rs| - 1;
      WellFormedPrefix(rs, n);
      Step(txtFd, Run(t0, txtFd, rs[..n]), rs[n])
  }

  /** In every reachable state the counter is the first synthetic id plus the number of txt
      records seen, and the current file is where the latest file record was put. */
  lemma {:induction false} RunPointers(t0: Table, txtFd: nat, rs: seq<Record>)
    requires WellFormed(rs)
    ensures Run(t0, txtFd, rs).counter == U64(txtFd + 1 + TxtCount(rs))
    ensures Run(t0, txtFd, rs).file == LastFile(txtFd, rs)
  {
    hide Atoi, U64, FileKey, NewFile, ProcAdd, FileAdd;
    if rs != [] {
      var n := |rs| - 1;
      WellFormedPrefix(rs, n);
      RunPointers(t0, txtFd, rs[..n]);
      U64Successor(txtFd + 1 + TxtCount(rs[..n]));
    }
  }

  lemma RunNothing(t0: Table, txtFd: nat)
    ensures WellFormed([])
    ensures Run(t0, txtFd, []) == Scan(t0, None, None, U64(txtFd + 1))
  {
  }

  lemma RunSnoc(t0: Table, txtFd: nat, rs: seq<Record>, r: Record)
    requires WellFormed(rs + [r])
    ensures WellFormed(rs)
    ensures Ready(Run(t0, txtFd, rs), r)
    ensures Run(t0, txtFd, rs + [r]) == Step(txtFd, Run(t0, txtFd, rs), r)
  {
    var rs' := rs + [r];
    assert rs'[..|rs|] == rs;
    WellFormedPrefix(rs', |rs|);
  }

  // ----- the loop on objects -----

  /** The map stands for the state's table, and `pf` and `ulf` are the objects the state points to. */
  ghost predicate Tracks(m: ProcMap, pf: ProcFile?, ulf: UnlinkedFile?, s: Scan)
    reads m, m.Repr
  {
    && m.Valid()
    && m.table == s.table
    && Linked(s)
    && (s.cur.Some? ==> pf == m.entries[s.cur.value])
    && (s.file.Some? ==>
          var (k, f) := s.file.value;
          assert k in m.entries && m.entries[k] in m.Repr;
          ulf == m.entries[k].ulFiles[f])
  }

  /** The case of a file record. */
  method EnterFile(m: ProcMap, txtFd: nat, text: string, pf: ProcFile?, ghost ulf: UnlinkedFile?,
                   counter: nat, pid: nat, ghost s: Scan)
    returns (ulf': UnlinkedFile, counter': nat)
    requires Tracks(m, pf, ulf, s) && s.cur.Some? && counter == s.counter && pid == U64(s.cur.value)
    modifies m, m.Repr
    ensures fresh(m.Repr - old(m.Repr))
    ensures Tracks(m, pf, ulf', StepFile(txtFd, s, text)) && counter' == StepFile(txtFd, s, text).counter
  {
    hide Atoi, U64, U32, FileKey, NewFile, ProcAdd, FileAdd;
    var fid;
    if text == "txt" {
      fid := counter;
      counter' := U64(counter + 1);
    } else {
      fid := U64(Atoi(text));
      counter' := counter;
    }
    var made := new UnlinkedFile(txtFd, pid, fid, (s.cur.value, FileKey(fid)));
    ulf' := m.AddFileTo(pf, s.cur.value, fid, made);
  }

  /** The loop body. */
  method Dispatch(m: ProcMap, txtFd: nat, tag: char, text: string, pf: ProcFile?, ulf: UnlinkedFile?,
                  counter: nat, pid: nat, ghost s: Scan)
    returns (pf': ProcFile?, ulf': UnlinkedFile?, counter': nat, pid': nat)
    requires Tracks(m, pf, ulf, s) && Ready(s, Record(tag, text))
    requires counter == s.counter && (s.cur.Some? ==> pid == U64(s.cur.value))
    modifies m, m.Repr
    ensures fresh(m.Repr - old(m.Repr))
    ensures var s' := Step(txtFd, s, Record(tag, text));
            && Tracks(m, pf', ulf', s') && counter' == s'.counter
            && (s'.cur.Some? ==> pid' == U64(s'.cur.value))
  {
    hide Atoi, U64, U32, FileKey, NewFile, ProcAdd, FileAdd;
    pf', ulf', counter', pid' := pf, ulf, counter, pid;
    if tag == TAG_FD {
      ulf', counter' := EnterFile(m, txtFd, text, pf, ulf, counter, pid, s);
    } else if tag == TAG_FLAGS {
      m.AddToFile(ulf, s.file.value.0, s.file.value.1, Ids.FLAGS, "");
    } else if tag == TAG_PID {
      pid' := U64(Atoi(text));
      var key := I32(pid');
      assert key == Atoi(text) by {
        NarrowingChain(Atoi(text));
      }
      pf' := m.Enter(key);
      m.AddToProc(pf', key, Ids.PID, text);
    }
  }

  /** Reads the whole stream into the map. `charbuff` starts with arbitrary contents. */
  method BufferedRead(m: ProcMap, txtFd: nat, input: string, charbuff0: string)
    requires m.Valid()
    requires WellFormed(ReadAll(input, charbuff0))
    modifies m, m.Repr
    ensures m.Valid() && fresh(m.Repr - old(m.Repr))
    ensures m.table == Run(old(m.table), txtFd, ReadAll(input, charbuff0)).table
  {
    hide Atoi, U64, Step, Fscanf, Run, WellFormed, LastProc, HasFile, Ready;
    var pf: ProcFile?, ulf: UnlinkedFile? := null, null;
    var counter, pid := U64(txtFd + 1), 0;
    var fin, charbuff := input, charbuff0;
    ghost var all, t0 := ReadAll(input, charbuff0), m.table;
    ghost var done: seq<Record> := [];
    RunNothing(t0, txtFd);
    var scanned := Fscanf(fin, charbuff);
    while scanned.Scanned?
      invariant fresh(m.Repr - old(m.Repr))
      invariant scanned == Fscanf(fin, charbuff)
      invariant all == done + ReadAll(fin, charbuff)
      invariant WellFormed(done)
      invariant Tracks(m, pf, ulf, Run(t0, txtFd, done))
      invariant counter == Run(t0, txtFd, done).counter
      invariant Run(t0, txtFd, done).cur.Some? ==> pid == U64(Run(t0, txtFd, done).cur.value)
      decreases |fin|
    {
      hide Tracks, Linked;
      ghost var r := Record(scanned.tag, scanned.word);
      assert all[..|done + [r]|] == done + [r];
      WellFormedPrefix(all, |done + [r]|);
      RunSnoc(t0, txtFd, done, r);
      pf, ulf, counter, pid :=
        Dispatch(m, txtFd, scanned.tag, scanned.word, pf, ulf, counter, pid, Run(t0, txtFd, done));
      done := done + [r];
      fin, charbuff := scanned.rest, scanned.word;
      scanned := Fscanf(fin, charbuff);
    }
    assert all == done;
  }
}
