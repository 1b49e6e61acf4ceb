/** `ProcFileEntryBuilder`: runs a list of readers on one process map and the shared label table,
    and flattens the map into the print queue. */
module ProcFileEntryBuilder {
  import opened Common
  import opened Files
  import opened OrderedKeys
  import opened Labels
  import opened Flatten
  import L = LsofReader
  import S = LsofStream
  import P = ProcReader
  import F = FileStatReader

  /** Everything the operating system answers during a run. */
  datatype Env = Env(
    txtFd: nat, lsofOutput: string, charbuff: string,
    procStat: nat -> Option<P.ProcInfo>, clockTick: nat,
    fileStat: string -> Option<F.FileInfo>)
  {
    ghost function Records(): seq<S.Record> { S.ReadAll(lsofOutput, charbuff) }

    ghost predicate Sound() { clockTick > 0 && L.WellFormed(Records()) }
  }

  /** A `data_digger`: a reader and its options. */
  datatype Digger = Digger(reader: Reader, options: string)

  predicate DiggerKnown(d: Digger) {
    && (d.reader == ProcReader ==> P.Known(d.options))
    && (d.reader == FileStatReader ==> F.Known(d.options))
  }

  ghost function ReadWith(env: Env, t: Table, d: Digger): (t': Table)
    requires env.Sound() && DiggerKnown(d)
  {
    match d.reader
    case LsofReader => L.Run(t, env.txtFd, env.Records()).table
    case ProcReader => P.Pass(d.options, env.procStat, env.clockTick, t)
    case FileStatReader => F.Pass(d.options, env.fileStat, env.txtFd, t)
  }

  ghost predicate AllKnown(diggers: seq<Digger>) { forall i :: 0 <= i < |diggers| ==> DiggerKnown(diggers[i]) }

  ghost function BuildTable(env: Env, t: Table, diggers: seq<Digger>): (t': Table)
    requires env.Sound() && AllKnown(diggers)
  {
    if diggers == [] then t
    else ReadWith(env, BuildTable(env, t, diggers[..|diggers| - 1]), diggers[|diggers| - 1])
  }

  function ReadersOf(diggers: seq<Digger>): (rs: seq<Reader>)
    ensures |rs| == |diggers|
    ensures forall i :: 0 <= i < |diggers| ==> rs[i] == diggers[i].reader
  {
    seq(|diggers|, i requires 0 <= i < |diggers| => diggers[i].reader)
  }

  /** An element of the print queue. */
  datatype Item = ProcItem(pf: ProcFile) | FileItem(ulf: UnlinkedFile)

  ghost predicate Denotes(m: ProcMap, item: Item, e: Entry)
    requires m.Valid()
    reads m, m.Repr
  {
    match e
    case ProcEntry(k) => k in m.entries && item == ProcItem(m.entries[k])
    case FileEntry(k, f) =>
      k in m.entries && m.entries[k] in m.Repr && f in m.entries[k].ulFiles && item == FileItem(m.entries[k].ulFiles[f])
  }

  ghost predicate Queue(m: ProcMap, items: seq<Item>, es: seq<Entry>)
    requires m.Valid()
    reads m, m.Repr
  {
    |items| == |es| && forall i :: 0 <= i < |es| ==> Denotes(m, items[i], es[i])
  }

  lemma QueueEmpty(m: ProcMap)
    requires m.Valid()
    ensures Queue(m, [], [])
  {
  }

  lemma QueueSnoc(m: ProcMap, items: seq<Item>, es: seq<Entry>, item: Item, e: Entry)
    requires m.Valid() && Queue(m, items, es) && Denotes(m, item, e)
    ensures Queue(m, items + [item], es + [e])
  {
    hide Denotes;
  }

  class ProcFileEntryBuilder {
    const procMap: ProcMap
    var attributeFlags: LabelMap  // static in the original, shared by all file objects

    constructor ()
      ensures procMap.Valid() && fresh(procMap) && fresh(procMap.Repr) && this !in procMap.Repr && procMap.table == map[]
      ensures attributeFlags == map[]
    {
      procMap := new ProcMap();
      attributeFlags := map[];
    }

    method CreateAttribMap(r: Reader)
      modifies this`attributeFlags
      ensures attributeFlags == InsertRows(old(attributeFlags), LabelRows(r))
    {
      hide LabelRows;
      var rows := LabelRows(r);
      for i := 0 to |rows|
        invariant attributeFlags == InsertRows(old(attributeFlags), rows[..i])
      {
        assert rows[..i + 1][..i] == rows[..i];
        attributeFlags := InsertFirst(attributeFlags, rows[i].0, rows[i].1);
      }
      assert rows[..|rows|] == rows;
    }

    method Read(env: Env, d: Digger)
      requires procMap.Valid() && env.Sound() && DiggerKnown(d)
      modifies procMap, procMap.Repr
      ensures procMap.Valid() && fresh(procMap.Repr - old(procMap.Repr))
      ensures procMap.table == ReadWith(env, old(procMap.table), d)
    {
      hide L.Run, L.WellFormed, P.Known, F.Known, S.ReadAll, P.Pass, F.Pass;
      match d.reader {
        case LsofReader =>
          L.BufferedRead(procMap, env.txtFd, env.lsofOutput, env.charbuff);
        case ProcReader =>
          forall pf | pf in procMap.entries.Values ensures pf in procMap.Repr {
            var k := KeyOfValue(procMap.entries, pf);
          }
          P.DoRead(procMap, d.options, env.procStat, env.clockTick);
        case FileStatReader =>
          ghost var files := set k, f | k in procMap.entries && f in procMap.entries[k].ulFiles :: procMap.entries[k].ulFiles[f];
          forall k, u | k in procMap.entries && u in procMap.entries[k].ulFiles.Values ensures u in files {
            var f := KeyOfValue(procMap.entries[k].ulFiles, u);
          }
          F.DoRead(procMap, d.options, env.fileStat, env.txtFd, files);
      }
    }

    method Build(env: Env, diggers: seq<Digger>)
      requires procMap.Valid() && this !in procMap.Repr && env.Sound() && AllKnown(diggers)
      modifies this`attributeFlags, procMap, procMap.Repr
      ensures procMap.Valid() && fresh(procMap.Repr - old(procMap.Repr))
      ensures procMap.table == BuildTable(env, old(procMap.table), diggers)
      ensures attributeFlags == LabelsAfter(old(attributeFlags), ReadersOf(diggers))
    {
      hide LabelRows, ReadWith, InsertRows;
      ghost var t, flags := procMap.table, attributeFlags;
      for i := 0 to |diggers|
        invariant procMap.Valid() && fresh(procMap.Repr - old(procMap.Repr)) && this !in procMap.Repr
        invariant procMap.table == BuildTable(env, t, diggers[..i])
        invariant attributeFlags == LabelsAfter(flags, ReadersOf(diggers[..i]))
      {
        assert diggers[..i + 1][..i] == diggers[..i];
        assert ReadersOf(diggers[..i + 1])[..i] == ReadersOf(diggers[..i]);
        CreateAttribMap(diggers[i].reader);
        Read(env, diggers[i]);
      }
      assert diggers[..|diggers|] == diggers;
    }

    /** `ProcFile::flatten` */
    method FlattenFiles(pf: ProcFile, ghost k: int, builtList: seq<Item>, ghost es: seq<Entry>) returns (longer: seq<Item>)
      requires procMap.Valid() && k in procMap.entries && pf == procMap.entries[k]
      requires Queue(procMap, builtList, es)
      ensures Queue(procMap, longer, es + FileEntries(k, procMap.table[k].ulFiles.Keys))
    {
      longer := builtList;
      var todo := pf.ulFiles.Keys;
      ghost var whole, done := FileEntries(k, todo), [];
      while todo != {}
        invariant todo <= pf.ulFiles.Keys
        invariant whole == done + FileEntries(k, todo)
        invariant Queue(procMap, longer, es + done)
        decreases todo
      {
        var f := Least(todo);
        QueueSnoc(procMap, longer, es + done, FileItem(pf.ulFiles[f]), FileEntry(k, f));
        assert es + (done + [FileEntry(k, f)]) == es + done + [FileEntry(k, f)];
        longer := longer + [FileItem(pf.ulFiles[f])];
        done := done + [FileEntry(k, f)];
        todo := todo - {f};
      }
      assert done == whole;
    }

    /** The body of the loop in `flattenMap`. */
    method FlattenOne(procs: bool, files: bool, pf: ProcFile, ghost k: int, builtList: seq<Item>, ghost es: seq<Entry>)
      returns (longer: seq<Item>)
      requires procMap.Valid() && k in procMap.entries && pf == procMap.entries[k]
      requires Queue(procMap, builtList, es)
      ensures Queue(procMap, longer, es + EntriesOf(procMap.table, k, procs, files))
    {
      hide FileEntries, Queue;
      longer := builtList;
      ghost var done := es;
      if procs {
        QueueSnoc(procMap, longer, done, ProcItem(pf), ProcEntry(k));
        longer := longer + [ProcItem(pf)];
        done := done + [ProcEntry(k)];
      }
      if files {
        longer := FlattenFiles(pf, k, longer, done);
        done := done + FileEntries(k, procMap.table[k].ulFiles.Keys);
      }
      assert done == es + EntriesOf(procMap.table, k, procs, files);
    }

    method FlattenMap(procs: bool, files: bool) returns (builtList: seq<Item>)
      requires procMap.Valid()
      ensures Queue(procMap, builtList, FlattenTable(procMap.table, procs, files))
    {
      hide Queue, EntriesOf;
      builtList := [];
      QueueEmpty(procMap);
      var todo := procMap.entries.Keys;
      ghost var whole, done := FlattenTable(procMap.table, procs, files), [];
      while todo != {}
        invariant todo <= procMap.table.Keys
        invariant whole == done + FlattenFrom(procMap.table, todo, procs, files)
        invariant Queue(procMap, builtList, done)
        decreases todo
      {
        var k := Least(todo);
        builtList := FlattenOne(procs, files, procMap.entries[k], k, builtList, done);
        done := done + EntriesOf(procMap.table, k, procs, files);
        todo := todo - {k};
      }
      assert done == whole;
    }
  }
}
