/** The program as a whole: options, readers, queue, and the labelled text it prints. */
module Cphf {
  import opened Common
  import opened Files
  import opened Labels
  import opened ProcFileEntryBuilder
  import opened Plan
  import opened Flatten
  import opened Pipeline
  import opened Canonical
  import opened LsofStream
  import opened LsofGrouping
  import Ids = AttributeIds
  import P = ProcReader
  import F = FileStatReader

  /** A printed attribute: its label and its text. */
  type Lines = seq<(string, string)>

  /** What the printing callbacks receive for a list of attributes; None when `attributeFlags.at`
      throws because an id has no label. */
  function PrintedLines(attrs: seq<Attr>, flags: LabelMap): (r: Option<Lines>)
    ensures r.Some? ==> |r.value| == |attrs|
    ensures r.Some? ==> forall i :: 0 <= i < |attrs| ==> attrs[i].id in flags && r.value[i] == (flags[attrs[i].id], attrs[i].value)
    ensures r.Some? <==> forall i :: 0 <= i < |attrs| ==> attrs[i].id in flags
  {
    if attrs == [] then Some([])
    else
      var n := |attrs| - 1;
      match PrintedLines(attrs[..n], flags)
      case None => None
      case Some(lines) =>
        if attrs[n].id in flags then Some(lines + [(flags[attrs[n].id], attrs[n].value)]) else None
  }

  /** `do_printAttributes`, the same loop for both kinds of object. */
  method PrintAttributes(attrs: seq<Attr>, flags: LabelMap) returns (r: Option<Lines>)
    ensures r == PrintedLines(attrs, flags)
  {
    var lines: Lines := [];
    for i := 0 to |attrs|
      invariant PrintedLines(attrs[..i], flags) == Some(lines)
    {
      assert attrs[..i + 1][..i] == attrs[..i] && attrs[..i + 1][i] == attrs[i];
      if attrs[i].id !in flags {
        assert attrs[i] in attrs;
        return None;
      }
      lines := lines + [(flags[attrs[i].id], attrs[i].value)];
    }
    assert attrs[..|attrs|] == attrs;
    r := Some(lines);
  }

  ghost function AttrsOf(t: Table, e: Entry): (attrs: seq<Attr>)
    requires e.k in t && (e.FileEntry? ==> e.f in t[e.k].ulFiles)
  {
    match e case ProcEntry(k) => t[k].attributes case FileEntry(k, f) => t[k].ulFiles[f].attributes
  }

  ghost predicate Exists(t: Table, e: Entry) { e.k in t && (e.FileEntry? ==> e.f in t[e.k].ulFiles) }

  /** One block of output for every queue entry: the entry's attributes, in list order, each under
      its label. */
  ghost predicate Reports(blocks: seq<Lines>, t: Table, es: seq<Entry>, flags: LabelMap) {
    && |blocks| == |es|
    && forall i :: 0 <= i < |es| ==> Exists(t, es[i]) && PrintedLines(AttrsOf(t, es[i]), flags) == Some(blocks[i])
  }

  /** `PrettyPrinter::printFiles` without its column layout. */
  method PrintFiles(m: ProcMap, queue: seq<Item>, flags: LabelMap, ghost es: seq<Entry>) returns (blocks: Option<seq<Lines>>)
    requires m.Valid() && Queue(m, queue, es)
    requires forall i :: 0 <= i < |es| ==> Exists(m.table, es[i])
    ensures blocks.Some? <==> forall i :: 0 <= i < |es| ==> AllLabelled(AttrsOf(m.table, es[i]), flags)
    ensures blocks.Some? ==> Reports(blocks.value, m.table, es, flags)
  {
    hide PrintedLines;
    var done: seq<Lines> := [];
    for i := 0 to |queue|
      invariant |done| == i
      invariant forall j :: 0 <= j < i ==> PrintedLines(AttrsOf(m.table, es[j]), flags) == Some(done[j])
      invariant forall j :: 0 <= j < i ==> AllLabelled(AttrsOf(m.table, es[j]), flags)
    {
      assert Denotes(m, queue[i], es[i]);
      var attrs;
      match queue[i] {
        case ProcItem(pf) => attrs := pf.attributes;
        case FileItem(ulf) => attrs := ulf.attributes;
      }
      assert attrs == AttrsOf(m.table, es[i]);
      var r := PrintAttributes(attrs, flags);
      if r.None? {
        return None;
      }
      done := done + [r.value];
    }
    blocks := Some(done);
  }

  /** Everything in the queue of a finished run has its labels. */
  lemma QueueLabelled(env: Env, proc: string, file: string)
    requires env.Sound() && AllPass(Ops(proc, file, true))
    ensures var t, es := FinalTable(env, proc, file), FlattenTable(FinalTable(env, proc, file), proc != NO, file != NO);
            forall i :: 0 <= i < |es| ==> Exists(t, es[i]) && AllLabelled(AttrsOf(t, es[i]), FinalLabels(proc, file))
  {
    var t, es := FinalTable(env, proc, file), FlattenTable(FinalTable(env, proc, file), proc != NO, file != NO);
    FlattenOrder(t, proc != NO, file != NO);
    hide FlattenTable, FinalLabels, AllPass, AllLabelled;
    forall i | 0 <= i < |es| ensures Exists(t, es[i]) && AllLabelled(AttrsOf(t, es[i]), FinalLabels(proc, file)) {
      assert Holds(es, es[i]);
      hide FinalTable;
      match es[i] {
        case ProcEntry(k) => ProcLabelled(env, proc, file, k);
        case FileEntry(k, f) => FileLabelled(env, proc, file, k, f);
      }
    }
  }

  /** `main`. Option strings that do not pass their check may only reach the readers when an
      overwritten flag lets them (see Plan.FlagsOkayExactly); those runs are outside the contract.
      Label lookup never fails, and what is printed is the final map in queue order. */
  method Cphf(env: Env, args: seq<Arg>) returns (output: Option<seq<Lines>>)
    requires env.Sound()
    requires OpsOf(args).flagsOkay ==> AllPass(OpsOf(args))
    ensures output.Some?
    ensures !OpsOf(args).flagsOkay ==> output.value == []
    ensures OpsOf(args).flagsOkay ==>
              var proc, file := OpsOf(args).proc, OpsOf(args).file;
              var t := FinalTable(env, proc, file);
              Reports(output.value, t, FlattenTable(t, proc != NO, file != NO), FinalLabels(proc, file))
  {
    hide Passes, PrintedLines, FlattenTable, LabelsAfter, BuildTable;
    var ops := ParseArgs(args);
    var lb := new ProcFileEntryBuilder();
    var funcvector: seq<Digger> := [];
    var procs, files := true, true;
    if ops.flagsOkay {
      CheckedDiggersKnown(ops.proc, ops.file);
      funcvector := funcvector + [Digger(LsofReader, LSOF_OPTS_DEFAULT)];
      if ops.proc != NO {
        funcvector := funcvector + [Digger(ProcReader, ops.proc)];
      } else {
        procs := false;
      }
      if ops.file != NO {
        funcvector := funcvector + [Digger(FileStatReader, ops.file)];
      } else {
        files := false;
      }
      assert funcvector == DiggersFor(ops.proc, ops.file);
    }
    if |funcvector| != 1 {
      lb.Build(env, funcvector);
    }
    var printQueue := lb.FlattenMap(procs, files);
    ghost var es := FlattenTable(lb.procMap.table, procs, files);
    if ops.flagsOkay {
      QueueLabelled(env, ops.proc, ops.file);
    } else {
      EmptyRun(env);
    }
    output := PrintFiles(lb.procMap, printQueue, lb.attributeFlags, es);
  }

  lemma EmptyRun(env: Env)
    requires env.Sound()
    ensures BuildTable(env, map[], []) == map[]
    ensures FlattenTable(map[], true, true) == []
  {
  }
}
