/** What a whole run leaves on every process and file: canonical attribute lists, labels for
    everything printed, and a queue in order. */
module Canonical {
  import opened Common
  import opened Numerals
  import opened Paths
  import opened Files
  import opened Pipeline
  import opened Labels
  import opened ProcFileEntryBuilder
  import opened Plan
  import opened Flatten
  import opened LsofStream
  import opened LsofGrouping
  import opened FileIds
  import Ids = AttributeIds
  import L = LsofReader
  import P = ProcReader
  import F = FileStatReader

  // ----- the three passes of a run -----

  ghost function Scanned(env: Env): (t: Table)
    requires env.Sound()
  {
    L.Run(map[], env.txtFd, env.Records()).table
  }

  ghost function AfterProc(env: Env, proc: string): (t: Table)
    requires env.Sound() && (proc != NO ==> P.Known(proc))
  {
    if proc == NO then Scanned(env) else P.Pass(proc, env.procStat, env.clockTick, Scanned(env))
  }

  lemma FinalIsPasses(env: Env, proc: string, file: string)
    requires env.Sound() && AllPass(Ops(proc, file, true)) && (proc != NO || file != NO)
    ensures proc != NO ==> P.Known(proc)
    ensures file != NO ==> F.Known(file)
    ensures FinalTable(env, proc, file) ==
            if file == NO then AfterProc(env, proc) else F.Pass(file, env.fileStat, env.txtFd, AfterProc(env, proc))
  {
    hide L.Run, P.Pass, F.Pass, P.Known, F.Known, Passes, L.WellFormed;
    PassesKnown(proc, file);
    CheckedDiggersKnown(proc, file);
    var first := [Digger(LsofReader, LSOF_OPTS_DEFAULT)];
    BuildSnoc(env, [], first[0]);
    assert [] + first == first;
    var mid := if proc != NO then first + [Digger(ProcReader, proc)] else first;
    if proc != NO {
      BuildSnoc(env, first, Digger(ProcReader, proc));
    }
    if file != NO {
      BuildSnoc(env, mid, Digger(FileStatReader, file));
    }
    assert DiggersFor(proc, file) == if file != NO then mid + [Digger(FileStatReader, file)] else mid;
  }

  lemma BuildSnoc(env: Env, ds: seq<Digger>, d: Digger)
    requires env.Sound() && AllKnown(ds + [d])
    ensures AllKnown(ds) && DiggerKnown(d)
    ensures BuildTable(env, map[], ds + [d]) == ReadWith(env, BuildTable(env, map[], ds), d)
  {
    hide DiggerKnown, ReadWith;
    var all := ds + [d];
    assert all[..|all| - 1] == ds && all[|all| - 1] == d;
    forall i | 0 <= i < |ds| ensures DiggerKnown(ds[i]) {
      assert all[i] == ds[i];
    }
  }

  /** The result depends on the sets of option letters only. */
  lemma FinalByLetters(env: Env, proc: string, file: string, proc': string, file': string)
    requires env.Sound() && AllPass(Ops(proc, file, true)) && AllPass(Ops(proc', file', true))
    requires proc == proc' || (proc != NO && proc' != NO && SameLetters(proc, proc'))
    requires file == file' || (file != NO && file' != NO && SameLetters(file, file'))
    ensures FinalTable(env, proc, file) == FinalTable(env, proc', file')
  {
    hide L.Run, P.Pass, F.Pass, P.Known, F.Known, SameLetters, AllPass;
    if proc != NO || file != NO {
      FinalIsPasses(env, proc, file);
      FinalIsPasses(env, proc', file');
      if proc != proc' {
        P.PassByLetters(proc, proc', env.procStat, env.clockTick, Scanned(env));
      }
      if file != file' {
        F.PassByLetters(file, file', env.fileStat, env.txtFd, AfterProc(env, proc));
      }
    }
  }

  // ----- lists in id order -----

  /** A low part, some entries with one id in the middle, and a rest without that id: the whole is
      strictly ascending exactly when the middle is at most one entry with nothing lower behind it. */
  lemma SandwichAscends(low: seq<Attr>, middle: seq<Attr>, rest: seq<Attr>, mid: int)
    requires AscendingIds(low) && AscendingIds(rest)
    requires forall i :: 0 <= i < |low| ==> low[i].id < mid
    requires forall i :: 0 <= i < |middle| ==> middle[i].id == mid
    requires forall j :: 0 <= j < |rest| ==> rest[j].id != mid
    requires forall i, j :: 0 <= i < |low| && 0 <= j < |rest| ==> low[i].id < rest[j].id
    ensures AscendingIds(low + middle + rest) <==>
            |middle| == 0 || (|middle| == 1 && forall j :: 0 <= j < |rest| ==> rest[j].id > mid)
  {
    var all := low + middle + rest;
    if |middle| >= 2 {
      assert all[|low|].id == all[|low| + 1].id;
    }
    if |middle| == 1 && AscendingIds(all) {
      forall j | 0 <= j < |rest| ensures rest[j].id > mid {
        assert all[|low|].id == mid && all[|low| + 1 + j] == rest[j];
      }
    }
  }

  // ----- processes -----

  ghost predicate OnlyPid(attrs: seq<Attr>) { forall i :: 0 <= i < |attrs| ==> attrs[i].id == Ids.PID }

  lemma {:induction false} PidAttrsAreOnlyPid(rs: seq<Record>, k: int)
    ensures OnlyPid(PidAttrs(rs, k))
  {
    hide Atoi;
    if rs != [] {
      PidAttrsAreOnlyPid(rs[..|rs| - 1], k);
    }
  }

  /** The PID attributes of process k are the texts of its process records. */
  lemma {:induction false} PidAttrsContents(rs: seq<Record>, k: int, a: Attr)
    ensures a in PidAttrs(rs, k) <==>
            a.id == 5 && exists i :: 0 <= i < |rs| && rs[i].tag == 'p' && Atoi(rs[i].value) == k && rs[i].value == a.value
  {
    hide Atoi;
    if rs != [] {
      var n := |rs| - 1;
      var before := rs[..n];
      PidAttrsContents(before, k, a);
      if i :| 0 <= i < |before| && before[i].tag == 'p' && Atoi(before[i].value) == k && before[i].value == a.value {
        assert rs[i] == before[i];
      }
      if i :| 0 <= i < |rs| && rs[i].tag == 'p' && Atoi(rs[i].value) == k && rs[i].value == a.value {
        assert i < n ==> before[i] == rs[i];
      }
    }
  }

  ghost function PidRecords(rs: seq<Record>, k: int): set<int> {
    set i | 0 <= i < |rs| && IsPidRecord(rs, i, k)
  }

  /** One PID attribute for every process record. */
  lemma {:induction false} PidAttrsCount(rs: seq<Record>, k: int)
    ensures |PidAttrs(rs, k)| == |PidRecords(rs, k)|
  {
    hide Atoi;
    if rs == [] {
      assert PidRecords(rs, k) == {};
    } else {
      var n := |rs| - 1;
      PidAttrsCount(rs[..n], k);
      assert forall i :: 0 <= i < n ==> (IsPidRecord(rs[..n], i, k) <==> IsPidRecord(rs, i, k));
      if IsPidRecord(rs, n, k) {
        assert PidRecords(rs, k) == PidRecords(rs[..n], k) + {n};
      } else {
        assert PidRecords(rs, k) == PidRecords(rs[..n], k);
      }
    }
  }

  lemma ProcIds(opts: string, info: P.ProcInfo, clockTick: nat)
    requires P.Known(opts) && clockTick > 0
    ensures var d := Collect(P.Pairs(opts, info, clockTick));
            d.Keys == P.LetterIds(opts) && forall k :: k in d ==> k == Ids.CMD || k > Ids.PID
  {
    P.SwitchInjective();
    DeferredContents(opts, P.OptId, P.Texts(info, clockTick));
    hide PairsOf, Collect, P.OptText, P.OptId;
    forall k | k in P.LetterIds(opts) ensures k == Ids.CMD || k > Ids.PID {
      var i :| 0 <= i < |opts| && P.OptId(opts[i]).value == k;
      P.OptIdInjective(opts[i], opts[i]);
    }
  }

  lemma ProcParts(p: ProcRec, d: Deferred) returns (low: seq<Attr>, rest: seq<Attr>)
    requires forall k :: k in d ==> k == Ids.CMD || k > Ids.PID
    ensures ProcAddAll(p, Ordered(d)) == p.(attributes := low + p.attributes + rest)
    ensures AscendingIds(low) && AscendingIds(rest)
    ensures forall i :: 0 <= i < |low| ==> low[i].id == Ids.CMD
    ensures forall j :: 0 <= j < |rest| ==> rest[j].id > Ids.PID
    ensures IdSet(low) + IdSet(rest) == d.Keys
  {
    hide AscendingIds, IdSet, Ordered, ProcAddAll;
    low := if Ids.CMD in d then [Attr(Ids.CMD, d[Ids.CMD])] else [];
    rest := Ordered(d - {Ids.CMD});
    ProcPassForm(p, d);
    LowAndRest(d, Ids.CMD);
  }

  /** The deferred calls split at their least id: both parts in order, all ids accounted for. */
  lemma LowAndRest(d: Deferred, low: int)
    requires forall k :: k in d ==> low <= k
    ensures var first := if low in d then [Attr(low, d[low])] else [];
            var rest := Ordered(d - {low});
            && AscendingIds(first) && AscendingIds(rest)
            && IdSet(first) + IdSet(rest) == d.Keys
            && forall j :: 0 <= j < |rest| ==> rest[j].id in d && rest[j].id != low
  {
    var first := if low in d then [Attr(low, d[low])] else [];
    OrderedRest(d, low);
    OrderedAscends(d - {low});
    hide Ordered;
    IdSetOfLow(d, low, first);
  }

  lemma PidsBetween(low: seq<Attr>, middle: seq<Attr>, rest: seq<Attr>, ids: set<int>)
    requires AscendingIds(low) && AscendingIds(rest) && OnlyPid(middle)
    requires IdSet(low) + IdSet(rest) == ids
    requires forall i :: 0 <= i < |low| ==> low[i].id == Ids.CMD
    requires forall j :: 0 <= j < |rest| ==> rest[j].id > Ids.PID
    ensures AscendingIds(low + middle + rest) <==> |middle| <= 1
    ensures IdSet(low + middle + rest) == IdSet(middle) + ids
  {
    SandwichAscends(low, middle, rest, Ids.PID);
    IdSetOfParts(low, middle, rest);
  }

  /** A process after the proc pass: in strict id order exactly when it had at most one PID
      attribute, and with exactly the selected ids added. */
  lemma ProcAfterForm(opts: string, info: P.ProcInfo, clockTick: nat, p: ProcRec)
    requires P.Known(opts) && clockTick > 0 && OnlyPid(p.attributes)
    ensures var p' := P.ProcAfter(opts, Some(info), clockTick, p);
            && p' == p.(attributes := p'.attributes)
            && (AscendingIds(p'.attributes) <==> |p.attributes| <= 1)
            && IdSet(p'.attributes) == IdSet(p.attributes) + P.LetterIds(opts)
  {
    var d := Collect(P.Pairs(opts, info, clockTick));
    ProcIds(opts, info, clockTick);
    hide P.Pairs, Collect, Ordered, ProcAddAll, IdSet, AscendingIds, OnlyPid, P.LetterIds, P.Known;
    var low, rest := ProcParts(p, d);
    PidsBetween(low, p.attributes, rest, d.Keys);
  }

  lemma IdSetOfParts(a: seq<Attr>, b: seq<Attr>, c: seq<Attr>)
    ensures IdSet(a + b + c) == IdSet(a) + IdSet(b) + IdSet(c)
  {
    var s := a + b + c;
    assert forall i :: 0 <= i < |a| ==> s[i] == a[i];
    assert forall i :: 0 <= i < |b| ==> s[|a| + i] == b[i];
    assert forall i :: 0 <= i < |c| ==> s[|a| + |b| + i] == c[i];
    forall x | x in IdSet(a) + IdSet(b) + IdSet(c) ensures x in IdSet(s) {
      if i :| 0 <= i < |a| && a[i].id == x {
        assert s[i].id == x;
      } else if i :| 0 <= i < |b| && b[i].id == x {
        assert s[|a| + i].id == x;
      } else {
        var i :| 0 <= i < |c| && c[i].id == x;
        assert s[|a| + |b| + i].id == x;
      }
    }
  }

  lemma IdSetOfLow(d: Deferred, low: int, first: seq<Attr>)
    requires first == if low in d then [Attr(low, d[low])] else []
    ensures IdSet(first) + (d - {low}).Keys == d.Keys
  {
    if low in d {
      assert first[0].id == low;
      assert IdSet(first) == {low};
    } else {
      assert IdSet(first) == {};
    }
  }

  lemma OnlyPidLists(attrs: seq<Attr>)
    requires OnlyPid(attrs) && attrs != []
    ensures AscendingIds(attrs) <==> |attrs| == 1
    ensures IdSet(attrs) == {Ids.PID}
  {
    if |attrs| > 1 {
      assert attrs[0].id == attrs[1].id;
    }
    assert attrs[0].id in IdSet(attrs);
  }

  /** The proc pass on the scanned map. */
  lemma AfterProcForm(env: Env, proc: string, k: int)
    requires env.Sound() && (proc != NO ==> P.Known(proc)) && k in Scanned(env)
    ensures k in AfterProc(env, proc)
    ensures var p, p' := Scanned(env)[k], AfterProc(env, proc)[k];
            && p'.pid == U32(k) && p'.ulFiles == p.ulFiles
            && (AscendingIds(p'.attributes) <==> |PidRecords(env.Records(), k)| == 1)
            && IdSet(p'.attributes) == {Ids.PID} +
                 if proc != NO && env.procStat(U32(k)).Some? then P.LetterIds(proc) else {}
  {
    var rs, p := env.Records(), Scanned(env)[k];
    IdentityHolds(env.txtFd, rs, k);
    PidAttrsAreOnlyPid(rs, k);
    PidAttrsCount(rs, k);
    OnlyPidLists(p.attributes);
    hide L.Run, P.Known, P.LetterIds, PidAttrs, PidRecords, U32, AscendingIds, IdSet, L.WellFormed;
    if proc != NO && env.procStat(U32(k)).Some? {
      hide P.ProcAfter;
      ProcAfterForm(proc, env.procStat(U32(k)).value, env.clockTick, p);
    }
  }

  /** Every process list of a finished run: strictly ascending in attribute id exactly when the
      stream had one process record for it, and made of the PID and the selected attributes. */
  lemma ProcListCanonical(env: Env, proc: string, file: string, k: int)
    requires env.Sound() && AllPass(Ops(proc, file, true)) && (proc != NO || file != NO)
    requires k in FinalTable(env, proc, file)
    ensures var p := FinalTable(env, proc, file)[k];
            && p.pid == U32(k)
            && (AscendingIds(p.attributes) <==> |PidRecords(env.Records(), k)| == 1)
            && IdSet(p.attributes) == {Ids.PID} +
                 if proc != NO && env.procStat(U32(k)).Some? then (PassesKnown(proc, file); P.LetterIds(proc)) else {}
  {
    FinalIsPasses(env, proc, file);
    PassesKnown(proc, file);
    hide FinalTable, L.Run, P.Known, P.LetterIds, P.ProcAfter, PidRecords, U32, AscendingIds, IdSet, AllPass;
    AfterProcForm(env, proc, k);
  }

  /** What a final process list holds, with texts: the PIDs of its process records and the attribute
      of every selected letter, if its /proc entry could be read. */
  lemma ProcTexts(env: Env, proc: string, file: string, k: int, a: Attr)
    requires env.Sound() && AllPass(Ops(proc, file, true)) && (proc != NO || file != NO)
    requires k in FinalTable(env, proc, file)
    ensures proc != NO ==> P.Known(proc)
    ensures a in FinalTable(env, proc, file)[k].attributes <==>
            || a in PidAttrs(env.Records(), k)
            || (proc != NO && env.procStat(U32(k)).Some? &&
                OfLetter(proc, P.OptId, P.Texts(env.procStat(U32(k)).value, env.clockTick), a))
  {
    FinalIsPasses(env, proc, file);
    hide FinalTable, L.Run, P.Known, P.LetterIds, PidRecords, U32, AscendingIds, IdSet, AllPass, OfLetter, PidAttrs;
    AfterProcForm(env, proc, k);
    IdentityHolds(env.txtFd, env.Records(), k);
    if proc != NO && env.procStat(U32(k)).Some? {
      hide P.ProcAfter;
      ProcAfterTexts(proc, env.procStat(U32(k)).value, env.clockTick, Scanned(env)[k], a);
    }
  }

  lemma ProcAfterTexts(opts: string, info: P.ProcInfo, clockTick: nat, p: ProcRec, a: Attr)
    requires P.Known(opts) && clockTick > 0
    ensures a in P.ProcAfter(opts, Some(info), clockTick, p).attributes <==>
            a in p.attributes || OfLetter(opts, P.OptId, P.Texts(info, clockTick), a)
  {
    P.SwitchInjective();
    hide Injective, Collect, Ordered, ProcAddAll, OfLetter, PairsOf, P.OptId, P.Texts;
    CallsOfLetters(opts, P.OptId, P.Texts(info, clockTick), a);
    ProcAddAllContents(p, Ordered(Collect(P.Pairs(opts, info, clockTick))), a);
  }

  // ----- files -----

  ghost predicate OnlyFlags(attrs: seq<Attr>) { forall i :: 0 <= i < |attrs| ==> attrs[i].id == Ids.FLAGS }

  lemma {:induction false} FlagAttrsAreOnlyFlags(txtFd: nat, rs: seq<Record>, k: int, f: int)
    ensures OnlyFlags(FlagAttrs(txtFd, rs, k, f))
  {
    hide L.LastFile;
    if rs != [] {
      FlagAttrsAreOnlyFlags(txtFd, rs[..|rs| - 1], k, f);
    }
  }

  /** The flags attributes of (k, f) are empty, one for every flags record whose latest file record
      went there. */
  lemma {:induction false} FlagAttrsContents(txtFd: nat, rs: seq<Record>, k: int, f: int, a: Attr)
    ensures a in FlagAttrs(txtFd, rs, k, f) <==>
            a == Attr(41, "") && exists i :: 0 <= i < |rs| && rs[i].tag == 'G' && L.LastFile(txtFd, rs[..i]) == Some((k, f))
  {
    hide L.LastFile;
    if rs != [] {
      var n := |rs| - 1;
      var before := rs[..n];
      FlagAttrsContents(txtFd, before, k, f, a);
      if i :| 0 <= i < |before| && before[i].tag == 'G' && L.LastFile(txtFd, before[..i]) == Some((k, f)) {
        assert rs[i] == before[i] && rs[..i] == before[..i];
      }
      if i :| 0 <= i < |rs| && rs[i].tag == 'G' && L.LastFile(txtFd, rs[..i]) == Some((k, f)) {
        assert i < n ==> before[i] == rs[i] && rs[..i] == before[..i];
      }
    }
  }

  /** No selected attribute sorts between the file name and the flags. */
  ghost predicate NothingBelowFlags(opts: string)
    requires F.Known(opts)
  {
    forall id :: id in F.LetterIds(opts) ==> id == Ids.FILENAME || id > Ids.FLAGS
  }

  lemma StatIds(opts: string, info: F.FileInfo)
    requires F.Known(opts)
    ensures var d := Collect(F.Pairs(opts, info));
            d.Keys == F.LetterIds(opts) && forall k :: k in d ==> k >= Ids.FILENAME && k != Ids.FLAGS
  {
    F.SwitchInjective();
    DeferredContents(opts, F.OptId, F.Texts(info));
    hide PairsOf, Collect, F.OptText, F.OptId;
    forall k | k in F.LetterIds(opts) ensures k >= Ids.FILENAME && k != Ids.FLAGS {
      var i :| 0 <= i < |opts| && F.OptId(opts[i]).value == k;
      F.OptIdInjective(opts[i], opts[i]);
    }
  }

  lemma FileParts(r: FileRec, d: Deferred) returns (low: seq<Attr>, rest: seq<Attr>)
    requires forall k :: k in d ==> k >= Ids.FILENAME
    ensures FileAddAll(r, Ordered(d)) == r.(attributes := low + r.attributes + rest)
    ensures AscendingIds(low) && AscendingIds(rest)
    ensures forall i :: 0 <= i < |low| ==> low[i].id == Ids.FILENAME
    ensures forall j :: 0 <= j < |rest| ==> rest[j].id in d && rest[j].id != Ids.FILENAME
    ensures IdSet(low) + IdSet(rest) == d.Keys
    ensures rest == Ordered(d - {Ids.FILENAME})
  {
    hide AscendingIds, IdSet, Ordered, FileAddAll;
    low := if Ids.FILENAME in d then [Attr(Ids.FILENAME, d[Ids.FILENAME])] else [];
    rest := Ordered(d - {Ids.FILENAME});
    FilePassForm(r, d);
    LowAndRest(d, Ids.FILENAME);
  }

  lemma FlagsBetween(low: seq<Attr>, middle: seq<Attr>, rest: seq<Attr>, ids: set<int>)
    requires AscendingIds(low) && AscendingIds(rest) && OnlyFlags(middle)
    requires IdSet(low) + IdSet(rest) == ids
    requires forall i :: 0 <= i < |low| ==> low[i].id == Ids.FILENAME
    requires forall j :: 0 <= j < |rest| ==> rest[j].id > Ids.FILENAME && rest[j].id != Ids.FLAGS
    ensures AscendingIds(low + middle + rest) <==>
            |middle| == 0 || (|middle| == 1 && forall id :: id in ids ==> id == Ids.FILENAME || id > Ids.FLAGS)
    ensures IdSet(low + middle + rest) == IdSet(middle) + ids
  {
    SandwichAscends(low, middle, rest, Ids.FLAGS);
    RestAboveFlags(low, rest, ids);
    IdSetOfParts(low, middle, rest);
  }

  /** A file after the stat pass: in strict id order exactly when it had no flags, or one with
      nothing selected that sorts before it but the name. */
  lemma FileAfterForm(opts: string, info: F.FileInfo, r: FileRec)
    requires F.Known(opts) && OnlyFlags(r.attributes)
    ensures var r' := F.FileAfter(opts, Some(info), r);
            && r' == r.(attributes := r'.attributes)
            && (AscendingIds(r'.attributes) <==>
                  |r.attributes| == 0 || (|r.attributes| == 1 && NothingBelowFlags(opts)))
            && IdSet(r'.attributes) == IdSet(r.attributes) + F.LetterIds(opts)
  {
    var d := Collect(F.Pairs(opts, info));
    StatIds(opts, info);
    hide F.Pairs, Collect, Ordered, FileAddAll, F.LetterIds, F.Known, IdSet, AscendingIds, OnlyFlags;
    var low, rest := FileParts(r, d);
    FlagsBetween(low, r.attributes, rest, d.Keys);
  }

  lemma RestAboveFlags(low: seq<Attr>, rest: seq<Attr>, ids: set<int>)
    requires IdSet(low) + IdSet(rest) == ids
    requires forall i :: 0 <= i < |low| ==> low[i].id == Ids.FILENAME
    requires forall j :: 0 <= j < |rest| ==> rest[j].id != Ids.FILENAME
    ensures (forall j :: 0 <= j < |rest| ==> rest[j].id > Ids.FLAGS) <==>
            forall id :: id in ids ==> id == Ids.FILENAME || id > Ids.FLAGS
  {
    forall j | 0 <= j < |rest| ensures rest[j].id in ids {
      assert rest[j].id in IdSet(rest);
    }
    forall id | id in ids && id !in IdSet(rest) ensures id == Ids.FILENAME {
      assert id in IdSet(low);
    }
  }

  /** What stat says about the file under (k, f): its path is formed from the map keys. */
  ghost function StatOf(env: Env, k: int, f: int): (info: Option<F.FileInfo>) {
    env.fileStat(FormPath(env.txtFd, U32(k), U32(f)))
  }

  lemma ScannedFile(env: Env, k: int, f: int)
    requires env.Sound() && k in Scanned(env) && f in Scanned(env)[k].ulFiles
    ensures Scanned(env)[k].ulFiles[f].attributes == FlagAttrs(env.txtFd, env.Records(), k, f)
  {
    hide U32, FormPath, L.Run, FlagAttrs, L.WellFormed;
    var rs := env.Records();
    GroupingHolds(env.txtFd, rs);
    assert FileGrouped(Scanned(env), env.txtFd, rs, k, f);
    var i: nat :| Places(env.txtFd, rs, i, k, f);
    var j := FirstExists(env.txtFd, rs, i, k, f);
  }

  lemma OnlyFlagsLists(attrs: seq<Attr>)
    requires OnlyFlags(attrs)
    ensures AscendingIds(attrs) <==> |attrs| <= 1
    ensures IdSet(attrs) <= {Ids.FLAGS} && (attrs != [] ==> Ids.FLAGS in IdSet(attrs))
  {
    if |attrs| > 1 {
      assert attrs[0].id == attrs[1].id;
    }
    if attrs != [] {
      assert attrs[0].id in IdSet(attrs);
    }
  }

  /** The final object under (k, f) is the scanned one after the stat pass, if there was one. */
  lemma FinalFile(env: Env, proc: string, file: string, k: int, f: int)
    requires env.Sound() && AllPass(Ops(proc, file, true)) && (proc != NO || file != NO)
    requires k in FinalTable(env, proc, file) && f in FinalTable(env, proc, file)[k].ulFiles
    ensures file != NO ==> F.Known(file)
    ensures k in Scanned(env) && f in Scanned(env)[k].ulFiles
    ensures FinalTable(env, proc, file)[k].ulFiles[f] ==
            if file == NO then Scanned(env)[k].ulFiles[f]
            else F.FileAfter(file, StatOf(env, k, f), Scanned(env)[k].ulFiles[f])
  {
    FinalIsPasses(env, proc, file);
    hide FinalTable, L.Run, P.Known, F.Known, P.ProcAfter, P.LetterIds, F.FileAfter, U32, FormPath, AllPass,
      IdSet, AscendingIds, PidRecords;
    AfterProcForm(env, proc, k);
  }

  /** Every file list of a finished run. Without flags records (lsof is not asked for any) it is in
      strict order of id; with them, exactly under the condition given. */
  lemma FileListCanonical(env: Env, proc: string, file: string, k: int, f: int)
    requires env.Sound() && AllPass(Ops(proc, file, true)) && (proc != NO || file != NO)
    requires k in FinalTable(env, proc, file) && f in FinalTable(env, proc, file)[k].ulFiles
    ensures file != NO ==> F.Known(file)
    ensures var attrs := FinalTable(env, proc, file)[k].ulFiles[f].attributes;
            var flags := FlagAttrs(env.txtFd, env.Records(), k, f);
            var read := file != NO && StatOf(env, k, f).Some?;
            && (AscendingIds(attrs) <==>
                  flags == [] || (|flags| == 1 && (read ==> NothingBelowFlags(file))))
            && IdSet(attrs) == IdSet(flags) + if read then F.LetterIds(file) else {}
  {
    FinalFile(env, proc, file, k, f);
    ScannedFile(env, k, f);
    FlagAttrsAreOnlyFlags(env.txtFd, env.Records(), k, f);
    hide FinalTable, Scanned, F.Known, F.LetterIds, StatOf, AllPass, FlagAttrs, NothingBelowFlags, OnlyFlags,
      IdSet, AscendingIds;
    var r := Scanned(env)[k].ulFiles[f];
    OnlyFlagsLists(r.attributes);
    if file != NO && StatOf(env, k, f).Some? {
      hide F.FileAfter;
      FileAfterForm(file, StatOf(env, k, f).value, r);
    }
  }

  lemma FileAfterTexts(opts: string, info: F.FileInfo, r: FileRec, a: Attr)
    requires F.Known(opts)
    ensures a in F.FileAfter(opts, Some(info), r).attributes <==>
            a in r.attributes || OfLetter(opts, F.OptId, F.Texts(info), a)
  {
    F.SwitchInjective();
    hide Injective, Collect, Ordered, FileAddAll, OfLetter, PairsOf, F.OptId, F.Texts;
    CallsOfLetters(opts, F.OptId, F.Texts(info), a);
    FileAddAllContents(r, Ordered(Collect(F.Pairs(opts, info))), a);
  }

  /** What a final file list holds, with texts: its flags and the attribute of every selected letter,
      if stat knew its path. */
  lemma FileTexts(env: Env, proc: string, file: string, k: int, f: int, a: Attr)
    requires env.Sound() && AllPass(Ops(proc, file, true)) && (proc != NO || file != NO)
    requires k in FinalTable(env, proc, file) && f in FinalTable(env, proc, file)[k].ulFiles
    ensures file != NO ==> F.Known(file)
    ensures a in FinalTable(env, proc, file)[k].ulFiles[f].attributes <==>
            || a in FlagAttrs(env.txtFd, env.Records(), k, f)
            || (file != NO && StatOf(env, k, f).Some? && OfLetter(file, F.OptId, F.Texts(StatOf(env, k, f).value), a))
  {
    FinalFile(env, proc, file, k, f);
    ScannedFile(env, k, f);
    hide FinalTable, Scanned, F.Known, StatOf, AllPass, FlagAttrs, OfLetter;
    if file != NO && StatOf(env, k, f).Some? {
      hide F.FileAfter;
      FileAfterTexts(file, StatOf(env, k, f).value, Scanned(env)[k].ulFiles[f], a);
    }
  }

  // ----- labels -----

  lemma PlanLabels(proc: string, file: string, id: int)
    requires proc != NO || file != NO
    ensures HasRow(LsofReader, id) ==> id in FinalLabels(proc, file)
    ensures proc != NO && HasRow(ProcReader, id) ==> id in FinalLabels(proc, file)
    ensures file != NO && HasRow(FileStatReader, id) ==> id in FinalLabels(proc, file)
  {
    var ds := DiggersFor(proc, file);
    var rs := ReadersOf(ds);
    LabelsContents(rs);
    hide HasRow, LabelsAfter;
    assert rs[0] == LsofReader;
    if proc != NO {
      assert rs[1] == ProcReader;
    }
    if file != NO {
      assert rs[|rs| - 1] == FileStatReader;
    }
  }

  ghost predicate AllLabelled(attrs: seq<Attr>, flags: LabelMap) {
    forall i :: 0 <= i < |attrs| ==> attrs[i].id in flags
  }

  lemma LabelledByIds(attrs: seq<Attr>, flags: LabelMap)
    requires IdSet(attrs) <= flags.Keys
    ensures AllLabelled(attrs, flags)
  {
    forall i | 0 <= i < |attrs| ensures attrs[i].id in flags {
      assert attrs[i].id in IdSet(attrs);
    }
  }

  lemma ProcLetterLabelled(proc: string, file: string, id: int)
    requires proc != NO && P.Known(proc) && id in P.LetterIds(proc)
    ensures id in FinalLabels(proc, file)
  {
    var i :| 0 <= i < |proc| && P.OptId(proc[i]).value == id;
    ProcIdsHaveRows(proc[i]);
    PlanLabels(proc, file, id);
  }

  lemma FileLetterLabelled(proc: string, file: string, id: int)
    requires file != NO && F.Known(file) && id in F.LetterIds(file)
    ensures id in FinalLabels(proc, file)
  {
    var i :| 0 <= i < |file| && F.OptId(file[i]).value == id;
    FileIdsHaveRows(file[i]);
    PlanLabels(proc, file, id);
  }

  lemma ProcLetterIdsLabelled(proc: string, file: string)
    requires proc != NO && P.Known(proc)
    ensures P.LetterIds(proc) <= FinalLabels(proc, file).Keys
  {
    hide P.LetterIds, P.Known, FinalLabels;
    forall id | id in P.LetterIds(proc) ensures id in FinalLabels(proc, file) {
      ProcLetterLabelled(proc, file, id);
    }
  }

  lemma ProcLabelled(env: Env, proc: string, file: string, k: int)
    requires env.Sound() && AllPass(Ops(proc, file, true)) && (proc != NO || file != NO)
    requires k in FinalTable(env, proc, file)
    ensures AllLabelled(FinalTable(env, proc, file)[k].attributes, FinalLabels(proc, file))
  {
    hide FinalTable, FinalLabels, P.LetterIds, P.Known, Passes, AscendingIds, PidRecords, IdSet, U32, HasRow, IsLabel,
      L.WellFormed, L.LastProc, L.HasFile;
    ProcListCanonical(env, proc, file, k);
    PassesKnown(proc, file);
    LsofIdsHaveRows();
    PlanLabels(proc, file, Ids.PID);
    if proc != NO {
      ProcLetterIdsLabelled(proc, file);
    }
    LabelledByIds(FinalTable(env, proc, file)[k].attributes, FinalLabels(proc, file));
  }

  lemma FileLabelled(env: Env, proc: string, file: string, k: int, f: int)
    requires env.Sound() && AllPass(Ops(proc, file, true)) && (proc != NO || file != NO)
    requires k in FinalTable(env, proc, file) && f in FinalTable(env, proc, file)[k].ulFiles
    ensures AllLabelled(FinalTable(env, proc, file)[k].ulFiles[f].attributes, FinalLabels(proc, file))
  {
    FileListCanonical(env, proc, file, k, f);
    FlagAttrsAreOnlyFlags(env.txtFd, env.Records(), k, f);
    var flags := FlagAttrs(env.txtFd, env.Records(), k, f);
    OnlyFlagsLists(flags);
    hide FinalTable, FinalLabels, F.LetterIds, F.Known, AllPass, AscendingIds, FlagAttrs, IdSet, StatOf, NothingBelowFlags,
      HasRow, IsLabel;
    LsofIdsHaveRows();
    PlanLabels(proc, file, Ids.FLAGS);
    if file != NO {
      forall id | id in F.LetterIds(file) ensures id in FinalLabels(proc, file) {
        FileLetterLabelled(proc, file, id);
      }
    }
    LabelledByIds(FinalTable(env, proc, file)[k].ulFiles[f].attributes, FinalLabels(proc, file));
  }

  // ----- the queue of a run -----

  /** In every queue, the files of a process are in the order of the keys read off the stream. */
  lemma QueueByKeys(env: Env, t: Table, procs: bool, i: nat, j: nat, k: int, f: int, g: int, a: nat, b: nat)
    requires Places(env.txtFd, env.Records(), i, k, f) && Places(env.txtFd, env.Records(), j, k, g)
    requires a < |FlattenTable(t, procs, true)| && FlattenTable(t, procs, true)[a] == FileEntry(k, f)
    requires b < |FlattenTable(t, procs, true)| && FlattenTable(t, procs, true)[b] == FileEntry(k, g)
    ensures a < b <==> KeyAt(env.txtFd, env.Records(), i) < KeyAt(env.txtFd, env.Records(), j)
  {
    var es := FlattenTable(t, procs, true);
    FlattenOrder(t, procs, true);
    KeyAtIsFileKey(env.txtFd, env.Records(), i);
    KeyAtIsFileKey(env.txtFd, env.Records(), j);
    hide KeyAt, FlattenTable;
    assert a < b ==> Before(es[a], es[b]);
    assert b < a ==> Before(es[b], es[a]);
  }

  /** So the txt files of a process come after its other files, in stream order, when there is room
      for their keys. */
  lemma TxtFilesLast(env: Env, t: Table, procs: bool, i: nat, j: nat, k: int, f: int, g: int, a: nat, b: nat)
    requires RoomAbove(env.txtFd, env.Records())
    requires Places(env.txtFd, env.Records(), i, k, f) && Places(env.txtFd, env.Records(), j, k, g)
    requires L.IsTxt(env.Records()[j]) && (L.IsTxt(env.Records()[i]) ==> i < j)
    requires a < |FlattenTable(t, procs, true)| && FlattenTable(t, procs, true)[a] == FileEntry(k, f)
    requires b < |FlattenTable(t, procs, true)| && FlattenTable(t, procs, true)[b] == FileEntry(k, g)
    ensures a < b
  {
    TxtKeysLastExactly(env.txtFd, env.Records());
    QueueByKeys(env, t, procs, i, j, k, f, g, a, b);
  }
}
