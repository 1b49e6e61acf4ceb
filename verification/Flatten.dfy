/** The print queue: processes in ascending pid, each followed by its files in ascending id. */
module Flatten {
  import opened Common
  import opened Files
  import opened OrderedKeys
  import opened FileIds

  /** One queue entry, named by map keys. */
  datatype Entry = ProcEntry(k: int) | FileEntry(k: int, f: int)

  /** `ProcFile::flatten`: the files under the keys fs. */
  ghost function FileEntries(k: int, fs: set<int>): (es: seq<Entry>)
    decreases fs
  {
    if fs == {} then [] else [FileEntry(k, Least(fs))] + FileEntries(k, fs - {Least(fs)})
  }

  ghost function EntriesOf(t: Table, k: int, procs: bool, files: bool): (es: seq<Entry>)
    requires k in t
  {
    (if procs then [ProcEntry(k)] else []) + (if files then FileEntries(k, t[k].ulFiles.Keys) else [])
  }

  /** The entries of the processes under the keys ks. */
  ghost function FlattenFrom(t: Table, ks: set<int>, procs: bool, files: bool): (es: seq<Entry>)
    requires ks <= t.Keys
    decreases ks
  {
    if ks == {} then []
    else EntriesOf(t, Least(ks), procs, files) + FlattenFrom(t, ks - {Least(ks)}, procs, files)
  }

  ghost function FlattenTable(t: Table, procs: bool, files: bool): (es: seq<Entry>) {
    FlattenFrom(t, t.Keys, procs, files)
  }

  // ----- order -----

  /** A process before its files, files by key, processes by key. */
  ghost predicate Before(a: Entry, b: Entry) {
    || a.k < b.k
    || (a.k == b.k && b.FileEntry? && (a.FileEntry? ==> a.f < b.f))
  }

  ghost predicate InOrder(es: seq<Entry>) {
    forall i, j :: 0 <= i < j < |es| ==> Before(es[i], es[j])
  }

  ghost predicate Holds(es: seq<Entry>, e: Entry) { exists i :: 0 <= i < |es| && es[i] == e }

  lemma InOrderConcat(a: seq<Entry>, b: seq<Entry>)
    requires InOrder(a) && InOrder(b)
    requires forall i, j :: 0 <= i < |a| && 0 <= j < |b| ==> Before(a[i], b[j])
    ensures InOrder(a + b)
  {
    hide Before;
  }

  lemma HoldsConcat(a: seq<Entry>, b: seq<Entry>, e: Entry)
    ensures Holds(a + b, e) <==> Holds(a, e) || Holds(b, e)
  {
    if i :| 0 <= i < |a| && a[i] == e {
      assert (a + b)[i] == e;
    }
    if i :| 0 <= i < |b| && b[i] == e {
      assert (a + b)[|a| + i] == e;
    }
    if i :| 0 <= i < |a + b| && (a + b)[i] == e {
      if i < |a| {
        assert a[i] == e;
      } else {
        assert b[i - |a|] == e;
      }
    }
  }

  lemma OneHolds(e: Entry)
    ensures Holds([e], e)
  {
    assert [e][0] == e;
  }

  lemma {:induction false} FileEntriesOrder(k: int, fs: set<int>)
    ensures InOrder(FileEntries(k, fs))
    ensures |FileEntries(k, fs)| == |fs|
    ensures forall i :: 0 <= i < |FileEntries(k, fs)| ==>
              var e := FileEntries(k, fs)[i]; e.FileEntry? && e.k == k && e.f in fs
    ensures forall f :: f in fs ==> Holds(FileEntries(k, fs), FileEntry(k, f))
    decreases fs
  {
    if fs != {} {
      var f0 := Least(fs);
      var head, tail := [FileEntry(k, f0)], FileEntries(k, fs - {f0});
      FileEntriesOrder(k, fs - {f0});
      InOrderConcat(head, tail);
      hide InOrder, Holds;
      forall f | f in fs ensures Holds(FileEntries(k, fs), FileEntry(k, f)) {
        HoldsConcat(head, tail, FileEntry(k, f));
        OneHolds(FileEntry(k, f0));
      }
    }
  }

  lemma EntriesOfOrder(t: Table, k: int, procs: bool, files: bool)
    requires k in t
    ensures InOrder(EntriesOf(t, k, procs, files))
    ensures forall i :: 0 <= i < |EntriesOf(t, k, procs, files)| ==> EntriesOf(t, k, procs, files)[i].k == k
    ensures Holds(EntriesOf(t, k, procs, files), ProcEntry(k)) <==> procs
    ensures forall f :: Holds(EntriesOf(t, k, procs, files), FileEntry(k, f)) <==> files && f in t[k].ulFiles
  {
    var head := if procs then [ProcEntry(k)] else [];
    var tail := if files then FileEntries(k, t[k].ulFiles.Keys) else [];
    FileEntriesOrder(k, t[k].ulFiles.Keys);
    InOrderConcat(head, tail);
    HoldsConcat(head, tail, ProcEntry(k));
    OneHolds(ProcEntry(k));
    forall f ensures Holds(head + tail, FileEntry(k, f)) <==> files && f in t[k].ulFiles {
      HoldsConcat(head, tail, FileEntry(k, f));
    }
  }

  ghost predicate Belongs(t: Table, ks: set<int>, procs: bool, files: bool, e: Entry) {
    && e.k in ks && e.k in t
    && match e case ProcEntry(_) => procs case FileEntry(k, f) => files && f in t[k].ulFiles
  }

  /** The queue is in order, and holds exactly the selected processes and files. */
  lemma {:induction false} FlattenFromOrder(t: Table, ks: set<int>, procs: bool, files: bool)
    requires ks <= t.Keys
    ensures InOrder(FlattenFrom(t, ks, procs, files))
    ensures forall e :: Holds(FlattenFrom(t, ks, procs, files), e) <==> Belongs(t, ks, procs, files, e)
    decreases ks
  {
    if ks != {} {
      var k := Least(ks);
      var head, tail := EntriesOf(t, k, procs, files), FlattenFrom(t, ks - {k}, procs, files);
      EntriesOfOrder(t, k, procs, files);
      FlattenFromOrder(t, ks - {k}, procs, files);
      hide EntriesOf, InOrder;
      forall i, j | 0 <= i < |head| && 0 <= j < |tail| ensures Before(head[i], tail[j]) {
        assert Holds(tail, tail[j]);
      }
      InOrderConcat(head, tail);
      forall e ensures Holds(head + tail, e) <==> Belongs(t, ks, procs, files, e) {
        HoldsConcat(head, tail, e);
        if i :| 0 <= i < |head| && head[i] == e {
          assert e.k == k;
        }
      }
    }
  }

  /** The three queues, completely: each is in order and holds just what was asked for. */
  lemma FlattenOrder(t: Table, procs: bool, files: bool)
    ensures InOrder(FlattenTable(t, procs, files))
    ensures forall e :: Holds(FlattenTable(t, procs, files), e) <==> Belongs(t, t.Keys, procs, files, e)
  {
    FlattenFromOrder(t, t.Keys, procs, files);
  }

  // ----- the partial queues -----

  ghost function Keep(e: Entry, procs: bool, files: bool): (s: seq<Entry>) {
    if (if e.ProcEntry? then procs else files) then [e] else []
  }

  ghost function Select(es: seq<Entry>, procs: bool, files: bool): (s: seq<Entry>) {
    if es == [] then [] else Keep(es[0], procs, files) + Select(es[1..], procs, files)
  }

  lemma {:induction false} SelectConcat(a: seq<Entry>, b: seq<Entry>, procs: bool, files: bool)
    ensures Select(a + b, procs, files) == Select(a, procs, files) + Select(b, procs, files)
  {
    hide Keep;
    if a == [] {
      assert a + b == b;
    } else {
      assert (a + b)[1..] == a[1..] + b && (a + b)[0] == a[0];
      SelectConcat(a[1..], b, procs, files);
    }
  }

  lemma {:induction false} SelectFileEntries(k: int, fs: set<int>, procs: bool, files: bool)
    ensures Select(FileEntries(k, fs), procs, files) == if files then FileEntries(k, fs) else []
    decreases fs
  {
    if fs != {} {
      SelectFileEntries(k, fs - {Least(fs)}, procs, files);
    }
  }

  lemma {:induction false} FlattenFromSelects(t: Table, ks: set<int>, procs: bool, files: bool)
    requires ks <= t.Keys
    ensures FlattenFrom(t, ks, procs, files) == Select(FlattenFrom(t, ks, true, true), procs, files)
    decreases ks
  {
    if ks != {} {
      var k := Least(ks);
      var all := FileEntries(k, t[k].ulFiles.Keys);
      SelectConcat(EntriesOf(t, k, true, true), FlattenFrom(t, ks - {k}, true, true), procs, files);
      SelectConcat([ProcEntry(k)], all, procs, files);
      SelectFileEntries(k, t[k].ulFiles.Keys, procs, files);
      FlattenFromSelects(t, ks - {k}, procs, files);
      assert Select([ProcEntry(k)], procs, files) == if procs then [ProcEntry(k)] else [];
    }
  }

  /** The processes-only and files-only queues are filters of the full one. */
  lemma FlattenSelects(t: Table, procs: bool, files: bool)
    ensures FlattenTable(t, procs, files) == Select(FlattenTable(t, true, true), procs, files)
  {
    FlattenFromSelects(t, t.Keys, procs, files);
  }

  // ----- length -----

  ghost function StoredIn(t: Table, ks: set<int>): set<(int, int)> {
    set k, f | k in ks && k in t && f in t[k].ulFiles :: (k, f)
  }

  lemma {:induction false} PairCount(k: int, fs: set<int>)
    ensures |set f | f in fs :: (k, f)| == |fs|
    decreases fs
  {
    if fs == {} {
      assert (set f | f in fs :: (k, f)) == {};
    } else {
      var f0 := Least(fs);
      PairCount(k, fs - {f0});
      assert (set f | f in fs :: (k, f)) == (set f | f in fs - {f0} :: (k, f)) + {(k, f0)};
    }
  }

  lemma StoredInSplit(t: Table, ks: set<int>, k: int)
    requires ks <= t.Keys && k in ks
    ensures |StoredIn(t, ks)| == |StoredIn(t, ks - {k})| + |t[k].ulFiles|
  {
    var here := set f | f in t[k].ulFiles.Keys :: (k, f);
    PairCount(k, t[k].ulFiles.Keys);
    assert StoredIn(t, ks) == StoredIn(t, ks - {k}) + here;
    assert StoredIn(t, ks - {k}) !! here;
  }

  lemma {:induction false} FlattenFromLength(t: Table, ks: set<int>)
    requires ks <= t.Keys
    ensures |FlattenFrom(t, ks, true, true)| == |ks| + |StoredIn(t, ks)|
    decreases ks
  {
    if ks == {} {
      assert StoredIn(t, ks) == {};
    } else {
      var k := Least(ks);
      FlattenFromLength(t, ks - {k});
      FileEntriesOrder(k, t[k].ulFiles.Keys);
      StoredInSplit(t, ks, k);
      hide StoredIn, InOrder, Holds, FileEntries;
    }
  }

  /** The full queue has one entry for every process and every stored file. */
  lemma FlattenLength(t: Table)
    ensures |FlattenTable(t, true, true)| == |t| + |Stored(t)|
  {
    FlattenFromLength(t, t.Keys);
    assert StoredIn(t, t.Keys) == Stored(t);
  }
}
