/** What the record loop builds, stated on the stream alone: the grouping of file records under
    process records, with first-insert-wins on both levels. */
module LsofGrouping {
  import opened Common
  import opened Numerals
  import opened LsofStream
  import opened Paths
  import opened Files
  import opened LsofReader
  import Ids = AttributeIds

  ghost predicate IsPidRecord(rs: seq<Record>, i: nat, k: int) {
    i < |rs| && rs[i].tag == TAG_PID && Atoi(rs[i].value) == k
  }

  /** File record i comes after process record k (and no other since) and has key f. */
  ghost predicate Places(txtFd: nat, rs: seq<Record>, i: nat, k: int, f: int) {
    && i < |rs| && rs[i].tag == TAG_FD
    && LastProc(rs[..i]) == Some(k)
    && FileKey(FidOf(txtFd, rs, i)) == f
  }

  ghost predicate FirstPlaced(txtFd: nat, rs: seq<Record>, i: nat, k: int, f: int) {
    Places(txtFd, rs, i, k, f) && forall j: nat :: j < i ==> !Places(txtFd, rs, j, k, f)
  }

  ghost predicate Placed(txtFd: nat, rs: seq<Record>, k: int, f: int) {
    exists i: nat :: Places(txtFd, rs, i, k, f)
  }

  /** One PID attribute for every process record of k, in stream order. */
  ghost function PidAttrs(rs: seq<Record>, k: int): (attrs: seq<Attr>) {
    if rs == [] then []
    else
      var n := |rs| - 1;
      PidAttrs(rs[..n], k) +
      if rs[n].tag == TAG_PID && Atoi(rs[n].value) == k then [Attr(Ids.PID, rs[n].value)] else []
  }

  /** One flags attribute for every flags record whose latest file record went to (k, f). */
  ghost function FlagAttrs(txtFd: nat, rs: seq<Record>, k: int, f: int): (attrs: seq<Attr>) {
    if rs == [] then []
    else
      var n := |rs| - 1;
      FlagAttrs(txtFd, rs[..n], k, f) +
      if rs[n].tag == TAG_FLAGS && LastFile(txtFd, rs[..n]) == Some((k, f)) then [Attr(Ids.FLAGS, "")] else []
  }

  /** The file object that record i makes, with the flags added to it later. */
  ghost function FileOf(txtFd: nat, rs: seq<Record>, i: nat, k: int, f: int): (r: FileRec)
    requires i < |rs|
  {
    NewFile(txtFd, U64(k), FidOf(txtFd, rs, i)).(attributes := FlagAttrs(txtFd, rs, k, f))
  }

  ghost predicate ProcsGrouped(t: Table, rs: seq<Record>) {
    && (forall k :: k in t <==> exists i: nat :: IsPidRecord(rs, i, k))
    && (forall k :: k in t ==> t[k].pid == U32(k) && t[k].attributes == PidAttrs(rs, k))
  }

  /** The file stored under (k, f): there is one exactly when some file record goes there, and
      it is the one the first such record made. */
  ghost predicate FileGrouped(t: Table, txtFd: nat, rs: seq<Record>, k: int, f: int) {
    var stored := k in t && f in t[k].ulFiles;
    && (stored <==> Placed(txtFd, rs, k, f))
    && (stored ==> forall i: nat :: FirstPlaced(txtFd, rs, i, k, f) ==> t[k].ulFiles[f] == FileOf(txtFd, rs, i, k, f))
  }

  ghost predicate FilesGrouped(t: Table, txtFd: nat, rs: seq<Record>) {
    forall k, f :: FileGrouped(t, txtFd, rs, k, f)
  }

  /** The declarative grouping of a stream. */
  ghost predicate IsGrouping(t: Table, txtFd: nat, rs: seq<Record>) {
    ProcsGrouped(t, rs) && FilesGrouped(t, txtFd, rs)
  }

  // ----- the grouping is one table only -----

  lemma {:induction false} FirstExists(txtFd: nat, rs: seq<Record>, i: nat, k: int, f: int)
    returns (j: nat)
    requires Places(txtFd, rs, i, k, f)
    ensures j <= i && FirstPlaced(txtFd, rs, j, k, f)
  {
    if j': nat :| j' < i && Places(txtFd, rs, j', k, f) {
      j := FirstExists(txtFd, rs, j', k, f);
    } else {
      j := i;
    }
  }

  lemma SameFile(t: Table, u: Table, txtFd: nat, rs: seq<Record>, k: int, f: int)
    requires FilesGrouped(t, txtFd, rs) && FilesGrouped(u, txtFd, rs)
    requires k in t && k in u && f in t[k].ulFiles
    ensures f in u[k].ulFiles && t[k].ulFiles[f] == u[k].ulFiles[f]
  {
    assert FileGrouped(t, txtFd, rs, k, f) && FileGrouped(u, txtFd, rs, k, f);
    hide Places, FileOf;
    var i: nat :| Places(txtFd, rs, i, k, f);
    var j := FirstExists(txtFd, rs, i, k, f);
  }

  lemma SameProc(t: Table, u: Table, txtFd: nat, rs: seq<Record>, k: int)
    requires IsGrouping(t, txtFd, rs) && IsGrouping(u, txtFd, rs)
    requires k in t && k in u
    ensures t[k] == u[k]
  {
    hide Places, FirstPlaced, FileOf, FilesGrouped, PidAttrs, U32;
    forall f ensures f in t[k].ulFiles <==> f in u[k].ulFiles {
      if f in t[k].ulFiles {
        SameFile(t, u, txtFd, rs, k, f);
      } else if f in u[k].ulFiles {
        SameFile(u, t, txtFd, rs, k, f);
      }
    }
    forall f | f in t[k].ulFiles ensures t[k].ulFiles[f] == u[k].ulFiles[f] {
      SameFile(t, u, txtFd, rs, k, f);
    }
    assert t[k].ulFiles == u[k].ulFiles;
  }

  /** The description is complete: no two tables fit one stream. */
  lemma GroupingUnique(t: Table, u: Table, txtFd: nat, rs: seq<Record>)
    requires IsGrouping(t, txtFd, rs) && IsGrouping(u, txtFd, rs)
    ensures t == u
  {
    hide FilesGrouped, PidAttrs, IsPidRecord, U32;
    forall k | k in t && k in u ensures t[k] == u[k] {
      SameProc(t, u, txtFd, rs, k);
    }
    assert forall k :: k in t <==> k in u;
  }

  // ----- the loop builds it -----

  lemma PlacesInPrefix(txtFd: nat, rs: seq<Record>, n: nat, i: nat, k: int, f: int)
    requires i < n <= |rs|
    ensures Places(txtFd, rs[..n], i, k, f) <==> Places(txtFd, rs, i, k, f)
    ensures IsPidRecord(rs[..n], i, k) <==> IsPidRecord(rs, i, k)
    ensures FidOf(txtFd, rs[..n], i) == FidOf(txtFd, rs, i)
  {
    PrefixOfPrefix(rs, n, i);
    assert rs[..n][i] == rs[i];
  }

  lemma AllPlacesInPrefix(txtFd: nat, rs: seq<Record>)
    requires rs != []
    ensures var n := |rs| - 1;
            && (forall i: nat, k, f :: i < n ==> (Places(txtFd, rs[..n], i, k, f) <==> Places(txtFd, rs, i, k, f)))
            && (forall i: nat, k :: i < n ==> (IsPidRecord(rs[..n], i, k) <==> IsPidRecord(rs, i, k)))
            && (forall i: nat :: i < n ==> FidOf(txtFd, rs[..n], i) == FidOf(txtFd, rs, i))
  {
    var n := |rs| - 1;
    forall i: nat, k, f | i < n
      ensures Places(txtFd, rs[..n], i, k, f) <==> Places(txtFd, rs, i, k, f)
    {
      PlacesInPrefix(txtFd, rs, n, i, k, f);
    }
    forall i: nat | i < n ensures FidOf(txtFd, rs[..n], i) == FidOf(txtFd, rs, i) {
      PlacesInPrefix(txtFd, rs, n, i, 0, 0);
    }
  }

  lemma {:induction false} LastFilePlaced(txtFd: nat, rs: seq<Record>)
    requires LastFile(txtFd, rs).Some?
    ensures var (k, f) := LastFile(txtFd, rs).value; Placed(txtFd, rs, k, f)
  {
    var n := |rs| - 1;
    var (k, f) := LastFile(txtFd, rs).value;
    if rs[n].tag == TAG_FD {
      assert Places(txtFd, rs, n, k, f);
    } else {
      LastFilePlaced(txtFd, rs[..n]);
      var i: nat :| Places(txtFd, rs[..n], i, k, f);
      PlacesInPrefix(txtFd, rs, n, i, k, f);
    }
  }

  /** Only files that exist have flags. */
  lemma {:induction false} FlagsOnlyWhenPlaced(txtFd: nat, rs: seq<Record>, k: int, f: int)
    ensures FlagAttrs(txtFd, rs, k, f) != [] ==> Placed(txtFd, rs, k, f)
  {
    if rs != [] {
      var n := |rs| - 1;
      FlagsOnlyWhenPlaced(txtFd, rs[..n], k, f);
      if LastFile(txtFd, rs[..n]) == Some((k, f)) {
        LastFilePlaced(txtFd, rs[..n]);
      }
      if Placed(txtFd, rs[..n], k, f) {
        var i: nat :| Places(txtFd, rs[..n], i, k, f);
        PlacesInPrefix(txtFd, rs, n, i, k, f);
      }
    }
  }

  /** Only a process record changes which processes there are, and their own fields. */
  lemma StepOutsidePid(txtFd: nat, s: Scan, r: Record)
    requires Ready(s, r) && r.tag != TAG_PID
    ensures var t, t' := s.table, Step(txtFd, s, r).table;
            && t'.Keys == t.Keys
            && forall k :: k in t ==> t'[k].pid == t[k].pid && t'[k].attributes == t[k].attributes
  {
    hide Atoi, FileKey, NewFile, U64;
  }

  lemma {:induction false} NoPidAttrs(rs: seq<Record>, k: int)
    requires !exists i: nat :: IsPidRecord(rs, i, k)
    ensures PidAttrs(rs, k) == []
  {
    hide Atoi;
    if rs != [] {
      var n := |rs| - 1;
      assert !IsPidRecord(rs, n, k);
      forall i: nat ensures !IsPidRecord(rs[..n], i, k) {
        assert !IsPidRecord(rs, i, k);
      }
      NoPidAttrs(rs[..n], k);
    }
  }

  lemma PidRecordsSnoc(rs: seq<Record>, k: int)
    requires rs != []
    ensures var n := |rs| - 1;
            (exists i: nat :: IsPidRecord(rs, i, k)) <==>
            (exists i: nat :: IsPidRecord(rs[..n], i, k)) || IsPidRecord(rs, n, k)
  {
    var n := |rs| - 1;
    if i: nat :| IsPidRecord(rs[..n], i, k) {
      assert IsPidRecord(rs, i, k);
    } else if i: nat :| IsPidRecord(rs, i, k) {
      assert i == n || IsPidRecord(rs[..n], i, k);
    }
  }

  lemma ProcsAfterPid(txtFd: nat, s: Scan, rs: seq<Record>)
    requires rs != [] && Linked(s) && rs[|rs| - 1].tag == TAG_PID
    requires ProcsGrouped(s.table, rs[..|rs| - 1])
    ensures ProcsGrouped(StepPid(s, rs[|rs| - 1].value).table, rs)
  {
    hide Atoi;
    var n := |rs| - 1;
    var t, t', k0 := s.table, StepPid(s, rs[n].value).table, Atoi(rs[n].value);
    assert t'.Keys == t.Keys + {k0};
    forall k ensures k in t' <==> exists i: nat :: IsPidRecord(rs, i, k) {
      PidRecordsSnoc(rs, k);
    }
    if k0 !in t {
      NoPidAttrs(rs[..n], k0);
    }
  }

  /** Processes: every step keeps their grouping. */
  lemma {:induction false} ProcsGroupedHolds(txtFd: nat, rs: seq<Record>)
    requires WellFormed(rs)
    ensures ProcsGrouped(Run(map[], txtFd, rs).table, rs)
  {
    hide Atoi, FileKey, NewFile, FidOf, U64, U32, StepFile, StepFlags, StepPid, WellFormed, LastProc, HasFile;
    if rs != [] {
      var n := |rs| - 1;
      var r := rs[n];
      assert rs == rs[..n] + [r];
      RunSnoc(map[], txtFd, rs[..n], r);
      ProcsGroupedHolds(txtFd, rs[..n]);
      var s := Run(map[], txtFd, rs[..n]);
      if r.tag == TAG_PID {
        ProcsAfterPid(txtFd, s, rs);
      } else {
        StepOutsidePid(txtFd, s, r);
        forall k ensures k in s.table <==> exists i: nat :: IsPidRecord(rs, i, k) {
          PidRecordsSnoc(rs, k);
        }
      }
    }
  }

  /** A place with an earlier record is not affected by a later one, but for its flags. */
  lemma PlacedSnoc(txtFd: nat, rs: seq<Record>, k: int, f: int)
    requires rs != []
    ensures var n := |rs| - 1;
            && (Placed(txtFd, rs, k, f) <==> Placed(txtFd, rs[..n], k, f) || Places(txtFd, rs, n, k, f))
            && (forall i: nat :: FirstPlaced(txtFd, rs, i, k, f) <==>
                  if i < n then FirstPlaced(txtFd, rs[..n], i, k, f)
                  else i == n && Places(txtFd, rs, n, k, f) && !Placed(txtFd, rs[..n], k, f))
  {
    var n := |rs| - 1;
    AllPlacesInPrefix(txtFd, rs);
    hide LastProc, FidOf, FileKey;
    assert forall i: nat :: Places(txtFd, rs[..n], i, k, f) ==> i < n;
    if i: nat :| Places(txtFd, rs, i, k, f) && i < n {
      assert Places(txtFd, rs[..n], i, k, f);
    }
    if i: nat :| Places(txtFd, rs[..n], i, k, f) {
      assert Places(txtFd, rs, i, k, f);
    }
  }

  lemma FileAfterFile(txtFd: nat, s: Scan, rs: seq<Record>, k: int, f: int)
    requires rs != [] && Linked(s) && rs[|rs| - 1].tag == TAG_FD
    requires s.cur.Some? && s.cur == LastProc(rs[..|rs| - 1])
    requires s.counter == U64(txtFd + 1 + TxtCount(rs[..|rs| - 1]))
    requires FileGrouped(s.table, txtFd, rs[..|rs| - 1], k, f)
    ensures FileGrouped(StepFile(txtFd, s, rs[|rs| - 1].value).table, txtFd, rs, k, f)
  {
    hide Atoi, U64, FileKey, FormPath, U32;
    var n := |rs| - 1;
    PlacedSnoc(txtFd, rs, k, f);
    FlagsOnlyWhenPlaced(txtFd, rs[..n], k, f);
    assert FlagAttrs(txtFd, rs, k, f) == FlagAttrs(txtFd, rs[..n], k, f);
    forall i: nat | i < n ensures FidOf(txtFd, rs[..n], i) == FidOf(txtFd, rs, i) {
      PlacesInPrefix(txtFd, rs, n, i, k, f);
    }
  }

  lemma FileAfterOther(txtFd: nat, s: Scan, rs: seq<Record>, k: int, f: int)
    requires rs != [] && Ready(s, rs[|rs| - 1]) && rs[|rs| - 1].tag != TAG_FD
    requires s.file == LastFile(txtFd, rs[..|rs| - 1])
    requires FileGrouped(s.table, txtFd, rs[..|rs| - 1], k, f)
    ensures FileGrouped(Step(txtFd, s, rs[|rs| - 1]).table, txtFd, rs, k, f)
  {
    hide Atoi, U64, FileKey, FormPath, U32;
    var n := |rs| - 1;
    PlacedSnoc(txtFd, rs, k, f);
    forall i: nat | i < n ensures FidOf(txtFd, rs[..n], i) == FidOf(txtFd, rs, i) {
      PlacesInPrefix(txtFd, rs, n, i, k, f);
    }
  }

  /** Files: every step keeps their grouping. */
  lemma {:induction false} FilesGroupedHolds(txtFd: nat, rs: seq<Record>)
    requires WellFormed(rs)
    ensures FilesGrouped(Run(map[], txtFd, rs).table, txtFd, rs)
  {
    hide Atoi, FileKey, NewFile, FidOf, U64, U32, StepFile, StepFlags, StepPid, FileGrouped;
    if rs == [] {
      forall k, f ensures FileGrouped(map[], txtFd, rs, k, f) {
        NothingPlaced(txtFd, k, f);
      }
    } else {
      var n := |rs| - 1;
      var r := rs[n];
      WellFormedPrefix(rs, n);
      FilesGroupedHolds(txtFd, rs[..n]);
      var s := Run(map[], txtFd, rs[..n]);
      RunPointers(map[], txtFd, rs[..n]);
      forall k, f ensures FileGrouped(Run(map[], txtFd, rs).table, txtFd, rs, k, f) {
        if r.tag == TAG_FD {
          FileAfterFile(txtFd, s, rs, k, f);
        } else {
          FileAfterOther(txtFd, s, rs, k, f);
        }
      }
    }
  }

  lemma NothingPlaced(txtFd: nat, k: int, f: int)
    ensures FileGrouped(map[], txtFd, [], k, f)
  {
  }

  /** The loop's final map is the declarative grouping of its stream. */
  lemma GroupingHolds(txtFd: nat, rs: seq<Record>)
    requires WellFormed(rs)
    ensures IsGrouping(Run(map[], txtFd, rs).table, txtFd, rs)
  {
    ProcsGroupedHolds(txtFd, rs);
    FilesGroupedHolds(txtFd, rs);
  }

  /** Every file object carries the 32-bit pid and id of its two enclosing keys, every process
      object the pid of its key and at least one PID attribute. */
  lemma IdentityHolds(txtFd: nat, rs: seq<Record>, k: int)
    requires WellFormed(rs)
    requires k in Run(map[], txtFd, rs).table
    ensures var p := Run(map[], txtFd, rs).table[k];
            && p.pid == U32(k) && IsInt32(k) && p.attributes == PidAttrs(rs, k) != []
            && forall f :: f in p.ulFiles ==> p.ulFiles[f].pid == U32(k) && p.ulFiles[f].fid == U32(f)
  {
    var t := Run(map[], txtFd, rs).table;
    GroupingHolds(txtFd, rs);
    var i: nat :| IsPidRecord(rs, i, k);
    PidAttrsNonEmpty(rs, i, k);
    forall f | f in t[k].ulFiles ensures t[k].ulFiles[f].pid == U32(k) && t[k].ulFiles[f].fid == U32(f) {
      assert FileGrouped(t, txtFd, rs, k, f);
      var j: nat :| Places(txtFd, rs, j, k, f);
      var j' := FirstExists(txtFd, rs, j, k, f);
      NarrowingChain(FidOf(txtFd, rs, j'));
      NarrowingChain(U32(FidOf(txtFd, rs, j')));
      NarrowingChain(k);
    }
  }

  lemma {:induction false} PidAttrsNonEmpty(rs: seq<Record>, i: nat, k: int)
    requires IsPidRecord(rs, i, k)
    ensures PidAttrs(rs, k) != []
  {
    hide Atoi;
    var n := |rs| - 1;
    if i < n {
      assert IsPidRecord(rs[..n], i, k);
      PidAttrsNonEmpty(rs[..n], i, k);
    }
  }
}
