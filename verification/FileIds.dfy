/** File ids over whole runs: synthetic ids never collide, nothing that should be stored is lost,
    and the /proc path survives the narrowing of its id to an `int` key and back. */
module FileIds {
  import opened Common
  import opened Numerals
  import opened LsofStream
  import opened Paths
  import opened Files
  import opened LsofReader
  import opened LsofGrouping

  // ----- the first synthetic id -----

  /** `init_TxtFD`: one more than the hard descriptor limit, in 64 bits; in the error branch
      `UINT_MAX+1`, an `unsigned int` sum that wraps to 0. */
  function InitTxtFd(limit: Option<nat>): (txtFd: nat) {
    match limit
    case Some(max) => U64(max + 1)
    case None => U32(0xFFFF_FFFF + 1)
  }

  const RLIM_INFINITY: nat := 0xFFFF_FFFF_FFFF_FFFF

  /** The largest descriptor a limit allows is at most the bound exactly when the limit is not
      infinite; with an infinite or unknown limit the bound is 0. */
  lemma InitTxtFdBounds(max: nat)
    requires max <= RLIM_INFINITY
    ensures max - 1 <= InitTxtFd(Some(max)) <==> max != RLIM_INFINITY
    ensures InitTxtFd(Some(RLIM_INFINITY)) == InitTxtFd(None) == 0
  {
  }

  /** So for a finite limit that bounds the real descriptors, the assumption below (`Fits`) comes to the
      limit and the number of txt records being small. */
  lemma LimitFits(max: nat, rs: seq<Record>)
    requires max < RLIM_INFINITY
    requires forall i :: 0 <= i < |rs| && IsReal(rs[i]) ==> 0 <= Atoi(rs[i].value) < max
    ensures Fits(InitTxtFd(Some(max)), rs) <==> max + 1 + TxtCount(rs) < 0x8000_0000
  {
    hide Atoi, TxtCount;
    assert U64(max + 1) == max + 1;
    hide U64;
  }

  // ----- keys -----

  predicate IsReal(r: Record) { r.tag == TAG_FD && r.value != "txt" }

  /** Every real descriptor is below the synthetic ids, and these stay within `int`. */
  ghost predicate Fits(txtFd: nat, rs: seq<Record>) {
    && txtFd + TxtCount(rs) < 0x8000_0000
    && forall i :: 0 <= i < |rs| && IsReal(rs[i]) ==> 0 <= Atoi(rs[i].value) <= txtFd
  }

  lemma TxtCountSnoc(rs: seq<Record>, n: nat)
    requires 0 < n <= |rs|
    ensures TxtCount(rs[..n]) == TxtCount(rs[..n - 1]) + if IsTxt(rs[n - 1]) then 1 else 0
  {
    assert rs[..n][..n - 1] == rs[..n - 1];
  }

  lemma {:induction false} TxtCountGrows(rs: seq<Record>, i: nat, n: nat)
    requires i < n <= |rs|
    ensures TxtCount(rs[..i]) + (if IsTxt(rs[i]) then 1 else 0) <= TxtCount(rs[..n])
  {
    assert rs[..n][..n - 1] == rs[..n - 1];
    if i < n - 1 {
      TxtCountGrows(rs, i, n - 1);
    }
  }

  lemma {:induction false} NthTxt(rs: seq<Record>, c: nat) returns (i: nat)
    requires c < TxtCount(rs)
    ensures i < |rs| && IsTxt(rs[i]) && TxtCount(rs[..i]) == c
  {
    var n := |rs| - 1;
    if c < TxtCount(rs[..n]) {
      i := NthTxt(rs[..n], c);
      PrefixOfPrefix(rs, n, i);
    } else {
      i := n;
    }
  }

  /** The keys of txt records are the numbers from txtFd + 1 on; those of real ones are what was read. */
  lemma KeysUnderFits(txtFd: nat, rs: seq<Record>, i: nat)
    requires Fits(txtFd, rs) && i < |rs| && rs[i].tag == TAG_FD
    ensures var fid := FidOf(txtFd, rs, i);
            && FileKey(fid) == fid < 0x8000_0000
            && fid == (if IsTxt(rs[i]) then txtFd + 1 + TxtCount(rs[..i]) else Atoi(rs[i].value))
            && (fid > txtFd <==> IsTxt(rs[i]))
  {
    hide Atoi;
    assert rs[..|rs|] == rs;
    TxtCountGrows(rs, i, |rs|);
    assert IsTxt(rs[i]) || IsReal(rs[i]);
  }

  /** The process record that file record i belongs to. */
  ghost function Owner(rs: seq<Record>, i: nat): (k: int)
    requires i <= |rs|
  {
    match LastProc(rs[..i]) case None => 0 case Some(k) => k
  }

  /** The key of file record i, read off the stream: the next synthetic number, or the descriptor. */
  ghost function KeyAt(txtFd: nat, rs: seq<Record>, i: nat): (f: int)
    requires i < |rs|
  {
    if IsTxt(rs[i]) then I32(txtFd + 1 + TxtCount(rs[..i])) else Atoi(rs[i].value)
  }

  lemma KeyAtIsFileKey(txtFd: nat, rs: seq<Record>, i: nat)
    requires i < |rs|
    ensures FileKey(FidOf(txtFd, rs, i)) == KeyAt(txtFd, rs, i)
  {
    hide Atoi;
    NarrowingChain(txtFd + 1 + TxtCount(rs[..i]));
    NarrowingChain(FidOf(txtFd, rs, i));
    NarrowingChain(Atoi(rs[i].value));
  }

  lemma SameU32(x: int, y: int)
    ensures U32(x) == U32(y) <==> (y - x) % 0x1_0000_0000 == 0
  {
    var z := y - x;
    var d := y / 0x1_0000_0000 - x / 0x1_0000_0000 - z / 0x1_0000_0000;
    assert 0x1_0000_0000 * d == z % 0x1_0000_0000 - (U32(y) - U32(x));
  }

  lemma SameU64(x: int, y: int)
    ensures U64(x) == U64(y) <==> (y - x) % 0x1_0000_0000_0000_0000 == 0
  {
    var z := y - x;
    var d := y / 0x1_0000_0000_0000_0000 - x / 0x1_0000_0000_0000_0000 - z / 0x1_0000_0000_0000_0000;
    assert 0x1_0000_0000_0000_0000 * d == z % 0x1_0000_0000_0000_0000 - (U64(y) - U64(x));
  }

  lemma SameI32(x: int, y: int)
    ensures I32(x) == I32(y) <==> (y - x) % 0x1_0000_0000 == 0
  {
    NarrowingChain(x);
    NarrowingChain(y);
    SameU32(x, y);
    hide I32;
  }

  /** The numbers that txt records i and j are given, before they are cut. */
  lemma TxtNumbers(txtFd: nat, rs: seq<Record>, i: nat, j: nat) returns (x: nat, y: nat)
    requires i < j < |rs| && IsTxt(rs[i]) && IsTxt(rs[j])
    ensures FidOf(txtFd, rs, i) == U64(x) && KeyAt(txtFd, rs, i) == I32(x)
    ensures FidOf(txtFd, rs, j) == U64(y) && KeyAt(txtFd, rs, j) == I32(y)
    ensures x == txtFd + 1 + TxtCount(rs[..i]) && y == txtFd + 1 + TxtCount(rs[..j])
    ensures txtFd < x < y <= txtFd + TxtCount(rs)
  {
    hide I32, U64;
    x, y := txtFd + 1 + TxtCount(rs[..i]), txtFd + 1 + TxtCount(rs[..j]);
    assert rs[..|rs|] == rs;
    TxtCountGrows(rs, i, j);
    TxtCountGrows(rs, j, |rs|);
  }

  /** Two synthetic ids, or their keys, are equal exactly when a multiple of 2^64, or of 2^32, txt
      records lies between; they grow as long as the counter fits. */
  lemma TxtIdsDistinct(txtFd: nat, rs: seq<Record>, i: nat, j: nat)
    requires i < j < |rs| && IsTxt(rs[i]) && IsTxt(rs[j])
    ensures var between := TxtCount(rs[..j]) - TxtCount(rs[..i]);
            && (FidOf(txtFd, rs, i) == FidOf(txtFd, rs, j) <==> between % 0x1_0000_0000_0000_0000 == 0)
            && (KeyAt(txtFd, rs, i) == KeyAt(txtFd, rs, j) <==> between % 0x1_0000_0000 == 0)
    ensures txtFd + TxtCount(rs) < 0x1_0000_0000_0000_0000 ==> FidOf(txtFd, rs, i) < FidOf(txtFd, rs, j)
  {
    hide FidOf, KeyAt, I32, TxtCount;
    var x, y := TxtNumbers(txtFd, rs, i, j);
    SameU64(x, y);
    SameI32(x, y);
  }

  /** The txt keys grow along the stream ... */
  ghost predicate TxtKeysGrow(txtFd: nat, rs: seq<Record>) {
    forall i: nat, j: nat :: i < j < |rs| && IsTxt(rs[i]) && IsTxt(rs[j]) ==> KeyAt(txtFd, rs, i) < KeyAt(txtFd, rs, j)
  }

  lemma IntAtMost(y: int)
    requires -0x8000_0000 <= y <= 0x8000_0000
    ensures I32(y) == if y < 0x8000_0000 then y else -0x8000_0000
  {
    NarrowingChain(y);
  }

  lemma KeyFrom(x: int, c: nat)
    requires I32(x) + c <= 0x8000_0000
    ensures I32(x + c) == if I32(x) + c < 0x8000_0000 then I32(x) + c else -0x8000_0000
  {
    NarrowingChain(x);
    SameU32(I32(x), x);
    SameI32(I32(x) + c, x + c);
    assert (x + c) - (I32(x) + c) == x - I32(x);
    IntAtMost(I32(x) + c);
    hide I32, U32;
  }

  lemma ConsecutiveTxts(rs: seq<Record>, c: nat) returns (i: nat, j: nat)
    requires 0 < c < TxtCount(rs)
    ensures i < j < |rs| && IsTxt(rs[i]) && IsTxt(rs[j])
    ensures TxtCount(rs[..i]) == c - 1 && TxtCount(rs[..j]) == c
  {
    i := NthTxt(rs, c - 1);
    j := NthTxt(rs, c);
    hide TxtCount;
    if j < i {
      TxtCountGrows(rs, j, i);
    }
  }

  lemma KeysPassMaximum(txtFd: nat, rs: seq<Record>)
    requires I32(txtFd + 1) + TxtCount(rs) > 0x8000_0000
    ensures !TxtKeysGrow(txtFd, rs)
  {
    NarrowingChain(txtFd + 1);
    hide I32, TxtCount, KeyAt, FidOf;
    var c := 0x8000_0000 - I32(txtFd + 1);
    var i, j := ConsecutiveTxts(rs, c);
    var x, y := TxtNumbers(txtFd, rs, i, j);
    KeyFrom(txtFd + 1, c - 1);
    KeyFrom(txtFd + 1, c);
    assert KeyAt(txtFd, rs, i) > KeyAt(txtFd, rs, j);
  }

  /** ... exactly when counting on from the first one, as an `int`, does not pass the largest `int`. */
  lemma TxtKeysGrowExactly(txtFd: nat, rs: seq<Record>)
    ensures TxtKeysGrow(txtFd, rs) <==> I32(txtFd + 1) + TxtCount(rs) <= 0x8000_0000
  {
    var first := I32(txtFd + 1);
    hide I32, KeyAt, FidOf;
    if first + TxtCount(rs) <= 0x8000_0000 {
      forall i: nat, j: nat | i < j < |rs| && IsTxt(rs[i]) && IsTxt(rs[j])
        ensures KeyAt(txtFd, rs, i) < KeyAt(txtFd, rs, j)
      {
        var x, y := TxtNumbers(txtFd, rs, i, j);
        hide TxtCount;
        KeyFrom(txtFd + 1, x - txtFd - 1);
        KeyFrom(txtFd + 1, y - txtFd - 1);
      }
    } else {
      KeysPassMaximum(txtFd, rs);
    }
  }

  /** A txt record's key exceeds those of the real records and of earlier txt records ... */
  ghost predicate TxtKeysLast(txtFd: nat, rs: seq<Record>) {
    forall i: nat, j: nat :: i < |rs| && j < |rs| && IsTxt(rs[j]) && (IsReal(rs[i]) || (IsTxt(rs[i]) && i < j)) ==>
      KeyAt(txtFd, rs, i) < KeyAt(txtFd, rs, j)
  }

  /** ... exactly when the first one exceeds every real descriptor and counting on from it stays in an `int`. */
  ghost predicate RoomAbove(txtFd: nat, rs: seq<Record>) {
    TxtCount(rs) > 0 ==>
      && I32(txtFd + 1) + TxtCount(rs) <= 0x8000_0000
      && forall i :: 0 <= i < |rs| && IsReal(rs[i]) ==> Atoi(rs[i].value) < I32(txtFd + 1)
  }

  lemma TxtKeyAtLeastFirst(txtFd: nat, rs: seq<Record>, j: nat)
    requires j < |rs| && IsTxt(rs[j]) && I32(txtFd + 1) + TxtCount(rs) <= 0x8000_0000
    ensures TxtCount(rs) > 0 && KeyAt(txtFd, rs, j) == I32(txtFd + 1) + TxtCount(rs[..j])
  {
    hide I32, Atoi, TxtCount;
    assert rs[..|rs|] == rs;
    TxtCountGrows(rs, j, |rs|);
    KeyFrom(txtFd + 1, TxtCount(rs[..j]));
  }

  lemma TxtKeysLastExactly(txtFd: nat, rs: seq<Record>)
    ensures TxtKeysLast(txtFd, rs) <==> RoomAbove(txtFd, rs)
  {
    hide I32, Atoi, TxtCount;
    TxtKeysGrowExactly(txtFd, rs);
    if RoomAbove(txtFd, rs) && TxtCount(rs) > 0 {
      forall i: nat, j: nat | i < |rs| && j < |rs| && IsTxt(rs[j]) && IsReal(rs[i])
        ensures KeyAt(txtFd, rs, i) < KeyAt(txtFd, rs, j)
      {
        TxtKeyAtLeastFirst(txtFd, rs, j);
      }
    } else if RoomAbove(txtFd, rs) {
      forall j: nat | j < |rs| ensures !IsTxt(rs[j]) {
        NoTxt(rs, j);
      }
    }
    if TxtKeysLast(txtFd, rs) && TxtCount(rs) > 0 {
      var j := NthTxt(rs, 0);
      assert TxtKeysGrow(txtFd, rs) && KeyAt(txtFd, rs, j) == I32(txtFd + 1);
      forall i | 0 <= i < |rs| && IsReal(rs[i]) ensures Atoi(rs[i].value) < I32(txtFd + 1) {
        assert KeyAt(txtFd, rs, i) < KeyAt(txtFd, rs, j);
      }
    }
  }

  lemma NoTxt(rs: seq<Record>, j: nat)
    requires j < |rs| && TxtCount(rs) == 0
    ensures !IsTxt(rs[j])
  {
    assert rs[..|rs|] == rs;
    TxtCountGrows(rs, j, |rs|);
  }

  // ----- which keys are recognised as synthetic -----

  /** The path formed later from a file record's key, for stat, names the executable exactly for the
      txt records ... */
  ghost predicate AllRecomputed(txtFd: nat, rs: seq<Record>) {
    forall i, pid: nat :: 0 <= i < |rs| && rs[i].tag == TAG_FD ==>
      (EndsInExe(FormPath(txtFd, pid, U32(KeyAt(txtFd, rs, i)))) <==> IsTxt(rs[i]))
  }

  /** ... exactly when every real descriptor is, in 32 bits, at most txtFd and the counter stays in them. */
  ghost predicate SeparatedKeys(txtFd: nat, rs: seq<Record>) {
    && (forall i :: 0 <= i < |rs| && IsReal(rs[i]) ==> U32(Atoi(rs[i].value)) <= txtFd)
    && (TxtCount(rs) > 0 ==> txtFd + TxtCount(rs) < 0x1_0000_0000)
  }

  lemma KeyBits(txtFd: nat, rs: seq<Record>, i: nat)
    requires i < |rs|
    ensures U32(KeyAt(txtFd, rs, i)) == U32(if IsTxt(rs[i]) then txtFd + 1 + TxtCount(rs[..i]) else Atoi(rs[i].value))
  {
    NarrowingChain(txtFd + 1 + TxtCount(rs[..i]));
    hide Atoi, TxtCount;
  }

  lemma KeysSeparated(txtFd: nat, rs: seq<Record>, i: nat)
    requires SeparatedKeys(txtFd, rs) && i < |rs| && rs[i].tag == TAG_FD
    ensures U32(KeyAt(txtFd, rs, i)) > txtFd <==> IsTxt(rs[i])
  {
    hide Atoi, KeyAt;
    KeyBits(txtFd, rs, i);
    assert rs[..|rs|] == rs;
    TxtCountGrows(rs, i, |rs|);
    assert IsTxt(rs[i]) || IsReal(rs[i]);
  }

  lemma RecomputedExactly(txtFd: nat, rs: seq<Record>)
    ensures AllRecomputed(txtFd, rs) <==> SeparatedKeys(txtFd, rs)
  {
    hide Atoi, FormPath, EndsInExe, KeyAt;
    if SeparatedKeys(txtFd, rs) {
      forall i, pid: nat | 0 <= i < |rs| && rs[i].tag == TAG_FD
        ensures EndsInExe(FormPath(txtFd, pid, U32(KeyAt(txtFd, rs, i)))) <==> IsTxt(rs[i])
      {
        FormPathKind(txtFd, pid, U32(KeyAt(txtFd, rs, i)));
        KeysSeparated(txtFd, rs, i);
      }
    }
    if AllRecomputed(txtFd, rs) {
      forall i: nat | i < |rs| && rs[i].tag == TAG_FD ensures U32(KeyAt(txtFd, rs, i)) > txtFd <==> IsTxt(rs[i]) {
        FormPathKind(txtFd, 0, U32(KeyAt(txtFd, rs, i)));
        assert EndsInExe(FormPath(txtFd, 0, U32(KeyAt(txtFd, rs, i)))) <==> IsTxt(rs[i]);
      }
      forall i | 0 <= i < |rs| && IsReal(rs[i]) ensures U32(Atoi(rs[i].value)) <= txtFd {
        KeyBits(txtFd, rs, i);
      }
      var c := if txtFd < 0x1_0000_0000 then 0x1_0000_0000 - 1 - txtFd else 0;
      if c < TxtCount(rs) {
        var i := NthTxt(rs, c);
        KeyBits(txtFd, rs, i);
      }
    }
  }

  /** Stat is asked, for every file record, about its own descriptor, or the executable for txt ... */
  ghost predicate AllAsked(txtFd: nat, rs: seq<Record>) {
    forall i, pid: nat :: 0 <= i < |rs| && rs[i].tag == TAG_FD ==>
      ReadPath(FormPath(txtFd, pid, U32(KeyAt(txtFd, rs, i)))) ==
      Some((pid, if rs[i].value == "txt" then None else Some(Atoi(rs[i].value) % 0x1_0000_0000)))
  }

  lemma AskedForRecord(txtFd: nat, rs: seq<Record>, i: nat, pid: nat)
    requires i < |rs| && rs[i].tag == TAG_FD
    ensures (U32(KeyAt(txtFd, rs, i)) > txtFd <==> IsTxt(rs[i])) <==>
            ReadPath(FormPath(txtFd, pid, U32(KeyAt(txtFd, rs, i)))) ==
            Some((pid, if rs[i].value == "txt" then None else Some(Atoi(rs[i].value) % 0x1_0000_0000)))
  {
    hide Atoi, KeyAt, FormPath, ReadPath, TxtCount;
    var f := U32(KeyAt(txtFd, rs, i));
    PathReadsBack(FormPath(txtFd, pid, f), txtFd, pid, f);
    KeyBits(txtFd, rs, i);
  }

  /** ... under the same exact condition. */
  lemma AskedExactly(txtFd: nat, rs: seq<Record>)
    ensures AllAsked(txtFd, rs) <==> SeparatedKeys(txtFd, rs)
  {
    hide Atoi, KeyAt, FormPath, ReadPath, EndsInExe, SeparatedKeys;
    RecomputedExactly(txtFd, rs);
    forall i, pid: nat | 0 <= i < |rs| && rs[i].tag == TAG_FD
      ensures (EndsInExe(FormPath(txtFd, pid, U32(KeyAt(txtFd, rs, i)))) <==> IsTxt(rs[i])) <==>
              ReadPath(FormPath(txtFd, pid, U32(KeyAt(txtFd, rs, i)))) ==
              Some((pid, if rs[i].value == "txt" then None else Some(Atoi(rs[i].value) % 0x1_0000_0000)))
    {
      FormPathKind(txtFd, pid, U32(KeyAt(txtFd, rs, i)));
      AskedForRecord(txtFd, rs, i, pid);
    }
  }

  // ----- which records get stored -----

  /** The step for record i puts a new file object into the map. */
  ghost predicate StoresOwn(txtFd: nat, rs: seq<Record>, i: nat)
    requires WellFormed(rs) && i < |rs|
  {
    WellFormedPrefix(rs, i);
    var t := Run(map[], txtFd, rs[..i]).table;
    !(Owner(rs, i) in t && KeyAt(txtFd, rs, i) in t[Owner(rs, i)].ulFiles)
  }

  /** Two file records of one process with one key. */
  ghost predicate SamePlace(txtFd: nat, rs: seq<Record>, i: nat, j: nat)
    requires i < |rs| && j < |rs|
  {
    Owner(rs, i) == Owner(rs, j) && KeyAt(txtFd, rs, i) == KeyAt(txtFd, rs, j)
  }

  lemma PlacesByKeyAt(txtFd: nat, rs: seq<Record>, i: nat, k: int, f: int)
    requires WellFormed(rs) && i < |rs| && rs[i].tag == TAG_FD
    ensures Places(txtFd, rs, i, k, f) <==> k == Owner(rs, i) && f == KeyAt(txtFd, rs, i)
  {
    hide Atoi, FidOf, KeyAt;
    KeyAtIsFileKey(txtFd, rs, i);
  }

  /** A file record's own object is stored exactly when no earlier file record of its process has
      its key; and then it is the object the run ends with. */
  lemma OwnStoredExactly(txtFd: nat, rs: seq<Record>, i: nat)
    requires WellFormed(rs) && i < |rs| && rs[i].tag == TAG_FD
    ensures StoresOwn(txtFd, rs, i) <==>
            forall j: nat :: j < i && rs[j].tag == TAG_FD ==> !SamePlace(txtFd, rs, j, i)
    ensures StoresOwn(txtFd, rs, i) ==>
              var t, k, f := Run(map[], txtFd, rs).table, Owner(rs, i), KeyAt(txtFd, rs, i);
              k in t && f in t[k].ulFiles && t[k].ulFiles[f] == FileOf(txtFd, rs, i, k, f)
  {
    var k, f := Owner(rs, i), KeyAt(txtFd, rs, i);
    WellFormedPrefix(rs, i);
    GroupingHolds(txtFd, rs[..i]);
    GroupingHolds(txtFd, rs);
    hide Run, FileOf, KeyAt, Owner, PidAttrs, WellFormed;
    assert FileGrouped(Run(map[], txtFd, rs[..i]).table, txtFd, rs[..i], k, f);
    assert FileGrouped(Run(map[], txtFd, rs).table, txtFd, rs, k, f);
    PlacesByKeyAt(txtFd, rs, i, k, f);
    forall j: nat | j < i
      ensures Places(txtFd, rs[..i], j, k, f) <==> rs[j].tag == TAG_FD && SamePlace(txtFd, rs, j, i)
    {
      PlacesInPrefix(txtFd, rs, i, j, k, f);
      if rs[j].tag == TAG_FD {
        PlacesByKeyAt(txtFd, rs, j, k, f);
      }
    }
    hide FidOf, LastProc;
    assert Placed(txtFd, rs[..i], k, f) <==> exists j: nat :: j < i && Places(txtFd, rs[..i], j, k, f);
    forall j: nat | j < i ensures Places(txtFd, rs, j, k, f) <==> Places(txtFd, rs[..i], j, k, f) {
      PlacesInPrefix(txtFd, rs, i, j, k, f);
    }
  }

  /** No txt record is dropped when the keys tell them from others: its own file object is the one stored. */
  lemma TxtNeverDropped(txtFd: nat, rs: seq<Record>, i: nat)
    requires WellFormed(rs) && SeparatedKeys(txtFd, rs) && i < |rs| && IsTxt(rs[i])
    ensures StoresOwn(txtFd, rs, i)
    ensures var t, k, f := Run(map[], txtFd, rs).table, Owner(rs, i), KeyAt(txtFd, rs, i);
            k in t && f in t[k].ulFiles && t[k].ulFiles[f] == FileOf(txtFd, rs, i, k, f)
  {
    SeparatedApart(txtFd, rs);
    OwnStoredExactly(txtFd, rs, i);
    hide Run, FileOf, KeyAt, Owner, WellFormed, StoresOwn, SeparatedKeys;
  }

  /** Records whose text is no number share key 0, so a process keeps only the first of them. */
  lemma WordRecordsShareKey(txtFd: nat, rs: seq<Record>, i: nat, j: nat)
    requires WellFormed(rs) && i < j < |rs| && IsReal(rs[i]) && IsReal(rs[j])
    requires NoNumber(rs[i].value) && NoNumber(rs[j].value) && Owner(rs, i) == Owner(rs, j)
    ensures KeyAt(txtFd, rs, i) == KeyAt(txtFd, rs, j) == 0
    ensures !StoresOwn(txtFd, rs, j)
  {
    AtoiOfNoNumber(rs[i].value);
    AtoiOfNoNumber(rs[j].value);
    OwnStoredExactly(txtFd, rs, j);
    hide Atoi, NoNumber, StoresOwn, Owner;
    assert SamePlace(txtFd, rs, i, j);
  }

  // ----- how many files there are -----

  ghost function Stored(t: Table): set<(int, int)> {
    set k, f | k in t && f in t[k].ulFiles :: (k, f)
  }

  /** No txt record shares its place with another file record. */
  ghost predicate Apart(txtFd: nat, rs: seq<Record>) {
    forall i: nat, j: nat :: i < |rs| && j < |rs| && i != j && IsTxt(rs[i]) && rs[j].tag == TAG_FD ==>
      !SamePlace(txtFd, rs, i, j)
  }

  lemma SeparatedTxts(txtFd: nat, rs: seq<Record>, i: nat, j: nat)
    requires SeparatedKeys(txtFd, rs) && i < j < |rs| && IsTxt(rs[i]) && IsTxt(rs[j])
    ensures KeyAt(txtFd, rs, i) != KeyAt(txtFd, rs, j)
  {
    hide FidOf, KeyAt, Atoi, I32;
    var x, y := TxtNumbers(txtFd, rs, i, j);
    SameI32(x, y);
    hide TxtCount;
    assert 0 < y - x < 0x1_0000_0000;
  }

  lemma SeparatedApart(txtFd: nat, rs: seq<Record>)
    requires SeparatedKeys(txtFd, rs)
    ensures Apart(txtFd, rs)
  {
    hide Owner, KeyAt, SeparatedKeys;
    forall i: nat, j: nat | i < |rs| && j < |rs| && i != j && IsTxt(rs[i]) && rs[j].tag == TAG_FD
      ensures KeyAt(txtFd, rs, i) != KeyAt(txtFd, rs, j)
    {
      if IsTxt(rs[j]) {
        SeparatedTxts(txtFd, rs, if i < j then i else j, if i < j then j else i);
      } else {
        KeysSeparated(txtFd, rs, i);
        KeysSeparated(txtFd, rs, j);
      }
    }
  }

  ghost function PlaceOf(txtFd: nat, rs: seq<Record>, i: nat): (kf: (int, int))
    requires i < |rs|
  {
    (Owner(rs, i), KeyAt(txtFd, rs, i))
  }

  ghost function TxtPlaces(txtFd: nat, rs: seq<Record>, n: nat): set<(int, int)>
    requires n <= |rs|
  {
    set i | 0 <= i < n && IsTxt(rs[i]) :: PlaceOf(txtFd, rs, i)
  }

  /** The distinct pairs of pid and descriptor. */
  ghost function RealPairs(rs: seq<Record>): set<(int, int)> {
    set i | 0 <= i < |rs| && IsReal(rs[i]) :: (Owner(rs, i), Atoi(rs[i].value))
  }

  ghost predicate TxtsApart(txtFd: nat, rs: seq<Record>, n: nat)
    requires n <= |rs|
  {
    forall i: nat, j: nat :: i < j < n && IsTxt(rs[i]) && IsTxt(rs[j]) ==> PlaceOf(txtFd, rs, i) != PlaceOf(txtFd, rs, j)
  }

  lemma TxtPlacesSnoc(txtFd: nat, rs: seq<Record>, n: nat)
    requires 0 < n <= |rs|
    ensures var before, here := TxtPlaces(txtFd, rs, n - 1), PlaceOf(txtFd, rs, n - 1);
            && TxtPlaces(txtFd, rs, n) == (if IsTxt(rs[n - 1]) then before + {here} else before)
            && (TxtsApart(txtFd, rs, n) <==>
                  TxtsApart(txtFd, rs, n - 1) && (IsTxt(rs[n - 1]) ==> here !in before))
  {
    hide PlaceOf;
  }

  /** Txt records take as many places as there are records exactly when no two share one. */
  lemma {:induction false} TxtPlacesCount(txtFd: nat, rs: seq<Record>, n: nat)
    requires n <= |rs|
    ensures |TxtPlaces(txtFd, rs, n)| <= TxtCount(rs[..n])
    ensures |TxtPlaces(txtFd, rs, n)| == TxtCount(rs[..n]) <==> TxtsApart(txtFd, rs, n)
  {
    hide PlaceOf, IsTxt;
    if n == 0 {
      assert rs[..0] == [] && TxtPlaces(txtFd, rs, 0) == {};
    } else {
      hide TxtPlaces, TxtCount, TxtsApart;
      TxtPlacesCount(txtFd, rs, n - 1);
      TxtPlacesSnoc(txtFd, rs, n);
      TxtCountSnoc(rs, n);
    }
  }

  lemma PlacedIsTxtOrReal(txtFd: nat, rs: seq<Record>, k: int, f: int)
    requires WellFormed(rs)
    ensures Placed(txtFd, rs, k, f) <==> (k, f) in TxtPlaces(txtFd, rs, |rs|) || (k, f) in RealPairs(rs)
  {
    hide Atoi, I32, FileKey, FidOf, Owner;
    if i: nat :| Places(txtFd, rs, i, k, f) {
      PlacesByKeyAt(txtFd, rs, i, k, f);
      assert IsTxt(rs[i]) || IsReal(rs[i]);
    }
    if i :| 0 <= i < |rs| && IsTxt(rs[i]) && (k, f) == PlaceOf(txtFd, rs, i) {
      PlacesByKeyAt(txtFd, rs, i, k, f);
    }
    if i :| 0 <= i < |rs| && IsReal(rs[i]) && (k, f) == (Owner(rs, i), Atoi(rs[i].value)) {
      PlacesByKeyAt(txtFd, rs, i, k, f);
    }
  }

  /** The places stored are those of the txt records and those of the real ones. */
  lemma StoredIsTxtAndReal(txtFd: nat, rs: seq<Record>)
    requires WellFormed(rs)
    ensures Stored(Run(map[], txtFd, rs).table) == TxtPlaces(txtFd, rs, |rs|) + RealPairs(rs)
  {
    var t := Run(map[], txtFd, rs).table;
    GroupingHolds(txtFd, rs);
    hide Run, TxtPlaces, RealPairs, WellFormed;
    forall k, f ensures (k, f) in Stored(t) <==> (k, f) in TxtPlaces(txtFd, rs, |rs|) + RealPairs(rs) {
      assert FileGrouped(t, txtFd, rs, k, f);
      PlacedIsTxtOrReal(txtFd, rs, k, f);
    }
  }

  lemma ApartSplit(txtFd: nat, rs: seq<Record>)
    ensures Apart(txtFd, rs) <==> TxtsApart(txtFd, rs, |rs|) && TxtPlaces(txtFd, rs, |rs|) !! RealPairs(rs)
  {
    hide Atoi, I32, Owner;
    if Apart(txtFd, rs) {
      forall i: nat, j: nat | i < j < |rs| && IsTxt(rs[i]) && IsTxt(rs[j])
        ensures PlaceOf(txtFd, rs, i) != PlaceOf(txtFd, rs, j)
      {
        assert !SamePlace(txtFd, rs, i, j);
      }
      forall i: nat, j: nat | i < |rs| && j < |rs| && IsTxt(rs[i]) && IsReal(rs[j])
        ensures PlaceOf(txtFd, rs, i) != (Owner(rs, j), Atoi(rs[j].value))
      {
        assert !SamePlace(txtFd, rs, i, j);
      }
    }
    if TxtsApart(txtFd, rs, |rs|) && TxtPlaces(txtFd, rs, |rs|) !! RealPairs(rs) {
      forall i: nat, j: nat | i < |rs| && j < |rs| && i != j && IsTxt(rs[i]) && rs[j].tag == TAG_FD
        ensures !SamePlace(txtFd, rs, i, j)
      {
        if IsTxt(rs[j]) {
          assert PlaceOf(txtFd, rs, if i < j then i else j) != PlaceOf(txtFd, rs, if i < j then j else i);
        } else {
          assert PlaceOf(txtFd, rs, i) in TxtPlaces(txtFd, rs, |rs|);
          assert (Owner(rs, j), Atoi(rs[j].value)) in RealPairs(rs);
        }
      }
    }
  }

  lemma UnionCount<T>(a: set<T>, b: set<T>, n: nat)
    requires |a| <= n
    ensures |a + b| == n + |b| <==> |a| == n && a !! b
  {
    assert |a + b| == |a| + |b| - |a * b|;
    if a !! b {
      assert a * b == {};
    } else {
      var x :| x in a && x in b;
      assert x in a * b;
    }
  }

  /** Conservation, exactly: the stored files number the txt records plus the distinct pairs of pid
      and descriptor if and only if no txt record shares its place with another file record. */
  lemma StoredCountExactly(txtFd: nat, rs: seq<Record>)
    requires WellFormed(rs)
    ensures |Stored(Run(map[], txtFd, rs).table)| == TxtCount(rs) + |RealPairs(rs)| <==> Apart(txtFd, rs)
  {
    hide *;
    StoredIsTxtAndReal(txtFd, rs);
    TxtPlacesCount(txtFd, rs, |rs|);
    ApartSplit(txtFd, rs);
    assert rs[..|rs|] == rs;
    UnionCount(TxtPlaces(txtFd, rs, |rs|), RealPairs(rs), TxtCount(rs));
  }

  /** In particular, nothing is lost when the keys tell txt records from others. */
  lemma StoredCount(txtFd: nat, rs: seq<Record>)
    requires WellFormed(rs) && SeparatedKeys(txtFd, rs)
    ensures |Stored(Run(map[], txtFd, rs).table)| == TxtCount(rs) + |RealPairs(rs)|
  {
    SeparatedApart(txtFd, rs);
    StoredCountExactly(txtFd, rs);
  }

  // ----- paths -----

  /** A file object's path and the one formed later from its `int` keys agree exactly when the pid
      is not negative and cutting the id to 32 bits does not carry it below the synthetic ids
      (or change it, for a descriptor). */
  lemma PathThroughKeys(txtFd: nat, k: int, fid: nat)
    requires IsInt32(k)
    ensures NewFile(txtFd, U64(k), fid).path == FormPath(txtFd, U32(k), U32(FileKey(fid))) <==>
            k >= 0 && if fid > txtFd then U32(fid) > txtFd else fid < 0x1_0000_0000
  {
    hide FormPath, I32;
    assert U32(FileKey(fid)) == U32(fid) by {
      NarrowingChain(fid);
      NarrowingChain(U32(fid));
    }
    assert U64(k) == U32(k) <==> k >= 0;
    FormPathInjective(txtFd, U64(k), fid, U32(k), U32(fid));
  }

  /** Over a run that fits, a stored file keeps its path exactly when its process's pid is not
      negative; and the path is the executable's exactly when the record was a txt. */
  lemma PathsAgree(txtFd: nat, rs: seq<Record>, i: nat, k: int, f: int)
    requires WellFormed(rs) && Fits(txtFd, rs)
    requires FirstPlaced(txtFd, rs, i, k, f)
    ensures var t := Run(map[], txtFd, rs).table;
            && k in t && f in t[k].ulFiles
            && (t[k].ulFiles[f].path == FormPath(txtFd, t[k].pid, U32(f)) <==> k >= 0)
            && (EndsInExe(t[k].ulFiles[f].path) <==> IsTxt(rs[i]))
  {
    hide Atoi, FormPath, FidOf;
    var t := Run(map[], txtFd, rs).table;
    GroupingHolds(txtFd, rs);
    assert FileGrouped(t, txtFd, rs, k, f) && Placed(txtFd, rs, k, f);
    IdentityHolds(txtFd, rs, k);
    KeysUnderFits(txtFd, rs, i);
    PathThroughKeys(txtFd, k, FidOf(txtFd, rs, i));
    FormPathKind(txtFd, U64(k), FidOf(txtFd, rs, i));
  }

  /** What stat is asked about for every stored file of a run: the pid of its process record and the
      descriptor of its file record, or the executable for a txt. */
  lemma AskedForStored(txtFd: nat, rs: seq<Record>, i: nat, k: int, f: int)
    requires WellFormed(rs) && SeparatedKeys(txtFd, rs) && FirstPlaced(txtFd, rs, i, k, f)
    ensures var t := Run(map[], txtFd, rs).table;
            && k in t && f in t[k].ulFiles && Owner(rs, i) == k
            && ReadPath(FormPath(txtFd, t[k].pid, U32(f))) ==
               Some((k % 0x1_0000_0000, if rs[i].value == "txt" then None else Some(Atoi(rs[i].value) % 0x1_0000_0000)))
  {
    hide Atoi, FormPath, ReadPath, FidOf, KeyAt, Run, WellFormed, SeparatedKeys, FileOf, LastProc;
    var t := Run(map[], txtFd, rs).table;
    GroupingHolds(txtFd, rs);
    assert FileGrouped(t, txtFd, rs, k, f) && Placed(txtFd, rs, k, f);
    IdentityHolds(txtFd, rs, k);
    PlacesByKeyAt(txtFd, rs, i, k, f);
    AskedExactly(txtFd, rs);
  }

  /** Paths made during the run name the executable exactly for the txt records ... */
  ghost predicate AllClassified(txtFd: nat, rs: seq<Record>) {
    forall i, pid: nat :: 0 <= i < |rs| && rs[i].tag == TAG_FD ==>
      (EndsInExe(NewFile(txtFd, pid, FidOf(txtFd, rs, i)).path) <==> IsTxt(rs[i]))
  }

  /** ... exactly when every real descriptor is at most txtFd and the counter does not wrap. */
  ghost predicate Separated(txtFd: nat, rs: seq<Record>) {
    && (forall i :: 0 <= i < |rs| && IsReal(rs[i]) ==> U64(Atoi(rs[i].value)) <= txtFd)
    && (TxtCount(rs) > 0 ==> txtFd + TxtCount(rs) < 0x1_0000_0000_0000_0000)
  }

  lemma ClassifiedExactly(txtFd: nat, rs: seq<Record>)
    requires txtFd < 0x1_0000_0000_0000_0000
    ensures AllClassified(txtFd, rs) <==> Separated(txtFd, rs)
  {
    hide Atoi, FormPath, EndsInExe;
    if Separated(txtFd, rs) {
      forall i, pid: nat | 0 <= i < |rs| && rs[i].tag == TAG_FD
        ensures EndsInExe(NewFile(txtFd, pid, FidOf(txtFd, rs, i)).path) <==> IsTxt(rs[i])
      {
        FormPathKind(txtFd, pid, FidOf(txtFd, rs, i));
        assert rs[..|rs|] == rs;
        TxtCountGrows(rs, i, |rs|);
        assert IsTxt(rs[i]) || IsReal(rs[i]);
      }
    }
    if AllClassified(txtFd, rs) {
      forall i | 0 <= i < |rs| && IsReal(rs[i]) ensures U64(Atoi(rs[i].value)) <= txtFd {
        FormPathKind(txtFd, 0, FidOf(txtFd, rs, i));
        assert EndsInExe(NewFile(txtFd, 0, FidOf(txtFd, rs, i)).path) <==> IsTxt(rs[i]);
      }
      var c := 0x1_0000_0000_0000_0000 - 1 - txtFd;
      if c < TxtCount(rs) {
        var i := NthTxt(rs, c);
        assert EndsInExe(NewFile(txtFd, 0, FidOf(txtFd, rs, i)).path) <==> IsTxt(rs[i]);
        FormPathKind(txtFd, 0, FidOf(txtFd, rs, i));
      }
    }
  }

  const LOST_STREAM := [Record('p', "1"), Record('f', "txt"), Record('f', "1")]

  lemma SmallNumerals()
    ensures Numeral(1, 10) == "1" && Numeral(3, 10) == "3" && Numeral(12, 10) == "12"
  {
  }

  lemma SmallNumbers()
    ensures Numeral(1, 10) == "1" && Numeral(3, 10) == "3" && Numeral(12, 10) == "12"
    ensures Atoi("1") == 1 && Atoi("3") == 3 && Atoi("12") == 12
  {
    hide Atoi, Numeral;
    SmallNumerals();
    AtoiOfNumeral(1);
    AtoiOfNumeral(3);
    AtoiOfNumeral(12);
  }

  lemma LostStreamFacts()
    ensures WellFormed(LOST_STREAM) && Atoi("1") == 1
    ensures LastProc(LOST_STREAM[..1]) == LastProc(LOST_STREAM[..2]) == Some(1)
    ensures FidOf(0, LOST_STREAM, 1) == FidOf(0, LOST_STREAM, 2) == 1
  {
    var rs := LOST_STREAM;
    hide Atoi;
    SmallNumbers();
    assert rs[..1] == [rs[0]] && rs[..2] == [rs[0], rs[1]] && rs[..2][..1] == [rs[0]] && [rs[0]][..0] == [];
    assert TxtCount(rs[..1]) == 0;
    assert LastProc(rs[..1]) == Some(1) && LastProc(rs[..2]) == Some(1);
    hide LastProc, HasFile;
    forall i | 0 <= i < |rs|
      ensures rs[i].tag == TAG_FD ==> LastProc(rs[..i]).Some?
      ensures rs[i].tag != TAG_FLAGS
    {
      assert i == 0 || i == 1 || i == 2;
    }
  }

  lemma LostStreamPlaces()
    ensures FirstPlaced(0, LOST_STREAM, 1, 1, 1) && SamePlace(0, LOST_STREAM, 1, 2)
    ensures forall i: nat, f :: Places(0, LOST_STREAM, i, 1, f) ==> f == 1
    ensures KeyAt(0, LOST_STREAM, 2) == 1
  {
    assert FileKey(1) == 1;
    hide Atoi, FidOf, LastProc, WellFormed, KeyAt, Owner, FileKey;
    var rs := LOST_STREAM;
    LostStreamFacts();
    PlacesByKeyAt(0, rs, 1, 1, 1);
    PlacesByKeyAt(0, rs, 2, 1, 1);
    assert Places(0, rs, 1, 1, 1) && Places(0, rs, 2, 1, 1) && !Places(0, rs, 0, 1, 1);
  }

  lemma LostStreamTable()
    ensures WellFormed(LOST_STREAM)
    ensures var t := Run(map[], 0, LOST_STREAM).table;
            && 1 in t && t[1].ulFiles.Keys == {1} && t[1].pid == 1
            && EndsInExe(t[1].ulFiles[1].path) && EndsInExe(FormPath(0, 1, 1))
  {
    hide Atoi, Run, FormPath, FidOf, LastProc, WellFormed, PidAttrs, EndsInExe, HasFile, SamePlace;
    var rs := LOST_STREAM;
    LostStreamFacts();
    LostStreamPlaces();
    var t := Run(map[], 0, rs).table;
    GroupingHolds(0, rs);
    FormPathKind(0, 1, 1);
    assert IsPidRecord(rs, 0, 1);
    IdentityHolds(0, rs, 1);
    forall f ensures f in t[1].ulFiles <==> f == 1 {
      assert FileGrouped(t, 0, rs, 1, f);
    }
    assert FileGrouped(t, 0, rs, 1, 1);
  }

  /** What goes wrong otherwise: with an unknown or infinite limit, descriptor 1 of a process takes
      the synthetic id of its executable and is lost, and the path formed from its key is the
      executable's. */
  lemma UnknownLimitLosesFile()
    ensures var rs := LOST_STREAM;
            && WellFormed(rs)
            && var t := Run(map[], InitTxtFd(None), rs).table;
            && 1 in t && t[1].ulFiles.Keys == {1}
            && EndsInExe(t[1].ulFiles[1].path)
            && !StoresOwn(InitTxtFd(None), rs, 2)
            && IsReal(rs[2]) && EndsInExe(FormPath(InitTxtFd(None), t[1].pid, U32(KeyAt(InitTxtFd(None), rs, 2))))
  {
    LostStreamTable();
    LostStreamPlaces();
    OwnStoredExactly(0, LOST_STREAM, 2);
    hide Run, FormPath, WellFormed, EndsInExe, StoresOwn, KeyAt, SamePlace, FirstPlaced;
  }

  // ----- one run in full -----

  const SAMPLE_TEXT := "p12\nf3\nG1\n"
  const SAMPLE_STREAM := [Record('p', "12"), Record('f', "3"), Record('G', "1")]
  const SAMPLE_TABLE :=
    map[12 := ProcRec(12, [Attr(5, "12")], map[3 := FileRec("/proc/12/fd/3", 3, 12, [Attr(41, "")])])]

  lemma SampleText()
    ensures Render(SAMPLE_STREAM) == SAMPLE_TEXT
  {
    var rs := SAMPLE_STREAM;
    assert rs[1..] == [rs[1], rs[2]] && [rs[1], rs[2]][1..] == [rs[2]] && [rs[2]][1..] == [];
    assert Render([rs[2]]) == "G1\n";
    assert Render([rs[1], rs[2]]) == "f3\nG1\n";
  }

  lemma SampleReadable()
    ensures Readable(SAMPLE_STREAM)
  {
  }

  lemma SampleIsRead(buffer: string)
    ensures ReadAll(SAMPLE_TEXT, buffer) == SAMPLE_STREAM
  {
    hide ReadAll, Render, Readable, SAMPLE_TEXT, SAMPLE_STREAM;
    SampleText();
    SampleReadable();
    StreamRoundTrip(SAMPLE_STREAM, buffer);
  }

  lemma SampleNumbers()
    ensures Atoi("12") == 12 && Atoi("3") == 3 && FormPath(1024, 12, 3) == "/proc/12/fd/3"
    ensures U64(12) == U32(12) == 12 && U64(3) == U32(3) == FileKey(3) == 3
  {
    hide Atoi, Numeral;
    SmallNumbers();
  }

  lemma SampleWellFormed()
    ensures WellFormed(SAMPLE_STREAM)
    ensures WellFormed(SAMPLE_STREAM[..1]) && WellFormed(SAMPLE_STREAM[..2])
  {
    hide Atoi;
    var rs := SAMPLE_STREAM;
    assert rs[..1] == [rs[0]] && rs[..2] == [rs[0], rs[1]] && rs[..2][..1] == [rs[0]] && [rs[0]][..0] == [];
    assert LastProc([rs[0]]).Some? && HasFile(rs[..2]);
    forall i | 0 <= i < |rs|
      ensures rs[i].tag == TAG_FD ==> LastProc(rs[..i]).Some?
      ensures rs[i].tag == TAG_FLAGS ==> HasFile(rs[..i])
    {
      assert i == 0 || i == 1 || i == 2;
    }
    WellFormedPrefix(rs, 1);
    WellFormedPrefix(rs, 2);
  }

  /** A small run from lsof's text to the final map, in full. */
  lemma SampleRun(buffer: string)
    ensures WellFormed(ReadAll(SAMPLE_TEXT, buffer))
    ensures Run(map[], 1024, ReadAll(SAMPLE_TEXT, buffer)).table == SAMPLE_TABLE
  {
    hide Atoi, FormPath, ReadAll, WellFormed, LastProc, HasFile, Run, U32, U64, FileKey;
    SampleIsRead(buffer);
    SampleNumbers();
    SampleWellFormed();
    var rs := SAMPLE_STREAM;
    RunNothing(map[], 1024);
    assert [] + [rs[0]] == rs[..1] && rs[..1] + [rs[1]] == rs[..2] && rs[..2] + [rs[2]] == rs;
    RunSnoc(map[], 1024, [], rs[0]);
    var p := ProcRec(12, [Attr(5, "12")], map[]);
    var s1 := Run(map[], 1024, rs[..1]);
    assert ProcAdd(NEW_PROC, Attr(5, "12")) == p by {
      assert [] + [Attr(5, "12")] == [Attr(5, "12")];
    }
    assert s1.table == map[12 := p] && s1.cur == Some(12);
    RunSnoc(map[], 1024, rs[..1], rs[1]);
    var r := FileRec("/proc/12/fd/3", 3, 12, []);
    var s2 := Run(map[], 1024, rs[..2]);
    assert s2.table == map[12 := p.(ulFiles := map[3 := r])] && s2.file == Some((12, 3));
    RunSnoc(map[], 1024, rs[..2], rs[2]);
    var r' := r.(attributes := [Attr(41, "")]);
    assert FileAdd(r, Attr(41, "")) == r' by {
      assert [] + [Attr(41, "")] == [Attr(41, "")];
    }
    assert map[3 := r][3 := r'] == map[3 := r'];
    assert WithFileAttr(s2.table[12], 3, Attr(41, "")) == ProcRec(12, [Attr(5, "12")], map[3 := r']);
  }
}
