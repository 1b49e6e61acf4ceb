/** The device range index: an ordered map keyed by minor-number ranges under an interval comparator
    (`minor_dev_range::operator<`), and the table of such maps by major number. */
module DeviceIndex {
  import opened Common
  import opened Numerals

  datatype Range = Range(min: nat, max: nat)

  /** `a < b`: b lies entirely below a, so iteration order is descending. */
  predicate Less(a: Range, b: Range) { b.min < a.min && b.max < a.min }

  predicate Contains(r: Range, m: nat) { r.min <= m <= r.max }

  function Point(m: nat): (r: Range) { Range(m, m) }

  /** Neither key is less than the other: what an ordered map takes for the same key. */
  predicate Equivalent(a: Range, b: Range) { !Less(a, b) && !Less(b, a) }

  /** For proper ranges, equivalent keys are exactly overlapping ones. */
  lemma EquivalentIsOverlap(a: Range, b: Range)
    requires a.min <= a.max && b.min <= b.max
    ensures Equivalent(a, b) <==> exists m :: Contains(a, m) && Contains(b, m)
  {
    if Equivalent(a, b) {
      var m := if a.min >= b.min then a.min else b.min;
      assert Contains(a, m) && Contains(b, m);
    }
  }

  type Item = (Range, string)

  /** A search tree of any shape: rebalancing changes the shape but not the order of the items. */
  datatype Tree = Leaf | Node(left: Tree, range: Range, device: string, right: Tree)

  function InOrder(t: Tree): (s: seq<Item>) {
    match t
    case Leaf => []
    case Node(l, r, v, rt) => InOrder(l) + [(r, v)] + InOrder(rt)
  }

  // The map operations, section 23.2.4 of ISO/IEC 14882:2011.

  function LowerBound(t: Tree, k: Range): (e: Option<Item>) {
    match t
    case Leaf => None
    case Node(l, r, v, rt) =>
      if Less(r, k) then LowerBound(rt, k)
      else
        match LowerBound(l, k)
        case Some(e) => Some(e)
        case None => Some((r, v))
  }

  function Find(t: Tree, k: Range): (v: Option<string>) {
    match LowerBound(t, k)
    case None => None
    case Some(e) => if Less(k, e.0) then None else Some(e.1)
  }

  /** Rejects a key equivalent to one that is there. */
  function Insert(t: Tree, k: Range, v: string): (t': Tree) {
    match t
    case Leaf => Node(Leaf, k, v, Leaf)
    case Node(l, r, w, rt) =>
      if Less(k, r) then Node(Insert(l, k, v), r, w, rt)
      else if Less(r, k) then Node(l, r, w, Insert(rt, k, v))
      else t
  }

  // ----- sorted, disjoint, proper -----

  ghost predicate Proper(s: seq<Item>) { forall i :: 0 <= i < |s| ==> s[i].0.min <= s[i].0.max }

  ghost predicate Sorted(s: seq<Item>) { forall i, j :: 0 <= i < j < |s| ==> Less(s[i].0, s[j].0) }

  ghost predicate Disjoint(s: seq<Item>) {
    forall i, j, m :: 0 <= i < j < |s| && Contains(s[i].0, m) ==> !Contains(s[j].0, m)
  }

  ghost predicate Holds(s: seq<Item>, e: Item) { exists i :: 0 <= i < |s| && s[i] == e }

  ghost predicate Overlaps(s: seq<Item>, k: Range) { exists i :: 0 <= i < |s| && Equivalent(s[i].0, k) }

  lemma SortedIsDisjoint(s: seq<Item>)
    requires Sorted(s)
    ensures Disjoint(s)
  {
  }

  // ----- the linear scan -----

  function Scan(s: seq<Item>, m: nat): (v: Option<string>) {
    if s == [] then None
    else if Contains(s[0].0, m) then Some(s[0].1)
    else Scan(s[1..], m)
  }

  lemma {:induction false} ScanFinds(s: seq<Item>, m: nat)
    ensures Scan(s, m) == None <==> forall i :: 0 <= i < |s| ==> !Contains(s[i].0, m)
    ensures Disjoint(s) ==> forall i :: 0 <= i < |s| && Contains(s[i].0, m) ==> Scan(s, m) == Some(s[i].1)
  {
    if s != [] {
      ScanFinds(s[1..], m);
      assert forall i :: 0 < i < |s| ==> s[i] == s[1..][i - 1];
      if Disjoint(s) {
        assert Disjoint(s[1..]);
      }
    }
  }

  // ----- searching -----

  function FirstNotLess(s: seq<Item>, k: Range): (e: Option<Item>) {
    if s == [] then None else if Less(s[0].0, k) then FirstNotLess(s[1..], k) else Some(s[0])
  }

  lemma {:induction false} FirstNotLessConcat(a: seq<Item>, b: seq<Item>, k: Range)
    ensures FirstNotLess(a + b, k) == if FirstNotLess(a, k).Some? then FirstNotLess(a, k) else FirstNotLess(b, k)
  {
    if a == [] {
      assert a + b == b;
    } else {
      assert (a + b)[1..] == a[1..] + b;
      FirstNotLessConcat(a[1..], b, k);
    }
  }

  lemma {:induction false} AllLess(s: seq<Item>, k: Range)
    requires forall i :: 0 <= i < |s| ==> Less(s[i].0, k)
    ensures FirstNotLess(s, k) == None
  {
    if s != [] {
      AllLess(s[1..], k);
    }
  }

  lemma SortedParts(a: seq<Item>, e: Item, b: seq<Item>)
    requires Sorted(a + [e] + b) && Proper(a + [e] + b)
    ensures Sorted(a) && Sorted(b) && Proper(a) && Proper(b) && e.0.min <= e.0.max
    ensures forall i :: 0 <= i < |a| ==> Less(a[i].0, e.0)
    ensures forall i :: 0 <= i < |b| ==> Less(e.0, b[i].0)
  {
    var s := a + [e] + b;
    assert s[|a|] == e;
    assert forall i :: 0 <= i < |a| ==> s[i] == a[i];
    assert forall i :: 0 <= i < |b| ==> s[|a| + 1 + i] == b[i];
  }

  /** The descent stops at the first item, in order, that is not less than the key. */
  lemma {:induction false} LowerBoundIsFirst(t: Tree, k: Range)
    requires Sorted(InOrder(t)) && Proper(InOrder(t))
    ensures LowerBound(t, k) == FirstNotLess(InOrder(t), k)
  {
    match t
    case Leaf =>
    case Node(l, r, v, rt) =>
      var e := (r, v);
      SortedParts(InOrder(l), e, InOrder(rt));
      LowerBoundIsFirst(l, k);
      LowerBoundIsFirst(rt, k);
      FirstNotLessConcat(InOrder(l) + [e], InOrder(rt), k);
      FirstNotLessConcat(InOrder(l), [e], k);
      if Less(r, k) {
        AllLess(InOrder(l), k);
      }
  }

  /** In a sorted list, the first item not less than a point is the only one that can contain it. */
  lemma {:induction false} FirstNotLessScan(s: seq<Item>, m: nat)
    requires Sorted(s) && Proper(s)
    ensures Scan(s, m) ==
            match FirstNotLess(s, Point(m))
            case None => None
            case Some(e) => if Less(Point(m), e.0) then None else Some(e.1)
  {
    if s != [] {
      if Less(s[0].0, Point(m)) {
        FirstNotLessScan(s[1..], m);
      } else {
        ScanFinds(s, m);
        assert forall i :: 0 < i < |s| ==> Less(s[0].0, s[i].0);
      }
    }
  }

  /** The search for a point agrees with a linear scan for a range that contains it, whatever the
      shape of the tree. */
  lemma FindAgreesWithScan(t: Tree, m: nat)
    requires Sorted(InOrder(t)) && Proper(InOrder(t))
    ensures Find(t, Point(m)) == Scan(InOrder(t), m)
  {
    LowerBoundIsFirst(t, Point(m));
    FirstNotLessScan(InOrder(t), m);
  }

  // ----- inserting -----

  /** Insertion: rejected exactly on an overlap; otherwise the item goes in at one place and the
      order is kept. */
  lemma {:induction false} InsertInOrder(t: Tree, k: Range, v: string) returns (a: seq<Item>, b: seq<Item>)
    requires Sorted(InOrder(t)) && Proper(InOrder(t)) && k.min <= k.max
    ensures InOrder(t) == a + b
    ensures Overlaps(InOrder(t), k) ==> Insert(t, k, v) == t
    ensures !Overlaps(InOrder(t), k) ==> InOrder(Insert(t, k, v)) == a + [(k, v)] + b
    ensures !Overlaps(InOrder(t), k) ==> AllBelow(a, k) && AllAbove(k, b)
  {
    match t
    case Leaf =>
      a, b := [], [];
    case Node(l, r, w, rt) =>
      SortedParts(InOrder(l), (r, w), InOrder(rt));
      hide Overlaps, Sorted, Proper, AllBelow, AllAbove, Less;
      if Less(k, r) {
        a, b := InsertInOrder(l, k, v);
        InsertLeft(a, b, (r, w), InOrder(rt), k, v);
        b := b + [(r, w)] + InOrder(rt);
      } else if Less(r, k) {
        a, b := InsertInOrder(rt, k, v);
        InsertRight(InOrder(l), (r, w), a, b, k, v);
        a := InOrder(l) + [(r, w)] + a;
      } else {
        OverlapsParts(InOrder(l), (r, w), InOrder(rt), k);
        a, b := InOrder(t), [];
      }
  }

  ghost predicate AllBelow(s: seq<Item>, k: Range) { forall i :: 0 <= i < |s| ==> Less(s[i].0, k) }

  ghost predicate AllAbove(k: Range, s: seq<Item>) { forall i :: 0 <= i < |s| ==> Less(k, s[i].0) }
  /** An insertion on the left of e, among a + b, in front of u. */
  lemma InsertLeft(a: seq<Item>, b: seq<Item>, e: Item, u: seq<Item>, k: Range, v: string)
    requires Sorted(a + b + [e] + u) && Proper(a + b + [e] + u) && k.min <= k.max && Less(k, e.0)
    ensures Overlaps(a + b + [e] + u, k) <==> Overlaps(a + b, k)
    ensures a + (b + [e] + u) == a + b + [e] + u
    ensures a + [(k, v)] + (b + [e] + u) == (a + [(k, v)] + b) + [e] + u
    ensures AllAbove(k, b) ==> AllAbove(k, b + [e] + u)
  {
    SortedParts(a + b, e, u);
    OverlapsParts(a + b, e, u, k);
    NoOverlapAbove(u, e.0, k);
    hide Overlaps, Sorted, Proper;
    assert !Equivalent(e.0, k);
    hide Less, Equivalent;
  }

  /** An insertion on the right of e, among a + b, behind s. */
  lemma InsertRight(s: seq<Item>, e: Item, a: seq<Item>, b: seq<Item>, k: Range, v: string)
    requires Sorted(s + [e] + (a + b)) && Proper(s + [e] + (a + b)) && k.min <= k.max && Less(e.0, k)
    ensures Overlaps(s + [e] + (a + b), k) <==> Overlaps(a + b, k)
    ensures (s + [e] + a) + b == s + [e] + (a + b)
    ensures (s + [e] + a) + [(k, v)] + b == s + [e] + (a + [(k, v)] + b)
    ensures AllBelow(a, k) ==> AllBelow(s + [e] + a, k)
  {
    SortedParts(s, e, a + b);
    OverlapsParts(s, e, a + b, k);
    NoOverlapBelow(s, e.0, k);
    hide Overlaps, Sorted, Proper;
    assert !Equivalent(e.0, k);
    hide Less, Equivalent;
  }

  lemma OverlapsParts(a: seq<Item>, e: Item, b: seq<Item>, k: Range)
    ensures Overlaps(a + [e] + b, k) <==> Overlaps(a, k) || Equivalent(e.0, k) || Overlaps(b, k)
  {
    var s := a + [e] + b;
    assert s[|a|] == e;
    if i :| 0 <= i < |a| && Equivalent(a[i].0, k) {
      assert s[i] == a[i];
    }
    if i :| 0 <= i < |b| && Equivalent(b[i].0, k) {
      assert s[|a| + 1 + i] == b[i];
    }
    if i :| 0 <= i < |s| && Equivalent(s[i].0, k) {
      assert i < |a| ==> s[i] == a[i];
      assert i > |a| ==> s[i] == b[i - |a| - 1];
    }
  }

  lemma NoOverlapAbove(s: seq<Item>, r: Range, k: Range)
    requires Less(k, r) && r.min <= r.max && k.min <= k.max && Proper(s)
    requires forall i :: 0 <= i < |s| ==> Less(r, s[i].0)
    ensures !Overlaps(s, k) && AllAbove(k, s)
  {
  }

  lemma NoOverlapBelow(s: seq<Item>, r: Range, k: Range)
    requires Less(r, k) && r.min <= r.max && k.min <= k.max && Proper(s)
    requires forall i :: 0 <= i < |s| ==> Less(s[i].0, r)
    ensures !Overlaps(s, k) && AllBelow(s, k)
  {
  }

  function InsertAll(items: seq<Item>): (t: Tree) {
    if items == [] then Leaf
    else
      var n := |items| - 1;
      Insert(InsertAll(items[..n]), items[n].0, items[n].1)
  }

  /** The items accepted, in the order they came: each one that overlaps no earlier accepted one. */
  ghost function Kept(items: seq<Item>): (s: seq<Item>) {
    if items == [] then []
    else
      var n := |items| - 1;
      var before := Kept(items[..n]);
      if Overlaps(before, items[n].0) then before else before + [items[n]]
  }

  ghost predicate SameItems(s: seq<Item>, u: seq<Item>) { forall e :: Holds(s, e) <==> Holds(u, e) }

  lemma HoldsThree(a: seq<Item>, x: seq<Item>, b: seq<Item>, e: Item)
    ensures Holds(a + x + b, e) <==> Holds(a, e) || Holds(x, e) || Holds(b, e)
  {
    var s := a + x + b;
    if i :| 0 <= i < |a| && a[i] == e {
      assert s[i] == e;
    }
    if i :| 0 <= i < |x| && x[i] == e {
      assert s[|a| + i] == e;
    }
    if i :| 0 <= i < |b| && b[i] == e {
      assert s[|a| + |x| + i] == e;
    }
    if i :| 0 <= i < |s| && s[i] == e {
      assert i < |a| ==> a[i] == e;
      assert |a| <= i < |a| + |x| ==> x[i - |a|] == e;
      assert i >= |a| + |x| ==> b[i - |a| - |x|] == e;
    }
  }

  lemma SameOverlaps(s: seq<Item>, u: seq<Item>, k: Range)
    requires SameItems(s, u) && Overlaps(s, k)
    ensures Overlaps(u, k)
  {
    var i :| 0 <= i < |s| && Equivalent(s[i].0, k);
    assert Holds(s, s[i]);
    var j :| 0 <= j < |u| && u[j] == s[i];
  }

  /** Any sequence of insertions from the empty map: the map is sorted (so its ranges are pairwise
      disjoint) and holds exactly the accepted items. */
  lemma {:induction false} InsertAllSorted(items: seq<Item>)
    requires Proper(items)
    ensures var s := InOrder(InsertAll(items)); Sorted(s) && Proper(s) && SameItems(s, Kept(items))
  {
    if items != [] {
      var n := |items| - 1;
      var t, kept, e := InsertAll(items[..n]), Kept(items[..n]), items[n];
      InsertAllSorted(items[..n]);
      var a, b := InsertInOrder(t, e.0, e.1);
      if Overlaps(InOrder(t), e.0) {
        SameOverlaps(InOrder(t), kept, e.0);
      } else {
        if Overlaps(kept, e.0) {
          SameOverlaps(kept, InOrder(t), e.0);
        }
        InsertedSorted(a, e, b);
        forall x ensures Holds(a + [e] + b, x) <==> Holds(kept + [e], x) {
          HoldsThree(a, [e], b, x);
          HoldsThree(a, [], b, x);
          HoldsThree(kept, [e], [], x);
          assert a + [] + b == a + b && kept + [e] + [] == kept + [e];
        }
      }
    }
  }

  lemma InsertedSorted(a: seq<Item>, e: Item, b: seq<Item>)
    requires Sorted(a + b) && Proper(a + b) && e.0.min <= e.0.max
    requires forall i :: 0 <= i < |a| ==> Less(a[i].0, e.0)
    requires forall i :: 0 <= i < |b| ==> Less(e.0, b[i].0)
    ensures Sorted(a + [e] + b) && Proper(a + [e] + b)
  {
    var s, u := a + [e] + b, a + b;
    assert forall i :: 0 <= i < |s| ==> s[i] == if i < |a| then u[i] else if i == |a| then e else u[i - 1];
    assert forall i :: 0 <= i < |a| ==> a[i] == u[i];
    assert forall i :: 0 <= i < |b| ==> b[i] == u[|a| + i];
  }

  lemma {:induction false} KeptDisjoint(items: seq<Item>)
    requires Proper(items)
    ensures Disjoint(Kept(items)) && Proper(Kept(items))
  {
    if items != [] {
      var n := |items| - 1;
      KeptDisjoint(items[..n]);
      var before := Kept(items[..n]);
      if !Overlaps(before, items[n].0) {
        forall i, m | 0 <= i < |before| && Contains(before[i].0, m) ensures !Contains(items[n].0, m) {
          assert !Equivalent(before[i].0, items[n].0);
        }
      }
    }
  }

  /** The fast lookup refines the simple one: after any insertions, searching the map for a point
      gives what a scan over the accepted items in arrival order gives. */
  lemma IndexRefinesScan(items: seq<Item>, m: nat)
    requires Proper(items)
    ensures Find(InsertAll(items), Point(m)) == Scan(Kept(items), m)
  {
    var s, kept := InOrder(InsertAll(items)), Kept(items);
    InsertAllSorted(items);
    FindAgreesWithScan(InsertAll(items), m);
    SortedIsDisjoint(s);
    KeptDisjoint(items);
    ScanFinds(s, m);
    ScanFinds(kept, m);
    hide Kept, InsertAll, InOrder, Find, Scan;
    if i :| 0 <= i < |s| && Contains(s[i].0, m) {
      assert Holds(s, s[i]);
      var j :| 0 <= j < |kept| && kept[j] == s[i];
    } else {
      forall i | 0 <= i < |kept| ensures !Contains(kept[i].0, m) {
        assert Holds(kept, kept[i]);
        var j :| 0 <= j < |s| && s[j] == kept[i];
      }
    }
  }

  // ----- the table by major number, as written -----

  datatype Row = Row(major: nat, range: Range, name: string)

  type Majors = map<nat, Tree>

  /** One row: the inner map of a known major is copied before the insertion, so the row is lost. */
  function AddRow(majors: Majors, row: Row): (majors': Majors) {
    if row.major in majors then majors
    else majors[row.major := Insert(Leaf, row.range, row.name)]
  }

  function AddRows(majors: Majors, rows: seq<Row>): (majors': Majors) {
    if rows == [] then majors else AddRow(AddRows(majors, rows[..|rows| - 1]), rows[|rows| - 1])
  }

  function Lookup(majors: Majors, major: nat, minor: nat): (v: Option<string>) {
    if major in majors then Find(majors[major], Point(minor)) else None
  }

  function FirstRow(rows: seq<Row>, major: nat): (r: Option<Row>)
    ensures r.Some? ==> r.value.major == major
  {
    if rows == [] then None
    else if rows[0].major == major then Some(rows[0])
    else FirstRow(rows[1..], major)
  }

  lemma {:induction false} FirstRowSnoc(rows: seq<Row>, row: Row, major: nat)
    ensures FirstRow(rows + [row], major) ==
            if FirstRow(rows, major).Some? then FirstRow(rows, major) else if row.major == major then Some(row) else None
  {
    if rows == [] {
      assert [] + [row] == [row] && [row][1..] == [];
    } else {
      assert (rows + [row])[1..] == rows[1..] + [row];
      FirstRowSnoc(rows[1..], row, major);
    }
  }

  /** The table built is the one that keeps only the first row of every major. */
  lemma {:induction false} FirstRowsOnly(rows: seq<Row>, major: nat)
    ensures major in AddRows(map[], rows) <==> FirstRow(rows, major).Some?
    ensures major in AddRows(map[], rows) ==>
              var r := FirstRow(rows, major).value; AddRows(map[], rows)[major] == Node(Leaf, r.range, r.name, Leaf)
  {
    if rows != [] {
      var n := |rows| - 1;
      FirstRowsOnly(rows[..n], major);
      FirstRowSnoc(rows[..n], rows[n], major);
      assert rows == rows[..n] + [rows[n]];
    }
  }

  predicate IsProper(r: Range) { r.min <= r.max }

  /** The minors a single range answers for as a key: its own, or its lower bound if it is reversed. */
  function Shown(r: Range): (s: Range)
    ensures IsProper(s)
  {
    if IsProper(r) then r else Point(r.min)
  }

  /** A lookup answers from the first row of the major alone. */
  lemma LookupAsWritten(rows: seq<Row>, major: nat, minor: nat)
    ensures Lookup(AddRows(map[], rows), major, minor) ==
            match FirstRow(rows, major)
            case None => None
            case Some(r) => if Contains(Shown(r.range), minor) then Some(r.name) else None
  {
    FirstRowsOnly(rows, major);
    hide AddRows, FirstRow;
    if major in AddRows(map[], rows) {
      var r := FirstRow(rows, major).value;
      assert LowerBound(Leaf, Point(minor)) == None;
      assert LowerBound(AddRows(map[], rows)[major], Point(minor)) ==
             if Less(r.range, Point(minor)) then None else Some((r.range, r.name));
    }
  }

  /** The answer the table was read for: the first row with that major whose range has the minor. */
  function ScanRows(rows: seq<Row>, major: nat, minor: nat): (v: Option<string>) {
    if rows == [] then None
    else if rows[0].major == major && Contains(rows[0].range, minor) then Some(rows[0].name)
    else ScanRows(rows[1..], major, minor)
  }

  lemma {:induction false} ScanRowsFinds(rows: seq<Row>, major: nat, minor: nat)
    ensures ScanRows(rows, major, minor) == None <==>
            forall i :: 0 <= i < |rows| && rows[i].major == major ==> !Contains(rows[i].range, minor)
    ensures FirstRow(rows, major) == None ==> ScanRows(rows, major, minor) == None
    ensures FirstRow(rows, major).Some? && Contains(FirstRow(rows, major).value.range, minor)
            ==> ScanRows(rows, major, minor) == Some(FirstRow(rows, major).value.name)
  {
    if rows != [] {
      ScanRowsFinds(rows[1..], major, minor);
      assert forall i :: 0 < i < |rows| ==> rows[i] == rows[1..][i - 1];
    }
  }

  ghost predicate Within(a: Range, b: Range) { b.min <= a.min && a.max <= b.max }

  /** The first row of a major that is not reversed. */
  function FirstProper(rows: seq<Row>, major: nat): (r: Option<Row>)
    ensures r.Some? ==> r.value.major == major && IsProper(r.value.range)
  {
    if rows == [] then None
    else if rows[0].major == major && IsProper(rows[0].range) then Some(rows[0])
    else FirstProper(rows[1..], major)
  }

  lemma {:induction false} FirstProperFacts(rows: seq<Row>, major: nat, minor: nat) returns (j: nat)
    ensures FirstProper(rows, major).Some? ==> j < |rows| && rows[j] == FirstProper(rows, major).value
    ensures FirstProper(rows, major).Some? && Contains(FirstProper(rows, major).value.range, minor)
            ==> ScanRows(rows, major, minor) == Some(FirstProper(rows, major).value.name)
    ensures FirstProper(rows, major).None? ==> ScanRows(rows, major, minor) == None
  {
    if rows == [] {
      j := 0;
    } else {
      j := FirstProperFacts(rows[1..], major, minor);
      j := if rows[0].major == major && IsProper(rows[0].range) then 0 else j + 1;
    }
  }

  /** Row i shows nothing the first row of its major does not; and if that one is reversed, the
      first row of the major that is not carries the same name. */
  ghost predicate Covered(rows: seq<Row>, i: nat)
    requires i < |rows|
  {
    match FirstRow(rows, rows[i].major)
    case None => false
    case Some(r) =>
      && (IsProper(rows[i].range) ==> Within(rows[i].range, Shown(r.range)))
      && (!IsProper(r.range) ==>
            FirstProper(rows, rows[i].major).Some? && FirstProper(rows, rows[i].major).value.name == r.name)
  }

  ghost predicate Agrees(rows: seq<Row>, major: nat, minor: nat) {
    Lookup(AddRows(map[], rows), major, minor) == ScanRows(rows, major, minor)
  }

  lemma {:induction false} FirstRowIsRow(rows: seq<Row>, major: nat) returns (j: nat)
    requires FirstRow(rows, major).Some?
    ensures j < |rows| && rows[j] == FirstRow(rows, major).value && rows[j].major == major
  {
    if rows[0].major == major {
      j := 0;
    } else {
      j := FirstRowIsRow(rows[1..], major);
      j := j + 1;
    }
  }

  lemma {:induction false} RowHasFirst(rows: seq<Row>, i: nat)
    requires i < |rows|
    ensures FirstRow(rows, rows[i].major).Some?
  {
    if rows[0].major != rows[i].major {
      RowHasFirst(rows[1..], i - 1);
    }
  }

  lemma CoveredAgrees(rows: seq<Row>, major: nat, minor: nat)
    requires forall i: nat :: i < |rows| ==> Covered(rows, i)
    ensures Agrees(rows, major, minor)
  {
    LookupAsWritten(rows, major, minor);
    ScanRowsFinds(rows, major, minor);
    var j := FirstProperFacts(rows, major, minor);
    hide FirstRow, Lookup, ScanRows, FirstProper, AddRows;
    if FirstRow(rows, major).Some? {
      var r := FirstRow(rows, major).value;
      var i := FirstRowIsRow(rows, major);
      assert Covered(rows, i);
      forall i: nat | i < |rows| && rows[i].major == major && Contains(rows[i].range, minor)
        ensures Contains(Shown(r.range), minor)
      {
        assert Covered(rows, i);
      }
      if !IsProper(r.range) && minor == r.range.min {
        assert Covered(rows, j);
      }
    }
  }

  lemma AgreesWithin(rows: seq<Row>, i: nat)
    requires i < |rows| && IsProper(rows[i].range) && FirstRow(rows, rows[i].major).Some?
    requires forall minor: nat :: Agrees(rows, rows[i].major, minor)
    ensures Within(rows[i].range, Shown(FirstRow(rows, rows[i].major).value.range))
  {
    var range, shown := rows[i].range, Shown(FirstRow(rows, rows[i].major).value.range);
    var minor := if range.min < shown.min then range.min else range.max;
    assert Agrees(rows, rows[i].major, minor);
    LookupAsWritten(rows, rows[i].major, minor);
    ScanRowsFinds(rows, rows[i].major, minor);
    assert Contains(range, minor);
  }

  lemma AgreesCovered(rows: seq<Row>, i: nat)
    requires i < |rows|
    requires forall minor: nat :: Agrees(rows, rows[i].major, minor)
    ensures Covered(rows, i)
  {
    var major := rows[i].major;
    RowHasFirst(rows, i);
    if IsProper(rows[i].range) {
      AgreesWithin(rows, i);
    }
    var r := FirstRow(rows, major).value;
    if !IsProper(r.range) {
      assert Agrees(rows, major, r.range.min);
      LookupAsWritten(rows, major, r.range.min);
      var j := FirstProperFacts(rows, major, r.range.min);
      hide Lookup, ScanRows, FirstRow, FirstProper, AddRows;
      AgreesWithin(rows, j);
    }
  }

  /** Every lookup in the table as built agrees with a scan of the whole drivers table exactly when
      every row is covered by the first of its major. When no range is reversed this means that every
      row lies within the first of its major. */
  lemma LookupAgreesExactly(rows: seq<Row>)
    ensures (forall major: nat, minor: nat :: Agrees(rows, major, minor)) <==>
            forall i: nat :: i < |rows| ==> Covered(rows, i)
  {
    hide Agrees, Covered;
    if forall i: nat :: i < |rows| ==> Covered(rows, i) {
      forall major: nat, minor: nat ensures Agrees(rows, major, minor) {
        CoveredAgrees(rows, major, minor);
      }
    }
    if forall major: nat, minor: nat :: Agrees(rows, major, minor) {
      forall i: nat | i < |rows| ensures Covered(rows, i) {
        AgreesCovered(rows, i);
      }
    }
  }

  ghost predicate MajorsDistinct(rows: seq<Row>) {
    forall i, j :: 0 <= i < j < |rows| ==> rows[i].major != rows[j].major
  }

  lemma CoveredWhenDistinct(rows: seq<Row>, i: nat)
    requires MajorsDistinct(rows) && i < |rows|
    ensures Covered(rows, i) <==> IsProper(rows[i].range)
  {
    RowHasFirst(rows, i);
    var j := FirstRowIsRow(rows, rows[i].major);
    var p := FirstProperFacts(rows, rows[i].major, 0);
    hide FirstRow, FirstProper, ScanRows;
  }

  /** When no major repeats, all lookups agree exactly when no range is reversed. */
  lemma DistinctMajorsAgreeExactly(rows: seq<Row>)
    requires MajorsDistinct(rows)
    ensures (forall major: nat, minor: nat :: Agrees(rows, major, minor)) <==>
            forall i: nat :: i < |rows| ==> IsProper(rows[i].range)
  {
    LookupAgreesExactly(rows);
    hide Agrees, Covered, MajorsDistinct, IsProper;
    forall i: nat | i < |rows| ensures Covered(rows, i) <==> IsProper(rows[i].range) {
      CoveredWhenDistinct(rows, i);
    }
  }

  /** A table where they differ: the second row of major 4 is lost, so minor 1 is not found. */
  lemma RepeatedMajorLost()
    ensures var rows := [Row(4, Range(64, 95), "ttyS"), Row(4, Range(1, 63), "tty")];
            && Lookup(AddRows(map[], rows), 4, 1) == None
            && ScanRows(rows, 4, 1) == Some("tty")
  {
    var rows := [Row(4, Range(64, 95), "ttyS"), Row(4, Range(1, 63), "tty")];
    LookupAsWritten(rows, 4, 1);
    assert rows[1..] == [rows[1]];
  }

  // ----- the text -----

  /** `s.find(part, 0) != npos` */
  predicate HasText(s: string, part: string) {
    |s| >= |part| && (s[..|part|] == part || (s != "" && HasText(s[1..], part)))
  }

  /** The part stands in the text at position i. */
  predicate Stands(s: string, part: string, i: int) { 0 <= i <= |s| - |part| && s[i..i + |part|] == part }

  ghost predicate Occurs(s: string, part: string) { exists i :: Stands(s, part, i) }

  /** The search finds the part exactly when it occurs in the text. */
  lemma {:induction false} HasTextExactly(s: string, part: string)
    ensures HasText(s, part) <==> Occurs(s, part)
  {
    if |s| >= |part| && s[..|part|] == part {
      assert Stands(s, part, 0);
    } else if |s| >= |part| && s != "" {
      HasTextExactly(s[1..], part);
      if i :| Stands(s[1..], part, i) {
        assert s[1..][i..i + |part|] == s[i + 1..i + 1 + |part|];
        assert Stands(s, part, i + 1);
      }
      if i :| Stands(s, part, i) {
        assert s[..|part|] == s[0..0 + |part|];
        assert i > 0 && s[1..][i - 1..i - 1 + |part|] == s[i..i + |part|];
        assert Stands(s[1..], part, i - 1);
      }
    }
  }

  /** `readDevice` for a given table: the two numbers, then the device's name with its minor, or
      "?" when the table has none. A name that is neither tty nor pts is not shown. */
  function ReadDevice(majors: Majors, major: nat, minor: nat): (s: string) {
    Numeral(major, 10) + "," + Numeral(minor, 10) + "\t" +
    match Lookup(majors, major, minor)
    case None => "?"
    case Some(name) =>
      if HasText(name, "tty") then name + Numeral(minor, 10)
      else if HasText(name, "pts") then name + "/" + Numeral(minor, 10)
      else ""
  }

  /** The text ends in a question mark exactly when the lookup fails. */
  lemma UnknownDeviceShown(majors: Majors, major: nat, minor: nat)
    ensures var s := ReadDevice(majors, major, minor);
            s[|s| - 1] == '?' <==> Lookup(majors, major, minor) == None
  {
    var s := ReadDevice(majors, major, minor);
    var n := Numeral(minor, 10);
    NumeralValue(minor, 10);
    assert DigitValue('?') == 16;
    match Lookup(majors, major, minor)
    case None =>
    case Some(name) =>
      if HasText(name, "tty") || HasText(name, "pts") {
        assert s[|s| - 1] == n[|n| - 1];
      } else {
        assert s[|s| - 1] == '\t';
      }
  }
}
