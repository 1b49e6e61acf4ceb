/** The attribute pipeline that ProcReader and FileStatReader share: every option letter yields an
    (id, text) pair, the pairs go into a map of deferred `addAttribute` calls keyed by id, and the
    calls are made in key order. */
module Pipeline {
  import opened Common
  import opened Files
  import opened OrderedKeys
  import Ids = AttributeIds

  predicate HasLetter(opts: string, c: char) { exists i :: 0 <= i < |opts| && opts[i] == c }

  ghost predicate SameLetters(opts: string, opts': string) {
    forall c :: HasLetter(opts, c) <==> HasLetter(opts', c)
  }

  lemma SameLettersSymmetric(opts: string, opts': string)
    requires SameLetters(opts, opts')
    ensures SameLetters(opts', opts)
  {
  }

  /** The deferred calls: attribute id to the text bound in the call. */
  type Deferred = map<int, string>

  /** `addReader` over all pairs in order: the first pair with an id wins. */
  function Collect(pairs: seq<Attr>): (d: Deferred) {
    if pairs == [] then map[]
    else
      var n := |pairs| - 1;
      InsertFirst(Collect(pairs[..n]), pairs[n].id, pairs[n].value)
  }

  /** The attributes in the order the calls are made. */
  function Ordered(d: Deferred): (s: seq<Attr>)
    ensures |s| == |d|
    ensures forall i :: 0 <= i < |s| ==> s[i].id in d && s[i].value == d[s[i].id]
  {
    OrderedFrom(d, SortedKeys(d.Keys))
  }

  function OrderedFrom(d: Deferred, ks: seq<int>): (s: seq<Attr>)
    requires forall i :: 0 <= i < |ks| ==> ks[i] in d
    ensures |s| == |ks|
    ensures forall i :: 0 <= i < |ks| ==> s[i] == Attr(ks[i], d[ks[i]])
  {
    seq(|ks|, i requires 0 <= i < |ks| => Attr(ks[i], d[ks[i]]))
  }

  function ProcAddAll(p: ProcRec, attrs: seq<Attr>): (p': ProcRec) {
    if attrs == [] then p else ProcAdd(ProcAddAll(p, attrs[..|attrs| - 1]), attrs[|attrs| - 1])
  }

  function FileAddAll(r: FileRec, attrs: seq<Attr>): (r': FileRec) {
    if attrs == [] then r else FileAdd(FileAddAll(r, attrs[..|attrs| - 1]), attrs[|attrs| - 1])
  }

  ghost predicate AscendingIds(attrs: seq<Attr>) {
    forall i, j :: 0 <= i < j < |attrs| ==> attrs[i].id < attrs[j].id
  }

  ghost function IdSet(attrs: seq<Attr>): set<int> { set i | 0 <= i < |attrs| :: attrs[i].id }

  /** Equal ids carry equal texts. */
  ghost predicate Consistent(pairs: seq<Attr>) {
    forall i, j :: 0 <= i < |pairs| && 0 <= j < |pairs| && pairs[i].id == pairs[j].id ==> pairs[i] == pairs[j]
  }

  lemma IdSetSnoc(pairs: seq<Attr>)
    requires pairs != []
    ensures var n := |pairs| - 1; IdSet(pairs) == IdSet(pairs[..n]) + {pairs[n].id}
  {
    var n := |pairs| - 1;
    forall k | k in IdSet(pairs) ensures k in IdSet(pairs[..n]) + {pairs[n].id} {
      var i :| 0 <= i < |pairs| && pairs[i].id == k;
      assert i < n ==> pairs[..n][i].id == k;
    }
  }

  /** A pair whose id is there already brings nothing new. */
  lemma KnownId(pairs: seq<Attr>, d: Deferred)
    requires pairs != [] && Consistent(pairs)
    requires var n := |pairs| - 1; d.Keys == IdSet(pairs[..n]) && forall i :: 0 <= i < n ==> d[pairs[i].id] == pairs[i].value
    ensures var n := |pairs| - 1; pairs[n].id in d ==> d[pairs[n].id] == pairs[n].value
  {
    var n := |pairs| - 1;
    if pairs[n].id in d {
      var i :| 0 <= i < n && pairs[..n][i].id == pairs[n].id;
      assert pairs[i] == pairs[n];
    }
  }

  lemma {:induction false} CollectContents(pairs: seq<Attr>)
    requires Consistent(pairs)
    ensures Collect(pairs).Keys == IdSet(pairs)
    ensures forall i :: 0 <= i < |pairs| ==> pairs[i].id in Collect(pairs) && Collect(pairs)[pairs[i].id] == pairs[i].value
  {
    if pairs != [] {
      var n := |pairs| - 1;
      var before := Collect(pairs[..n]);
      CollectContents(pairs[..n]);
      assert forall i :: 0 <= i < n ==> pairs[..n][i] == pairs[i];
      IdSetSnoc(pairs);
      KnownId(pairs, before);
      hide IdSet, Consistent;
      assert Collect(pairs) == InsertFirst(before, pairs[n].id, pairs[n].value);
    }
  }

  ghost predicate HasPair(pairs: seq<Attr>, a: Attr) { exists j :: 0 <= j < |pairs| && pairs[j] == a }

  ghost predicate Within(pairs: seq<Attr>, pairs': seq<Attr>) {
    forall i :: 0 <= i < |pairs| ==> HasPair(pairs', pairs[i])
  }

  lemma CollectWithin(pairs: seq<Attr>, pairs': seq<Attr>, k: int)
    requires Consistent(pairs) && Consistent(pairs') && Within(pairs, pairs') && k in Collect(pairs)
    ensures k in Collect(pairs') && Collect(pairs')[k] == Collect(pairs)[k]
  {
    CollectContents(pairs);
    CollectContents(pairs');
    hide Collect, Consistent;
    var i :| 0 <= i < |pairs| && pairs[i].id == k;
    var j :| 0 <= j < |pairs'| && pairs'[j] == pairs[i];
  }

  /** Order and repetition of the pairs do not matter. */
  lemma CollectSame(pairs: seq<Attr>, pairs': seq<Attr>)
    requires Consistent(pairs) && Consistent(pairs') && Within(pairs, pairs') && Within(pairs', pairs)
    ensures Collect(pairs) == Collect(pairs')
  {
    hide *;
    var d, d' := Collect(pairs), Collect(pairs');
    forall k | k in d ensures k in d' && d[k] == d'[k] {
      CollectWithin(pairs, pairs', k);
    }
    forall k | k in d' ensures k in d {
      CollectWithin(pairs', pairs, k);
    }
  }

  // ----- option letters, for any switch (the id of a letter) and any texts -----

  type Switch = char -> Option<int>

  /** Every letter is in the switch; otherwise an uninitialised id would be used. */
  predicate Handled(opts: string, idOf: Switch) { forall i :: 0 <= i < |opts| ==> idOf(opts[i]).Some? }

  /** No two letters share an id. */
  ghost predicate Injective(idOf: Switch) { forall c, c' :: idOf(c).Some? && idOf(c) == idOf(c') ==> c == c' }

  function PairOf(c: char, idOf: Switch, textOf: char -> string): (a: Attr)
    requires idOf(c).Some?
  {
    Attr(idOf(c).value, textOf(c))
  }

  function PairsOf(opts: string, idOf: Switch, textOf: char -> string): (pairs: seq<Attr>)
    requires Handled(opts, idOf)
    ensures |pairs| == |opts|
    ensures forall i :: 0 <= i < |opts| ==> pairs[i] == PairOf(opts[i], idOf, textOf)
  {
    seq(|opts|, i requires 0 <= i < |opts| => PairOf(opts[i], idOf, textOf))
  }

  ghost function IdsOf(opts: string, idOf: Switch): set<int>
    requires Handled(opts, idOf)
  {
    set i | 0 <= i < |opts| :: idOf(opts[i]).value
  }

  lemma PairsConsistent(opts: string, idOf: Switch, textOf: char -> string)
    requires Handled(opts, idOf) && Injective(idOf)
    ensures Consistent(PairsOf(opts, idOf, textOf))
  {
    var pairs := PairsOf(opts, idOf, textOf);
    forall i, j | 0 <= i < |pairs| && 0 <= j < |pairs| && pairs[i].id == pairs[j].id ensures pairs[i] == pairs[j] {
      assert idOf(opts[i]) == idOf(opts[j]);
    }
  }

  /** The deferred calls are keyed by the ids of the letters, each with its letter's text. */
  lemma DeferredContents(opts: string, idOf: Switch, textOf: char -> string)
    requires Handled(opts, idOf) && Injective(idOf)
    ensures var d := Collect(PairsOf(opts, idOf, textOf));
            && d.Keys == IdsOf(opts, idOf)
            && forall i :: 0 <= i < |opts| ==> idOf(opts[i]).value in d && d[idOf(opts[i]).value] == textOf(opts[i])
  {
    var pairs := PairsOf(opts, idOf, textOf);
    PairsConsistent(opts, idOf, textOf);
    CollectContents(pairs);
    hide Consistent, Collect;
    assert IdSet(pairs) == IdsOf(opts, idOf);
    forall i | 0 <= i < |opts| ensures pairs[i] == Attr(idOf(opts[i]).value, textOf(opts[i])) {}
  }

  lemma PairsWithin(opts: string, opts': string, idOf: Switch, textOf: char -> string)
    requires Handled(opts, idOf) && Handled(opts', idOf) && SameLetters(opts, opts')
    ensures Within(PairsOf(opts, idOf, textOf), PairsOf(opts', idOf, textOf))
  {
    var pairs, pairs' := PairsOf(opts, idOf, textOf), PairsOf(opts', idOf, textOf);
    forall i | 0 <= i < |pairs| ensures HasPair(pairs', pairs[i]) {
      assert HasLetter(opts, opts[i]);
      var j :| 0 <= j < |opts'| && opts'[j] == opts[i];
      assert pairs'[j] == pairs[i];
    }
  }

  /** Order and repetition of the letters do not matter to the deferred calls. */
  lemma DeferredByLetters(opts: string, opts': string, idOf: Switch, textOf: char -> string)
    requires Handled(opts, idOf) && Handled(opts', idOf) && Injective(idOf) && SameLetters(opts, opts')
    ensures Collect(PairsOf(opts, idOf, textOf)) == Collect(PairsOf(opts', idOf, textOf))
  {
    hide *;
    PairsConsistent(opts, idOf, textOf);
    PairsConsistent(opts', idOf, textOf);
    PairsWithin(opts, opts', idOf, textOf);
    SameLettersSymmetric(opts, opts');
    PairsWithin(opts', opts, idOf, textOf);
    CollectSame(PairsOf(opts, idOf, textOf), PairsOf(opts', idOf, textOf));
  }

  lemma OrderedAscends(d: Deferred)
    ensures AscendingIds(Ordered(d)) && IdSet(Ordered(d)) == d.Keys
  {
    var s, ks := Ordered(d), SortedKeys(d.Keys);
    forall k ensures k in IdSet(s) <==> k in d.Keys {
      if k in d.Keys {
        var i :| 0 <= i < |ks| && ks[i] == k;
        assert s[i].id == k;
      }
    }
  }

  /** The attribute of some letter. */
  ghost predicate OfLetter(opts: string, idOf: Switch, textOf: char -> string, a: Attr)
    requires Handled(opts, idOf)
  {
    exists i :: 0 <= i < |opts| && a == PairOf(opts[i], idOf, textOf)
  }

  /** The calls made are those of the letters, each with its id and text. */
  lemma CallsOfLetters(opts: string, idOf: Switch, textOf: char -> string, a: Attr)
    requires Handled(opts, idOf) && Injective(idOf)
    ensures a in Ordered(Collect(PairsOf(opts, idOf, textOf))) <==> OfLetter(opts, idOf, textOf, a)
  {
    var d := Collect(PairsOf(opts, idOf, textOf));
    DeferredContents(opts, idOf, textOf);
    OrderedAscends(d);
    hide Collect, PairsOf, Injective, AscendingIds;
    if a in Ordered(d) {
      var i :| 0 <= i < |opts| && idOf(opts[i]).value == a.id;
    }
    if i :| 0 <= i < |opts| && a == PairOf(opts[i], idOf, textOf) {
      assert a.id in IdSet(Ordered(d));
      var j :| 0 <= j < |Ordered(d)| && Ordered(d)[j].id == a.id;
      assert Ordered(d)[j] == a;
    }
  }

  lemma OfOneLetter(opts: string, idOf: Switch, textOf: char -> string, c: char, t: string)
    requires Handled(opts, idOf) && Injective(idOf) && idOf(c).Some?
    ensures OfLetter(opts, idOf, textOf, Attr(idOf(c).value, t)) <==> c in opts && t == textOf(c)
  {
    var a := Attr(idOf(c).value, t);
    if i :| 0 <= i < |opts| && a == PairOf(opts[i], idOf, textOf) {
      assert idOf(opts[i]) == idOf(c);
    }
    if c in opts && t == textOf(c) {
      var i :| 0 <= i < |opts| && opts[i] == c;
      assert a == PairOf(opts[i], idOf, textOf);
    }
  }

  lemma OrderedFromHead(d: Deferred, rest: Deferred, low: int, tail: seq<int>)
    requires low in d && forall i :: 0 <= i < |tail| ==> tail[i] in rest && tail[i] in d
    requires forall k :: k in rest ==> k in d && d[k] == rest[k]
    ensures OrderedFrom(d, [low] + tail) == [Attr(low, d[low])] + OrderedFrom(rest, tail)
  {
  }

  /** The call with the least id comes first. */
  lemma OrderedHead(d: Deferred, low: int)
    requires low in d && forall k :: k in d ==> low <= k
    ensures Ordered(d) == [Attr(low, d[low])] + Ordered(d - {low})
  {
    hide SortedKeys, OrderedFrom;
    var rest := d - {low};
    SortedKeysHead(d.Keys, low);
    assert rest.Keys == d.Keys - {low};
    OrderedFromHead(d, rest, low, SortedKeys(rest.Keys));
  }

  /** The calls after the least id, which is front-inserted when it is there at all. */
  lemma OrderedRest(d: Deferred, low: int)
    requires forall k :: k in d ==> low <= k
    ensures Ordered(d) == (if low in d then [Attr(low, d[low])] else []) + Ordered(d - {low})
    ensures forall i :: 0 <= i < |Ordered(d - {low})| ==>
              Ordered(d - {low})[i].id in d && Ordered(d - {low})[i].id != low
  {
    hide Ordered;
    var rest := d - {low};
    assert forall k :: k in rest ==> k in d && k != low;
    if low in d {
      OrderedHead(d, low);
    } else {
      assert d - {low} == d;
      assert [] + Ordered(d) == Ordered(d);
    }
  }

  // ----- processes -----

  lemma {:induction false} ProcAppends(p: ProcRec, attrs: seq<Attr>)
    requires forall i :: 0 <= i < |attrs| ==> attrs[i].id != Ids.CMD && attrs[i].id != Ids.PID
    ensures ProcAddAll(p, attrs) == p.(attributes := p.attributes + attrs)
  {
    if attrs != [] {
      var n := |attrs| - 1;
      ProcAppends(p, attrs[..n]);
      assert attrs == attrs[..n] + [attrs[n]];
      assert p.attributes + attrs == p.attributes + attrs[..n] + [attrs[n]];
    } else {
      assert p.attributes + attrs == p.attributes;
    }
  }

  lemma {:induction false} ProcAddAllContents(p: ProcRec, attrs: seq<Attr>, a: Attr)
    ensures a in ProcAddAll(p, attrs).attributes <==> a in p.attributes || a in attrs
  {
    if attrs != [] {
      var n := |attrs| - 1;
      ProcAddAllContents(p, attrs[..n], a);
      assert attrs == attrs[..n] + [attrs[n]];
      hide ProcAddAll;
      var q := ProcAddAll(p, attrs[..n]);
      assert a in ProcAdd(q, attrs[n]).attributes <==> a in q.attributes || a == attrs[n];
    }
  }

  lemma ProcAddAllSnoc(p: ProcRec, attrs: seq<Attr>, j: nat)
    requires j < |attrs|
    ensures ProcAddAll(p, attrs[..0]) == p
    ensures ProcAddAll(p, attrs[..j + 1]) == ProcAdd(ProcAddAll(p, attrs[..j]), attrs[j])
  {
    assert attrs[..j + 1][..j] == attrs[..j];
  }

  lemma {:induction false} ProcAddAllHead(p: ProcRec, a: Attr, attrs: seq<Attr>)
    ensures ProcAddAll(p, [a] + attrs) == ProcAddAll(ProcAdd(p, a), attrs)
  {
    if attrs == [] {
      assert [a] + attrs == [a] && [a][..0] == [];
    } else {
      var n := |attrs| - 1;
      ProcAddAllHead(p, a, attrs[..n]);
      assert ([a] + attrs)[..n + 1] == [a] + attrs[..n];
    }
  }

  /** What a pass over the deferred calls leaves on a process: the command in front, everything
      else behind what was there, in id order. */
  lemma ProcPassForm(p: ProcRec, d: Deferred)
    requires Ids.PID !in d && forall k :: k in d ==> k >= Ids.CMD
    ensures ProcAddAll(p, Ordered(d)) == p.(attributes :=
              (if Ids.CMD in d then [Attr(Ids.CMD, d[Ids.CMD])] else []) + p.attributes + Ordered(d - {Ids.CMD}))
  {
    hide Ordered, ProcAddAll;
    OrderedRest(d, Ids.CMD);
    var rest := Ordered(d - {Ids.CMD});
    if Ids.CMD in d {
      var a := Attr(Ids.CMD, d[Ids.CMD]);
      ProcAddAllHead(p, a, rest);
      ProcAppends(ProcAdd(p, a), rest);
    } else {
      assert [] + rest == rest && [] + p.attributes == p.attributes;
      ProcAppends(p, rest);
    }
  }

  // ----- files -----

  lemma {:induction false} FileAppends(r: FileRec, attrs: seq<Attr>)
    requires forall i :: 0 <= i < |attrs| ==> attrs[i].id != Ids.FILENAME
    ensures FileAddAll(r, attrs) == r.(attributes := r.attributes + attrs)
  {
    if attrs != [] {
      var n := |attrs| - 1;
      FileAppends(r, attrs[..n]);
      assert attrs == attrs[..n] + [attrs[n]];
      assert r.attributes + attrs == r.attributes + attrs[..n] + [attrs[n]];
    } else {
      assert r.attributes + attrs == r.attributes;
    }
  }

  lemma {:induction false} FileAddAllContents(r: FileRec, attrs: seq<Attr>, a: Attr)
    ensures a in FileAddAll(r, attrs).attributes <==> a in r.attributes || a in attrs
  {
    if attrs != [] {
      var n := |attrs| - 1;
      FileAddAllContents(r, attrs[..n], a);
      assert attrs == attrs[..n] + [attrs[n]];
      hide FileAddAll;
      var q := FileAddAll(r, attrs[..n]);
      assert a in FileAdd(q, attrs[n]).attributes <==> a in q.attributes || a == attrs[n];
    }
  }

  lemma FileAddAllSnoc(r: FileRec, attrs: seq<Attr>, j: nat)
    requires j < |attrs|
    ensures FileAddAll(r, attrs[..0]) == r
    ensures FileAddAll(r, attrs[..j + 1]) == FileAdd(FileAddAll(r, attrs[..j]), attrs[j])
  {
    assert attrs[..j + 1][..j] == attrs[..j];
  }

  lemma {:induction false} FileAddAllHead(r: FileRec, a: Attr, attrs: seq<Attr>)
    ensures FileAddAll(r, [a] + attrs) == FileAddAll(FileAdd(r, a), attrs)
  {
    if attrs == [] {
      assert [a] + attrs == [a] && [a][..0] == [];
    } else {
      var n := |attrs| - 1;
      FileAddAllHead(r, a, attrs[..n]);
      assert ([a] + attrs)[..n + 1] == [a] + attrs[..n];
    }
  }

  /** What a pass leaves on a file: the name in front, everything else behind what was there. */
  lemma FilePassForm(r: FileRec, d: Deferred)
    requires forall k :: k in d ==> k >= Ids.FILENAME
    ensures FileAddAll(r, Ordered(d)) == r.(attributes :=
              (if Ids.FILENAME in d then [Attr(Ids.FILENAME, d[Ids.FILENAME])] else [])
              + r.attributes + Ordered(d - {Ids.FILENAME}))
  {
    hide Ordered, FileAddAll;
    OrderedRest(d, Ids.FILENAME);
    var rest := Ordered(d - {Ids.FILENAME});
    if Ids.FILENAME in d {
      var a := Attr(Ids.FILENAME, d[Ids.FILENAME]);
      FileAddAllHead(r, a, rest);
      FileAppends(FileAdd(r, a), rest);
    } else {
      assert [] + rest == rest && [] + r.attributes == r.attributes;
      FileAppends(r, rest);
    }
  }
}
