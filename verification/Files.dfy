/** Process and file objects, the map that owns them, and their values. */
module Files {
  import opened Common
  import opened Numerals
  import opened Paths
  import Ids = AttributeIds

  // ----- values -----

  datatype FileRec = FileRec(path: string, fid: nat, pid: nat, attributes: seq<Attr>)

  datatype ProcRec = ProcRec(pid: nat, attributes: seq<Attr>, ulFiles: map<int, FileRec>)

  type Table = map<int, ProcRec>

  /** A new file object: the path uses the 64-bit numbers, the fields keep 32 bits of each. */
  function NewFile(txtFd: nat, pid: nat, fid: nat): (r: FileRec) {
    FileRec(FormPath(txtFd, pid, fid), U32(fid), U32(pid), [])
  }

  const NEW_PROC := ProcRec(0, [], map[])

  /** The `int` key under which a 64-bit id is stored. */
  function FileKey(fid: nat): (key: int) { I32(U32(fid)) }

  function FileAdd(r: FileRec, a: Attr): (r': FileRec) {
    r.(attributes := if a.id == Ids.FILENAME then [a] + r.attributes else r.attributes + [a])
  }

  function ProcAdd(r: ProcRec, a: Attr): (r': ProcRec) {
    if a.id == Ids.PID then r.(pid := U32(Atoi(a.value)), attributes := r.attributes + [a])
    else if a.id == Ids.CMD then r.(attributes := [a] + r.attributes)
    else r.(attributes := r.attributes + [a])
  }

  /** Insertion into a std::map: an existing entry wins. */
  function InsertFirst<K, V>(m: map<K, V>, k: K, v: V): (m': map<K, V>) {
    if k in m then m else m[k := v]
  }

  function WithFile(p: ProcRec, f: int, file: FileRec): (p': ProcRec) {
    p.(ulFiles := InsertFirst(p.ulFiles, f, file))
  }

  function WithFileAttr(p: ProcRec, f: int, a: Attr): (p': ProcRec)
    requires f in p.ulFiles
  {
    p.(ulFiles := p.ulFiles[f := FileAdd(p.ulFiles[f], a)])
  }

  lemma KeyOfValue<K, V>(m: map<K, V>, v: V) returns (k: K)
    requires v in m.Values
    ensures k in m && m[k] == v
  {
    k :| k in m && m[k] == v;
  }

  // ----- objects -----

  class UnlinkedFile {
    ghost const home: (int, int)  // the process key and file key it was made for
    var path: string
    var fid: nat
    var pid: nat
    var attributes: seq<Attr>

    ghost function View(): FileRec
      reads this
    {
      FileRec(path, fid, pid, attributes)
    }

    constructor (txtFd: nat, pid: nat, fid: nat, ghost home: (int, int))
      ensures this.home == home
      ensures View() == NewFile(txtFd, pid, fid)
      ensures ReadPath(path) == Some((pid, if fid > txtFd then None else Some(fid)))
    {
      this.home := home;
      this.pid := U32(pid);
      this.fid := U32(fid);
      var strbuff := "/proc/" + Numeral(pid, 10);
      if fid > txtFd {
        strbuff := strbuff + "/exe";
      } else {
        strbuff := strbuff + ("/fd/" + Numeral(fid, 10));
      }
      path := strbuff;
      attributes := [];
      PathReadsBack(strbuff, txtFd, pid, fid);
    }

    method AddAttribute(attrid: int, value: string)
      modifies this`attributes
      ensures View() == FileAdd(old(View()), Attr(attrid, value))
    {
      if attrid == Ids.FILENAME {
        attributes := [Attr(attrid, value)] + attributes;
      } else {
        attributes := attributes + [Attr(attrid, value)];
      }
    }
  }

  class ProcFile {
    ghost const home: int  // the key it was made for
    var pid: nat
    var attributes: seq<Attr>
    var ulFiles: map<int, UnlinkedFile>

    /** The object's own fields, next to a given file map. */
    ghost function With(files: map<int, FileRec>): ProcRec
      reads this
    {
      ProcRec(pid, attributes, files)
    }

    constructor (ghost home: int)
      ensures this.home == home
      ensures ulFiles == map[] && With(map[]) == NEW_PROC
    {
      this.home := home;
      pid := 0;
      attributes := [];
      ulFiles := map[];
    }

    method AddAttribute(attrid: int, value: string)
      modifies this`pid, this`attributes
      ensures forall files :: With(files) == ProcAdd(old(With(files)), Attr(attrid, value))
    {
      if attrid == Ids.PID {
        pid := U32(Atoi(value));
        attributes := attributes + [Attr(attrid, value)];
      } else if attrid == Ids.CMD {
        attributes := [Attr(attrid, value)] + attributes;
      } else {
        attributes := attributes + [Attr(attrid, value)];
      }
    }

    /** Returns the object stored under the key, which is the new one only on a new key. */
    method AddFile(fd: nat, ulf: UnlinkedFile) returns (kept: UnlinkedFile)
      modifies this`ulFiles
      ensures ulFiles == InsertFirst(old(ulFiles), FileKey(fd), ulf)
      ensures kept == ulFiles[FileKey(fd)]
    {
      if FileKey(fd) !in ulFiles {
        ulFiles := ulFiles[FileKey(fd) := ulf];
      }
      kept := ulFiles[FileKey(fd)];
    }
  }

  /** The process map that the readers share. */
  class ProcMap {
    var entries: map<int, ProcFile>
    ghost var table: Table        // the value the objects represent
    ghost var Repr: set<object>

    /** Every object sits under the keys it was made for (hence no object sits in two places),
        and `table` is what the objects' fields say. */
    ghost predicate Valid()
      reads this, Repr
      ensures Valid() ==> this in Repr
    {
      && this in Repr
      && entries.Keys == table.Keys
      && (forall k :: k in entries ==>
            && entries[k] in Repr && entries[k].home == k
            && entries[k].With(table[k].ulFiles) == table[k]
            && entries[k].ulFiles.Keys == table[k].ulFiles.Keys)
      && (forall k, f :: k in entries && f in entries[k].ulFiles ==>
            && entries[k].ulFiles[f] in Repr && entries[k].ulFiles[f].home == (k, f)
            && entries[k].ulFiles[f].View() == table[k].ulFiles[f])
    }

    constructor ()
      ensures Valid() && fresh(Repr) && table == map[]
    {
      entries := map[];
      table := map[];
      Repr := {this};
    }

    /** `procMap.insert(make_pair(key, new ProcFile)).first->second` */
    method Enter(key: int) returns (pf: ProcFile)
      requires Valid()
      modifies this
      ensures Valid() && fresh(Repr - old(Repr))
      ensures table == InsertFirst(old(table), key, NEW_PROC)
      ensures pf == entries[key] && old(entries).Keys <= entries.Keys
      ensures forall k :: k in old(entries) ==> entries[k] == old(entries)[k]
    {
      if key !in entries {
        var made := new ProcFile(key);
        entries := entries[key := made];
        table := table[key := NEW_PROC];
        Repr := Repr + {made};
      }
      pf := entries[key];
    }

    /** `addAttribute` on the process stored under k. */
    method AddToProc(pf: ProcFile, ghost k: int, attrid: int, value: string)
      requires Valid() && k in entries && pf == entries[k]
      modifies this`table, pf`pid, pf`attributes
      ensures Valid()
      ensures table == old(table)[k := ProcAdd(old(table)[k], Attr(attrid, value))]
    {
      hide U32, Atoi;
      pf.AddAttribute(attrid, value);
      table := table[k := ProcAdd(table[k], Attr(attrid, value))];
    }

    /** `addFile` on the process stored under k, with a file object made for that place. */
    method AddFileTo(pf: ProcFile, ghost k: int, fid: nat, made: UnlinkedFile) returns (ulf: UnlinkedFile)
      requires Valid() && k in entries && pf == entries[k]
      requires made !in Repr && made.home == (k, FileKey(fid))
      modifies this`table, this`Repr, pf`ulFiles
      ensures Valid() && Repr == old(Repr) + {made}
      ensures table == old(table)[k := WithFile(old(table)[k], FileKey(fid), made.View())]
      ensures FileKey(fid) in pf.ulFiles && ulf == pf.ulFiles[FileKey(fid)]
    {
      hide FileKey, FormPath;
      ghost var f, was, r := FileKey(fid), pf.ulFiles, made.View();
      ulf := pf.AddFile(fid, made);
      Repr := Repr + {made};
      table := table[k := WithFile(table[k], f, r)];
      forall g | g in pf.ulFiles
        ensures pf.ulFiles[g] in Repr && pf.ulFiles[g].home == (k, g) && pf.ulFiles[g].View() == table[k].ulFiles[g]
      {
        if g in was {
          assert pf.ulFiles[g] == was[g];
        }
      }
    }

    /** `addAttribute` on the file stored under k and f. */
    method AddToFile(ulf: UnlinkedFile, ghost k: int, ghost f: int, attrid: int, value: string)
      requires Valid() && k in entries && f in entries[k].ulFiles && ulf == entries[k].ulFiles[f]
      modifies this`table, ulf`attributes
      ensures Valid()
      ensures table == old(table)[k := WithFileAttr(old(table)[k], f, Attr(attrid, value))]
    {
      hide FileAdd;
      ulf.AddAttribute(attrid, value);
      table := table[k := WithFileAttr(table[k], f, Attr(attrid, value))];
    }
  }
}
