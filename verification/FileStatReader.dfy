/** `FileStatReader`: adds the selected stat attributes to every file. What stat(2) and readlink(2)
    say comes in as a FileInfo per path. */
module FileStatReader {
  import opened Common
  import opened Numerals
  import opened Formatting
  import opened LinkBuffer
  import opened Paths
  import opened Files
  import opened OrderedKeys
  import opened Pipeline
  import Ids = AttributeIds

  const FILESTAT_OPTS_DEFAULT := "niugMamcdsp"

  datatype FileInfo = FileInfo(
    link: Option<string>, ino: nat, uid: nat, gid: nat, mode: string,
    atime: string, mtime: string, ctime: string, device: string, size: nat, perms: string)

  /** The attribute an option letter stands for. The letters U and G have a case without effect,
      which leaves the id uninitialised like the error branch. */
  function OptId(c: char): (id: Option<int>) {
    if c == 'n' then Some(Ids.FILENAME)
    else if c == 'i' then Some(Ids.INODE)
    else if c == 'u' then Some(Ids.UID)
    else if c == 'g' then Some(Ids.UGID)
    else if c == 'M' then Some(Ids.FILEMODE)
    else if c == 'a' then Some(Ids.ACCESS_T)
    else if c == 'm' then Some(Ids.MOD_T)
    else if c == 'c' then Some(Ids.STAT_CHANGE_T)
    else if c == 'd' then Some(Ids.DEVICE)
    else if c == 's' then Some(Ids.FILESIZE)
    else if c == 'p' then Some(Ids.PERMS)
    else None
  }

  function LinkText(link: Option<string>): (name: string) {
    match link case None => "" case Some(target) => CString(target)
  }

  function OptText(c: char, info: FileInfo): (text: string) {
    if c == 'n' then LinkText(info.link)
    else if c == 'i' then Format(info.ino)
    else if c == 'u' then Format(info.uid)
    else if c == 'g' then Format(info.gid)
    else if c == 'M' then info.mode
    else if c == 'a' then info.atime
    else if c == 'm' then info.mtime
    else if c == 'c' then info.ctime
    else if c == 'd' then info.device
    else if c == 's' then Format(info.size)
    else if c == 'p' then info.perms
    else ""
  }

  predicate Known(opts: string) { Handled(opts, OptId) }

  /** Two letters never share an id, and every id is the file name's or sorts behind it. */
  lemma OptIdInjective(c: char, d: char)
    ensures OptId(c).Some? && OptId(c) == OptId(d) ==> c == d
    ensures OptId(c).Some? ==> OptId(c).value >= Ids.FILENAME && OptId(c).value != Ids.FLAGS
  {
  }

  /** The default string lists exactly the letters with an effect. */
  lemma DefaultsAreTheSwitch(c: char)
    ensures HasLetter(FILESTAT_OPTS_DEFAULT, c) <==> OptId(c).Some?
  {
    var s := FILESTAT_OPTS_DEFAULT;
    assert s[0] == 'n' && s[1] == 'i' && s[2] == 'u' && s[3] == 'g' && s[4] == 'M' && s[5] == 'a';
    assert s[6] == 'm' && s[7] == 'c' && s[8] == 'd' && s[9] == 's' && s[10] == 'p';
  }

  function Texts(info: FileInfo): (textOf: char -> string)
  {
    c => OptText(c, info)
  }

  function Pair(c: char, info: FileInfo): (a: Attr)
    requires OptId(c).Some?
  {
    PairOf(c, OptId, Texts(info))
  }

  function Pairs(opts: string, info: FileInfo): (pairs: seq<Attr>)
    requires Known(opts)
  {
    PairsOf(opts, OptId, Texts(info))
  }

  /** A file after the pass: unchanged when stat fails. */
  function FileAfter(opts: string, stat: Option<FileInfo>, r: FileRec): (r': FileRec)
    requires Known(opts)
  {
    match stat
    case None => r
    case Some(info) => FileAddAll(r, Ordered(Collect(Pairs(opts, info))))
  }

  /** All files of a process; the path is formed anew from the process's pid and the map key. */
  function ProcAfter(opts: string, stat: string -> Option<FileInfo>, txtFd: nat, p: ProcRec): (p': ProcRec)
    requires Known(opts)
  {
    p.(ulFiles := map f | f in p.ulFiles :: FileAfter(opts, stat(FormPath(txtFd, p.pid, U32(f))), p.ulFiles[f]))
  }

  function Pass(opts: string, stat: string -> Option<FileInfo>, txtFd: nat, t: Table): (t': Table)
    requires Known(opts)
  {
    map k | k in t :: ProcAfter(opts, stat, txtFd, t[k])
  }

  /** `processOpiton`, with the link read through the growing buffer. */
  method ProcessOption(c: char, info: FileInfo) returns (a: Attr)
    requires OptId(c).Some?
    ensures a == Pair(c, info)
  {
    if c == 'n' {
      var name, _, _ := ReadFileName(info.link);
      a := Attr(Ids.FILENAME, name);
    } else {
      a := Attr(OptId(c).value, OptText(c, info));
    }
  }

  /** The option loop of `readFileStatAttributes`. */
  method CollectReaders(opts: string, info: FileInfo) returns (fileStatFuncs: Deferred)
    requires Known(opts)
    ensures fileStatFuncs == Collect(Pairs(opts, info))
  {
    hide OptText;
    ghost var pairs := Pairs(opts, info);
    fileStatFuncs := map[];
    for i := 0 to |opts|
      invariant fileStatFuncs == Collect(pairs[..i])
    {
      var a := ProcessOption(opts[i], info);
      assert pairs[..i + 1][..i] == pairs[..i] && pairs[..i + 1][i] == a;
      fileStatFuncs := InsertFirst(fileStatFuncs, a.id, a.value);
    }
    assert pairs[..|opts|] == pairs;
  }

  function WithFileAll(p: ProcRec, f: int, attrs: seq<Attr>): (p': ProcRec)
    requires f in p.ulFiles
  {
    p.(ulFiles := p.ulFiles[f := FileAddAll(p.ulFiles[f], attrs)])
  }

  lemma WithFileAllSnoc(p: ProcRec, f: int, attrs: seq<Attr>, j: nat)
    requires f in p.ulFiles && j < |attrs|
    ensures WithFileAll(p, f, attrs[..j + 1]) == WithFileAttr(WithFileAll(p, f, attrs[..j]), f, attrs[j])
  {
    hide FileAdd;
    FileAddAllSnoc(p.ulFiles[f], attrs, j);
    assert p.ulFiles[f := FileAddAll(p.ulFiles[f], attrs[..j])][f := FileAddAll(p.ulFiles[f], attrs[..j + 1])]
        == p.ulFiles[f := FileAddAll(p.ulFiles[f], attrs[..j + 1])];
  }

  /** The deferred calls, in id order. */
  method MakeCalls(m: ProcMap, fileStatFuncs: Deferred, ulf: UnlinkedFile, ghost k: int, ghost f: int)
    requires m.Valid() && k in m.entries && f in m.entries[k].ulFiles && ulf == m.entries[k].ulFiles[f]
    modifies m`table, ulf`attributes
    ensures m.Valid()
    ensures m.table == old(m.table)[k := WithFileAll(old(m.table)[k], f, Ordered(fileStatFuncs))]
  {
    hide FileAdd, Ordered;
    ghost var t := m.table;
    var calls := Ordered(fileStatFuncs);
    assert calls[..0] == [] && WithFileAll(t[k], f, []) == t[k] by {
      assert t[k].ulFiles[f := t[k].ulFiles[f]] == t[k].ulFiles;
    }
    assert t[k := t[k]] == t;
    for j := 0 to |calls|
      invariant m.Valid() && m.table == t[k := WithFileAll(t[k], f, calls[..j])]
    {
      hide FileAddAll, WithFileAll, WithFileAttr;
      WithFileAllSnoc(t[k], f, calls, j);
      m.AddToFile(ulf, k, f, calls[j].id, calls[j].value);
    }
    assert calls[..|calls|] == calls;
  }

  /** A process with one file replaced. */
  ghost function SetFile(p: ProcRec, f: int, r: FileRec): (p': ProcRec) { p.(ulFiles := p.ulFiles[f := r]) }

  /** `readFileStatAttributes`: what stat says goes to one file. */
  method ReadFileStatAttributes(m: ProcMap, opts: string, stat: Option<FileInfo>, ulf: UnlinkedFile,
                                ghost k: int, ghost f: int)
    requires m.Valid() && k in m.entries && f in m.entries[k].ulFiles && ulf == m.entries[k].ulFiles[f] && Known(opts)
    modifies m`table, ulf`attributes
    ensures m.Valid()
    ensures m.table == old(m.table)[k := SetFile(old(m.table)[k], f, FileAfter(opts, stat, old(m.table)[k].ulFiles[f]))]
  {
    hide Known, Collect, Ordered, FileAddAll, Pairs;
    match stat {
      case None =>
        assert SetFile(m.table[k], f, m.table[k].ulFiles[f]) == m.table[k];
      case Some(info) =>
        var fileStatFuncs := CollectReaders(opts, info);
        MakeCalls(m, fileStatFuncs, ulf, k, f);
    }
  }

  /** `addFileAttributes`: the files of one process in key order. */
  method AddFileAttributes(m: ProcMap, opts: string, stat: string -> Option<FileInfo>, txtFd: nat,
                           pf: ProcFile, ghost k: int)
    requires m.Valid() && k in m.entries && pf == m.entries[k] && Known(opts)
    modifies m`table, pf.ulFiles.Values`attributes
    ensures m.Valid()
    ensures m.table == old(m.table)[k := ProcAfter(opts, stat, txtFd, old(m.table)[k])]
  {
    hide Known, U32, FormPath, FileAfter;
    ghost var t, p := m.table, m.table[k];
    var todo := pf.ulFiles.Keys;
    while todo != {}
      invariant m.Valid() && todo <= p.ulFiles.Keys
      invariant m.table == t[k := p] && p == t[k].(ulFiles := p.ulFiles) && p.ulFiles.Keys == t[k].ulFiles.Keys
      invariant forall f :: f in p.ulFiles ==>
                  p.ulFiles[f] ==
                  if f in todo then t[k].ulFiles[f]
                  else FileAfter(opts, stat(FormPath(txtFd, t[k].pid, U32(f))), t[k].ulFiles[f])
      decreases todo
    {
      var f := Least(todo);
      var info := stat(FormPath(txtFd, pf.pid, U32(f)));
      ReadFileStatAttributes(m, opts, info, pf.ulFiles[f], k, f);
      p := SetFile(p, f, FileAfter(opts, info, p.ulFiles[f]));
      todo := todo - {f};
    }
    assert p.ulFiles == ProcAfter(opts, stat, txtFd, t[k]).ulFiles;
  }

  /** The pass has been over all processes but those in todo. */
  ghost predicate Done(now: Table, t: Table, todo: set<int>, opts: string, stat: string -> Option<FileInfo>, txtFd: nat)
    requires Known(opts)
  {
    && now.Keys == t.Keys && todo <= t.Keys
    && forall k :: k in t ==> now[k] == if k in todo then t[k] else ProcAfter(opts, stat, txtFd, t[k])
  }

  lemma DoneSteps(now: Table, t: Table, todo: set<int>, opts: string, stat: string -> Option<FileInfo>, txtFd: nat)
    requires Known(opts) && Done(now, t, todo, opts, stat, txtFd)
    ensures todo == {} ==> now == Pass(opts, stat, txtFd, t)
    ensures forall k :: k in todo ==>
              k in now && Done(now[k := ProcAfter(opts, stat, txtFd, now[k])], t, todo - {k}, opts, stat, txtFd)
  {
    hide Known, ProcAfter;
    if todo == {} {
      var pass := Pass(opts, stat, txtFd, t);
      assert forall k :: k in t ==> now[k] == pass[k];
    }
  }

  /** `do_read`. `files` names the file objects in the map. */
  method DoRead(m: ProcMap, opts: string, stat: string -> Option<FileInfo>, txtFd: nat,
                ghost files: set<UnlinkedFile>)
    requires m.Valid() && Known(opts)
    requires forall k :: k in m.entries ==> m.entries[k].ulFiles.Values <= files
    modifies m`table, files`attributes
    ensures m.Valid()
    ensures m.table == Pass(opts, stat, txtFd, old(m.table))
  {
    ghost var t := m.table;
    var todo := m.entries.Keys;
    assert Done(t, t, todo, opts, stat, txtFd);
    hide Known, ProcAfter, Done, Pass;
    while todo != {}
      invariant m.Valid() && todo <= m.table.Keys && Done(m.table, t, todo, opts, stat, txtFd)
      decreases todo
    {
      var k := Least(todo);
      DoneSteps(m.table, t, todo, opts, stat, txtFd);
      AddFileAttributes(m, opts, stat, txtFd, m.entries[k], k);
      todo := todo - {k};
    }
    DoneSteps(m.table, t, todo, opts, stat, txtFd);
  }

  // ----- what a pass does -----

  ghost function LetterIds(opts: string): set<int>
    requires Known(opts)
  {
    IdsOf(opts, OptId)
  }

  lemma SwitchInjective()
    ensures Injective(OptId)
  {
    forall c, c' | OptId(c).Some? && OptId(c) == OptId(c') ensures c == c' {
      OptIdInjective(c, c');
    }
  }

  /** The whole pass depends on the set of letters only. */
  lemma PassByLetters(opts: string, opts': string, stat: string -> Option<FileInfo>, txtFd: nat, t: Table)
    requires Known(opts) && Known(opts') && SameLetters(opts, opts')
    ensures Pass(opts, stat, txtFd, t) == Pass(opts', stat, txtFd, t)
  {
    SwitchInjective();
    hide OptId, Texts, PairsOf, Collect, SameLetters, U32, FormPath, Injective, Handled;
    forall k, f | k in t && f in t[k].ulFiles
      ensures var info := stat(FormPath(txtFd, t[k].pid, U32(f)));
              FileAfter(opts, info, t[k].ulFiles[f]) == FileAfter(opts', info, t[k].ulFiles[f])
    {
      var info := stat(FormPath(txtFd, t[k].pid, U32(f)));
      if info.Some? {
        DeferredByLetters(opts, opts', OptId, Texts(info.value));
      }
    }
    forall k | k in t ensures ProcAfter(opts, stat, txtFd, t[k]) == ProcAfter(opts', stat, txtFd, t[k]) {}
  }

  // ----- what the texts say -----

  /** Sizes and ids are exact exactly below 2^32; the name is the whole link target exactly when
      the target holds no NUL. */
  lemma NumbersShown(info: FileInfo)
    ensures Value(OptText('s', info), 10) == info.size <==> info.size < 0x1_0000_0000
    ensures Value(OptText('i', info), 10) == info.ino <==> info.ino < 0x1_0000_0000
    ensures Value(OptText('u', info), 10) == info.uid <==> info.uid < 0x1_0000_0000
    ensures Value(OptText('g', info), 10) == info.gid <==> info.gid < 0x1_0000_0000
    ensures info.link.Some? ==> (OptText('n', info) == info.link.value <==> NulFree(info.link.value))
  {
    hide Format, Value, CString;
    FormatExact(info.size, "");
    FormatExact(info.ino, "");
    FormatExact(info.uid, "");
    FormatExact(info.gid, "");
    if info.link.Some? {
      CStringWhole(info.link.value);
    }
  }

  // ----- what every letter's text says, by readers that know nothing of the texts' making -----

  /** The link target in front of its first NUL; nothing if the link cannot be read. */
  ghost predicate ShowsLink(t: string, link: Option<string>) {
    match link
    case None => t == ""
    case Some(target) => |t| <= |target| && t == target[..|t|] && NulFree(t) && (|t| == |target| || target[|t|] == '\0')
  }

  /** Every letter's text, exactly: t is the text if and only if it says this about the letter's own field. */
  lemma TextsSay(info: FileInfo, t: string)
    ensures t == OptText('n', info) <==> ShowsLink(t, info.link)
    ensures t == OptText('i', info) <==> ReadNumber(t, 10) == Some(info.ino % 0x1_0000_0000)
    ensures t == OptText('u', info) <==> ReadNumber(t, 10) == Some(info.uid % 0x1_0000_0000)
    ensures t == OptText('g', info) <==> ReadNumber(t, 10) == Some(info.gid % 0x1_0000_0000)
    ensures t == OptText('M', info) <==> t == info.mode
    ensures t == OptText('a', info) <==> t == info.atime
    ensures t == OptText('m', info) <==> t == info.mtime
    ensures t == OptText('c', info) <==> t == info.ctime
    ensures t == OptText('d', info) <==> t == info.device
    ensures t == OptText('s', info) <==> ReadNumber(t, 10) == Some(info.size % 0x1_0000_0000)
    ensures t == OptText('p', info) <==> t == info.perms
  {
    hide Format, ReadNumber, CString;
    FormatReadsBack(t, info.ino);
    FormatReadsBack(t, info.uid);
    FormatReadsBack(t, info.gid);
    FormatReadsBack(t, info.size);
    if info.link.Some? {
      CStringExactly(info.link.value, t);
    }
  }

  /** A list of attributes that holds, besides others, exactly the selected letters' attributes: id,
      selecting letter and text of each. */
  ghost predicate ListSays(attrs: seq<Attr>, opts: string, info: FileInfo, t: string)
  {
    && (Attr(2, t) in attrs <==> 'n' in opts && ShowsLink(t, info.link))
    && (Attr(8, t) in attrs <==> 'i' in opts && ReadNumber(t, 10) == Some(info.ino % 0x1_0000_0000))
    && (Attr(25, t) in attrs <==> 'u' in opts && ReadNumber(t, 10) == Some(info.uid % 0x1_0000_0000))
    && (Attr(35, t) in attrs <==> 'g' in opts && ReadNumber(t, 10) == Some(info.gid % 0x1_0000_0000))
    && (Attr(39, t) in attrs <==> 'M' in opts && t == info.mode)
    && (Attr(46, t) in attrs <==> 'a' in opts && t == info.atime)
    && (Attr(47, t) in attrs <==> 'm' in opts && t == info.mtime)
    && (Attr(48, t) in attrs <==> 'c' in opts && t == info.ctime)
    && (Attr(6, t) in attrs <==> 'd' in opts && t == info.device)
    && (Attr(57, t) in attrs <==> 's' in opts && ReadNumber(t, 10) == Some(info.size % 0x1_0000_0000))
    && (Attr(42, t) in attrs <==> 'p' in opts && t == info.perms)
  }

  /** The attributes are those of base, under another id than the letters', and those of the letters. */
  ghost predicate MadeOf(attrs: seq<Attr>, base: seq<Attr>, opts: string, info: FileInfo)
    requires Known(opts)
  {
    && (forall a :: a in attrs <==> a in base || OfLetter(opts, OptId, Texts(info), a))
    && (forall a :: a in base ==> a.id == 41)
  }

  lemma LetterIn(attrs: seq<Attr>, base: seq<Attr>, opts: string, info: FileInfo, t: string, c: char, id: int)
    requires Known(opts)
    requires MadeOf(attrs, base, opts, info) && OptId(c) == Some(id) && id != 41
    ensures Attr(id, t) in attrs <==> c in opts && t == OptText(c, info)
  {
    SwitchInjective();
    hide OptId, OptText, OfLetter, Injective;
    OfOneLetter(opts, OptId, Texts(info), c, t);
  }

  lemma LettersSay(attrs: seq<Attr>, base: seq<Attr>, opts: string, info: FileInfo, t: string)
    requires Known(opts)
    requires MadeOf(attrs, base, opts, info)
    ensures ListSays(attrs, opts, info, t)
  {
    hide OptText, MadeOf, Known, ReadNumber, ShowsLink;
    TextsSay(info, t);
    LetterIn(attrs, base, opts, info, t, 'n', 2);
    LetterIn(attrs, base, opts, info, t, 'i', 8);
    LetterIn(attrs, base, opts, info, t, 'u', 25);
    LetterIn(attrs, base, opts, info, t, 'g', 35);
    LetterIn(attrs, base, opts, info, t, 'M', 39);
    LetterIn(attrs, base, opts, info, t, 'a', 46);
    LetterIn(attrs, base, opts, info, t, 'm', 47);
    LetterIn(attrs, base, opts, info, t, 'c', 48);
    LetterIn(attrs, base, opts, info, t, 'd', 6);
    LetterIn(attrs, base, opts, info, t, 's', 57);
    LetterIn(attrs, base, opts, info, t, 'p', 42);
  }
}
