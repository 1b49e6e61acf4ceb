/** `ProcReader`: adds the selected /proc attributes to every process. What the kernel and the
    user database say comes in as a ProcInfo per process. */
module ProcReader {
  import opened Common
  import opened Numerals
  import opened Formatting
  import opened Files
  import opened OrderedKeys
  import opened Pipeline
  import Ids = AttributeIds

  const PROC_OPTS_DEFAULT := "PnUqMduGgesvrTDSic"

  /** What `readProcStat` and the calls it enables return. Texts come from calls outside the model. */
  datatype ProcInfo = ProcInfo(
    command: string, ppid: nat, procgid: nat, loginName: string, uid: nat, groupName: string, gid: nat,
    startTime: string, utime: nat, stime: nat, state: string, device: string, vms: nat, rss: nat,
    textBegin: nat, textEnd: nat, dataBegin: nat, dataEnd: nat, stackBegin: nat, esp: nat, epi: nat,
    perms: string)

  /** The attribute an option letter stands for; None is the error branch. */
  function OptId(c: char): (id: Option<int>) {
    if c == 'c' then Some(Ids.CMD)
    else if c == 'P' then Some(Ids.PPID)
    else if c == 'n' then Some(Ids.PROCGID)
    else if c == 'U' then Some(Ids.LOGINNAME)
    else if c == 'u' then Some(Ids.UID)
    else if c == 'G' then Some(Ids.UGID_NAME)
    else if c == 'g' then Some(Ids.UGID)
    else if c == 'e' then Some(Ids.PSTART_TIME)
    else if c == 'q' then Some(Ids.PCPU_TIME)
    else if c == 's' then Some(Ids.PSTATE)
    else if c == 'd' then Some(Ids.DEVICE)
    else if c == 'v' then Some(Ids.PVMS)
    else if c == 'r' then Some(Ids.PRSS)
    else if c == 'T' then Some(Ids.TEXT_REGION)
    else if c == 'D' then Some(Ids.DATA_REGION)
    else if c == 'S' then Some(Ids.STACK_REGION)
    else if c == 'i' then Some(Ids.EPI)
    else if c == 'M' then Some(Ids.PERMS)
    else None
  }

  function OptText(c: char, info: ProcInfo, clockTick: nat): (text: string)
    requires clockTick > 0
  {
    if c == 'c' then info.command
    else if c == 'P' then Format(info.ppid)
    else if c == 'n' then Format(info.procgid)
    else if c == 'U' then info.loginName
    else if c == 'u' then Numeral(info.uid, 10)
    else if c == 'G' then info.groupName
    else if c == 'g' then Numeral(info.gid, 10)
    else if c == 'e' then info.startTime
    else if c == 'q' then ReadETime(info.stime + info.utime, clockTick)
    else if c == 's' then info.state
    else if c == 'd' then info.device
    else if c == 'v' then Format(info.vms)
    else if c == 'r' then Format(info.rss)
    else if c == 'T' then FormatRange(info.textBegin, info.textEnd)
    else if c == 'D' then FormatRange(info.dataBegin, info.dataEnd)
    else if c == 'S' then FormatRange(info.stackBegin, info.esp)
    else if c == 'i' then FormatRange(info.epi, NO_END)
    else if c == 'M' then info.perms
    else ""
  }

  predicate Known(opts: string) { Handled(opts, OptId) }

  /** Two letters never share an id; an id is the command's or sorts behind the PID. */
  lemma OptIdInjective(c: char, d: char)
    ensures OptId(c).Some? && OptId(c) == OptId(d) ==> c == d
    ensures OptId(c).Some? ==> OptId(c).value == Ids.CMD || OptId(c).value > Ids.PID
  {
  }

  /** The default string lists exactly the letters of the switch. */
  lemma DefaultsAreTheSwitch(c: char)
    ensures HasLetter(PROC_OPTS_DEFAULT, c) <==> OptId(c).Some?
  {
    var s := PROC_OPTS_DEFAULT;
    assert s[0] == 'P' && s[1] == 'n' && s[2] == 'U' && s[3] == 'q' && s[4] == 'M' && s[5] == 'd';
    assert s[6] == 'u' && s[7] == 'G' && s[8] == 'g' && s[9] == 'e' && s[10] == 's' && s[11] == 'v';
    assert s[12] == 'r' && s[13] == 'T' && s[14] == 'D' && s[15] == 'S' && s[16] == 'i' && s[17] == 'c';
  }

  function Texts(info: ProcInfo, clockTick: nat): (textOf: char -> string)
    requires clockTick > 0
  {
    c => OptText(c, info, clockTick)
  }

  function Pair(c: char, info: ProcInfo, clockTick: nat): (a: Attr)
    requires OptId(c).Some? && clockTick > 0
  {
    PairOf(c, OptId, Texts(info, clockTick))
  }

  function Pairs(opts: string, info: ProcInfo, clockTick: nat): (pairs: seq<Attr>)
    requires Known(opts) && clockTick > 0
  {
    PairsOf(opts, OptId, Texts(info, clockTick))
  }

  /** A process after the pass: unchanged when its /proc entry cannot be read. */
  function ProcAfter(opts: string, stat: Option<ProcInfo>, clockTick: nat, p: ProcRec): (p': ProcRec)
    requires Known(opts) && clockTick > 0
  {
    match stat
    case None => p
    case Some(info) => ProcAddAll(p, Ordered(Collect(Pairs(opts, info, clockTick))))
  }

  function Pass(opts: string, stat: nat -> Option<ProcInfo>, clockTick: nat, t: Table): (t': Table)
    requires Known(opts) && clockTick > 0
  {
    map k | k in t :: ProcAfter(opts, stat(U32(k)), clockTick, t[k])
  }

  /** The first inner loop of `do_read`: option letters to deferred calls. */
  method CollectReaders(opts: string, info: ProcInfo, clockTick: nat) returns (procReaderFuncs: Deferred)
    requires Known(opts) && clockTick > 0
    ensures procReaderFuncs == Collect(Pairs(opts, info, clockTick))
  {
    hide OptText;
    ghost var pairs := Pairs(opts, info, clockTick);
    procReaderFuncs := map[];
    for i := 0 to |opts|
      invariant procReaderFuncs == Collect(pairs[..i])
    {
      var a := Pair(opts[i], info, clockTick);
      assert pairs[..i + 1][..i] == pairs[..i] && pairs[..i + 1][i] == a;
      procReaderFuncs := InsertFirst(procReaderFuncs, a.id, a.value);
    }
    assert pairs[..|opts|] == pairs;
  }

  /** The second inner loop: the calls, in id order. */
  method MakeCalls(m: ProcMap, procReaderFuncs: Deferred, pf: ProcFile, ghost k: int)
    requires m.Valid() && k in m.entries && pf == m.entries[k]
    modifies m`table, pf`pid, pf`attributes
    ensures m.Valid()
    ensures m.table == old(m.table)[k := ProcAddAll(old(m.table)[k], Ordered(procReaderFuncs))]
  {
    hide ProcAdd, Ordered;
    ghost var t := m.table;
    var calls := Ordered(procReaderFuncs);
    for j := 0 to |calls|
      invariant m.Valid() && m.table == t[k := ProcAddAll(t[k], calls[..j])]
    {
      hide ProcAddAll;
      ProcAddAllSnoc(t[k], calls, j);
      m.AddToProc(pf, k, calls[j].id, calls[j].value);
    }
    assert calls[..|calls|] == calls;
  }

  /** `do_read`: one pass over the map in key order. */
  method DoRead(m: ProcMap, opts: string, stat: nat -> Option<ProcInfo>, clockTick: nat)
    requires m.Valid() && Known(opts) && clockTick > 0
    modifies m`table, m.entries.Values`pid, m.entries.Values`attributes
    ensures m.Valid()
    ensures m.table == Pass(opts, stat, clockTick, old(m.table))
  {
    hide Known, U32, Collect, Ordered, ProcAddAll, Pairs;
    ghost var t := m.table;
    var todo := m.entries.Keys;
    while todo != {}
      invariant m.Valid() && m.table.Keys == t.Keys && todo <= t.Keys
      invariant forall k :: k in t ==>
                  m.table[k] == if k in todo then t[k] else ProcAfter(opts, stat(U32(k)), clockTick, t[k])
      decreases todo
    {
      var k := Least(todo);
      match stat(U32(k)) {
        case None =>
        case Some(info) =>
          var procReaderFuncs := CollectReaders(opts, info, clockTick);
          MakeCalls(m, procReaderFuncs, m.entries[k], k);
      }
      todo := todo - {k};
    }
  }

  // ----- what a pass does -----

  ghost function LetterIds(opts: string): set<int>
    requires Known(opts)
  {
    IdsOf(opts, OptId)
  }

  lemma SwitchInjective()
    ensures Injective(OptId)
  {
    forall c, c' | OptId(c).Some? && OptId(c) == OptId(c') ensures c == c' {
      OptIdInjective(c, c');
    }
  }

  /** The whole pass depends on the set of letters only. */
  lemma PassByLetters(opts: string, opts': string, stat: nat -> Option<ProcInfo>, clockTick: nat, t: Table)
    requires Known(opts) && Known(opts') && SameLetters(opts, opts') && clockTick > 0
    ensures Pass(opts, stat, clockTick, t) == Pass(opts', stat, clockTick, t)
  {
    SwitchInjective();
    hide OptId, Texts, PairsOf, Collect, SameLetters, U32, Injective, Handled;
    forall k | k in t
      ensures ProcAfter(opts, stat(U32(k)), clockTick, t[k]) == ProcAfter(opts', stat(U32(k)), clockTick, t[k])
    {
      if stat(U32(k)).Some? {
        DeferredByLetters(opts, opts', OptId, Texts(stat(U32(k)).value, clockTick));
      }
    }
  }

  // ----- what the texts say -----

  /** Sizes and ids are exact exactly below 2^32, the CPU time exactly when its seconds fit an `int`. */
  lemma NumbersShown(info: ProcInfo, clockTick: nat)
    requires 0 < clockTick <= 0x1_0000_0000
    ensures Value(OptText('v', info, clockTick), 10) == info.vms <==> info.vms < 0x1_0000_0000
    ensures Value(OptText('r', info, clockTick), 10) == info.rss <==> info.rss < 0x1_0000_0000
    ensures Value(OptText('P', info, clockTick), 10) == info.ppid <==> info.ppid < 0x1_0000_0000
    ensures Value(OptText('n', info, clockTick), 10) == info.procgid <==> info.procgid < 0x1_0000_0000
    ensures Value(OptText('u', info, clockTick), 10) == info.uid && Value(OptText('g', info, clockTick), 10) == info.gid
    ensures ParseHms(OptText('q', info, clockTick)) == Some((info.stime + info.utime) / clockTick) <==>
            (info.stime + info.utime) / clockTick < 0x8000_0000
  {
    hide Format, ReadETime, ParseHms, Value, FormatRange, Numeral;
    NumeralValue(info.uid, 10);
    NumeralValue(info.gid, 10);
    FormatExact(info.vms, "");
    FormatExact(info.rss, "");
    FormatExact(info.ppid, "");
    FormatExact(info.procgid, "");
    CpuTimeExact(info.stime + info.utime, clockTick);
  }

  /** The region texts determine both addresses, the instruction pointer's text its one. */
  lemma RegionsShown(a: ProcInfo, b: ProcInfo, clockTick: nat)
    requires clockTick > 0
    ensures OptText('T', a, clockTick) == OptText('T', b, clockTick) <==> a.textBegin == b.textBegin && a.textEnd == b.textEnd
    ensures OptText('D', a, clockTick) == OptText('D', b, clockTick) <==> a.dataBegin == b.dataBegin && a.dataEnd == b.dataEnd
    ensures OptText('S', a, clockTick) == OptText('S', b, clockTick) <==> a.stackBegin == b.stackBegin && a.esp == b.esp
    ensures OptText('i', a, clockTick) == OptText('i', b, clockTick) <==> a.epi == b.epi
    ensures ReadAddresses(OptText('T', a, clockTick)) == Some((a.textBegin, EndOf(a.textEnd)))
    ensures ReadAddresses(OptText('D', a, clockTick)) == Some((a.dataBegin, EndOf(a.dataEnd)))
    ensures ReadAddresses(OptText('S', a, clockTick)) == Some((a.stackBegin, EndOf(a.esp)))
    ensures ReadAddresses(OptText('i', a, clockTick)) == Some((a.epi, None))
  {
    hide ReadAddresses, FormatRange;
    RangeReadsBack(OptText('T', a, clockTick), a.textBegin, a.textEnd);
    RangeReadsBack(OptText('D', a, clockTick), a.dataBegin, a.dataEnd);
    RangeReadsBack(OptText('S', a, clockTick), a.stackBegin, a.esp);
    RangeReadsBack(OptText('i', a, clockTick), a.epi, NO_END);
    FormatRangeInjective(a.textBegin, a.textEnd, b.textBegin, b.textEnd);
    FormatRangeInjective(a.dataBegin, a.dataEnd, b.dataBegin, b.dataEnd);
    FormatRangeInjective(a.stackBegin, a.esp, b.stackBegin, b.esp);
    FormatRangeInjective(a.epi, NO_END, b.epi, NO_END);
  }

  // ----- what every letter's text says, by readers that know nothing of the texts' making -----

  /** The end address of a region; the code writes none for the sentinel 33. */
  function EndOf(end: nat): (e: Option<nat>) { if end == 33 then None else Some(end) }

  lemma FieldsSay(info: ProcInfo, clockTick: nat, t: string)
    requires clockTick > 0
    ensures t == OptText('c', info, clockTick) <==> t == info.command
    ensures t == OptText('U', info, clockTick) <==> t == info.loginName
    ensures t == OptText('G', info, clockTick) <==> t == info.groupName
    ensures t == OptText('e', info, clockTick) <==> t == info.startTime
    ensures t == OptText('s', info, clockTick) <==> t == info.state
    ensures t == OptText('d', info, clockTick) <==> t == info.device
    ensures t == OptText('M', info, clockTick) <==> t == info.perms
  {
  }

  lemma NumbersSay(info: ProcInfo, clockTick: nat, t: string)
    requires clockTick > 0
    ensures t == OptText('P', info, clockTick) <==> ReadNumber(t, 10) == Some(info.ppid % 0x1_0000_0000)
    ensures t == OptText('n', info, clockTick) <==> ReadNumber(t, 10) == Some(info.procgid % 0x1_0000_0000)
    ensures t == OptText('u', info, clockTick) <==> ReadNumber(t, 10) == Some(info.uid)
    ensures t == OptText('g', info, clockTick) <==> ReadNumber(t, 10) == Some(info.gid)
    ensures t == OptText('q', info, clockTick) <==> ShowsTime(t, info.utime + info.stime, clockTick)
    ensures t == OptText('v', info, clockTick) <==> ReadNumber(t, 10) == Some(info.vms % 0x1_0000_0000)
    ensures t == OptText('r', info, clockTick) <==> ReadNumber(t, 10) == Some(info.rss % 0x1_0000_0000)
  {
    hide Format, Numeral, ReadNumber, ReadETime, ShowsTime, FormatRange;
    FormatReadsBack(t, info.ppid);
    FormatReadsBack(t, info.procgid);
    FormatReadsBack(t, info.vms);
    FormatReadsBack(t, info.rss);
    NumberReadsBack(t, info.uid, 10);
    NumberReadsBack(t, info.gid, 10);
    TimeShown(t, info.utime + info.stime, clockTick);
  }

  lemma AddressesSay(info: ProcInfo, clockTick: nat, t: string)
    requires clockTick > 0
    ensures t == OptText('T', info, clockTick) <==> ReadAddresses(t) == Some((info.textBegin, EndOf(info.textEnd)))
    ensures t == OptText('D', info, clockTick) <==> ReadAddresses(t) == Some((info.dataBegin, EndOf(info.dataEnd)))
    ensures t == OptText('S', info, clockTick) <==> ReadAddresses(t) == Some((info.stackBegin, EndOf(info.esp)))
    ensures t == OptText('i', info, clockTick) <==> ReadAddresses(t) == Some((info.epi, None))
  {
    hide Format, Numeral, ReadETime, FormatRange, ReadAddresses;
    RangeReadsBack(t, info.textBegin, info.textEnd);
    RangeReadsBack(t, info.dataBegin, info.dataEnd);
    RangeReadsBack(t, info.stackBegin, info.esp);
    RangeReadsBack(t, info.epi, NO_END);
  }

  /** Every letter's text, exactly: t is the text if and only if it says this about the letter's own field. */
  lemma TextsSay(info: ProcInfo, clockTick: nat, t: string)
    requires clockTick > 0
    ensures t == OptText('c', info, clockTick) <==> t == info.command
    ensures t == OptText('P', info, clockTick) <==> ReadNumber(t, 10) == Some(info.ppid % 0x1_0000_0000)
    ensures t == OptText('n', info, clockTick) <==> ReadNumber(t, 10) == Some(info.procgid % 0x1_0000_0000)
    ensures t == OptText('U', info, clockTick) <==> t == info.loginName
    ensures t == OptText('u', info, clockTick) <==> ReadNumber(t, 10) == Some(info.uid)
    ensures t == OptText('G', info, clockTick) <==> t == info.groupName
    ensures t == OptText('g', info, clockTick) <==> ReadNumber(t, 10) == Some(info.gid)
    ensures t == OptText('e', info, clockTick) <==> t == info.startTime
    ensures t == OptText('q', info, clockTick) <==> ShowsTime(t, info.utime + info.stime, clockTick)
    ensures t == OptText('s', info, clockTick) <==> t == info.state
    ensures t == OptText('d', info, clockTick) <==> t == info.device
    ensures t == OptText('v', info, clockTick) <==> ReadNumber(t, 10) == Some(info.vms % 0x1_0000_0000)
    ensures t == OptText('r', info, clockTick) <==> ReadNumber(t, 10) == Some(info.rss % 0x1_0000_0000)
    ensures t == OptText('T', info, clockTick) <==> ReadAddresses(t) == Some((info.textBegin, EndOf(info.textEnd)))
    ensures t == OptText('D', info, clockTick) <==> ReadAddresses(t) == Some((info.dataBegin, EndOf(info.dataEnd)))
    ensures t == OptText('S', info, clockTick) <==> ReadAddresses(t) == Some((info.stackBegin, EndOf(info.esp)))
    ensures t == OptText('i', info, clockTick) <==> ReadAddresses(t) == Some((info.epi, None))
    ensures t == OptText('M', info, clockTick) <==> t == info.perms
  {
    hide OptText, ReadNumber, ShowsTime, ReadAddresses;
    FieldsSay(info, clockTick, t);
    NumbersSay(info, clockTick, t);
    AddressesSay(info, clockTick, t);
  }

  /** A list of attributes that holds, besides others, exactly the selected letters' attributes: id,
      selecting letter and text of each. */
  ghost predicate ListSays(attrs: seq<Attr>, opts: string, info: ProcInfo, clockTick: nat, t: string)
    requires clockTick > 0
  {
    ListSaysValues(attrs, opts, info, clockTick, t) && ListSaysRegions(attrs, opts, info, t)
  }

  ghost predicate ListSaysValues(attrs: seq<Attr>, opts: string, info: ProcInfo, clockTick: nat, t: string)
    requires clockTick > 0
  {
    && (Attr(0, t) in attrs <==> 'c' in opts && t == info.command)
    && (Attr(15, t) in attrs <==> 'P' in opts && ReadNumber(t, 10) == Some(info.ppid % 0x1_0000_0000))
    && (Attr(10, t) in attrs <==> 'n' in opts && ReadNumber(t, 10) == Some(info.procgid % 0x1_0000_0000))
    && (Attr(20, t) in attrs <==> 'U' in opts && t == info.loginName)
    && (Attr(25, t) in attrs <==> 'u' in opts && ReadNumber(t, 10) == Some(info.uid))
    && (Attr(30, t) in attrs <==> 'G' in opts && t == info.groupName)
    && (Attr(35, t) in attrs <==> 'g' in opts && ReadNumber(t, 10) == Some(info.gid))
    && (Attr(45, t) in attrs <==> 'e' in opts && t == info.startTime)
    && (Attr(50, t) in attrs <==> 'q' in opts && ShowsTime(t, info.utime + info.stime, clockTick))
    && (Attr(40, t) in attrs <==> 's' in opts && t == info.state)
    && (Attr(6, t) in attrs <==> 'd' in opts && t == info.device)
    && (Attr(60, t) in attrs <==> 'v' in opts && ReadNumber(t, 10) == Some(info.vms % 0x1_0000_0000))
    && (Attr(65, t) in attrs <==> 'r' in opts && ReadNumber(t, 10) == Some(info.rss % 0x1_0000_0000))
    && (Attr(42, t) in attrs <==> 'M' in opts && t == info.perms)
  }

  ghost predicate ListSaysRegions(attrs: seq<Attr>, opts: string, info: ProcInfo, t: string) {
    && (Attr(70, t) in attrs <==> 'T' in opts && ReadAddresses(t) == Some((info.textBegin, EndOf(info.textEnd))))
    && (Attr(75, t) in attrs <==> 'D' in opts && ReadAddresses(t) == Some((info.dataBegin, EndOf(info.dataEnd))))
    && (Attr(80, t) in attrs <==> 'S' in opts && ReadAddresses(t) == Some((info.stackBegin, EndOf(info.esp))))
    && (Attr(90, t) in attrs <==> 'i' in opts && ReadAddresses(t) == Some((info.epi, None)))
  }

  /** The attributes are those of base, under another id than the letters', and those of the letters. */
  ghost predicate MadeOf(attrs: seq<Attr>, base: seq<Attr>, opts: string, info: ProcInfo, clockTick: nat)
    requires Known(opts) && clockTick > 0
  {
    && (forall a :: a in attrs <==> a in base || OfLetter(opts, OptId, Texts(info, clockTick), a))
    && (forall a :: a in base ==> a.id == 5)
  }

  lemma LetterIn(attrs: seq<Attr>, base: seq<Attr>, opts: string, info: ProcInfo, clockTick: nat, t: string, c: char, id: int)
    requires Known(opts) && clockTick > 0
    requires MadeOf(attrs, base, opts, info, clockTick) && OptId(c) == Some(id) && id != 5
    ensures Attr(id, t) in attrs <==> c in opts && t == OptText(c, info, clockTick)
  {
    SwitchInjective();
    hide OptId, OptText, OfLetter, Injective;
    OfOneLetter(opts, OptId, Texts(info, clockTick), c, t);
  }

  lemma LettersSayRegions(attrs: seq<Attr>, base: seq<Attr>, opts: string, info: ProcInfo, clockTick: nat, t: string)
    requires Known(opts) && clockTick > 0
    requires MadeOf(attrs, base, opts, info, clockTick)
    ensures ListSaysRegions(attrs, opts, info, t)
  {
    hide OptText, MadeOf, Known, ReadAddresses;
    AddressesSay(info, clockTick, t);
    LetterIn(attrs, base, opts, info, clockTick, t, 'T', 70);
    LetterIn(attrs, base, opts, info, clockTick, t, 'D', 75);
    LetterIn(attrs, base, opts, info, clockTick, t, 'S', 80);
    LetterIn(attrs, base, opts, info, clockTick, t, 'i', 90);
  }

  lemma LettersSay(attrs: seq<Attr>, base: seq<Attr>, opts: string, info: ProcInfo, clockTick: nat, t: string)
    requires Known(opts) && clockTick > 0
    requires MadeOf(attrs, base, opts, info, clockTick)
    ensures ListSays(attrs, opts, info, clockTick, t)
  {
    hide OptText, MadeOf, Known, ReadNumber, ShowsTime, ListSaysRegions;
    LettersSayRegions(attrs, base, opts, info, clockTick, t);
    FieldsSay(info, clockTick, t);
    NumbersSay(info, clockTick, t);
    LetterIn(attrs, base, opts, info, clockTick, t, 'c', 0);
    LetterIn(attrs, base, opts, info, clockTick, t, 'P', 15);
    LetterIn(attrs, base, opts, info, clockTick, t, 'n', 10);
    LetterIn(attrs, base, opts, info, clockTick, t, 'U', 20);
    LetterIn(attrs, base, opts, info, clockTick, t, 'u', 25);
    LetterIn(attrs, base, opts, info, clockTick, t, 'G', 30);
    LetterIn(attrs, base, opts, info, clockTick, t, 'g', 35);
    LetterIn(attrs, base, opts, info, clockTick, t, 'e', 45);
    LetterIn(attrs, base, opts, info, clockTick, t, 'q', 50);
    LetterIn(attrs, base, opts, info, clockTick, t, 's', 40);
    LetterIn(attrs, base, opts, info, clockTick, t, 'd', 6);
    LetterIn(attrs, base, opts, info, clockTick, t, 'v', 60);
    LetterIn(attrs, base, opts, info, clockTick, t, 'r', 65);
    LetterIn(attrs, base, opts, info, clockTick, t, 'M', 42);
  }
}
