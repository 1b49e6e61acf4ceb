/** `main`'s option checks and reader plan, and the map a whole run ends with. */
module Plan {
  import opened Common
  import opened Files
  import opened Pipeline
  import opened Labels
  import opened ProcFileEntryBuilder
  import P = ProcReader
  import F = FileStatReader

  const LSOF_OPTS_DEFAULT := "pfg"
  const NO := "no"

  /** The strings `checkOptions` lets through. */
  predicate Passes(defaults: string, options: string) {
    options == NO || forall i :: 0 <= i < |options| ==> HasLetter(defaults, options[i])
  }

  method CheckOptions(defaults: string, options: string) returns (flagsOkay: bool)
    ensures flagsOkay <==> Passes(defaults, options)
  {
    flagsOkay := true;
    if options != NO {
      for i := 0 to |options|
        invariant flagsOkay <==> forall j :: 0 <= j < i ==> HasLetter(defaults, options[j])
      {
        if !HasLetter(defaults, options[i]) {
          flagsOkay := false;
        }
      }
    }
  }

  /** The effective option strings, and the flag that decides whether anything runs. */
  datatype Ops = Ops(proc: string, file: string, flagsOkay: bool)

  predicate AllPass(ops: Ops) {
    Passes(P.PROC_OPTS_DEFAULT, ops.proc) && Passes(F.FILESTAT_OPTS_DEFAULT, ops.file)
  }

  /** One command-line option: its letter and its argument. */
  datatype Arg = ProcArg(text: string) | FileArg(text: string)

  predicate ArgPasses(a: Arg) {
    match a
    case ProcArg(text) => Passes(P.PROC_OPTS_DEFAULT, text)
    case FileArg(text) => Passes(F.FILESTAT_OPTS_DEFAULT, text)
  }

  /** The loop over the options: later ones overwrite, the flag included. */
  function OpsOf(args: seq<Arg>): (ops: Ops) {
    if args == [] then Ops(P.PROC_OPTS_DEFAULT, F.FILESTAT_OPTS_DEFAULT, true)
    else
      var ops := OpsOf(args[..|args| - 1]);
      match args[|args| - 1]
      case ProcArg(text) => Ops(text, ops.file, Passes(P.PROC_OPTS_DEFAULT, text))
      case FileArg(text) => Ops(ops.proc, text, Passes(F.FILESTAT_OPTS_DEFAULT, text))
  }

  method ParseArgs(args: seq<Arg>) returns (ops: Ops)
    ensures ops == OpsOf(args)
  {
    var procOps, fileOps, flagsOkay := P.PROC_OPTS_DEFAULT, F.FILESTAT_OPTS_DEFAULT, true;
    for i := 0 to |args|
      invariant Ops(procOps, fileOps, flagsOkay) == OpsOf(args[..i])
    {
      assert args[..i + 1][..i] == args[..i];
      match args[i] {
        case ProcArg(text) =>
          procOps := text;
          flagsOkay := CheckOptions(P.PROC_OPTS_DEFAULT, procOps);
        case FileArg(text) =>
          fileOps := text;
          flagsOkay := CheckOptions(F.FILESTAT_OPTS_DEFAULT, fileOps);
      }
    }
    assert args[..|args|] == args;
    ops := Ops(procOps, fileOps, flagsOkay);
  }

  /** The latest argument for the other kind of option than the last one. */
  function LastOther(args: seq<Arg>, last: Arg): (a: Option<Arg>) {
    if args == [] then None
    else
      var a := args[|args| - 1];
      if a.ProcArg? != last.ProcArg? then Some(a) else LastOther(args[..|args| - 1], last)
  }

  lemma DefaultsPass()
    ensures Passes(P.PROC_OPTS_DEFAULT, P.PROC_OPTS_DEFAULT)
    ensures Passes(F.FILESTAT_OPTS_DEFAULT, F.FILESTAT_OPTS_DEFAULT)
  {
    hide P.PROC_OPTS_DEFAULT, F.FILESTAT_OPTS_DEFAULT;
    forall i | 0 <= i < |P.PROC_OPTS_DEFAULT| ensures HasLetter(P.PROC_OPTS_DEFAULT, P.PROC_OPTS_DEFAULT[i]) {}
    forall i | 0 <= i < |F.FILESTAT_OPTS_DEFAULT| ensures HasLetter(F.FILESTAT_OPTS_DEFAULT, F.FILESTAT_OPTS_DEFAULT[i]) {}
  }

  lemma {:induction false} OtherOption(args: seq<Arg>, last: Arg)
    ensures var o := LastOther(args, last);
            if last.ProcArg? then OpsOf(args).file == (if o.Some? then o.value.text else F.FILESTAT_OPTS_DEFAULT)
            else OpsOf(args).proc == (if o.Some? then o.value.text else P.PROC_OPTS_DEFAULT)
    ensures LastOther(args, last).Some? ==> LastOther(args, last).value.ProcArg? != last.ProcArg?
  {
    hide Passes;
    if args != [] {
      OtherOption(args[..|args| - 1], last);
    }
  }

  /** The run goes ahead when the last option's string passes; both strings in effect pass exactly
      when, on top of that, the latest option of the other kind (if any) passes. */
  lemma FlagsOkayExactly(args: seq<Arg>)
    requires args != []
    ensures var n := |args| - 1;
            && (OpsOf(args).flagsOkay <==> ArgPasses(args[n]))
            && (AllPass(OpsOf(args)) <==>
                  ArgPasses(args[n]) &&
                  (LastOther(args[..n], args[n]).None? || ArgPasses(LastOther(args[..n], args[n]).value)))
  {
    OtherOption(args[..|args| - 1], args[|args| - 1]);
    DefaultsPass();
    hide Passes;
  }

  /** So a bad string followed by a good one of the other kind goes through. */
  lemma OverwrittenFlag()
    ensures var args := [ProcArg("z"), FileArg("n")];
            OpsOf(args).flagsOkay && !AllPass(OpsOf(args))
  {
    var args := [ProcArg("z"), FileArg("n")];
    assert args[..1] == [ProcArg("z")] && [ProcArg("z")][..0] == [];
    assert "z"[0] == 'z' && F.FILESTAT_OPTS_DEFAULT[0] == 'n';
    P.DefaultsAreTheSwitch('z');
  }

  // ----- the reader plan -----

  /** `funcvector` when the flag is set. */
  function DiggersFor(proc: string, file: string): (ds: seq<Digger>) {
    [Digger(LsofReader, LSOF_OPTS_DEFAULT)]
    + (if proc != NO then [Digger(ProcReader, proc)] else [])
    + (if file != NO then [Digger(FileStatReader, file)] else [])
  }

  lemma PassesKnown(proc: string, file: string)
    ensures Passes(P.PROC_OPTS_DEFAULT, proc) && proc != NO <==> P.Known(proc) && proc != NO
    ensures Passes(F.FILESTAT_OPTS_DEFAULT, file) && file != NO <==> F.Known(file) && file != NO
  {
    hide HasLetter, P.OptId, F.OptId, P.PROC_OPTS_DEFAULT, F.FILESTAT_OPTS_DEFAULT;
    forall c ensures HasLetter(P.PROC_OPTS_DEFAULT, c) <==> P.OptId(c).Some? {
      P.DefaultsAreTheSwitch(c);
    }
    forall c ensures HasLetter(F.FILESTAT_OPTS_DEFAULT, c) <==> F.OptId(c).Some? {
      F.DefaultsAreTheSwitch(c);
    }
  }

  /** Strings that pass the check never reach a reader's error branch. */
  lemma CheckedDiggersKnown(proc: string, file: string)
    requires AllPass(Ops(proc, file, true))
    ensures AllKnown(DiggersFor(proc, file))
  {
    PassesKnown(proc, file);
    hide P.Known, F.Known, Passes;
  }

  /** The map at the end of a run. With both kinds suppressed the plan has one reader and is not run. */
  ghost function FinalTable(env: Env, proc: string, file: string): (t: Table)
    requires env.Sound() && AllPass(Ops(proc, file, true))
  {
    CheckedDiggersKnown(proc, file);
    if |DiggersFor(proc, file)| == 1 then map[] else BuildTable(env, map[], DiggersFor(proc, file))
  }

  function FinalLabels(proc: string, file: string): (flags: LabelMap) {
    if |DiggersFor(proc, file)| == 1 then map[] else LabelsAfter(map[], ReadersOf(DiggersFor(proc, file)))
  }
}
