/** The /proc path of a file: how it is formed, and a reader that says what a path is about. */
module Paths {
  import opened Common
  import opened Numerals

  /** The /proc path of a descriptor, or of the executable for a synthetic id. */
  function FormPath(txtFd: nat, pid: nat, fid: nat): (path: string) {
    "/proc/" + Numeral(pid, 10) + if fid > txtFd then "/exe" else "/fd/" + Numeral(fid, 10)
  }

  /** What proc(5) has under a path: the process, and its descriptor or (None) its executable. */
  function ReadPath(path: string): (target: Option<(nat, Option<nat>)>) {
    if |path| < 6 || path[..6] != "/proc/" then None
    else
      var rest := path[6..];
      var n := IndexOf('/', rest);
      match ReadNumber(rest[..n], 10)
      case None => None
      case Some(pid) =>
        var file := rest[n..];
        if file == "/exe" then Some((pid, None))
        else if |file| < 4 || file[..4] != "/fd/" then None
        else
          match ReadNumber(file[4..], 10)
          case None => None
          case Some(fid) => Some((pid, Some(fid)))
  }

  lemma NoSlash(n: nat)
    ensures '/' !in Numeral(n, 10)
  {
    NumeralValue(n, 10);
    assert DigitValue('/') >= 10;
  }

  lemma ReadPathParts(pid: string, file: string)
    requires '/' !in pid && file != "" && file[0] == '/'
    ensures var path := "/proc/" + pid + file;
            && |path| >= 6 && path[..6] == "/proc/"
            && path[6..][..IndexOf('/', path[6..])] == pid && path[6..][IndexOf('/', path[6..])..] == file
  {
    var path := "/proc/" + pid + file;
    assert path[6..] == pid + file;
    IndexOfOver('/', pid, file);
  }

  /** A path is read as a process and its executable or descriptor exactly when it is the path
      formed for these. */
  lemma PathReadsBack(path: string, txtFd: nat, pid: nat, fid: nat)
    ensures ReadPath(path) == Some((pid, if fid > txtFd then None else Some(fid))) <==> path == FormPath(txtFd, pid, fid)
  {
    hide Numeral, ReadNumber, IndexOf;
    var file := if fid > txtFd then "/exe" else "/fd/" + Numeral(fid, 10);
    NumberReadsBack(Numeral(pid, 10), pid, 10);
    NumberReadsBack(Numeral(fid, 10), fid, 10);
    NoSlash(pid);
    ReadPathParts(Numeral(pid, 10), file);
    if fid <= txtFd {
      assert file[4..] == Numeral(fid, 10);
    }
    if ReadPath(path).Some? && ReadPath(path).value.0 == pid {
      var rest := path[6..];
      var n := IndexOf('/', rest);
      NumberReadsBack(rest[..n], pid, 10);
      assert path == "/proc/" + rest[..n] + rest[n..];
      if |rest[n..]| >= 4 {
        NumberReadsBack(rest[n..][4..], fid, 10);
        assert rest[n..] == rest[n..][..4] + rest[n..][4..];
      }
    }
  }

  /** Two paths are equal exactly when they name the same process and either both its executable
      or both the same descriptor. */
  lemma FormPathInjective(txtFd: nat, pid: nat, fid: nat, pid': nat, fid': nat)
    ensures FormPath(txtFd, pid, fid) == FormPath(txtFd, pid', fid') <==>
            pid == pid' && (if fid > txtFd then fid' > txtFd else fid' == fid)
  {
    PathReadsBack(FormPath(txtFd, pid, fid), txtFd, pid, fid);
    PathReadsBack(FormPath(txtFd, pid', fid'), txtFd, pid', fid');
  }

  predicate EndsInExe(path: string) { |path| >= 4 && path[|path| - 4..] == "/exe" }

  lemma FormPathKind(txtFd: nat, pid: nat, fid: nat)
    ensures EndsInExe(FormPath(txtFd, pid, fid)) <==> fid > txtFd
  {
    var path := FormPath(txtFd, pid, fid);
    if fid > txtFd {
      assert path == "/proc/" + Numeral(pid, 10) + "/exe";
    } else {
      NumeralValue(fid, 10);
      var digits := Numeral(fid, 10);
      assert path[|path| - 1] == digits[|digits| - 1];
      assert DigitValue('e') == 14;
    }
  }
}
