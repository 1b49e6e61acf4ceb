/** The byte stream lsof writes and the `fscanf(fin, "%c%s\n", ...)` loop that reads it.
    Directives follow section 7.21.6.2 of ISO/IEC 9899:2011: `%c` takes one character without
    skipping, `%s` skips white space and takes a word, white space in the format skips any run. */
module LsofStream {
  import opened Common

  /** One field of lsof's output: its tag and its value. */
  datatype Record = Record(tag: char, value: string)

  datatype Scanned = Eof | Scanned(tag: char, word: string, rest: string)

  /** One call. `buffer` is the C string that `charbuff` held before; what it holds after is read as
      a C string too, so a NUL cuts the word. When the input ends after the tag, `%s` converts
      nothing, the call still reports one conversion and the buffer keeps its old text. */
  function Fscanf(input: string, buffer: string): (r: Scanned)
    ensures r.Scanned? ==> |r.rest| < |input|
  {
    if input == "" then Eof
    else
      var s := SkipSpaces(input[1..]);
      if s == "" then Scanned(input[0], buffer, "")
      else
        var n := WordLength(s);
        Scanned(input[0], CString(s[..n]), SkipSpaces(s[n..]))
  }

  /** All records the loop sees: it goes on while a call reports a conversion. */
  function ReadAll(input: string, buffer: string): (rs: seq<Record>)
    decreases |input|
  {
    match Fscanf(input, buffer)
    case Eof => []
    case Scanned(tag, word, rest) => [Record(tag, word)] + ReadAll(rest, word)
  }

  /** lsof's side: one record a line. */
  function Render(rs: seq<Record>): (s: string) {
    if rs == [] then "" else [rs[0].tag] + rs[0].value + "\n" + Render(rs[1..])
  }

  /** Values and tags that the loop can see at all. */
  predicate Clean(rs: seq<Record>) {
    && (forall i :: 0 <= i < |rs| ==> SpaceFree(rs[i].value) && NulFree(rs[i].value))
    && (forall i :: 0 < i < |rs| ==> !IsSpace(rs[i].tag))
  }

  /** Values that survive, and tags that are not eaten by the format's trailing white space. */
  predicate Readable(rs: seq<Record>) { Clean(rs) && forall i :: 0 <= i < |rs| ==> rs[i].value != "" }

  /** The degenerate stream: a single blank record that leaves the buffer as it was. */
  predicate BlankEcho(rs: seq<Record>, buffer: string) {
    |rs| == 1 && AllSpace(rs[0].value) && rs[0].value == buffer
  }

  lemma ReadFirst(rs: seq<Record>, buffer: string)
    requires rs != [] && Clean(rs) && rs[0].value != ""
    ensures ReadAll(Render(rs), buffer) == [rs[0]] + ReadAll(Render(rs[1..]), rs[0].value)
  {
    var value, tail := rs[0].value, Render(rs[1..]);
    var line := "\n" + tail;
    assert Render(rs) == [rs[0].tag] + (value + line);
    assert Render(rs)[1..] == value + line;
    assert SkipSpaces(value + line) == value + line;
    WordLengthOver(value, line);
    assert (value + line)[..|value|] == value && (value + line)[|value|..] == line;
    CStringWhole(value);
    SkipSpacesOver("\n", tail);
    assert SkipSpaces(tail) == tail;
    assert Fscanf(Render(rs), buffer) == Scanned(rs[0].tag, value, tail);
  }

  lemma {:induction false} ReadBack(rs: seq<Record>, buffer: string)
    requires Readable(rs)
    ensures ReadAll(Render(rs), buffer) == rs
  {
    if rs != [] {
      ReadFirst(rs, buffer);
      ReadBack(rs[1..], rs[0].value);
    }
  }

  /** A first read that finds no word shows the old buffer, and is the only one. */
  ghost predicate NoWord(input: string, buffer: string, rs: seq<Record>) {
    input != "" && AllSpace(input[1..]) && |rs| == 1 && rs[0].value == buffer
  }

  /** Whatever the input, what the loop sees is clean, but for a first read that finds no word. */
  lemma {:induction false} SeenIsClean(input: string, buffer: string)
    ensures Clean(ReadAll(input, buffer)) || NoWord(input, buffer, ReadAll(input, buffer))
    ensures ReadAll(input, buffer) != [] ==> input != "" && ReadAll(input, buffer)[0].tag == input[0]
    decreases |input|
  {
    var r := Fscanf(input, buffer);
    if r.Scanned? && SkipSpaces(input[1..]) != "" {
      SeenIsClean(r.rest, r.word);
    } else if r.Scanned? {
      NothingButSpace(input[1..]);
      assert ReadAll("", buffer) == [];
    }
  }

  lemma WordWithoutNul(input: string, buffer: string)
    requires NulFree(input) && input != "" && SkipSpaces(input[1..]) != ""
    ensures Fscanf(input, buffer).word != "" && NulFree(Fscanf(input, buffer).rest)
  {
    var s := SkipSpaces(input[1..]);
    SkipSpacesNulFree(input[1..]);
    CStringWhole(s[..WordLength(s)]);
    SkipSpacesNulFree(s[WordLength(s)..]);
  }

  lemma {:induction false} NulFreeHasWords(input: string, buffer: string)
    requires NulFree(input) && buffer != ""
    ensures forall i :: 0 <= i < |ReadAll(input, buffer)| ==> ReadAll(input, buffer)[i].value != ""
    decreases |input|
  {
    hide CString, SkipSpaces, NulFree;
    var r := Fscanf(input, buffer);
    if r.Scanned? && SkipSpaces(input[1..]) != "" {
      WordWithoutNul(input, buffer);
      NulFreeHasWords(r.rest, r.word);
    } else if r.Scanned? {
      assert ReadAll("", buffer) == [];
    }
  }

  /** And if the input holds no NUL, it is readable. */
  lemma SeenIsReadable(input: string, buffer: string)
    ensures Clean(ReadAll(input, buffer)) || NoWord(input, buffer, ReadAll(input, buffer))
    ensures NulFree(input) ==> Readable(ReadAll(input, buffer)) || NoWord(input, buffer, ReadAll(input, buffer))
  {
    SeenIsClean(input, buffer);
    if NulFree(input) && input != "" {
      hide CString, NulFree, Clean;
      var r := Fscanf(input, buffer);
      if SkipSpaces(input[1..]) != "" {
        WordWithoutNul(input, buffer);
        NulFreeHasWords(r.rest, r.word);
      } else {
        NothingButSpace(input[1..]);
        assert ReadAll("", buffer) == [];
      }
    }
  }

  lemma {:induction false} SkipSpacesNulFree(s: string)
    requires NulFree(s)
    ensures NulFree(SkipSpaces(s))
  {
    if s != "" {
      SkipSpacesNulFree(s[1..]);
    }
  }

  lemma {:induction false} NothingButSpace(s: string)
    requires SkipSpaces(s) == ""
    ensures AllSpace(s)
  {
    if s != "" {
      NothingButSpace(s[1..]);
    }
  }

  // ----- an empty value makes the record swallow the next line -----

  function Spaces(s: string): (n: nat) {
    if s == "" then 0 else (if IsSpace(s[0]) then 1 else 0) + Spaces(s[1..])
  }

  predicate EndsBlank(s: string) { s == "" || IsSpace(s[|s| - 1]) }

  lemma {:induction false} SpacesSkipped(s: string)
    ensures Spaces(SkipSpaces(s)) <= Spaces(s)
    ensures s != "" && IsSpace(s[0]) ==> Spaces(SkipSpaces(s)) < Spaces(s)
    ensures EndsBlank(s) ==> EndsBlank(SkipSpaces(s))
  {
    if s != "" && IsSpace(s[0]) {
      SpacesSkipped(s[1..]);
    }
  }

  lemma {:induction false} SpacesBehindWord(s: string)
    ensures Spaces(s[WordLength(s)..]) == Spaces(s)
  {
    if s != "" && !IsSpace(s[0]) {
      SpacesBehindWord(s[1..]);
      assert s[WordLength(s)..] == s[1..][WordLength(s[1..])..];
    } else {
      assert s[0..] == s;
    }
  }

  /** In a text that ends blank, a word and the white space around it leave less white space. */
  lemma SpacesBehind(t: string)
    requires EndsBlank(t) && SkipSpaces(t) != ""
    ensures var u := SkipSpaces(t);
            var rest := SkipSpaces(u[WordLength(u)..]);
            Spaces(rest) < Spaces(u) <= Spaces(t) && EndsBlank(rest)
  {
    var u := SkipSpaces(t);
    var v := u[WordLength(u)..];
    SpacesSkipped(t);
    SpacesBehindWord(u);
    assert WordLength(u) < |u|;
    SpacesSkipped(v);
  }

  /** Every read takes at least one of the blanks. */
  lemma {:induction false} ReadsAtMost(s: string, buffer: string)
    requires EndsBlank(s) && (s != "" ==> !IsSpace(s[0]))
    ensures |ReadAll(s, buffer)| <= Spaces(s)
    decreases |s|
  {
    if s != "" {
      var r := Fscanf(s, buffer);
      SpacesSkipped(s[1..]);
      if SkipSpaces(s[1..]) != "" {
        SpacesBehind(s[1..]);
      }
      ReadsAtMost(r.rest, r.word);
    }
  }

  lemma {:induction false} SpacesRendered(rs: seq<Record>)
    requires Clean(rs) && (rs != [] ==> !IsSpace(rs[0].tag))
    ensures Spaces(Render(rs)) == |rs| && EndsBlank(Render(rs))
    ensures rs != [] ==> Render(rs) != "" && !IsSpace(Render(rs)[0])
  {
    if rs != [] {
      hide Spaces;
      var value, tail := rs[0].value, Render(rs[1..]);
      SpacesRendered(rs[1..]);
      assert Render(rs) == [rs[0].tag] + (value + (['\n'] + tail));
      SpacesFirst(rs[0].tag, value + (['\n'] + tail));
      SpacesOver(value, ['\n'] + tail);
      SpacesFirst('\n', tail);
    }
  }

  lemma SpacesFirst(c: char, s: string)
    ensures Spaces([c] + s) == (if IsSpace(c) then 1 else 0) + Spaces(s)
  {
    assert ([c] + s)[1..] == s;
  }

  lemma {:induction false} SpacesOver(w: string, s: string)
    requires SpaceFree(w)
    ensures Spaces(w + s) == Spaces(s)
  {
    if w == "" {
      assert w + s == s;
    } else {
      assert (w + s)[1..] == w[1..] + s;
      SpacesOver(w[1..], s);
    }
  }

  lemma EmptyLosesRecord(rs: seq<Record>, buffer: string)
    requires Clean(rs) && |rs| > 1 && rs[0].value == ""
    ensures |ReadAll(Render(rs), buffer)| < |rs|
  {
    var tail := Render(rs[1..]);
    SpacesRendered(rs[1..]);
    assert Render(rs)[1..] == "\n" + tail;
    SkipSpacesOver("\n", tail);
    assert SkipSpaces(tail) == tail;
    SpacesBehind("\n" + tail);
    var r := Fscanf(Render(rs), buffer);
    ReadsAtMost(r.rest, r.word);
  }

  lemma {:induction false} SurvivorsReadable(rs: seq<Record>, buffer: string)
    requires Clean(rs) && ReadAll(Render(rs), buffer) == rs
    ensures Readable(rs) || BlankEcho(rs, buffer)
  {
    if rs != [] && rs[0].value != "" {
      ReadFirst(rs, buffer);
      SurvivorsReadable(rs[1..], rs[0].value);
    } else if |rs| > 1 {
      EmptyLosesRecord(rs, buffer);
    } else if rs != [] {
      assert Render(rs)[1..] == "\n" + Render(rs[1..]) == "\n";
      SkipSpacesOver("\n", "");
    }
  }

  /** Reading back what lsof wrote gives the same records, whatever the buffer held at first,
      exactly when every value is a word without NUL and no tag after the first is white space
      (but for the one degenerate stream that reads nothing and shows the buffer). */
  lemma StreamRoundTrip(rs: seq<Record>, buffer: string)
    ensures ReadAll(Render(rs), buffer) == rs <==> Readable(rs) || BlankEcho(rs, buffer)
  {
    if Readable(rs) {
      ReadBack(rs, buffer);
    } else if BlankEcho(rs, buffer) {
      assert Render(rs[1..]) == "";
      var gap := rs[0].value + "\n";
      assert Render(rs)[1..] == gap;
      SkipSpacesOver(gap, "");
      assert gap + "" == gap;
      assert Fscanf(Render(rs), buffer) == Scanned(rs[0].tag, buffer, "");
      assert ReadAll("", buffer) == [];
    } else if ReadAll(Render(rs), buffer) == rs {
      SeenIsClean(Render(rs), buffer);
      if Clean(rs) {
        SurvivorsReadable(rs, buffer);
      } else {
        assert Render(rs[1..]) == "";
        assert Render(rs)[1..] == rs[0].value + "\n";
        assert forall i :: 0 <= i < |rs[0].value| ==> rs[0].value[i] == Render(rs)[1..][i];
        assert AllSpace(rs[0].value);
      }
    }
  }
}
