/** Texts typed into a form: one address or port per line with an optional remark (front/src/utils/common.ts). */
module AddressText {
  import opened Collections
  import opened Text

  datatype Entry = Entry(address: string, description: string)

  // ----- one line -----

  function ReadLine(line: string): Entry {
    Entry(FirstWord(line), Join(Words(line)[1..], ' '))
  }

  /** A line without white space carries no remark; otherwise the remark is everything after the first gap. */
  lemma {:induction false} ReadLineSplits(line: string)
    ensures var e := ReadLine(line);
            && e.address == FirstWord(line)
            && (|e.address| == |line| ==> e.description == "")
            && (|e.address| < |line| ==> e.description == Join(Words(TrimStart(line[|e.address|..])), ' '))
  {
    var w := FirstWord(line);
    if |w| < |line| {
      assert Words(line)[1..] == Words(TrimStart(line[|w|..]));
    }
  }

  /** An entry as it could have been typed: the remark has single spaces and none in front. */
  predicate Normal(e: Entry) {
    && e.address != "" && NoSpace(e.address)
    && (e.description != "" ==> !IsSpace(e.description[0]) && Join(Words(e.description), ' ') == e.description)
  }

  function Render(e: Entry): string {
    if e.description == "" then e.address else e.address + " " + e.description
  }

  lemma {:induction false} FirstWordStops(w: string, rest: string)
    requires NoSpace(w)
    requires rest == "" || IsSpace(rest[0])
    ensures FirstWord(w + rest) == w
  {
    if w == "" {
      assert w + rest == rest;
    } else {
      var c := w[0];
      assert c in w;
      FirstWordStops(w[1..], rest);
      assert (w + rest)[1..] == w[1..] + rest;
    }
  }

  lemma RenderedLineIsReadBack(e: Entry)
    requires Normal(e)
    ensures ReadLine(Render(e)) == e
  {
    var line := Render(e);
    ReadLineSplits(line);
    if e.description == "" {
      FirstWordStops(e.address, "");
      assert e.address + "" == e.address;
    } else {
      WordsUnfold(e.address, e.description);
    }
  }

  /** One word and a gap before the rest of the text. */
  lemma WordsUnfold(w: string, rest: string)
    requires NoSpace(w)
    requires rest == "" || !IsSpace(rest[0])
    ensures Words(w + " " + rest) == [w] + Words(rest)
    ensures TrimStart(" " + rest) == rest
  {
    var s := w + " " + rest;
    assert s == w + (" " + rest);
    FirstWordStops(w, " " + rest);
    assert s[|w|..] == " " + rest;
    assert (" " + rest)[1..] == rest;
    assert TrimStart(rest) == rest;
  }

  /** Joining words on blanks and cutting again gives the words back, unless a blank word in front was dropped. */
  lemma {:induction false} WordsOfJoin(ws: seq<string>)
    requires WordList(ws)
    ensures Words(Join(ws, ' ')) == ws
  {
    if |ws| == 1 {
      FirstWordStops(ws[0], "");
      assert ws[0] + "" == ws[0];
    } else {
      var rest := ws[1..];
      assert |rest| > 1 ==> rest[0] != "";
      WordsOfJoin(rest);
      JoinStart(rest);
      WordsUnfold(ws[0], Join(rest, ' '));
    }
  }

  /** What is joined does not begin with white space, when the first of several words is not blank. */
  lemma JoinStart(ws: seq<string>)
    requires |ws| >= 1 && (|ws| > 1 ==> ws[0] != "")
    requires NoSpace(ws[0])
    ensures var j := Join(ws, ' '); j == "" || !IsSpace(j[0])
  {
    if ws[0] != "" {
      var c := ws[0][0];
      assert c in ws[0];
    }
  }

  /** Only the first and the last word of a text can be empty; the first only if the text starts with white space. */
  lemma {:induction false} WordsShape(s: string)
    ensures WordList(Words(s))
    ensures |Words(s)| > 1 && (s == "" || !IsSpace(s[0])) ==> Words(s)[0] != ""
    decreases |s|
  {
    var w := FirstWord(s);
    if |w| < |s| {
      var rest := TrimStart(s[|w|..]);
      WordsShape(rest);
      WordListGrows(w, Words(rest));
    }
  }

  lemma WordListGrows(w: string, ws: seq<string>)
    requires NoSpace(w) && WordList(ws) && (|ws| > 1 ==> ws[0] != "")
    ensures WordList([w] + ws)
  {
    var grown := [w] + ws;
    forall i | 0 <= i < |grown| ensures NoSpace(grown[i]) && (1 <= i < |grown| - 1 ==> grown[i] != "") {
      assert i >= 1 ==> grown[i] == ws[i - 1];
    }
  }

  /** Every line read is an entry in the form that can be typed, apart from the address being blank. */
  lemma ReadLinesAreNormal(line: string)
    ensures var e := ReadLine(line); e.address != "" ==> Normal(e)
  {
    ReadLineSplits(line);
    var e := ReadLine(line);
    if e.description != "" {
      var rest := TrimStart(line[|e.address|..]);
      WordsShape(rest);
      WordsOfJoin(Words(rest));
      JoinStart(Words(rest));
    }
  }

  // ----- all lines -----

  /** The entries of the lines whose first word is accepted. */
  function Analysed(lines: seq<string>, accepts: string -> bool): seq<Entry> {
    if lines == [] then []
    else
      var line := lines[|lines| - 1];
      Analysed(lines[..|lines| - 1], accepts) + (if accepts(FirstWord(line)) then [ReadLine(line)] else [])
  }

  lemma AnalysedStep(lines: seq<string>, i: nat, accepts: string -> bool)
    requires i < |lines|
    ensures Analysed(lines[..i + 1], accepts) == Analysed(lines[..i], accepts) +
            (if accepts(Words(lines[i])[0]) then [Entry(Words(lines[i])[0], Join(Words(lines[i])[1..], ' '))] else [])
  {
    assert lines[..i + 1][..i] == lines[..i];
  }

  lemma {:induction false} AnalysedAreAccepted(lines: seq<string>, accepts: string -> bool)
    requires !accepts("")
    ensures |Analysed(lines, accepts)| == |Filter(lines, (line: string) => accepts(FirstWord(line)))|
    ensures forall i | 0 <= i < |Analysed(lines, accepts)| ::
              var e := Analysed(lines, accepts)[i]; accepts(e.address) && Normal(e)
  {
    if lines != [] {
      AnalysedAreAccepted(lines[..|lines| - 1], accepts);
      var line := lines[|lines| - 1];
      if accepts(FirstWord(line)) {
        ReadLinesAreNormal(line);
      }
    }
  }

  function Rendered(entries: seq<Entry>): (lines: seq<string>)
    ensures |lines| == |entries|
    ensures forall i | 0 <= i < |entries| :: lines[i] == Render(entries[i])
  {
    if entries == [] then [] else Rendered(entries[..|entries| - 1]) + [Render(entries[|entries| - 1])]
  }

  lemma {:induction false} RenderedLinesAreReadBack(entries: seq<Entry>, accepts: string -> bool)
    requires forall i | 0 <= i < |entries| :: Normal(entries[i]) && accepts(entries[i].address)
    ensures Analysed(Rendered(entries), accepts) == entries
  {
    if entries != [] {
      var init, last := entries[..|entries| - 1], entries[|entries| - 1];
      RenderedLinesAreReadBack(init, accepts);
      var lines := Rendered(entries);
      assert lines[..|lines| - 1] == Rendered(init);
      RenderedLineIsReadBack(last);
      assert lines[|lines| - 1] == Render(last);
      assert init + [last] == entries;
    }
  }

  lemma {:induction false} JoinedCharacters(parts: seq<string>, sep: char, c: char)
    requires c in Join(parts, sep)
    ensures c == sep || exists i :: 0 <= i < |parts| && c in parts[i]
  {
    if |parts| > 1 {
      if c !in parts[0] && c != sep {
        JoinedCharacters(parts[1..], sep, c);
      }
    }
  }

  lemma RenderedLinesHaveNoBreak(e: Entry)
    requires Normal(e)
    ensures '\n' !in Render(e)
  {
    if '\n' in e.description {
      JoinedCharacters(Words(e.description), ' ', '\n');
    }
  }

  /** A text written from accepted entries is analysed back into exactly these entries, in order. */
  lemma RenderedTextIsReadBack(entries: seq<Entry>, accepts: string -> bool)
    requires |entries| > 0
    requires forall i | 0 <= i < |entries| :: Normal(entries[i]) && accepts(entries[i].address)
    ensures Analysed(Split(Join(Rendered(entries), '\n'), '\n'), accepts) == entries
  {
    forall i | 0 <= i < |entries| ensures '\n' !in Rendered(entries)[i] {
      RenderedLinesHaveNoBreak(entries[i]);
    }
    SplitJoin(Rendered(entries), '\n');
    RenderedLinesAreReadBack(entries, accepts);
  }

  /** Analysing any text, writing its entries out and analysing again changes nothing. */
  lemma AnalysisIsStable(text: string, accepts: string -> bool)
    requires !accepts("")
    ensures var entries := Analysed(Split(text, '\n'), accepts);
            entries != [] ==> Analysed(Split(Join(Rendered(entries), '\n'), '\n'), accepts) == entries
  {
    AnalysedAreAccepted(Split(text, '\n'), accepts);
    var entries := Analysed(Split(text, '\n'), accepts);
    if entries != [] {
      RenderedTextIsReadBack(entries, accepts);
    }
  }

  /** As many entries as non-blank lines means that every non-blank line is accepted. */
  lemma CountIsExact(lines: seq<string>, accepts: string -> bool)
    requires !accepts("")
    ensures |Filter(lines, line => line != "")| <= |Analysed(lines, accepts)|
            <==> forall line | line in lines && line != "" :: accepts(FirstWord(line))
  {
    AnalysedAreAccepted(lines, accepts);
    var strong := (line: string) => accepts(FirstWord(line));
    var weak := (line: string) => line != "";
    assert FirstWord("") == "";
    assert forall line: string :: strong(line) ==> weak(line);
    CountingIsComparing(lines, strong, weak);
  }
}
