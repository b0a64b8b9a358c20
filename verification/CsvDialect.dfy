/** The character automaton that admits one CSV dialect, and the grammar it stands for. */
module CsvDialect {
  import opened Results

  datatype State = Start | Quoted | Closed | Unquoted

  predicate IsSeparator(c: char) {
    c == ',' || c == '\r' || c == '\n'
  }

  /** Characters that may not appear outside quotes. */
  predicate IsReserved(c: char) {
    c == ';' || c == '\t' || c == '|' || c == '"'
  }

  function Step(state: State, c: char): Option<State> {
    if state == Quoted then Some(if c == '"' then Closed else Quoted)
    else if c == '"' && (state == Start || state == Closed) then Some(Quoted)
    else if IsSeparator(c) then Some(Start)
    else if state == Closed || IsReserved(c) then None
    else Some(Unquoted)
  }

  function Run(state: State, text: string): Option<State>
    decreases |text|
  {
    if text == "" then Some(state)
    else match Step(state, text[0]) case None => None case Some(next) => Run(next, text[1..])
  }

  predicate AcceptedFrom(state: State, text: string) {
    Run(state, text).Some? && Run(state, text).value != Quoted
  }

  /** The loop over the file's characters. */
  method AcceptsDialect(text: string) returns (accepted: bool)
    ensures accepted == AcceptedFrom(Start, text)
  {
    var state := Start;
    for i := 0 to |text|
      invariant Run(state, text[i..]) == Run(Start, text)
    {
      var c := text[i];
      assert text[i..][0] == c && text[i..][1..] == text[i + 1..];
      if state == Quoted {
        if c == '"' {
          state := Closed;
        }
      } else if c == '"' && (state == Start || state == Closed) {
        state := Quoted;
      } else if IsSeparator(c) {
        state := Start;
      } else if state == Closed || IsReserved(c) {
        return false;
      } else {
        state := Unquoted;
      }
    }
    return state != Quoted;
  }

  // ---------- The grammar ----------

  datatype Field = Empty | Plain(text: string) | QuotedField(content: string)

  /** A file: fields with a separator character between neighbours. */
  datatype Doc = Last(field: Field) | More(first: Field, separator: char, rest: Doc)

  predicate IsPlain(s: string) {
    forall i :: 0 <= i < |s| ==>
      && s[i] != ',' && s[i] != '\r' && s[i] != '\n'
      && s[i] != ';' && s[i] != '\t' && s[i] != '|' && s[i] != '"'
  }

  predicate FieldOk(f: Field) {
    f.Plain? ==> f.text != "" && IsPlain(f.text)
  }

  predicate DocOk(d: Doc) {
    match d
    case Last(f) => FieldOk(f)
    case More(f, s, rest) => FieldOk(f) && (s == ',' || s == '\r' || s == '\n') && DocOk(rest)
  }

  /** Every quote of the content is doubled. */
  function Doubled(content: string): string {
    if content == "" then ""
    else (if content[0] == '"' then "\"\"" else [content[0]]) + Doubled(content[1..])
  }

  function RenderField(f: Field): string {
    match f
    case Empty => ""
    case Plain(s) => s
    case QuotedField(content) => "\"" + Doubled(content) + "\""
  }

  function Render(d: Doc): string {
    match d
    case Last(f) => RenderField(f)
    case More(f, s, rest) => RenderField(f) + [s] + Render(rest)
  }

  // ---------- A reader that inverts the grammar ----------

  function PlainLength(text: string): (n: nat)
    ensures n <= |text| && IsPlain(text[..n])
    ensures n < |text| ==> IsSeparator(text[n]) || IsReserved(text[n])
  {
    if text == "" || IsSeparator(text[0]) || IsReserved(text[0]) then 0
    else
      var n := PlainLength(text[1..]);
      assert text[..n + 1] == [text[0]] + text[1..][..n];
      n + 1
  }

  /** Reads quoted content up to the closing quote; returns it with what follows. */
  function ReadQuoted(text: string): Option<(string, string)> {
    if text == "" then None
    else if text[0] != '"' then
      match ReadQuoted(text[1..]) case None => None case Some((content, tail)) => Some(([text[0]] + content, tail))
    else if |text| > 1 && text[1] == '"' then
      match ReadQuoted(text[2..]) case None => None case Some((content, tail)) => Some(("\"" + content, tail))
    else Some(("", text[1..]))
  }

  lemma ReadQuotedIsDoubled(text: string)
    requires ReadQuoted(text).Some?
    ensures var (content, tail) := ReadQuoted(text).value;
      text == Doubled(content) + "\"" + tail && (tail == "" || tail[0] != '"')
  {
    if text[0] != '"' {
      ReadQuotedIsDoubled(text[1..]);
    } else if |text| > 1 && text[1] == '"' {
      ReadQuotedIsDoubled(text[2..]);
      var (content, tail) := ReadQuoted(text[2..]).value;
      assert ("\"" + content)[1..] == content;
      assert text == "\"\"" + text[2..];
    }
  }

  lemma {:induction false} DoubledIsReadBack(content: string, tail: string)
    requires tail == "" || tail[0] != '"'
    ensures ReadQuoted(Doubled(content) + "\"" + tail) == Some((content, tail))
  {
    var text := Doubled(content) + "\"" + tail;
    if content == "" {
      assert text[1..] == tail;
    } else {
      DoubledIsReadBack(content[1..], tail);
      var rest := Doubled(content[1..]) + "\"" + tail;
      assert content == [content[0]] + content[1..];
      if content[0] == '"' {
        assert text == "\"\"" + rest && text[2..] == rest;
      } else {
        assert text == [content[0]] + rest && text[1..] == rest;
      }
    }
  }

  /** The first field of a text, with what follows it. */
  function ReadField(text: string): Option<(Field, string)> {
    if text != "" && text[0] == '"' then
      match ReadQuoted(text[1..]) case None => None case Some((content, tail)) => Some((QuotedField(content), tail))
    else
      var n := PlainLength(text);
      Some((if n == 0 then Empty else Plain(text[..n]), text[n..]))
  }

  lemma ReadFieldRenders(text: string)
    requires ReadField(text).Some?
    ensures var (f, tail) := ReadField(text).value;
      FieldOk(f) && text == RenderField(f) + tail && |tail| <= |text|
  {
    hide Doubled, ReadQuoted;
    if text != "" && text[0] == '"' {
      ReadQuotedIsDoubled(text[1..]);
      var (content, tail) := ReadQuoted(text[1..]).value;
      assert text == "\"" + text[1..];
      assert text == "\"" + Doubled(content) + "\"" + tail;
    } else {
      assert text == text[..PlainLength(text)] + text[PlainLength(text)..];
    }
  }

  function ReadDoc(text: string): Option<Doc>
    decreases |text|
  {
    match ReadField(text)
    case None => None
    case Some((f, tail)) =>
      ReadFieldRenders(text);
      if tail == "" then Some(Last(f))
      else if !IsSeparator(tail[0]) then None
      else match ReadDoc(tail[1..]) case None => None case Some(rest) => Some(More(f, tail[0], rest))
  }

  lemma {:induction false} ReadDocRenders(text: string)
    requires ReadDoc(text).Some?
    ensures DocOk(ReadDoc(text).value) && Render(ReadDoc(text).value) == text
    decreases |text|
  {
    hide ReadField, RenderField, FieldOk;
    ReadFieldRenders(text);
    var (f, tail) := ReadField(text).value;
    if tail != "" {
      ReadDocRenders(tail[1..]);
      assert tail == [tail[0]] + tail[1..];
    }
  }

  lemma {:induction false} PlainLengthOf(s: string, tail: string)
    requires IsPlain(s) && (tail == "" || IsSeparator(tail[0]) || IsReserved(tail[0]))
    ensures PlainLength(s + tail) == |s|
  {
    if s == "" {
      assert s + tail == tail;
    } else {
      PlainLengthOf(s[1..], tail);
      assert (s + tail)[1..] == s[1..] + tail;
    }
  }

  lemma FieldIsReadBack(f: Field, tail: string)
    requires FieldOk(f) && (tail == "" || IsSeparator(tail[0]))
    ensures ReadField(RenderField(f) + tail) == Some((f, tail))
  {
    hide Doubled, ReadQuoted;
    var text := RenderField(f) + tail;
    match f {
      case Empty =>
        assert text == tail;
        PlainLengthOf("", tail);
        assert "" + tail == tail;
      case Plain(s) =>
        PlainLengthOf(s, tail);
        assert text[0] == s[0] && text[..|s|] == s && text[|s|..] == tail;
      case QuotedField(content) =>
        assert text[1..] == Doubled(content) + "\"" + tail;
        DoubledIsReadBack(content, tail);
    }
  }

  lemma {:induction false} DocIsReadBack(d: Doc)
    requires DocOk(d)
    ensures ReadDoc(Render(d)) == Some(d)
    decreases d
  {
    match d {
      case Last(f) =>
        FieldIsReadBack(f, "");
        assert RenderField(f) + "" == RenderField(f);
      case More(f, s, rest) =>
        DocIsReadBack(rest);
        var tail := [s] + Render(rest);
        assert Render(d) == RenderField(f) + tail;
        FieldIsReadBack(f, tail);
        assert tail[1..] == Render(rest);
    }
  }

  // ---------- Automaton and grammar agree ----------

  /** After an opening quote the automaton goes on exactly where the reader stops. */
  lemma {:induction false} QuotedRun(text: string)
    ensures match ReadQuoted(text)
      case None => Run(Quoted, text) == Some(Quoted)
      case Some((content, tail)) => Run(Quoted, text) == Run(Closed, tail)
    decreases |text|
  {
    if text == "" {
    } else if text[0] != '"' {
      QuotedRun(text[1..]);
    } else if |text| > 1 && text[1] == '"' {
      QuotedRun(text[2..]);
      assert text[1..][0] == '"' && text[1..][1..] == text[2..];
    }
  }

  lemma {:induction false} PlainRun(text: string, n: nat)
    requires n <= |text| && IsPlain(text[..n])
    ensures Run(Unquoted, text) == Run(Unquoted, text[n..])
  {
    if n > 0 {
      assert text[..n][0] == text[0];
      assert text[1..][..n - 1] == text[..n][1..];
      PlainRun(text[1..], n - 1);
      assert text[1..][n - 1..] == text[n..];
    } else {
      assert text[0..] == text;
    }
  }

  /** Past a field, the automaton waits for a separator or the end. */
  predicate FieldBoundary(state: State, tail: string) {
    tail != "" ==> if IsSeparator(tail[0]) then Step(state, tail[0]) == Some(Start) else Step(state, tail[0]) == None
  }

  lemma FieldRun(text: string)
    ensures match ReadField(text)
      case None => !AcceptedFrom(Start, text)
      case Some((f, tail)) =>
        exists state :: state != Quoted && Run(Start, text) == Run(state, tail) && FieldBoundary(state, tail)
  {
    if text != "" && text[0] == '"' {
      QuotedRun(text[1..]);
      if ReadQuoted(text[1..]).Some? {
        ReadQuotedIsDoubled(text[1..]);
        assert FieldBoundary(Closed, ReadQuoted(text[1..]).value.1);
      }
    } else {
      var n := PlainLength(text);
      if n == 0 {
        assert text[0..] == text;
        assert FieldBoundary(Start, text);
      } else {
        assert text[..n][0] == text[0];
        assert text[1..][..n - 1] == text[..n][1..];
        PlainRun(text[1..], n - 1);
        assert text[1..][n - 1..] == text[n..];
        assert FieldBoundary(Unquoted, text[n..]);
      }
    }
  }

  lemma {:induction false} AcceptedIffRead(text: string)
    ensures AcceptedFrom(Start, text) <==> ReadDoc(text).Some?
    decreases |text|
  {
    FieldRun(text);
    if ReadField(text).Some? {
      ReadFieldRenders(text);
      var (f, tail) := ReadField(text).value;
      if tail != "" && IsSeparator(tail[0]) {
        AcceptedIffRead(tail[1..]);
      }
    }
  }

  /** The automaton accepts exactly the texts of the grammar. */
  lemma AcceptedIffGrammatical(text: string)
    ensures AcceptedFrom(Start, text) <==> exists d :: DocOk(d) && Render(d) == text
  {
    AcceptedIffRead(text);
    if AcceptedFrom(Start, text) {
      ReadDocRenders(text);
    }
    if d :| DocOk(d) && Render(d) == text {
      DocIsReadBack(d);
    }
  }

  /** A text has at most one split into fields. */
  lemma SplitIsUnique(d: Doc, e: Doc)
    requires DocOk(d) && DocOk(e) && Render(d) == Render(e)
    ensures d == e
  {
    DocIsReadBack(d);
    DocIsReadBack(e);
  }
}
