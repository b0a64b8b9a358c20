/** Redacting text elements of a DICOM file while keeping everything else, byte for byte. */
module DicomRedaction {
  import opened Results
  import opened Matching
  import opened DicomFormat
  import opened DicomRoundTrip

  /** The policy as this code uses it, with the text codec and the pixel redactor it calls. */
  datatype Redactor = Redactor(patterns: Patterns, literals: seq<Bytes>, decode: Bytes -> Option<string>,
                               encode: string -> Bytes, pixels: Bytes -> Option<(Bytes, nat)>)

  predicate StartsWith(s: string, prefix: string) {
    |prefix| <= |s| && s[..|prefix|] == prefix
  }

  predicate IsCompressed(syntax: string) {
    StartsWith(syntax, "1.2.840.10008.1.2.4.") || StartsWith(syntax, "1.2.840.10008.1.2.5")
  }

  predicate IsPixelData(e: Elem) {
    e.group == 0x7FE0 && e.element == 0x0010
  }

  predicate Contains(whole: Bytes, part: Bytes) {
    part <= whole || (whole != [] && Contains(whole[1..], part))
  }

  /** What becomes of an element's value: kept, or replaced; with the number of replacements. */
  datatype Change = Keep | Replace(value: Bytes, count: nat) {
    function Count(): nat {
      if Keep? then 0 else count
    }
  }

  function ChangeOf(r: Redactor, syntax: string, e: Elem): Result<Change, DicomError> {
    if e.vr in TEXT_VRS then
      match r.decode(StripRight(e.value))
      case None => Err(TextInvalid)
      case Some(text) =>
        var (transformed, count) := r.patterns.Replace(text);
        Ok(if count > 0 then Replace(r.encode(transformed), count) else Keep)
    else if IsPixelData(e) && IsCompressed(syntax) then
      match r.pixels(e.value)
      case None => Err(PixelUnsupported)
      case Some((redacted, count)) => Ok(Replace(redacted, count))
    else if e.group % 2 == 1 && exists l :: l in r.literals && Contains(e.value, l) then Err(PrivateBinaryTag)
    else Ok(Keep)
  }

  function Rewritten(e: Elem, change: Change): Elem {
    if change.Keep? then e else e.(value := Padded(e.vr, change.value))
  }

  /** One element on its way through: its bytes in the source, and in the output. */
  datatype Piece = Piece(raw: Bytes, elem: Elem, header: nat, change: Change, out: Bytes)

  function PieceOf(r: Redactor, syntax: string, rest: Bytes): Result<Piece, DicomError>
    requires |rest| >= 8
  {
    match ParseOne(rest, syntax)
    case Err(error) => Err(error)
    case Ok((e, header)) =>
      var raw := rest[..header + |e.value|];
      ParsedVr(rest, syntax);
      match ChangeOf(r, syntax, e)
      case Err(error) => Err(error)
      case Ok(Keep) => Ok(Piece(raw, e, header, Keep, raw))
      case Ok(Replace(value, count)) =>
        match Encode(e.(value := value), EncodingOf(e.group, syntax))
        case None => Err(LengthOverflow)
        case Some(encoded) => Ok(Piece(raw, e, header, Replace(value, count), encoded))
  }

  lemma ParsedVr(rest: Bytes, syntax: string)
    requires |rest| >= 8 && ParseOne(rest, syntax).Ok?
    ensures var (e, header) := ParseOne(rest, syntax).value;
      && IsVr(e.vr) && GroupReadable(e.group, syntax) && e.group < 65536 && e.element < 65536
      && header == HeaderSize(e, syntax)
      && (!EncodingOf(e.group, syntax).explicit ==> e.vr == KnownVr(e.group, e.element))
  {
  }

  function Pieces(r: Redactor, syntax: string, rest: Bytes): Result<seq<Piece>, DicomError>
    decreases |rest|
  {
    if |rest| < 8 then if rest == [] then Ok([]) else Err(Invalid)
    else
      match PieceOf(r, syntax, rest)
      case Err(error) => Err(error)
      case Ok(piece) =>
        PieceShape(r, syntax, rest);
        match Pieces(r, syntax, rest[|piece.raw|..])
        case Err(error) => Err(error)
        case Ok(others) => Ok([piece] + others)
  }

  lemma PieceShape(r: Redactor, syntax: string, rest: Bytes)
    requires |rest| >= 8 && PieceOf(r, syntax, rest).Ok?
    ensures var p := PieceOf(r, syntax, rest).value;
      && 8 <= |p.raw| <= |rest| && rest[..|p.raw|] == p.raw
      && ParseOne(rest, syntax) == Ok((p.elem, p.header)) && |p.raw| == p.header + |p.elem.value|
      && ChangeOf(r, syntax, p.elem) == Ok(p.change)
      && (p.change.Keep? ==> p.out == p.raw)
      && IsVr(p.elem.vr)
      && (p.change.Replace? ==> Encode(p.elem.(value := p.change.value), EncodingOf(p.elem.group, syntax)) == Some(p.out))
  {
    hide ParseOne, ChangeOf, Encode, HeaderSize, KnownVr;
    ParsedVr(rest, syntax);
  }

  function RawBytes(pieces: seq<Piece>): Bytes {
    if pieces == [] then [] else pieces[0].raw + RawBytes(pieces[1..])
  }

  function OutBytes(pieces: seq<Piece>): Bytes {
    if pieces == [] then [] else pieces[0].out + OutBytes(pieces[1..])
  }

  function CountAll(pieces: seq<Piece>): nat {
    if pieces == [] then 0 else pieces[0].change.Count() + CountAll(pieces[1..])
  }

  function Redacted(r: Redactor, data: Bytes): Result<(Bytes, nat), DicomError> {
    if !HasPreamble(data) then Err(Invalid)
    else
      match DetectSyntax(data[132..])
      case Err(error) => Err(error)
      case Ok(syntax) =>
        match Pieces(r, syntax, data[132..])
        case Err(error) => Err(error)
        case Ok(pieces) => Ok((data[..132] + OutBytes(pieces), CountAll(pieces)))
  }

  /** The redaction loop: elements are consumed as they are parsed, so the first error of either
      kind stops it; nothing is written before the end. */
  method Redact(r: Redactor, data: Bytes) returns (result: Result<(Bytes, nat), DicomError>)
    ensures result == Redacted(r, data)
    ensures result.Ok? ==> ElementsOf(data).Ok? && forall x :: x in ElementsOf(data).value ==> !IsExposed(r, x.elem)
    ensures result == Err(PrivateBinaryTag) ==>
      |data| >= 132 && DetectSyntax(data[132..]).Ok? && exists at :: ExposedAt(r, DetectSyntax(data[132..]).value, data, at)
  {
    var syntax := FindSyntax(data);
    if syntax.Err? {
      ParseErrors(data[if HasPreamble(data) then 132 else 0..], "");
      return Err(syntax.error);
    }
    result := RedactLoop(r, data, syntax.value);
    hide *;
    if result.Ok? {
      NoLiteralIsPublished(r, data);
    } else if result == Err(PrivateBinaryTag) {
      ghost var at := LiteralIsWhyRefused(r, data);
    }
  }

  function Onward(chunks: Bytes, count: nat, rest: Result<seq<Piece>, DicomError>): Result<(Bytes, nat), DicomError> {
    match rest case Err(error) => Err(error) case Ok(pieces) => Ok((chunks + OutBytes(pieces), count + CountAll(pieces)))
  }

  method RedactLoop(r: Redactor, data: Bytes, syntax: string) returns (result: Result<(Bytes, nat), DicomError>)
    requires |data| >= 132
    ensures result == Onward(data[..132], 0, Pieces(r, syntax, data[132..]))
  {
    hide Pieces, PieceOf, OutBytes, CountAll;
    var chunks := data[..132];
    var replacements: nat := 0;
    var last: nat := 132;
    while last + 8 <= |data|
      invariant 132 <= last <= |data|
      invariant Onward(chunks, replacements, Pieces(r, syntax, data[last..]))
             == Onward(data[..132], 0, Pieces(r, syntax, data[132..]))
      decreases |data| - last
    {
      PiecesStop(r, syntax, data[last..]);
      var piece := PieceOf(r, syntax, data[last..]);
      if piece.Err? {
        return Err(piece.error);
      }
      OnePiece(r, syntax, data, last, chunks, replacements);
      chunks := chunks + piece.value.out;
      replacements := replacements + piece.value.change.Count();
      last := last + |piece.value.raw|;
    }
    PiecesStop(r, syntax, data[last..]);
    NoPieces();
    if last != |data| {
      return Err(Invalid);
    }
    assert chunks + [] == chunks;
    return Ok((chunks, replacements));
  }

  lemma NoPieces()
    ensures OutBytes([]) == [] && CountAll([]) == 0
  {
  }

  lemma PiecesStop(r: Redactor, syntax: string, rest: Bytes)
    ensures |rest| < 8 ==> Pieces(r, syntax, rest) == if rest == [] then Ok([]) else Err(Invalid)
    ensures |rest| >= 8 && PieceOf(r, syntax, rest).Err? ==> Pieces(r, syntax, rest) == Err(PieceOf(r, syntax, rest).error)
  {
  }

  lemma OnePiece(r: Redactor, syntax: string, data: Bytes, last: nat, chunks: Bytes, count: nat)
    requires last + 8 <= |data| && PieceOf(r, syntax, data[last..]).Ok?
    ensures var p := PieceOf(r, syntax, data[last..]).value;
      && 8 <= |p.raw| && last + |p.raw| <= |data|
      && Onward(chunks, count, Pieces(r, syntax, data[last..]))
         == Onward(chunks + p.out, count + p.change.Count(), Pieces(r, syntax, data[last + |p.raw|..]))
  {
    hide PieceOf, ParseOne, ChangeOf, Encode, OutBytes, CountAll;
    PieceShape(r, syntax, data[last..]);
    var p := PieceOf(r, syntax, data[last..]).value;
    assert data[last..][|p.raw|..] == data[last + |p.raw|..];
    var others := Pieces(r, syntax, data[last + |p.raw|..]);
    if others.Ok? {
      FirstPiece(p, others.value);
      assert chunks + (p.out + OutBytes(others.value)) == chunks + p.out + OutBytes(others.value);
    }
  }

  lemma FirstPiece(p: Piece, others: seq<Piece>)
    ensures RawBytes([p] + others) == p.raw + RawBytes(others)
    ensures OutBytes([p] + others) == p.out + OutBytes(others)
    ensures CountAll([p] + others) == p.change.Count() + CountAll(others)
  {
    assert ([p] + others)[1..] == others;
  }

  // ---------- What redaction preserves ----------

  /** The pieces cut the source up without loss. */
  lemma {:induction false} PiecesAreTheSource(r: Redactor, syntax: string, rest: Bytes)
    requires Pieces(r, syntax, rest).Ok?
    ensures RawBytes(Pieces(r, syntax, rest).value) == rest
    ensures ParseAll(rest, syntax) == Ok(SourceElems(Pieces(r, syntax, rest).value))
    decreases |rest|
  {
    hide PieceOf, ParseOne, ChangeOf, Encode;
    if rest != [] {
      PieceShape(r, syntax, rest);
      var p := PieceOf(r, syntax, rest).value;
      PiecesAreTheSource(r, syntax, rest[|p.raw|..]);
      var others := Pieces(r, syntax, rest[|p.raw|..]).value;
      FirstPiece(p, others);
      assert ([p] + others)[1..] == others;
      assert rest == p.raw + rest[|p.raw|..];
    }
  }

  function SourceElems(pieces: seq<Piece>): seq<(Elem, nat)> {
    if pieces == [] then [] else [(pieces[0].elem, pieces[0].header)] + SourceElems(pieces[1..])
  }

  /** The elements the output must parse to: same tags and value representations, kept values
      as they were, replaced ones even-padded. */
  function OutElems(pieces: seq<Piece>): seq<(Elem, nat)> {
    if pieces == [] then []
    else [(Rewritten(pieces[0].elem, pieces[0].change), pieces[0].header)] + OutElems(pieces[1..])
  }

  /** Parsing one element does not look past its end. */
  lemma ParseIsLocal(rest: Bytes, syntax: string, n: nat, tail: Bytes)
    requires |rest| >= 8 && ParseOne(rest, syntax).Ok?
    requires n == ParseOne(rest, syntax).value.1 + |ParseOne(rest, syntax).value.0.value|
    ensures |rest[..n] + tail| >= 8 && ParseOne(rest[..n] + tail, syntax) == ParseOne(rest, syntax)
  {
    var other := rest[..n] + tail;
    forall i, j | 0 <= i <= j <= n ensures other[i..j] == rest[i..j] {
    }
    assert other[0] == rest[0] && other[1] == rest[1] && other[4] == rest[4] && other[5] == rest[5];
  }

  /** An output piece parses to its rewritten element, whatever follows. */
  lemma OutPieceParses(r: Redactor, syntax: string, rest: Bytes, tail: Bytes)
    requires |rest| >= 8 && PieceOf(r, syntax, rest).Ok?
    ensures var p := PieceOf(r, syntax, rest).value;
      && |p.out + tail| >= 8 && |p.out| == p.header + |Rewritten(p.elem, p.change).value|
      && ParseOne(p.out + tail, syntax) == Ok((Rewritten(p.elem, p.change), p.header))
  {
    hide PieceOf, ParseOne, ChangeOf, Encode, Padded;
    PieceShape(r, syntax, rest);
    ParsedVr(rest, syntax);
    var p := PieceOf(r, syntax, rest).value;
    if p.change.Keep? {
      ParseIsLocal(rest, syntax, |p.raw|, tail);
    } else {
      EncodedIsParsed(p.elem.(value := p.change.value), syntax, tail);
    }
  }

  lemma {:induction false} OutputParses(r: Redactor, syntax: string, rest: Bytes)
    requires Pieces(r, syntax, rest).Ok?
    ensures ParseAll(OutBytes(Pieces(r, syntax, rest).value), syntax) == Ok(OutElems(Pieces(r, syntax, rest).value))
    decreases |rest|
  {
    hide PieceOf, ParseOne, ChangeOf, Encode, Rewritten;
    if rest != [] {
      PieceShape(r, syntax, rest);
      var p := PieceOf(r, syntax, rest).value;
      OutputParses(r, syntax, rest[|p.raw|..]);
      var others := Pieces(r, syntax, rest[|p.raw|..]).value;
      FirstPiece(p, others);
      assert ([p] + others)[1..] == others;
      OutPieceParses(r, syntax, rest, OutBytes(others));
      assert (p.out + OutBytes(others))[|p.out|..] == OutBytes(others);
    }
  }

  // ---------- The transfer syntax survives ----------

  predicate NamesSyntax(e: Elem) {
    e.group == META_GROUP && e.element == 0x0010 && e.vr in TEXT_VRS
  }

  /** The piece begins with the bytes of group 0x0002, so detection goes on. */
  predicate StartsMeta(p: Piece) {
    |p.raw| >= 2 && Read2(p.raw, false) == META_GROUP
  }

  /** The transfer syntax that the output declares: the new text of the first syntax element that
      detection meets. */
  function OutSyntax(pieces: seq<Piece>): string {
    if pieces == [] || !StartsMeta(pieces[0]) then ""
    else if NamesSyntax(pieces[0].elem) then AsciiText(StripRight(Rewritten(pieces[0].elem, pieces[0].change).value))
    else OutSyntax(pieces[1..])
  }

  /** One step of syntax detection over an element the parser reads in explicit little-endian
      form anyway: every meta element, and every element under the empty syntax. */
  lemma DetectStep(rest: Bytes, syntax: string, tail: Bytes)
    requires |rest| >= 8 && ParseOne(rest, syntax).Ok?
    requires var (e, header) := ParseOne(rest, syntax).value;
      header + |e.value| <= |rest| && rest[header + |e.value|..] == tail
      && ((e.group == META_GROUP && Read2(rest, false) == META_GROUP) || syntax == "")
    ensures var e := ParseOne(rest, syntax).value.0;
      DetectSyntax(rest) ==
        if e.group != META_GROUP then Ok("")
        else if NamesSyntax(e) then Ok(AsciiText(StripRight(e.value)))
        else DetectSyntax(tail)
  {
    hide ExplicitHeader, KnownVr, Read2, Read4, StripRight, AsciiText;
  }

  lemma OutKeepsMetaGroup(r: Redactor, syntax: string, rest: Bytes, tail: Bytes)
    requires |rest| >= 8 && PieceOf(r, syntax, rest).Ok? && Read2(rest, false) == META_GROUP
    ensures |PieceOf(r, syntax, rest).value.out| >= 8
    ensures Read2(PieceOf(r, syntax, rest).value.out + tail, false) == META_GROUP
  {
    hide PieceOf, ChangeOf, Encode, Padded;
    PieceShape(r, syntax, rest);
    ParsedVr(rest, syntax);
    var p := PieceOf(r, syntax, rest).value;
    var out := p.out + tail;
    OutPieceParses(r, syntax, rest, tail);
    if p.change.Keep? {
      assert out[0] == rest[0] && out[1] == rest[1];
    } else {
      EncodedLayout(p.elem.(value := p.change.value), EncodingOf(p.elem.group, syntax), tail);
      ReadSlice2(out, Write2(META_GROUP, false), false);
      assert Write2(META_GROUP, false)[..2] == Write2(META_GROUP, false);
    }
  }

  lemma PieceGroup(r: Redactor, syntax: string, rest: Bytes)
    requires |rest| >= 8 && PieceOf(r, syntax, rest).Ok?
    ensures Read2(rest, false) == META_GROUP ==> PieceOf(r, syntax, rest).value.elem.group == META_GROUP
    ensures syntax == "" ==> PieceOf(r, syntax, rest).value.elem.group == Read2(rest, false)
  {
    hide ChangeOf, Encode;
    PieceShape(r, syntax, rest);
  }

  lemma DetectOutsideMeta(rest: Bytes)
    requires |rest| >= 8 && Read2(rest, false) != META_GROUP && DetectSyntax(rest).Ok?
    ensures DetectSyntax(rest) == Ok("")
  {
  }

  /** The output of every redaction declares exactly `OutSyntax`. */
  lemma {:induction false} OutputDeclares(r: Redactor, syntax: string, rest: Bytes)
    requires DetectSyntax(rest) == Ok(syntax) && Pieces(r, syntax, rest).Ok?
    ensures DetectSyntax(OutBytes(Pieces(r, syntax, rest).value)) == Ok(OutSyntax(Pieces(r, syntax, rest).value))
    decreases |rest|
  {
    hide PieceOf, ParseOne, ChangeOf, DetectSyntax, Read2, NamesSyntax, Rewritten, StripRight, AsciiText;
    if rest == [] {
      NothingDeclared();
      return;
    }
    PieceShape(r, syntax, rest);
    PieceGroup(r, syntax, rest);
    var p := PieceOf(r, syntax, rest).value;
    var rest' := rest[|p.raw|..];
    var others := Pieces(r, syntax, rest').value;
    var tail := OutBytes(others);
    FirstPiece(p, others);
    assert ([p] + others)[0] == p && ([p] + others)[1..] == others;
    OutPieceParses(r, syntax, rest, tail);
    RewrittenKeepsTag(p.elem, p.change);
    assert (p.out + tail)[|p.out|..] == tail;
    ReadSlice2(rest, p.raw, false);
    if Read2(rest, false) == META_GROUP {
      OutKeepsMetaGroup(r, syntax, rest, tail);
      DetectStep(rest, syntax, rest');
      DetectStep(p.out + tail, syntax, tail);
      if !NamesSyntax(p.elem) {
        OutputDeclares(r, syntax, rest');
      }
    } else {
      DetectOutsideMeta(rest);
      DetectStep(p.out + tail, "", tail);
    }
  }

  lemma NothingDeclared()
    ensures DetectSyntax([]) == Ok("")
  {
  }

  /** The first syntax element, the only one that detection reads, is kept. */
  predicate FirstSyntaxKept(pieces: seq<Piece>) {
    pieces != [] && StartsMeta(pieces[0]) ==>
      if NamesSyntax(pieces[0].elem) then pieces[0].change.Keep? else FirstSyntaxKept(pieces[1..])
  }

  /** Then the output declares the same transfer syntax, whatever becomes of later ones. */
  lemma {:induction false} SyntaxSurvives(r: Redactor, syntax: string, rest: Bytes)
    requires DetectSyntax(rest) == Ok(syntax) && Pieces(r, syntax, rest).Ok?
    requires FirstSyntaxKept(Pieces(r, syntax, rest).value)
    ensures OutSyntax(Pieces(r, syntax, rest).value) == syntax
    decreases |rest|
  {
    hide PieceOf, ParseOne, ChangeOf, DetectSyntax, Read2, NamesSyntax, StripRight, AsciiText;
    if rest == [] {
      NothingDeclared();
      return;
    }
    PieceShape(r, syntax, rest);
    PieceGroup(r, syntax, rest);
    var p := PieceOf(r, syntax, rest).value;
    var rest' := rest[|p.raw|..];
    var others := Pieces(r, syntax, rest').value;
    assert ([p] + others)[0] == p && ([p] + others)[1..] == others;
    ReadSlice2(rest, p.raw, false);
    if Read2(rest, false) == META_GROUP {
      DetectStep(rest, syntax, rest');
      if !NamesSyntax(p.elem) {
        SyntaxSurvives(r, syntax, rest');
      }
    } else {
      DetectOutsideMeta(rest);
    }
  }

  lemma RewrittenKeepsTag(e: Elem, change: Change)
    ensures var e' := Rewritten(e, change);
      && e'.group == e.group && e'.element == e.element && e'.vr == e.vr
      && (NamesSyntax(e') <==> NamesSyntax(e)) && (change.Keep? ==> e' == e)
  {
  }

  // ---------- What becomes of each element ----------

  /** Piece by piece: the same tag and value representation; the very same bytes where nothing
      matched; and for a matched text element the policy's replacement of its stripped text,
      even-padded. */
  lemma {:induction false} OutputElement(r: Redactor, syntax: string, rest: Bytes, i: nat)
    requires Pieces(r, syntax, rest).Ok? && i < |Pieces(r, syntax, rest).value|
    ensures var pieces := Pieces(r, syntax, rest).value;
      && |SourceElems(pieces)| == |OutElems(pieces)| == |pieces|
      && var p, e, e' := pieces[i], SourceElems(pieces)[i].0, OutElems(pieces)[i].0;
         && e == p.elem && e'.group == e.group && e'.element == e.element && e'.vr == e.vr
         && ChangeOf(r, syntax, e) == Ok(p.change)
         && (p.change.Keep? ==> e' == e && p.out == p.raw)
         && (p.change.Replace? ==> e'.value == Padded(e.vr, p.change.value))
    decreases i
  {
    hide PieceOf, ParseOne, ChangeOf, Encode, Padded;
    PieceShape(r, syntax, rest);
    var p := PieceOf(r, syntax, rest).value;
    var others := Pieces(r, syntax, rest[|p.raw|..]).value;
    assert ([p] + others)[1..] == others;
    ElemsLength([p] + others);
    ElemsLength(others);
    if i > 0 {
      OutputElement(r, syntax, rest[|p.raw|..], i - 1);
    }
  }

  lemma ElemsLength(pieces: seq<Piece>)
    ensures |SourceElems(pieces)| == |OutElems(pieces)| == |pieces|
  {
  }

  /** What counts as a match in a text element. */
  lemma TextChange(r: Redactor, syntax: string, e: Elem)
    requires e.vr in TEXT_VRS && ChangeOf(r, syntax, e).Ok?
    ensures var text := r.decode(StripRight(e.value)).value;
      && (ChangeOf(r, syntax, e).value.Keep? <==> r.patterns.Clean(text))
      && (ChangeOf(r, syntax, e).value.Replace? ==>
            ChangeOf(r, syntax, e).value == Replace(r.encode(r.patterns.Replace(text).0), |r.patterns.Find(text)|))
  {
    hide StripRight;
    var text := r.decode(StripRight(e.value)).value;
    r.patterns.FindsNothingIffNoMatch(text);
    assert ChangeOf(r, syntax, e).value.Keep? <==> r.patterns.Replace(text).1 == 0;
  }

  /** With uncompressed pixels, zero replacements mean an untouched file. */
  lemma ZeroMatchesKeepTheFile(r: Redactor, data: Bytes)
    requires Redacted(r, data).Ok? && !IsCompressed(DetectSyntax(data[132..]).value)
    ensures Redacted(r, data).value.1 == 0 ==> Redacted(r, data).value.0 == data
  {
    hide Pieces, DetectSyntax, IsCompressed, RawBytes, OutBytes, CountAll, ParseAll, SourceElems;
    var syntax := DetectSyntax(data[132..]).value;
    PiecesAreTheSource(r, syntax, data[132..]);
    NoCountNoChange(r, syntax, data[132..]);
    assert data == data[..132] + data[132..];
  }

  lemma {:induction false} NoCountNoChange(r: Redactor, syntax: string, rest: Bytes)
    requires Pieces(r, syntax, rest).Ok? && !IsCompressed(syntax)
    ensures var pieces := Pieces(r, syntax, rest).value;
      CountAll(pieces) == 0 ==> OutBytes(pieces) == RawBytes(pieces)
    decreases |rest|
  {
    hide PieceOf, ParseOne, Encode;
    if rest != [] {
      PieceShape(r, syntax, rest);
      var p := PieceOf(r, syntax, rest).value;
      NoCountNoChange(r, syntax, rest[|p.raw|..]);
      var others := Pieces(r, syntax, rest[|p.raw|..]).value;
      FirstPiece(p, others);
    }
  }

  // ---------- Binary elements ----------

  /** The compressed transfer syntaxes, by the beginnings of their names. */
  ghost predicate NamesCompressed(syntax: string) {
    || (|syntax| >= 20 && syntax[..20] == "1.2.840.10008.1.2.4.")
    || (|syntax| >= 19 && syntax[..19] == "1.2.840.10008.1.2.5")
  }

  /** What becomes of an element without text: compressed pixel data is handed to the pixel redactor
      and replaced by its output, everything else is kept. */
  lemma BinaryChange(r: Redactor, syntax: string, e: Elem)
    requires e.vr !in TEXT_VRS && ChangeOf(r, syntax, e).Ok?
    ensures ChangeOf(r, syntax, e).value ==
      if (e.group, e.element) == (0x7FE0, 0x0010) && NamesCompressed(syntax) && r.pixels(e.value).Some?
      then Replace(r.pixels(e.value).value.0, r.pixels(e.value).value.1)
      else Keep
    ensures (e.group, e.element) == (0x7FE0, 0x0010) && NamesCompressed(syntax) ==> r.pixels(e.value).Some?
  {
    hide Contains;
  }

  ghost predicate HoldsAt(value: Bytes, literal: Bytes, i: nat) {
    i + |literal| <= |value| && value[i..i + |literal|] == literal
  }

  /** A policy literal stands somewhere in the value of a private element without text. */
  ghost predicate IsExposed(r: Redactor, e: Elem) {
    e.group % 2 == 1 && e.vr !in TEXT_VRS && exists l, i: nat :: l in r.literals && HoldsAt(e.value, l, i)
  }

  lemma HoldsAtStart(value: Bytes, literal: Bytes)
    ensures HoldsAt(value, literal, 0) <==> literal <= value
  {
    if literal <= value {
      assert value[..|literal|] == literal;
    }
  }

  lemma HoldsLater(value: Bytes, literal: Bytes, i: nat)
    requires value != []
    ensures HoldsAt(value[1..], literal, i) <==> HoldsAt(value, literal, i + 1)
  {
    if i + 1 + |literal| <= |value| {
      assert value[1..][i..i + |literal|] == value[i + 1..i + 1 + |literal|];
    }
  }

  lemma {:induction false} ContainsIffHolds(value: Bytes, literal: Bytes)
    ensures Contains(value, literal) <==> exists i: nat :: HoldsAt(value, literal, i)
  {
    HoldsAtStart(value, literal);
    if literal <= value {
    } else if value == [] {
      assert forall i: nat :: !HoldsAt(value, literal, i);
    } else {
      hide HoldsAt;
      ContainsIffHolds(value[1..], literal);
      if i: nat :| HoldsAt(value[1..], literal, i) {
        HoldsLater(value, literal, i);
      }
      if i: nat :| HoldsAt(value, literal, i) {
        assert i != 0;
        HoldsLater(value, literal, i - 1);
      }
    }
  }

  /** An element is refused for its literal exactly when it is exposed, and kept only when it is not. */
  lemma ExposedIsRefused(r: Redactor, syntax: string, e: Elem)
    ensures ChangeOf(r, syntax, e) == Err(PrivateBinaryTag) <==> IsExposed(r, e)
  {
    forall l ensures Contains(e.value, l) <==> exists i: nat :: HoldsAt(e.value, l, i) {
      ContainsIffHolds(e.value, l);
    }
    hide Contains, HoldsAt;
  }

  /** A file that is redacted has no exposed element. */
  lemma {:induction false} NothingExposed(r: Redactor, syntax: string, rest: Bytes)
    requires Pieces(r, syntax, rest).Ok?
    ensures ParseAll(rest, syntax).Ok?
    ensures forall e :: e in ParseAll(rest, syntax).value ==> !IsExposed(r, e.0)
    decreases |rest|
  {
    hide PieceOf, ParseOne, ChangeOf, Encode, IsExposed;
    PiecesAreTheSource(r, syntax, rest);
    if rest != [] {
      PieceShape(r, syntax, rest);
      var p := PieceOf(r, syntax, rest).value;
      ExposedIsRefused(r, syntax, p.elem);
      NothingExposed(r, syntax, rest[|p.raw|..]);
    }
  }

  lemma NoLiteralIsPublished(r: Redactor, data: Bytes)
    requires Redacted(r, data).Ok?
    ensures ElementsOf(data).Ok?
    ensures forall x :: x in ElementsOf(data).value ==> !IsExposed(r, x.elem)
  {
    hide Pieces, ParseAll, IsExposed, DetectSyntax;
    var syntax := DetectSyntax(data[132..]).value;
    NothingExposed(r, syntax, data[132..]);
    var elems := ParseAll(data[132..], syntax).value;
    LocatedElems(elems, 132);
    assert [] + Locate(elems, 132) == Locate(elems, 132);
  }

  lemma {:induction false} LocatedElems(elems: seq<(Elem, nat)>, start: nat)
    ensures forall x :: x in Locate(elems, start) ==> exists e :: e in elems && e.0 == x.elem
  {
    if elems != [] {
      var (e, header) := elems[0];
      LocatedElems(elems[1..], start + header + |e.value|);
      assert elems == [elems[0]] + elems[1..];
    }
  }

  /** The element at this offset, as the parser reads it, is exposed. */
  ghost predicate ExposedAt(r: Redactor, syntax: string, data: Bytes, at: nat) {
    at + 8 <= |data| && ParseOne(data[at..], syntax).Ok? && IsExposed(r, ParseOne(data[at..], syntax).value.0)
  }

  /** A file is refused for a literal only when some element of it is exposed. */
  lemma {:induction false} RefusedForExposure(r: Redactor, syntax: string, data: Bytes, from: nat) returns (at: nat)
    requires from <= |data| && Pieces(r, syntax, data[from..]) == Err(PrivateBinaryTag)
    ensures from <= at && ExposedAt(r, syntax, data, at)
    decreases |data| - from
  {
    hide ParseOne, ChangeOf, Encode, IsExposed;
    var rest := data[from..];
    PiecesStop(r, syntax, rest);
    ParseErrors(rest, syntax);
    if PieceOf(r, syntax, rest).Err? {
      ExposedIsRefused(r, syntax, ParseOne(rest, syntax).value.0);
      at := from;
    } else {
      PieceShape(r, syntax, rest);
      var next := from + |PieceOf(r, syntax, rest).value.raw|;
      assert rest[|PieceOf(r, syntax, rest).value.raw|..] == data[next..];
      at := RefusedForExposure(r, syntax, data, next);
    }
  }

  lemma ParseErrors(rest: Bytes, syntax: string)
    ensures |rest| >= 8 ==> ParseOne(rest, syntax) != Err(PrivateBinaryTag)
    ensures DetectSyntax(rest) != Err(PrivateBinaryTag)
  {
    hide KnownVr, Read2, Read4;
    DetectErrors(rest);
  }

  lemma {:induction false} DetectErrors(rest: Bytes)
    ensures DetectSyntax(rest) != Err(PrivateBinaryTag)
    decreases |rest|
  {
    hide Read2, Read4, StripRight, AsciiText;
    if |rest| >= 8 && ExplicitHeader(rest, false).Ok? {
      var (vr, header, length) := ExplicitHeader(rest, false).value;
      if header + length <= |rest| {
        DetectErrors(rest[header + length..]);
      }
    }
  }

  lemma LiteralIsWhyRefused(r: Redactor, data: Bytes) returns (at: nat)
    requires Redacted(r, data) == Err(PrivateBinaryTag)
    ensures DetectSyntax(data[132..]).Ok? && 132 <= at && ExposedAt(r, DetectSyntax(data[132..]).value, data, at)
  {
    hide Pieces, DetectSyntax, ExposedAt;
    ParseErrors(data[132..], "");
    at := RefusedForExposure(r, DetectSyntax(data[132..]).value, data, 132);
  }

  // ---------- The number of replacements ----------

  /** The count is the sum of the replacements made, element by element. */
  lemma {:induction false} CountIsTheSum(r: Redactor, syntax: string, rest: Bytes, at: nat)
    requires Pieces(r, syntax, rest).Ok? && at <= |Pieces(r, syntax, rest).value|
    ensures var pieces := Pieces(r, syntax, rest).value; CountAll(pieces) == CountAll(pieces[..at]) + CountAll(pieces[at..])
    ensures forall p :: p in Pieces(r, syntax, rest).value ==> CountAll([p]) == if p.change.Keep? then 0 else p.change.count
  {
    var pieces := Pieces(r, syntax, rest).value;
    CountSplits(pieces, at);
    forall p | p in pieces ensures CountAll([p]) == if p.change.Keep? then 0 else p.change.count {
      assert [p][1..] == [];
    }
  }

  lemma {:induction false} CountSplits(pieces: seq<Piece>, at: nat)
    requires at <= |pieces|
    ensures CountAll(pieces) == CountAll(pieces[..at]) + CountAll(pieces[at..])
  {
    if at == 0 {
      assert pieces[0..] == pieces;
    } else {
      CountSplits(pieces[1..], at - 1);
      assert pieces[..at][1..] == pieces[1..][..at - 1] && pieces[at..] == pieces[1..][at - 1..];
    }
  }
}
