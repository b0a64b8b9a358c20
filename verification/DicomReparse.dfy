/** When the redacted file is read back as it was meant: the transfer syntax that it declares may be
    another one than the source's. */
module DicomReparse {
  import opened Results
  import opened Occurrences
  import opened Matching
  import opened DicomFormat
  import opened DicomRoundTrip
  import opened DicomRedaction

  /** The two names stand for the same encoding of the data set. */
  predicate SameForm(syntax: string, syntax': string) {
    && (syntax == EXPLICIT_VR_BIG_ENDIAN <==> syntax' == EXPLICIT_VR_BIG_ENDIAN)
    && (syntax == IMPLICIT_VR_LITTLE_ENDIAN <==> syntax' == IMPLICIT_VR_LITTLE_ENDIAN)
  }

  /** Tag and length read the same in either byte order. */
  predicate Mirrored(rest: Bytes, vr: string)
    requires |rest| >= 8
  {
    && rest[0] == rest[1] && rest[2] == rest[3]
    && if vr in LONG_LENGTH_VRS then |rest| >= 12 && rest[8] == rest[11] && rest[9] == rest[10] else rest[6] == rest[7]
  }

  /** The header means the same under both names. */
  predicate ReadsAlike(rest: Bytes, vr: string, syntax: string, syntax': string)
    requires |rest| >= 8
  {
    || SameForm(syntax, syntax')
    || Read2(rest, false) == META_GROUP
    || (syntax != IMPLICIT_VR_LITTLE_ENDIAN && syntax' != IMPLICIT_VR_LITTLE_ENDIAN && Mirrored(rest, vr))
  }

  lemma MirroredNumbers(b: Bytes)
    ensures |b| >= 2 ==> (Read2(b, true) == Read2(b, false) <==> b[0] == b[1])
    ensures |b| >= 4 ==> (Read4(b, true) == Read4(b, false) <==> b[0] == b[3] && b[1] == b[2])
  {
  }

  /** An implicit header never means the same as an explicit one. */
  lemma FormsDiffer(rest: Bytes, group: nat, element: nat, big: bool, length: nat)
    requires |rest| >= 8 && length == Read4(rest[4..8], false)
    ensures group != META_GROUP ==> ExplicitHeader(rest, big) != Ok((KnownVr(group, element), 8, length))
  {
  }

  /** An element reads the same under another name exactly when its header means the same. */
  lemma ReadAlike(rest: Bytes, syntax: string, syntax': string)
    requires |rest| >= 8 && ParseOne(rest, syntax).Ok?
    ensures ParseOne(rest, syntax') == ParseOne(rest, syntax)
       <==> ReadsAlike(rest, ParseOne(rest, syntax).value.0.vr, syntax, syntax')
  {
    var e, header := ParseOne(rest, syntax).value.0, ParseOne(rest, syntax).value.1;
    if SameForm(syntax, syntax') || Read2(rest, false) == META_GROUP {
      SameReading(rest, syntax, syntax');
    } else if syntax == IMPLICIT_VR_LITTLE_ENDIAN {
      ImplicitDiffers(rest, syntax, syntax');
    } else if syntax' == IMPLICIT_VR_LITTLE_ENDIAN {
      ImplicitDiffers(rest, syntax', syntax);
    } else if syntax == EXPLICIT_VR_BIG_ENDIAN {
      OrdersDiffer(rest, syntax', syntax);
    } else {
      OrdersDiffer(rest, syntax, syntax');
    }
  }

  lemma SameReading(rest: Bytes, syntax: string, syntax': string)
    requires |rest| >= 8 && (SameForm(syntax, syntax') || Read2(rest, false) == META_GROUP)
    ensures ParseOne(rest, syntax) == ParseOne(rest, syntax')
  {
    hide ExplicitHeader, KnownVr;
  }

  lemma ImplicitDiffers(rest: Bytes, syntax: string, syntax': string)
    requires |rest| >= 8 && syntax == IMPLICIT_VR_LITTLE_ENDIAN != syntax' && Read2(rest, false) != META_GROUP
    ensures ParseOne(rest, syntax).Ok? ==> ParseOne(rest, syntax') != ParseOne(rest, syntax)
  {
    var group := Read2(rest, false);
    FormsDiffer(rest, group, Read2(rest[2..4], false), false, Read4(rest[4..8], false));
    FormsDiffer(rest, group, Read2(rest[2..4], false), true, Read4(rest[4..8], false));
    hide ExplicitHeader, KnownVr;
  }

  /** Little endian against big endian, both explicit. */
  lemma OrdersDiffer(rest: Bytes, little: string, big: string)
    requires |rest| >= 8 && big == EXPLICIT_VR_BIG_ENDIAN && little != big && little != IMPLICIT_VR_LITTLE_ENDIAN
    requires Read2(rest, false) != META_GROUP
    ensures ParseOne(rest, little).Ok? ==>
      (ParseOne(rest, big) == ParseOne(rest, little) <==> Mirrored(rest, ParseOne(rest, little).value.0.vr))
    ensures ParseOne(rest, big).Ok? ==>
      (ParseOne(rest, big) == ParseOne(rest, little) <==> Mirrored(rest, ParseOne(rest, big).value.0.vr))
  {
    MirroredNumbers(rest);
    MirroredNumbers(rest[2..4]);
    MirroredNumbers(rest[6..8]);
    if |rest| >= 12 {
      MirroredNumbers(rest[8..12]);
    }
    hide Read2, Read4;
  }

  // ---------- The whole output ----------

  /** Every element of the output reads the same under both names. */
  ghost predicate AllAlike(pieces: seq<Piece>, syntax: string, syntax': string) {
    forall p :: p in pieces ==> |p.out| >= 8 && ReadsAlike(p.out, p.elem.vr, syntax, syntax')
  }

  lemma AlikeConcat(out: Bytes, tail: Bytes, vr: string, syntax: string, syntax': string)
    requires 8 <= |out| && (vr in LONG_LENGTH_VRS && syntax != IMPLICIT_VR_LITTLE_ENDIAN ==> |out| >= 12)
    ensures ReadsAlike(out + tail, vr, syntax, syntax') <==> ReadsAlike(out, vr, syntax, syntax')
  {
  }

  lemma FirstOut(p: Piece, others: seq<Piece>)
    ensures OutElems([p] + others) == [(Rewritten(p.elem, p.change), p.header)] + OutElems(others)
  {
    assert ([p] + others)[1..] == others;
  }

  lemma PieceAlike(r: Redactor, syntax: string, rest: Bytes, tail: Bytes, syntax': string)
    requires |rest| >= 8 && PieceOf(r, syntax, rest).Ok?
    ensures var p := PieceOf(r, syntax, rest).value;
      && |p.out| >= 8
      && (ParseOne(p.out + tail, syntax') == ParseOne(p.out + tail, syntax)
          <==> ReadsAlike(p.out, p.elem.vr, syntax, syntax'))
  {
    hide PieceOf, ParseOne, ChangeOf, Encode, ReadsAlike, Padded;
    PieceShape(r, syntax, rest);
    ParsedVr(rest, syntax);
    OutPieceParses(r, syntax, rest, tail);
    var p := PieceOf(r, syntax, rest).value;
    AlikeConcat(p.out, tail, p.elem.vr, syntax, syntax');
    ReadAlike(p.out + tail, syntax, syntax');
  }

  lemma FirstParsed(out: Bytes, tail: Bytes, syntax: string, e: Elem, header: nat, more: seq<(Elem, nat)>)
    requires |out| == header + |e.value| && |out| >= 8
    ensures ParseAll(out + tail, syntax) == Ok([(e, header)] + more)
       <==> ParseOne(out + tail, syntax) == Ok((e, header)) && ParseAll(tail, syntax) == Ok(more)
  {
    hide ParseOne;
    assert (out + tail)[|out|..] == tail;
    var first := ParseOne(out + tail, syntax);
    if first.Ok? {
      var others := ParseAll((out + tail)[first.value.1 + |first.value.0.value|..], syntax);
      if others.Ok? && [first.value] + others.value == [(e, header)] + more {
        assert first.value == ([(e, header)] + more)[0];
        assert others.value == ([first.value] + others.value)[1..] == ([(e, header)] + more)[1..] == more;
      }
    }
  }

  /** The output parses to the intended elements exactly when every one of them reads alike. */
  lemma {:induction false} OutputParsesIff(r: Redactor, syntax: string, rest: Bytes, syntax': string)
    requires Pieces(r, syntax, rest).Ok?
    ensures var pieces := Pieces(r, syntax, rest).value;
      ParseAll(OutBytes(pieces), syntax') == Ok(OutElems(pieces)) <==> AllAlike(pieces, syntax, syntax')
    decreases |rest|
  {
    hide PieceOf, ParseOne, ChangeOf, Encode, Rewritten, ReadsAlike;
    if rest != [] {
      PieceShape(r, syntax, rest);
      var p := PieceOf(r, syntax, rest).value;
      OutputParsesIff(r, syntax, rest[|p.raw|..], syntax');
      var others := Pieces(r, syntax, rest[|p.raw|..]).value;
      var tail := OutBytes(others);
      FirstPiece(p, others);
      FirstOut(p, others);
      assert ([p] + others)[1..] == others;
      OutPieceParses(r, syntax, rest, tail);
      PieceAlike(r, syntax, rest, tail, syntax');
      FirstParsed(p.out, tail, syntax', Rewritten(p.elem, p.change), p.header, OutElems(others));
      assert AllAlike([p] + others, syntax, syntax')
        <==> ReadsAlike(p.out, p.elem.vr, syntax, syntax') && AllAlike(others, syntax, syntax');
    }
  }

  ghost function PiecesOf(r: Redactor, data: Bytes): seq<Piece>
    requires Redacted(r, data).Ok?
  {
    Pieces(r, DetectSyntax(data[132..]).value, data[132..]).value
  }

  lemma {:induction false} LocateIsInjective(a: seq<(Elem, nat)>, b: seq<(Elem, nat)>, start: nat)
    requires Locate(a, start) == Locate(b, start)
    ensures a == b
  {
    LocateFirst(a, start);
    LocateFirst(b, start);
    if a != [] && b != [] {
      LocateIsInjective(a[1..], b[1..], start + a[0].1 + |a[0].0.value|);
      assert a == [a[0]] + a[1..] && b == [b[0]] + b[1..];
    }
  }

  lemma LocateFirst(a: seq<(Elem, nat)>, start: nat)
    ensures a == [] <==> Locate(a, start) == []
    ensures a != [] ==>
      && Locate(a, start)[0] == Located(start, a[0].0, start + a[0].1)
      && Locate(a, start)[1..] == Locate(a[1..], start + a[0].1 + |a[0].0.value|)
  {
  }

  /** The source parses to its elements; the output parses to the elements meant by the redaction,
      which agree with them piece by piece as `OutputElement` spells out, exactly when each reads
      the same under the transfer syntax that the output declares. */
  lemma RedactionKeepsStructure(r: Redactor, data: Bytes)
    requires Redacted(r, data).Ok?
    ensures ElementsOf(data) == Ok(Locate(SourceElems(PiecesOf(r, data)), 132))
    ensures ElementsOf(Redacted(r, data).value.0) == Ok(Locate(OutElems(PiecesOf(r, data)), 132))
       <==> AllAlike(PiecesOf(r, data), DetectSyntax(data[132..]).value, OutSyntax(PiecesOf(r, data)))
  {
    hide Pieces, DetectSyntax, ParseAll, Locate, SourceElems, OutElems, AllAlike, OutSyntax;
    var syntax := DetectSyntax(data[132..]).value;
    var pieces := PiecesOf(r, data);
    var out := Redacted(r, data).value.0;
    PiecesAreTheSource(r, syntax, data[132..]);
    OutputDeclares(r, syntax, data[132..]);
    OutputParsesIff(r, syntax, data[132..], OutSyntax(pieces));
    assert out[132..] == OutBytes(pieces) && out[128..132] == data[128..132];
    assert [] + Locate(SourceElems(pieces), 132) == Locate(SourceElems(pieces), 132);
    var parsed := ParseAll(OutBytes(pieces), OutSyntax(pieces));
    if parsed.Ok? {
      assert [] + Locate(parsed.value, 132) == Locate(parsed.value, 132);
      if Locate(parsed.value, 132) == Locate(OutElems(pieces), 132) {
        LocateIsInjective(parsed.value, OutElems(pieces), 132);
      }
    }
  }

  // ---------- A redaction that is misread ----------

  /** ASCII text as bytes. */
  function Codes(s: string): Bytes {
    seq(|s|, i requires 0 <= i < |s| => (s[i] as int) % 128)
  }

  /** Text that survives the codec and the stripping of padding. */
  predicate IsPlain(s: string) {
    && 0 < |s| < 65535 && (forall i :: 0 <= i < |s| ==> s[i] < 128 as char) && s[|s| - 1] != ' ' && s[|s| - 1] != '\0'
  }

  function SyntaxElem(name: string): Elem {
    Elem(META_GROUP, 0x0010, "UI", Codes(name))
  }

  /** An empty accession number in implicit form. */
  const ACCESSION_BYTES: Bytes := [8, 0, 0x50, 0, 0, 0, 0, 0]
  const ACCESSION := Elem(0x0008, 0x0050, "SH", [])

  /** A policy that replaces one text, with an ASCII codec. */
  function Replacing(text: string, w: string): Redactor {
    Redactor(Patterns([Pattern(text, w, "rule")], []), [], (b: Bytes) => Some(AsciiText(b)), (s: string) => Codes(s),
             (b: Bytes) => None)
  }

  lemma {:induction false} CodesReadBack(s: string)
    requires forall i :: 0 <= i < |s| ==> s[i] < 128 as char
    ensures AsciiText(Codes(s)) == s
  {
    if s != "" {
      CodesReadBack(s[1..]);
      assert Codes(s)[1..] == Codes(s[1..]) && s == [s[0]] + s[1..];
    }
  }

  lemma PaddingIsStripped(name: string)
    requires IsPlain(name)
    ensures StripRight(Padded("UI", Codes(name))) == Codes(name) == StripRight(Codes(name))
  {
    var b := Codes(name);
    assert b[|b| - 1] != 0x20 && b[|b| - 1] != 0;
    assert (b + [0x20])[..|b|] == b;
  }

  lemma WholeTextReplaced(text: string, w: string)
    requires text != ""
    ensures var ps := Replacing(text, w).patterns; ps.Replace(text) == (w, 1) && ps.Replace("").1 == 0
  {
    var ps := Replacing(text, w).patterns;
    var only := Hit(0, |text|, w, "rule");
    var p := Pattern(text, w, "rule");
    forall h ensures ps.Matches(text, h) <==> h == only {
      assert p in ps.cs && forall q :: q in ps.cs ==> q == p;
      assert Produces(p, text, only) by {
        assert text[0..|text|] == text;
      }
    }
    ps.FindsNothingIffNoMatch("");
    ps.OnlyMatchReplaced(text, only);
    assert text[..0] + w + text[|text|..] == w;
  }

  lemma SyntaxEncodable(e: Elem, syntax: string)
    requires e.group == META_GROUP && e.element == 0x0010 && e.vr == "UI" && |e.value| < 65535
    ensures Encodable(e, syntax) && HeaderSize(e, syntax) == 8
  {
    hide Write2, Write4;
    assert |Padded(e.vr, e.value)| <= |e.value| + 1;
  }

  lemma SyntaxBytes(name: string, tail: Bytes)
    requires IsPlain(name)
    ensures var e, syntax := SyntaxElem(name), IMPLICIT_VR_LITTLE_ENDIAN;
      Encodable(e, syntax)
      && ParseOne(EncodedBytes(e, syntax) + tail, syntax) == Ok((PaddedElem(e), 8))
      && DetectSyntax(EncodedBytes(e, syntax) + tail) == Ok(name)
      && |EncodedBytes(e, syntax)| == 8 + |PaddedElem(e).value|
  {
    var e := SyntaxElem(name);
    PaddingIsStripped(name);
    CodesReadBack(name);
    hide *;
    SyntaxShape(name);
    SyntaxEncodable(e, IMPLICIT_VR_LITTLE_ENDIAN);
    EncodedIsParsed(e, IMPLICIT_VR_LITTLE_ENDIAN, tail);
    DetectAtMeta(e, IMPLICIT_VR_LITTLE_ENDIAN, tail);
    UiIsText();
  }

  lemma SyntaxShape(name: string)
    requires IsPlain(name)
    ensures var e := SyntaxElem(name);
      e.group == META_GROUP && e.element == 0x0010 && e.vr == "UI" && e.value == Codes(name) && |e.value| < 65535
  {
  }

  lemma UiIsText()
    ensures "UI" in TEXT_VRS && "SH" in TEXT_VRS
  {
  }

  /** The empty accession number is read with another value representation once the declared name
      stands for an explicit form. */
  lemma AccessionMisread(syntax: string)
    requires !SameForm(IMPLICIT_VR_LITTLE_ENDIAN, syntax) && syntax != EXPLICIT_VR_BIG_ENDIAN
    ensures ParseOne(ACCESSION_BYTES, IMPLICIT_VR_LITTLE_ENDIAN) == Ok((ACCESSION, 8))
    ensures ParseOne(ACCESSION_BYTES, syntax) == Ok((Elem(0x0008, 0x0050, "\0\0", []), 8))
  {
    var bytes := ACCESSION_BYTES;
    assert bytes[2..4] == [0x50, 0] && bytes[4..8] == [0, 0, 0, 0] && bytes[6..8] == [0, 0] && bytes[8..8] == [];
    assert [0 as char, 0 as char] == "\0\0";
  }

  /** The element that declares the syntax, as redaction rewrites it. */
  lemma SyntaxPiece(text: string, w: string)
    requires IsPlain(text) && IsPlain(w)
    ensures var r, syntax, e := Replacing(text, w), IMPLICIT_VR_LITTLE_ENDIAN, SyntaxElem(text);
      && Encodable(e, syntax) && Encodable(SyntaxElem(w), syntax)
      && var source := EncodedBytes(e, syntax);
         && |source + ACCESSION_BYTES| >= 8
         && PieceOf(r, syntax, source + ACCESSION_BYTES)
            == Ok(Piece(source, PaddedElem(e), 8, Replace(Codes(w), 1), EncodedBytes(SyntaxElem(w), syntax)))
  {
    var r, syntax, e := Replacing(text, w), IMPLICIT_VR_LITTLE_ENDIAN, SyntaxElem(text);
    SyntaxBytes(text, ACCESSION_BYTES);
    SyntaxBytes(w, ACCESSION_BYTES);
    WholeTextReplaced(text, w);
    PaddingIsStripped(text);
    CodesReadBack(text);
    UiIsText();
    hide ParseOne, Encode, Padded, Encodable, StripRight, AsciiText, Codes, Patterns.Replace, DetectSyntax, IsPlain;
    var source := EncodedBytes(e, syntax);
    assert (source + ACCESSION_BYTES)[..|source|] == source;
    assert ChangeOf(r, syntax, PaddedElem(e)) == Ok(Replace(Codes(w), 1));
  }

  lemma AccessionPiece(text: string, w: string)
    requires text != ""
    ensures PieceOf(Replacing(text, w), IMPLICIT_VR_LITTLE_ENDIAN, ACCESSION_BYTES)
         == Ok(Piece(ACCESSION_BYTES, ACCESSION, 8, Keep, ACCESSION_BYTES))
  {
    var r := Replacing(text, w);
    AccessionMisread("");
    WholeTextReplaced(text, w);
    UiIsText();
    EmptyDecodes(text, w);
    hide *;
    AccessionShape();
    EmptyIsKept(r, IMPLICIT_VR_LITTLE_ENDIAN, ACCESSION);
    KeptPiece(r, IMPLICIT_VR_LITTLE_ENDIAN, ACCESSION_BYTES, ACCESSION);
  }

  lemma AccessionShape()
    ensures |ACCESSION_BYTES| == 8 && ACCESSION.vr == "SH" && ACCESSION.value == []
  {
  }

  lemma EmptyDecodes(text: string, w: string)
    ensures Replacing(text, w).decode(StripRight([])) == Some("")
  {
    assert StripRight([]) == [] && AsciiText([]) == "";
  }

  lemma EmptyIsKept(r: Redactor, syntax: string, e: Elem)
    requires e.vr in TEXT_VRS && e.value == [] && r.decode(StripRight([])) == Some("") && r.patterns.Replace("").1 == 0
    ensures ChangeOf(r, syntax, e) == Ok(Keep)
  {
    hide StripRight, Patterns.Replace;
  }

  lemma KeptPiece(r: Redactor, syntax: string, bytes: Bytes, e: Elem)
    requires |bytes| == 8 && e.value == [] && ParseOne(bytes, syntax) == Ok((e, 8)) && ChangeOf(r, syntax, e) == Ok(Keep)
    ensures PieceOf(r, syntax, bytes) == Ok(Piece(bytes, e, 8, Keep, bytes))
  {
    hide ParseOne, ChangeOf;
    assert bytes[..8] == bytes;
  }

  /** How a file of a syntax element and the accession number is read. */
  lemma TwoElements(preamble: Bytes, name: string, accession: Elem)
    requires |preamble| == 132 && HasPreamble(preamble) && IsPlain(name)
    requires ParseOne(ACCESSION_BYTES, name) == Ok((accession, 8)) && accession.value == []
    ensures var e := SyntaxElem(name);
      && Encodable(e, IMPLICIT_VR_LITTLE_ENDIAN)
      && ElementsOf(preamble + (EncodedBytes(e, IMPLICIT_VR_LITTLE_ENDIAN) + ACCESSION_BYTES))
         == Ok(Locate([(PaddedElem(e), 8)] + [(accession, 8)], 132))
  {
    var e := SyntaxElem(name);
    SyntaxBytes(name, ACCESSION_BYTES);
    SyntaxShape(name);
    SyntaxEncodable(e, name);
    EncodedIsParsed(e, name, ACCESSION_BYTES);
    var source := EncodedBytes(e, IMPLICIT_VR_LITTLE_ENDIAN);
    assert source == EncodedBytes(e, name) by {
      hide Encode, Encodable, SyntaxElem;
    }
    NothingParsed(name);
    hide *;
    FirstParsed(ACCESSION_BYTES, [], name, accession, 8, []);
    assert ACCESSION_BYTES + [] == ACCESSION_BYTES && [(accession, 8)] + [] == [(accession, 8)];
    FirstParsed(source, ACCESSION_BYTES, name, PaddedElem(e), 8, [(accession, 8)]);
    FileElements(preamble, source + ACCESSION_BYTES, name, [(PaddedElem(e), 8)] + [(accession, 8)]);
  }

  lemma NothingParsed(syntax: string)
    ensures ParseAll([], syntax) == Ok([])
  {
  }

  lemma FileElements(preamble: Bytes, body: Bytes, syntax: string, elems: seq<(Elem, nat)>)
    requires |preamble| == 132 && HasPreamble(preamble) && DetectSyntax(body) == Ok(syntax)
    requires ParseAll(body, syntax) == Ok(elems)
    ensures ElementsOf(preamble + body) == Ok(Locate(elems, 132))
  {
    hide DetectSyntax, ParseAll, Locate;
    var data := preamble + body;
    assert data[132..] == body && data[128..132] == preamble[128..132];
    assert [] + Locate(elems, 132) == Locate(elems, 132);
  }

  /** The condition fails for real redactions: when the policy replaces the text of the implicit
      transfer syntax, by any pseudonym that names another little-endian form, the accession number
      that follows comes back with a value representation it never had. */
  lemma RewrittenSyntaxIsMisread(preamble: Bytes, w: string)
    requires |preamble| == 132 && HasPreamble(preamble) && IsPlain(w)
    requires !SameForm("1.2.840.10008.1.2", w) && w != "1.2.840.10008.1.2.2"
    ensures var syntax := "1.2.840.10008.1.2"; var old', new' := SyntaxElem(syntax), SyntaxElem(w);
      && Encodable(old', syntax) && Encodable(new', syntax)
      && var data := preamble + (EncodedBytes(old', syntax) + ACCESSION_BYTES);
         var out := preamble + (EncodedBytes(new', syntax) + ACCESSION_BYTES);
         && Redacted(Replacing(syntax, w), data) == Ok((out, 1))
         && ElementsOf(data) == Ok(Locate([(PaddedElem(old'), 8)] + [(ACCESSION, 8)], 132))
         && ElementsOf(out) == Ok(Locate([(PaddedElem(new'), 8)] + [(Elem(0x0008, 0x0050, "\0\0", []), 8)], 132))
  {
    ImplicitIsPlain();
    AccessionMisread(w);
    SyntaxBytes(IMPLICIT_VR_LITTLE_ENDIAN, ACCESSION_BYTES);
    SyntaxPiece(IMPLICIT_VR_LITTLE_ENDIAN, w);
    AccessionPiece(IMPLICIT_VR_LITTLE_ENDIAN, w);
    hide *;
    TwoElements(preamble, IMPLICIT_VR_LITTLE_ENDIAN, ACCESSION);
    TwoElements(preamble, w, Elem(0x0008, 0x0050, "\0\0", []));
    AccessionShape();
    OneCounted(w);
    TwoPieces(Replacing(IMPLICIT_VR_LITTLE_ENDIAN, w), preamble,
              EncodedBytes(SyntaxElem(IMPLICIT_VR_LITTLE_ENDIAN), IMPLICIT_VR_LITTLE_ENDIAN), IMPLICIT_VR_LITTLE_ENDIAN,
              ACCESSION_BYTES, ACCESSION);
  }

  lemma OneCounted(w: string)
    ensures Replace(Codes(w), 1).Count() == 1
  {
  }

  lemma ImplicitIsPlain()
    ensures IsPlain(IMPLICIT_VR_LITTLE_ENDIAN)
  {
  }

  lemma TwoPieces(r: Redactor, preamble: Bytes, source: Bytes, syntax: string, last: Bytes, e: Elem)
    requires |preamble| == 132 && HasPreamble(preamble) && DetectSyntax(source + last) == Ok(syntax)
    requires |source + last| >= 8 && PieceOf(r, syntax, source + last).Ok?
    requires PieceOf(r, syntax, source + last).value.raw == source
    requires |last| == 8 && PieceOf(r, syntax, last) == Ok(Piece(last, e, 8, Keep, last))
    ensures var p := PieceOf(r, syntax, source + last).value;
      Redacted(r, preamble + (source + last)) == Ok((preamble + (p.out + last), p.change.Count()))
  {
    hide DetectSyntax, PieceOf;
    var data := preamble + (source + last);
    assert data[132..] == source + last && data[..132] == preamble && data[128..132] == preamble[128..132];
    var p, q := PieceOf(r, syntax, source + last).value, Piece(last, e, 8, Keep, last);
    assert (source + last)[|source|..] == last;
    OnlyPiece(r, syntax, last, q);
    assert Pieces(r, syntax, data[132..]) == Ok([p] + [q]);
    NoPieces();
    FirstPiece(q, []);
    FirstPiece(p, [q]);
    assert [q] + [] == [q] && p.out + (last + []) == p.out + last;
  }

  lemma OnlyPiece(r: Redactor, syntax: string, last: Bytes, q: Piece)
    requires |last| == 8 && q.raw == last && PieceOf(r, syntax, last) == Ok(q)
    ensures Pieces(r, syntax, last) == Ok([q])
  {
    hide PieceOf;
    assert last[8..] == [] && Pieces(r, syntax, []) == Ok([]);
    assert [q] + [] == [q];
  }
}
