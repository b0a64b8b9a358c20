/** Parser and encoder undo each other, and parsed elements tile the file. */
module DicomRoundTrip {
  import opened Results
  import opened DicomFormat

  /** Groups whose encoding the parser can tell from their bytes: in big-endian form the bytes
      of group 0x0200 look like the little-endian meta group. */
  predicate GroupReadable(group: nat, syntax: string) {
    group == META_GROUP || syntax != EXPLICIT_VR_BIG_ENDIAN || group != 0x0200
  }

  /** The element has a form under `syntax`: tag and length fit, and an implicit VR is the known one. */
  predicate Representable(e: Elem, syntax: string) {
    && IsVr(e.vr)
    && Encode(e, EncodingOf(e.group, syntax)).Some?
    && (!EncodingOf(e.group, syntax).explicit ==> e.vr == KnownVr(e.group, e.element))
  }

  /** What an element must satisfy to survive a round trip under `syntax`. */
  predicate Encodable(e: Elem, syntax: string) {
    Representable(e, syntax) && GroupReadable(e.group, syntax)
  }

  function EncodedBytes(e: Elem, syntax: string): Bytes
    requires Encodable(e, syntax)
  {
    Encode(e, EncodingOf(e.group, syntax)).value
  }

  function PaddedElem(e: Elem): Elem {
    e.(value := Padded(e.vr, e.value))
  }

  function HeaderSize(e: Elem, syntax: string): nat {
    if EncodingOf(e.group, syntax).explicit && e.vr in LONG_LENGTH_VRS then 12 else 8
  }

  /** Reading back the group an encoder wrote. */
  lemma GroupReadBack(group: nat, syntax: string, rest: Bytes)
    requires group < 65536 && GroupReadable(group, syntax) && |rest| >= 2
    requires rest[..2] == Write2(group, EncodingOf(group, syntax).big)
    ensures Read2(rest, EncodingOf(Read2(rest, false), syntax).big) == group
  {
    var w := Write2(group, EncodingOf(group, syntax).big);
    assert rest[0] == rest[..2][0] == w[0] && rest[1] == rest[..2][1] == w[1];
  }

  /** The layout of an encoded element. */
  lemma EncodedLayout(e: Elem, encoding: Encoding, tail: Bytes)
    requires IsVr(e.vr) && Encode(e, encoding).Some?
    ensures var b, value := Encode(e, encoding).value, Padded(e.vr, e.value);
      var long := e.vr in {"OB", "OD", "OF", "OL", "OW", "SQ", "UC", "UN", "UR", "UT"};
      var rest, size := b + tail, if encoding.explicit && long then 12 else 8;
      && e.group < 65536 && e.element < 65536 && |value| < 0x1_0000_0000
      && |b| == size + |value| && rest[size..size + |value|] == value && rest[|b|..] == tail
      && rest[..2] == Write2(e.group, encoding.big) && rest[2..4] == Write2(e.element, encoding.big)
      && (!encoding.explicit ==> rest[4..8] == Write4(|value|, encoding.big))
      && (encoding.explicit ==> rest[4..6] == [e.vr[0] as int, e.vr[1] as int])
      && (encoding.explicit && size == 12 ==> rest[6..8] == [0, 0] && rest[8..12] == Write4(|value|, encoding.big))
      && (encoding.explicit && size == 8 ==> |value| < 65536 && rest[6..8] == Write2(|value|, encoding.big))
  {
    hide Padded, Write2, Write4;
    var value := Padded(e.vr, e.value);
    var group, element := Write2(e.group, encoding.big), Write2(e.element, encoding.big);
    var vr: Bytes := [e.vr[0] as int, e.vr[1] as int];
    if !encoding.explicit {
      FiveParts(group, element, Write4(|value|, encoding.big), [], [], value, tail);
    } else if e.vr in LONG_LENGTH_VRS {
      FiveParts(group, element, vr, [0, 0], Write4(|value|, encoding.big), value, tail);
    } else {
      FiveParts(group, element, vr, Write2(|value|, encoding.big), [], value, tail);
    }
  }

  /** Where the parts of a concatenation lie. */
  lemma FiveParts(p0: Bytes, p1: Bytes, p2: Bytes, p3: Bytes, p4: Bytes, p5: Bytes, tail: Bytes)
    ensures var whole := p0 + p1 + p2 + p3 + p4 + p5 + tail;
      var n1, n2 := |p0|, |p0| + |p1|;
      var n3 := n2 + |p2|;
      var n4 := n3 + |p3|;
      var n5 := n4 + |p4|;
      && whole[..n1] == p0 && whole[n1..n2] == p1 && whole[n2..n3] == p2 && whole[n3..n4] == p3 && whole[n4..n5] == p4
      && whole[n5..n5 + |p5|] == p5 && whole[n5 + |p5|..] == tail
      && p0 + p1 + p2 + [] == p0 + p1 + p2 && p0 + p1 + p2 + p3 + [] == p0 + p1 + p2 + p3
  {
  }

  lemma ReadSlice2(a: Bytes, b: Bytes, big: bool)
    requires |a| >= 2 && |b| >= 2 && a[..2] == b[..2]
    ensures Read2(a, big) == Read2(b, big)
  {
    assert a[0] == a[..2][0] && a[1] == a[..2][1] && b[0] == b[..2][0] && b[1] == b[..2][1];
  }

  lemma HeaderReadBack(e: Elem, big: bool, tail: Bytes)
    requires IsVr(e.vr) && Encode(e, Encoding(big, true)).Some?
    ensures var b := Encode(e, Encoding(big, true)).value;
      |b + tail| >= 8
      && ExplicitHeader(b + tail, big)
         == Ok((e.vr, if e.vr in LONG_LENGTH_VRS then 12 else 8, |Padded(e.vr, e.value)|))
  {
    hide Encode, Padded, Write2, Write4;
    var b := Encode(e, Encoding(big, true)).value;
    var rest := b + tail;
    EncodedLayout(e, Encoding(big, true), tail);
    assert rest[4] == rest[4..6][0] && rest[5] == rest[4..6][1];
    assert [rest[4] as char, rest[5] as char] == e.vr;
  }

  /** Whatever follows it, an encoded element parses back to its padded self. */
  lemma EncodedIsParsed(e: Elem, syntax: string, tail: Bytes)
    requires Encodable(e, syntax)
    ensures var rest := EncodedBytes(e, syntax) + tail;
      && |EncodedBytes(e, syntax)| == HeaderSize(e, syntax) + |PaddedElem(e).value| && |rest| >= 8
      && ParseOne(rest, syntax) == Ok((PaddedElem(e), HeaderSize(e, syntax)))
  {
    hide Encode, Padded, Write2, Write4, KnownVr, ExplicitHeader;
    var encoding := EncodingOf(e.group, syntax);
    var b := EncodedBytes(e, syntax);
    var rest := b + tail;
    EncodedLayout(e, encoding, tail);
    GroupReadBack(e.group, syntax, rest);
    assert rest[2..4] == Write2(e.element, encoding.big);
    var value := Padded(e.vr, e.value);
    assert |value| != UNDEFINED_LENGTH;
    if encoding.explicit {
      HeaderReadBack(e, encoding.big, tail);
    }
  }

  /** The condition on the group is exact: an element that has a form parses back, whatever
      follows it, if and only if its group is readable. */
  lemma ParsesBackIffReadable(e: Elem, syntax: string, tail: Bytes)
    requires Representable(e, syntax)
    ensures var rest := Encode(e, EncodingOf(e.group, syntax)).value + tail;
      |rest| >= 8 && (ParseOne(rest, syntax) == Ok((PaddedElem(e), HeaderSize(e, syntax))) <==> GroupReadable(e.group, syntax))
  {
    if GroupReadable(e.group, syntax) {
      EncodedIsParsed(e, syntax, tail);
    } else {
      hide Encode, Padded, Write2, Write4, KnownVr, ExplicitHeader;
      var rest := Encode(e, EncodingOf(e.group, syntax)).value + tail;
      EncodedLayout(e, EncodingOf(e.group, syntax), tail);
      ReadAsMeta(rest, syntax);
    }
  }

  lemma ReadAsMeta(rest: Bytes, syntax: string)
    requires |rest| >= 8 && rest[..2] == Write2(0x0200, true)
    ensures ParseOne(rest, syntax).Ok? ==> ParseOne(rest, syntax).value.0.group == META_GROUP
  {
    assert rest[0] == rest[..2][0] == 2 && rest[1] == rest[..2][1] == 0;
  }

  /** The failing input: an empty big-endian element (0200,0010) reads back as (0002,1000). */
  lemma GroupMisread()
    ensures var e := Elem(0x0200, 0x0010, "LO", []);
      && Representable(e, "1.2.840.10008.1.2.2")
      && Encode(e, Encoding(true, true)) == Some([2, 0, 0, 16, 0x4C, 0x4F, 0, 0])
      && ParseOne([2, 0, 0, 16, 0x4C, 0x4F, 0, 0], "1.2.840.10008.1.2.2") == Ok((Elem(0x0002, 0x1000, "LO", []), 8))
  {
    var bytes: Bytes := [2, 0, 0, 16, 0x4C, 0x4F, 0, 0];
    assert bytes[2..4] == [0, 16] && bytes[6..8] == [0, 0] && bytes[8..] == [];
    assert Padded("LO", []) == [] && Write2(0x0200, true) == [2, 0] && Write2(0x0010, true) == [0, 16] && Write2(0, true) == [0, 0];
    assert [2, 0] + [0, 16] + [0x4C, 0x4F] + [0, 0] + [] == bytes;
  }

  // ---------- Whole files ----------

  predicate AllEncodable(elems: seq<Elem>, syntax: string) {
    forall e :: e in elems ==> Encodable(e, syntax)
  }

  function EncodeAll(elems: seq<Elem>, syntax: string): Bytes
    requires AllEncodable(elems, syntax)
  {
    if elems == [] then [] else EncodedBytes(elems[0], syntax) + EncodeAll(elems[1..], syntax)
  }

  function PaddedAll(elems: seq<Elem>, syntax: string): seq<(Elem, nat)> {
    if elems == [] then []
    else [(PaddedElem(elems[0]), HeaderSize(elems[0], syntax))] + PaddedAll(elems[1..], syntax)
  }

  lemma {:induction false} AllParsed(elems: seq<Elem>, syntax: string)
    requires AllEncodable(elems, syntax)
    ensures ParseAll(EncodeAll(elems, syntax), syntax) == Ok(PaddedAll(elems, syntax))
  {
    hide Encodable, EncodedBytes, HeaderSize, PaddedElem, ParseOne;
    if elems != [] {
      var b, tail := EncodedBytes(elems[0], syntax), EncodeAll(elems[1..], syntax);
      AllParsed(elems[1..], syntax);
      EncodedIsParsed(elems[0], syntax, tail);
      assert (b + tail)[|b|..] == tail;
    }
  }

  /** The syntax the meta group declares: the first text element (0002,0010), or none. */
  function DeclaredSyntax(meta: seq<Elem>): Option<string> {
    if meta == [] then None
    else if meta[0].element == 0x0010 && meta[0].vr in TEXT_VRS
    then Some(AsciiText(StripRight(Padded(meta[0].vr, meta[0].value))))
    else DeclaredSyntax(meta[1..])
  }

  predicate IsMeta(elems: seq<Elem>) {
    forall e :: e in elems ==> e.group == META_GROUP
  }

  predicate IsDataSet(elems: seq<Elem>) {
    forall e :: e in elems ==> e.group != META_GROUP
  }

  lemma {:induction false} SyntaxDetected(meta: seq<Elem>, dataSet: seq<Elem>, syntax: string)
    requires IsMeta(meta) && IsDataSet(dataSet) && AllEncodable(meta + dataSet, syntax)
    requires DeclaredSyntax(meta) == Some(syntax) || (DeclaredSyntax(meta) == None && syntax == "")
    ensures DetectSyntax(EncodeAll(meta + dataSet, syntax)) == Ok(syntax)
    decreases |meta|
  {
    var elems := meta + dataSet;
    var bytes := EncodeAll(elems, syntax);
    if elems != [] {
      var e, b, tail := elems[0], EncodedBytes(elems[0], syntax), EncodeAll(elems[1..], syntax);
      assert e in elems && bytes == b + tail;
      EncodedIsParsed(e, syntax, tail);
      if meta != [] {
        assert e == meta[0] && e in meta && elems[1..] == meta[1..] + dataSet;
        DetectAtMeta(e, syntax, tail);
        if !(e.element == 0x0010 && e.vr in TEXT_VRS) {
          SyntaxDetected(meta[1..], dataSet, syntax);
        }
      } else {
        assert e in dataSet;
        DetectAtDataSet(e, tail);
      }
    }
  }

  lemma DetectAtMeta(e: Elem, syntax: string, tail: Bytes)
    requires e.group == META_GROUP && Encodable(e, syntax)
    ensures DetectSyntax(EncodedBytes(e, syntax) + tail)
         == if e.element == 0x0010 && e.vr in TEXT_VRS then Ok(AsciiText(StripRight(Padded(e.vr, e.value))))
            else DetectSyntax(tail)
  {
    hide Encode, Padded, Write2, Write4, ExplicitHeader, StripRight, AsciiText;
    var encoding := Encoding(false, true);
    var rest := EncodedBytes(e, syntax) + tail;
    EncodedLayout(e, encoding, tail);
    HeaderReadBack(e, false, tail);
    ReadSlice2(rest, Write2(META_GROUP, false), false);
    assert Write2(META_GROUP, false)[..2] == Write2(META_GROUP, false);
  }

  lemma DetectAtDataSet(e: Elem, tail: Bytes)
    requires e.group != META_GROUP && Encodable(e, "")
    ensures DetectSyntax(EncodedBytes(e, "") + tail) == Ok("")
  {
    hide Encode, Padded, Write2, Write4, ExplicitHeader, StripRight, AsciiText;
    var encoding := Encoding(false, true);
    var rest := EncodedBytes(e, "") + tail;
    EncodedLayout(e, encoding, tail);
    HeaderReadBack(e, false, tail);
    ReadSlice2(rest, Write2(e.group, false), false);
    assert Write2(e.group, false)[..2] == Write2(e.group, false);
  }

  /** Encoding a well-formed element list under its own declared syntax and parsing the file
      yields the same tags and value representations with even-padded values, in all three
      forms: explicit little endian, implicit little endian, explicit big endian. */
  lemma RoundTrip(preamble: Bytes, meta: seq<Elem>, dataSet: seq<Elem>, syntax: string)
    requires |preamble| == 132 && HasPreamble(preamble)
    requires IsMeta(meta) && IsDataSet(dataSet) && AllEncodable(meta + dataSet, syntax)
    requires DeclaredSyntax(meta) == Some(syntax) || (DeclaredSyntax(meta) == None && syntax == "")
    ensures ElementsOf(preamble + EncodeAll(meta + dataSet, syntax))
         == Ok(Locate(PaddedAll(meta + dataSet, syntax), 132))
  {
    var body := EncodeAll(meta + dataSet, syntax);
    var data := preamble + body;
    assert data[132..] == body && data[128..132] == preamble[128..132];
    SyntaxDetected(meta, dataSet, syntax);
    AllParsed(meta + dataSet, syntax);
    var located := Locate(PaddedAll(meta + dataSet, syntax), 132);
    assert [] + located == located;
  }

  /** Conversely, an even-length element re-encodes to the very bytes it was parsed from, unless
      a big-endian file spells group 0x0002 in big-endian form. */
  lemma ParsedIsEncoded(rest: Bytes, syntax: string)
    requires |rest| >= 8 && ParseOne(rest, syntax).Ok?
    requires var (e, _) := ParseOne(rest, syntax).value;
      |e.value| % 2 == 0 && (e.group == META_GROUP ==> Read2(rest, false) == META_GROUP)
    ensures var (e, header) := ParseOne(rest, syntax).value;
      IsVr(e.vr) && Encode(e, EncodingOf(e.group, syntax)) == Some(rest[..header + |e.value|])
  {
    hide Read2, Write2, Read4, Write4, KnownVr;
    var (e, header) := ParseOne(rest, syntax).value;
    var big, n := EncodingOf(e.group, syntax).big, |e.value|;
    ReadSlice2(rest, rest[..2], big);
    assert rest[..2][..2] == rest[..2];
    Rewrite2(rest[..2], big);
    Rewrite2(rest[2..4], big);
    PrefixExtends(rest, 2, 4);
    PrefixExtends(rest, header, header + n);
    if !EncodingOf(e.group, syntax).explicit {
      KnownVrIsVr(e.group, e.element);
      Rewrite4(rest[4..8], big);
      PrefixExtends(rest, 4, 8);
    } else {
      assert rest[4..6] == [e.vr[0] as int, e.vr[1] as int];
      PrefixExtends(rest, 4, 6);
      PrefixExtends(rest, 6, 8);
      if e.vr in LONG_LENGTH_VRS {
        Rewrite4(rest[8..12], big);
        PrefixExtends(rest, 8, 12);
      } else {
        Rewrite2(rest[6..8], big);
      }
    }
  }

  lemma PrefixExtends(b: Bytes, i: nat, j: nat)
    requires i <= j <= |b|
    ensures b[..j] == b[..i] + b[i..j]
  {
  }

  lemma KnownVrIsVr(group: nat, element: nat)
    ensures IsVr(KnownVr(group, element))
  {
  }

  lemma Rewrite2(b: Bytes, big: bool)
    requires |b| == 2
    ensures Read2(b, big) < 65536 && Write2(Read2(b, big), big) == b
  {
    var high, low := if big then b[0] else b[1], if big then b[1] else b[0];
    SplitByte(high, low);
    assert b == if big then [high, low] else [low, high];
  }

  lemma SplitByte(high: Byte, low: Byte)
    ensures (high * 256 + low) / 256 == high && (high * 256 + low) % 256 == low && high * 256 + low < 65536
  {
  }

  lemma Rewrite4(b: Bytes, big: bool)
    requires |b| == 4
    ensures Read4(b, big) < 0x1_0000_0000 && Write4(Read4(b, big), big) == b
  {
    hide Read2, Write2;
    var first, second := b[..2], b[2..];
    Rewrite2(first, big);
    Rewrite2(second, big);
    assert b == first + second;
    var high, low := if big then Read2(first, big) else Read2(second, big), if big then Read2(second, big) else Read2(first, big);
    assert Read4(b, big) == high * 65536 + low;
    assert (high * 65536 + low) / 65536 == high && (high * 65536 + low) % 65536 == low;
  }

  /** The number a field stands for: its first byte weighs most in one byte order, least in the other. */
  ghost function Weighed(field: Bytes, big: bool): nat {
    if field == [] then 0
    else if big then Weighed(field[..|field| - 1], true) * 256 + field[|field| - 1]
    else field[0] + 256 * Weighed(field[1..], false)
  }

  lemma WeighedPair(a: Byte, b: Byte, big: bool)
    ensures Weighed([a, b], big) == if big then a * 256 + b else a + 256 * b
  {
    assert [a, b][..1] == [a] && [a, b][1..] == [b] && [a][..0] == [] && [b][1..] == [];
    assert Weighed([a], true) == a && Weighed([b], false) == b;
  }

  lemma WeighedMore(field: Bytes, a: Byte, b: Byte)
    ensures Weighed(field + [a, b], true) == Weighed(field, true) * 65536 + Weighed([a, b], true)
    ensures Weighed([a, b] + field, false) == Weighed([a, b], false) + 65536 * Weighed(field, false)
  {
    WeighedPair(a, b, true);
    WeighedPair(a, b, false);
    assert (field + [a, b])[..|field| + 1] == field + [a] && (field + [a])[..|field|] == field;
    assert Weighed(field + [a, b], true) == Weighed(field + [a], true) * 256 + b;
    assert ([a, b] + field)[1..] == [b] + field && ([b] + field)[1..] == field;
    assert Weighed([a, b] + field, false) == a + 256 * Weighed([b] + field, false);
  }

  /** Tags and lengths are read in the byte order of their encoding. */
  lemma FieldsAreWeighed(b: Bytes, big: bool)
    ensures |b| == 2 ==> Read2(b, big) == Weighed(b, big)
    ensures |b| == 4 ==> Read4(b, big) == Weighed(b, big)
  {
    if |b| == 2 {
      WeighedPair(b[0], b[1], big);
      assert b == [b[0], b[1]];
    }
    if |b| == 4 {
      WeighedPair(b[0], b[1], big);
      WeighedPair(b[2], b[3], big);
      WeighedMore([b[0], b[1]], b[2], b[3]);
      WeighedMore([b[2], b[3]], b[0], b[1]);
      assert b == [b[0], b[1]] + [b[2], b[3]];
    }
  }

  // ---------- Tiling ----------

  /** From `from` to the end of the file the elements lie end to end, each holding the bytes at
      its own offset. */
  predicate Tiles(data: Bytes, elems: seq<Located>, from: nat) {
    if elems == [] then from == |data|
    else
      var l := elems[0];
      var end := l.valueOffset + |l.elem.value|;
      && l.start == from && from + 8 <= l.valueOffset && end <= |data|
      && l.elem.value == data[l.valueOffset..end] && Tiles(data, elems[1..], end)
  }

  lemma {:induction false} LocatedTiles(data: Bytes, offset: nat, syntax: string)
    requires offset <= |data| && ParseAll(data[offset..], syntax).Ok?
    ensures Tiles(data, Locate(ParseAll(data[offset..], syntax).value, offset), offset)
    decreases |data| - offset
  {
    hide ParseOne, Tiles, Locate;
    if offset == |data| {
      assert data[offset..] == [];
      TileNone(data);
    } else {
      var (e, header) := ParseOne(data[offset..], syntax).value;
      var next := offset + header + |e.value|;
      assert data[offset..][header + |e.value|..] == data[next..];
      LocatedTiles(data, next, syntax);
      assert data[offset..][header..header + |e.value|] == data[offset + header..next];
      TileFirst(data, offset, e, header, ParseAll(data[next..], syntax).value);
    }
  }

  lemma TileNone(data: Bytes)
    ensures Tiles(data, Locate([], |data|), |data|)
  {
  }

  lemma TileFirst(data: Bytes, offset: nat, e: Elem, header: nat, others: seq<(Elem, nat)>)
    requires 8 <= header && offset + header + |e.value| <= |data|
    requires e.value == data[offset + header..offset + header + |e.value|]
    requires Tiles(data, Locate(others, offset + header + |e.value|), offset + header + |e.value|)
    ensures Tiles(data, Locate([(e, header)] + others, offset), offset)
  {
    hide Locate;
    LocateFirst(offset, e, header, others);
    var rest := Locate(others, offset + header + |e.value|);
    assert ([Located(offset, e, offset + header)] + rest)[1..] == rest;
  }

  /** Every accepted file is its preamble and its elements, with no gap and no overlap. */
  lemma AcceptedFileIsTiled(data: Bytes)
    requires ElementsOf(data).Ok?
    ensures Tiles(data, ElementsOf(data).value, 132)
  {
    hide Tiles, Locate, ParseAll, DetectSyntax;
    var syntax := DetectSyntax(data[132..]).value;
    LocatedTiles(data, 132, syntax);
    var elems := Locate(ParseAll(data[132..], syntax).value, 132);
    assert [] + elems == elems;
  }

  // ---------- Text in an element's value ----------

  /** Trailing spaces and NULs go, and nothing else. */
  lemma {:induction false} StripRightSpelled(b: Bytes)
    ensures var r := StripRight(b);
      && r <= b && (r != [] ==> r[|r| - 1] != 0x20 && r[|r| - 1] != 0)
      && forall i :: |r| <= i < |b| ==> b[i] == 0x20 || b[i] == 0
  {
    if b != [] && (b[|b| - 1] == 0x20 || b[|b| - 1] == 0) {
      StripRightSpelled(b[..|b| - 1]);
    }
  }

  /** Characters are kept in order, one for each byte below 128; other bytes leave nothing. */
  lemma {:induction false} AsciiTextSpelled(a: Bytes, x: Byte, b: Bytes)
    ensures AsciiText([]) == "" && AsciiText([x]) == if x < 128 then [x as char] else ""
    ensures AsciiText(a + b) == AsciiText(a) + AsciiText(b)
  {
    hide AsciiText;
    AsciiTextFirst(x, []);
    assert [x] + [] == [x];
    if a == [] {
      assert a + b == b;
    } else {
      var tail := a[1..];
      assert a == [a[0]] + tail;
      AsciiTextSpelled(tail, x, b);
      AsciiTextFirst(a[0], tail + b);
      AsciiTextFirst(a[0], tail);
      assert a + b == [a[0]] + (tail + b);
    }
  }

  lemma AsciiTextFirst(x: Byte, b: Bytes)
    ensures AsciiText([]) == "" && AsciiText([x] + b) == (if x < 128 then [x as char] else "") + AsciiText(b)
  {
    assert ([x] + b)[1..] == b;
  }

  /** Odd values get one byte more, a space for text and NUL otherwise, which stripping removes. */
  lemma PaddingSpelled(vr: string, value: Bytes)
    ensures var r := Padded(vr, value);
      && value <= r && |r| == |value| + |value| % 2
      && (|value| % 2 == 1 ==> r[|value|] == if vr in TEXT_VRS then 0x20 else 0)
      && StripRight(r) == StripRight(value)
  {
    if |value| % 2 == 1 {
      assert Padded(vr, value)[..|value|] == value;
    }
  }

  /** The elements that are text in implicit form: transfer syntax, study date, accession number, study
      description, patient name and patient number. */
  lemma ImplicitText(group: nat, element: nat)
    ensures KnownVr(group, element) in TEXT_VRS <==>
      (group, element) in {(0x0002, 0x0010), (0x0008, 0x0020), (0x0008, 0x0050), (0x0008, 0x1030), (0x0010, 0x0010), (0x0010, 0x0020)}
  {
  }
}
