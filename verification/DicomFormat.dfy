/** DICOM elements as bytes: DICOM PS3.5 sections 7.1.2 (explicit VR) and 7.1.3 (implicit VR),
    with the file meta group of PS3.10 section 7.1. */
module DicomFormat {
  import opened Results

  type Byte = b: int | 0 <= b < 256
  type Bytes = seq<Byte>

  datatype DicomError = Invalid | Unsupported | BadVr | TextInvalid | PrivateBinaryTag | LengthOverflow | PixelUnsupported

  /** One data element, whatever its encoding. */
  datatype Elem = Elem(group: nat, element: nat, vr: string, value: Bytes)

  const TEXT_VRS: set<string> :=
    {"AE", "AS", "CS", "DA", "DS", "DT", "LO", "LT", "PN", "SH", "ST", "TM", "UC", "UI", "UR", "UT"}
  const LONG_LENGTH_VRS: set<string> := {"OB", "OD", "OF", "OL", "OW", "SQ", "UC", "UN", "UR", "UT"}
  const IMPLICIT_VR_LITTLE_ENDIAN := "1.2.840.10008.1.2"
  const EXPLICIT_VR_BIG_ENDIAN := "1.2.840.10008.1.2.2"
  const UNDEFINED_LENGTH: nat := 0xFFFF_FFFF
  const META_GROUP: nat := 0x0002

  function KnownVr(group: nat, element: nat): string {
    if group == 0x0002 && element == 0x0010 then "UI"
    else if group == 0x0008 && element == 0x0020 then "DA"
    else if group == 0x0008 && element == 0x0050 then "SH"
    else if group == 0x0008 && element == 0x1030 then "LO"
    else if group == 0x0010 && element == 0x0010 then "PN"
    else if group == 0x0010 && element == 0x0020 then "LO"
    else if group == 0x7FE0 && element == 0x0010 then "OB"
    else "UN"
  }

  // ---------- Integers in either byte order ----------

  function Read2(b: Bytes, big: bool): nat
    requires |b| >= 2
  {
    if big then (b[0] as int) * 256 + b[1] else (b[1] as int) * 256 + b[0]
  }

  function Read4(b: Bytes, big: bool): nat
    requires |b| >= 4
  {
    if big then Read2(b[..2], true) * 65536 + Read2(b[2..], true)
    else Read2(b[2..], false) * 65536 + Read2(b[..2], false)
  }

  function Write2(n: nat, big: bool): (b: Bytes)
    requires n < 65536
    ensures |b| == 2 && Read2(b, big) == n
  {
    if big then [n / 256, n % 256] else [n % 256, n / 256]
  }

  function Write4(n: nat, big: bool): (b: Bytes)
    requires n < 0x1_0000_0000
    ensures |b| == 4 && Read4(b, big) == n
  {
    var high, low := Write2(n / 65536, big), Write2(n % 65536, big);
    assert (high + low)[..2] == high && (high + low)[2..] == low;
    assert (low + high)[..2] == low && (low + high)[2..] == high;
    if big then high + low else low + high
  }

  // ---------- Encoding of an element's header ----------

  datatype Encoding = Encoding(big: bool, explicit: bool)

  function EncodingOf(group: nat, syntax: string): Encoding {
    if group == META_GROUP then Encoding(false, true)
    else if syntax == EXPLICIT_VR_BIG_ENDIAN then Encoding(true, true)
    else Encoding(false, syntax != IMPLICIT_VR_LITTLE_ENDIAN)
  }

  /** Value representation, header length and value length, past a tag in explicit form. */
  function ExplicitHeader(rest: Bytes, big: bool): Result<(string, nat, nat), DicomError>
    requires |rest| >= 8
  {
    if rest[4] >= 128 || rest[5] >= 128 then Err(BadVr)
    else
      var vr := [rest[4] as char, rest[5] as char];
      if vr in LONG_LENGTH_VRS then
        if |rest| < 12 || rest[6..8] != [0, 0] then Err(Invalid) else Ok((vr, 12, Read4(rest[8..12], big)))
      else Ok((vr, 8, Read2(rest[6..8], big)))
  }

  /** The element at the front of `rest`, and the length of its header. */
  function ParseOne(rest: Bytes, syntax: string): (r: Result<(Elem, nat), DicomError>)
    requires |rest| >= 8
    ensures r.Ok? ==> var (e, header) := r.value;
      8 <= header && header + |e.value| <= |rest| && e.value == rest[header..header + |e.value|]
  {
    var littleGroup := Read2(rest, false);
    var group := Read2(rest, EncodingOf(littleGroup, syntax).big);
    var encoding := EncodingOf(group, syntax);
    var element := Read2(rest[2..4], encoding.big);
    var header := if encoding.explicit then ExplicitHeader(rest, encoding.big)
                  else Ok((KnownVr(group, element), 8, Read4(rest[4..8], encoding.big)));
    match header
    case Err(error) => Err(error)
    case Ok((vr, size, length)) =>
      if length == UNDEFINED_LENGTH || size + length > |rest| then Err(Unsupported)
      else Ok((Elem(group, element, vr, rest[size..size + length]), size))
  }

  /** All elements, with the length of each one's header; fewer than eight trailing bytes are an
      error, and so is anything left over. */
  function ParseAll(rest: Bytes, syntax: string): Result<seq<(Elem, nat)>, DicomError>
    decreases |rest|
  {
    if |rest| < 8 then if rest == [] then Ok([]) else Err(Invalid)
    else
      match ParseOne(rest, syntax)
      case Err(error) => Err(error)
      case Ok((e, header)) =>
        match ParseAll(rest[header + |e.value|..], syntax)
        case Err(error) => Err(error)
        case Ok(others) => Ok([(e, header)] + others)
  }

  function StripRight(b: Bytes): Bytes {
    if b != [] && (b[|b| - 1] == 0x20 || b[|b| - 1] == 0) then StripRight(b[..|b| - 1]) else b
  }

  /** ASCII decoding that drops other bytes. */
  function AsciiText(b: Bytes): string {
    if b == [] then "" else (if b[0] < 128 then [b[0] as char] else "") + AsciiText(b[1..])
  }

  /** The transfer syntax named in the file meta group, empty when there is none. */
  function DetectSyntax(rest: Bytes): Result<string, DicomError>
    decreases |rest|
  {
    if |rest| < 8 then Ok("")
    else
      match ExplicitHeader(rest, false)
      case Err(error) => Err(error)
      case Ok((vr, header, length)) =>
        if length == UNDEFINED_LENGTH || header + length > |rest| then Err(Unsupported)
        else if Read2(rest, false) != META_GROUP then Ok("")
        else if Read2(rest[2..4], false) == 0x0010 && vr in TEXT_VRS then Ok(AsciiText(StripRight(rest[header..header + length])))
        else DetectSyntax(rest[header + length..])
  }

  predicate HasPreamble(data: Bytes) {
    |data| >= 132 && data[128..132] == [0x44, 0x49, 0x43, 0x4D]
  }

  // ---------- The parsing loops ----------

  /** An element together with where it lies in the file. */
  datatype Located = Located(start: nat, elem: Elem, valueOffset: nat)

  function Locate(elems: seq<(Elem, nat)>, start: nat): seq<Located> {
    if elems == [] then []
    else
      var (e, header) := elems[0];
      [Located(start, e, start + header)] + Locate(elems[1..], start + header + |e.value|)
  }

  lemma PreambleSpelled(data: Bytes)
    ensures HasPreamble(data) <==>
      |data| >= 132 && [data[128] as char, data[129] as char, data[130] as char, data[131] as char] == "DICM"
  {
    if |data| >= 132 {
      var magic := data[128..132];
      assert magic == [data[128], data[129], data[130], data[131]];
    }
  }

  method FindSyntax(data: Bytes) returns (r: Result<string, DicomError>)
    ensures r == if HasPreamble(data) then DetectSyntax(data[132..]) else Err(Invalid)
    ensures r.Ok? ==> |data| >= 132 && [data[128] as char, data[129] as char, data[130] as char, data[131] as char] == "DICM"
  {
    PreambleSpelled(data);
    hide HasPreamble;
    if !HasPreamble(data) {
      return Err(Invalid);
    }
    var offset := 132;
    while offset + 8 <= |data|
      invariant 132 <= offset <= |data|
      invariant DetectSyntax(data[offset..]) == DetectSyntax(data[132..])
      decreases |data| - offset
    {
      var header := ExplicitHeader(data[offset..], false);
      if header.Err? {
        return Err(header.error);
      }
      var (vr, size, length) := header.value;
      if length == UNDEFINED_LENGTH || offset + size + length > |data| {
        return Err(Unsupported);
      }
      if Read2(data[offset..], false) != META_GROUP {
        return Ok("");
      }
      if Read2(data[offset..][2..4], false) == 0x0010 && vr in TEXT_VRS {
        return Ok(AsciiText(StripRight(data[offset..][size..size + length])));
      }
      assert data[offset..][size + length..] == data[offset + size + length..];
      offset := offset + size + length;
    }
    return Ok("");
  }

  method Elements(data: Bytes) returns (r: Result<seq<Located>, DicomError>)
    ensures r == ElementsOf(data)
  {
    var syntax := FindSyntax(data);
    if syntax.Err? {
      return Err(syntax.error);
    }
    r := ElementLoop(data, syntax.value);
  }

  method ElementLoop(data: Bytes, syntax: string) returns (r: Result<seq<Located>, DicomError>)
    requires |data| >= 132
    ensures r == Ahead([], 132, ParseAll(data[132..], syntax))
  {
    hide ParseOne, ParseAll, Locate;
    var found: seq<Located> := [];
    var offset: nat := 132;
    while offset + 8 <= |data|
      invariant 132 <= offset <= |data|
      invariant Ahead(found, offset, ParseAll(data[offset..], syntax)) == Ahead([], 132, ParseAll(data[132..], syntax))
      decreases |data| - offset
    {
      var parsed := ParseOne(data[offset..], syntax);
      ParseStops(data[offset..], syntax);
      if parsed.Err? {
        return Err(parsed.error);
      }
      var (e, header) := parsed.value;
      OneAhead(data, offset, found, syntax);
      found := found + [Located(offset, e, offset + header)];
      offset := offset + header + |e.value|;
    }
    ParseStops(data[offset..], syntax);
    NothingLeft(offset);
    assert found + [] == found;
    if offset != |data| {
      return Err(Invalid);
    }
    return Ok(found);
  }

  lemma ParseStops(rest: Bytes, syntax: string)
    ensures |rest| < 8 ==> ParseAll(rest, syntax) == if rest == [] then Ok([]) else Err(Invalid)
    ensures |rest| >= 8 && ParseOne(rest, syntax).Err? ==> ParseAll(rest, syntax) == Err(ParseOne(rest, syntax).error)
  {
  }

  lemma NothingLeft(offset: nat)
    ensures Locate([], offset) == []
  {
  }

  lemma OneAhead(data: Bytes, offset: nat, found: seq<Located>, syntax: string)
    requires offset + 8 <= |data| && ParseOne(data[offset..], syntax).Ok?
    ensures var (e, header) := ParseOne(data[offset..], syntax).value;
      var next := offset + header + |e.value|;
      && next <= |data|
      && Ahead(found, offset, ParseAll(data[offset..], syntax))
         == Ahead(found + [Located(offset, e, offset + header)], next, ParseAll(data[next..], syntax))
  {
    hide ParseOne, Locate;
    var (e, header) := ParseOne(data[offset..], syntax).value;
    var next := offset + header + |e.value|;
    assert data[offset..][header + |e.value|..] == data[next..];
    var others := ParseAll(data[next..], syntax);
    if others.Ok? {
      LocateFirst(offset, e, header, others.value);
      var here := Located(offset, e, offset + header);
      assert found + ([here] + Locate(others.value, next)) == found + [here] + Locate(others.value, next);
    }
  }

  lemma LocateFirst(offset: nat, e: Elem, header: nat, others: seq<(Elem, nat)>)
    ensures Locate([(e, header)] + others, offset)
         == [Located(offset, e, offset + header)] + Locate(others, offset + header + |e.value|)
  {
    assert ([(e, header)] + others)[1..] == others;
  }

  function Ahead(found: seq<Located>, offset: nat, rest: Result<seq<(Elem, nat)>, DicomError>): Result<seq<Located>, DicomError> {
    match rest case Err(e) => Err(e) case Ok(elems) => Ok(found + Locate(elems, offset))
  }

  function ElementsOf(data: Bytes): Result<seq<Located>, DicomError> {
    if !HasPreamble(data) then Err(Invalid)
    else
      match DetectSyntax(data[132..])
      case Err(error) => Err(error)
      case Ok(syntax) => Ahead([], 132, ParseAll(data[132..], syntax))
  }

  // ---------- The encoder ----------

  function Padded(vr: string, value: Bytes): (r: Bytes)
    ensures |r| % 2 == 0
  {
    if |value| % 2 == 0 then value else value + [if vr in TEXT_VRS then 0x20 else 0]
  }

  predicate IsVr(vr: string) {
    |vr| == 2 && vr[0] < 128 as char && vr[1] < 128 as char
  }

  /** An element with its length header; `None` when tag or length does not fit its field. */
  function Encode(e: Elem, encoding: Encoding): Option<Bytes>
    requires IsVr(e.vr)
  {
    var value := Padded(e.vr, e.value);
    if e.group >= 65536 || e.element >= 65536 then None
    else
      var tag := Write2(e.group, encoding.big) + Write2(e.element, encoding.big);
      var vr: Bytes := [e.vr[0] as int, e.vr[1] as int];
      if !encoding.explicit then
        if |value| >= 0x1_0000_0000 then None else Some(tag + Write4(|value|, encoding.big) + value)
      else if e.vr in LONG_LENGTH_VRS then
        if |value| >= 0x1_0000_0000 then None else Some(tag + vr + [0, 0] + Write4(|value|, encoding.big) + value)
      else
        if |value| >= 65536 then None else Some(tag + vr + Write2(|value|, encoding.big) + value)
  }
}
