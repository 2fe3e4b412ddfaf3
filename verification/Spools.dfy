/**
 Result spools: a length prefix, a JSON header, and the declared parts one after the other. Encoders
 and decoders of parse and render results, and the streaming reader of render spools.
 */
module Spools {
  import opened Basics
  import opened Bytes
  import Svg = SvgPolicy

  const PREFIX_BYTES: nat := 4
  const VERSION: int := 1
  const MAX_SAFE_JSON_BYTES: nat := 8 * 1024 * 1024
  const MAX_RESULT_BYTES: nat := 512 * 1024 * 1024
  const MAX_SVG_BYTES: nat := 128 * 1024 * 1024
  const VALIDATION_CHUNK_BYTES: nat := 64 * 1024
  const BYTE_ORDER_MARK: char := '\U{FEFF}'

  /** JSON values that are only passed on (metadata, warnings) are their canonical text. */
  datatype RenderHeader = RenderHeader(version: int, svgBytes: int, metadata: Option<string>)

  datatype RenderPayload = RenderPayload(svg: string, metadata: Option<string>)

  datatype ImageHeader = ImageHeader(filename: string, mimeType: string, sizeBytes: int)

  datatype Image = Image(filename: string, mimeType: string, bytes: Bytes)

  datatype ParseHeader = ParseHeader(
    version: int, markdownBytes: int, fileType: string, metadata: Option<string>, pageCount: Option<int>,
    isImageBased: Option<bool>, warnings: string, images: seq<ImageHeader>)

  datatype ParsePayload = ParsePayload(
    markdown: string, fileType: string, metadata: Option<string>, pageCount: Option<int>,
    isImageBased: Option<bool>, warnings: string, images: seq<Image>)

  /**
   The foreign functions. The readers return None for malformed JSON and for members of other types or
   names; `textOf` is strict UTF-8 decoding, and `soFar` what a streaming decoder has handed out after a
   prefix of its input.
   */
  datatype Foreign = Foreign(
    utf8: string -> Bytes,
    textOf: Bytes -> Option<string>,
    soFar: Bytes -> Option<string>,
    printRender: RenderHeader -> string,
    readRender: string -> Option<RenderHeader>,
    printParse: ParseHeader -> string,
    readParse: string -> Option<ParseHeader>,
    metadataBytes: string -> Option<nat>,
    parseOk: ParsePayload -> bool,
    policy: Svg.Policy)
  {
    ghost predicate Lawful() {
      // strict UTF-8 is a bijection between texts and well-formed bytes, character by character
      && (forall t :: textOf(utf8(t)) == Some(t))
      && (forall b :: textOf(b).Some? ==> utf8(textOf(b).value) == b)
      && (forall t | t != "" :: |utf8(t[1..])| <= |utf8(t)|)
      // JSON texts start with a brace and are read back
      && (forall h :: printRender(h) != "" && printRender(h)[0] == '{' && readRender(printRender(h)) == Some(h))
      && (forall h :: printParse(h) != "" && printParse(h)[0] == '{' && readParse(printParse(h)) == Some(h))
      && (forall m :: metadataBytes(m).Some? ==> metadataBytes(m).value <= MAX_SAFE_JSON_BYTES)
      // result validation wants at least one byte per image
      && (forall p :: parseOk(p) ==> forall i | 0 <= i < |p.images| :: p.images[i].bytes != [])
    }

    /** The streaming decoder hands out a growing prefix of the decoded text, and all of it in the end. */
    ghost predicate Streams() {
      && soFar([]) == Some("")
      && (forall a, b :: soFar(a + b).Some? ==> soFar(a).Some? && soFar(a).value <= soFar(a + b).value)
      && (forall b :: Decode(this, b).Some? ==> soFar(b) == Decode(this, b))
    }
  }

  /** `TextDecoder` with `fatal`: a leading byte order mark is dropped. */
  function Decode(f: Foreign, b: Bytes): Option<string> {
    match f.textOf(b)
    case None => None
    case Some(t) => if t != "" && t[0] == BYTE_ORDER_MARK then Some(t[1..]) else Some(t)
  }

  predicate Marked(t: string) {
    t != "" && t[0] == BYTE_ORDER_MARK
  }

  lemma DecodedText(f: Foreign, t: string)
    requires f.Lawful()
    ensures Decode(f, f.utf8(t)) == Some(if Marked(t) then t[1..] else t)
    ensures Decode(f, f.utf8(t)) == Some(t) <==> !Marked(t)
  {
    if Marked(t) {
      assert |t[1..]| < |t|;
    }
  }

  // Render spools

  /** `measureDocumentResultByteLength` for render payloads. */
  predicate RenderMeasures(f: Foreign, primary: nat, metadata: Option<string>) {
    && primary <= MAX_SVG_BYTES
    && (metadata.Some? ==> f.metadataBytes(metadata.value).Some?)
    && primary <= MAX_RESULT_BYTES - (if metadata.Some? then f.metadataBytes(metadata.value).value else 0)
  }

  predicate RenderValid(f: Foreign, p: RenderPayload) {
    RenderMeasures(f, |f.utf8(p.svg)|, p.metadata) && Svg.Validates(f.policy, p.svg)
  }

  /** Prefix, header and body, unless the header or the whole is too large. */
  function Assemble(header: Bytes, body: Bytes): Option<Bytes> {
    if |header| == 0 || |header| > MAX_SAFE_JSON_BYTES || PREFIX_BYTES + |header| + |body| > MAX_RESULT_BYTES then None
    else Some(U32Big(|header|) + header + body)
  }

  function EncodeRender(f: Foreign, p: RenderPayload): Option<Bytes> {
    var svg := f.utf8(p.svg);
    Assemble(f.utf8(f.printRender(RenderHeader(VERSION, |svg|, p.metadata))), svg)
  }

  /** The bytes of the header, when the prefix declares a length that fits. */
  function HeaderOf(b: Bytes): (r: Option<Bytes>)
    ensures r.Some? ==> PREFIX_BYTES + |r.value| <= |b| && r.value == b[PREFIX_BYTES..PREFIX_BYTES + |r.value|]
  {
    if |b| <= PREFIX_BYTES then None
    else
      var n: nat := U32BigAt(b, 0);
      if n == 0 || n > MAX_SAFE_JSON_BYTES || n > |b| - PREFIX_BYTES then None
        else Some(b[PREFIX_BYTES..PREFIX_BYTES + n])
  }

  /** The end of a part of `length` bytes at `offset`, if it fits. */
  function CheckedOffset(offset: nat, length: int, maximum: nat): (r: Option<nat>)
    ensures r.Some? ==> offset <= r.value <= maximum
  {
    if length < 0 || length > maximum - offset then None else Some(offset + length)
  }

  function ReadRenderHeader(f: Foreign, header: Bytes): Option<RenderHeader> {
    match Decode(f, header)
    case None => None
    case Some(text) =>
      match f.readRender(text)
      case None => None
      case Some(raw) => if raw.version == VERSION && raw.svgBytes > 0 then Some(raw) else None
  }

  function DecodeRender(f: Foreign, b: Bytes): Option<RenderPayload> {
    match HeaderOf(b)
    case None => None
    case Some(header) =>
      match ReadRenderHeader(f, header)
      case None => None
      case Some(raw) =>
        var offset := PREFIX_BYTES + |header|;
        match CheckedOffset(offset, raw.svgBytes, |b|)
        case None => None
        case Some(end) =>
          if end != |b| then None
          else
            match Decode(f, b[offset..])
            case None => None
            case Some(svg) =>
              var payload := RenderPayload(svg, raw.metadata);
              if RenderValid(f, payload) then Some(payload) else None
  }

  lemma PrefixRead(header: Bytes, body: Bytes)
    requires 0 < |header| <= MAX_SAFE_JSON_BYTES
    ensures HeaderOf(U32Big(|header|) + header + body) == Some(header)
    ensures (U32Big(|header|) + header + body)[PREFIX_BYTES + |header|..] == body
  {
    var prefix := U32Big(|header|);
    var b := prefix + header + body;
    assert forall i | 0 <= i < 4 :: b[i] == prefix[i];
    assert U32BigAt(b, 0) == U32BigAt(prefix, 0) == |header|;
    assert b[4..4 + |header|] == header;
  }

  /** A text without its leading byte order mark. */
  function Unmarked(t: string): string {
    if Marked(t) then t[1..] else t
  }

  /**
   An encoded valid render result is always decoded, to itself without a leading byte order mark; so to
   itself exactly when there is none.
   */
  lemma RenderRoundTrip(f: Foreign, p: RenderPayload)
    requires f.Lawful() && RenderValid(f, p) && EncodeRender(f, p).Some?
    ensures DecodeRender(f, EncodeRender(f, p).value) == Some(p.(svg := Unmarked(p.svg)))
    ensures DecodeRender(f, EncodeRender(f, p).value) == Some(p) <==> !Marked(p.svg)
  {
    var svg := f.utf8(p.svg);
    var raw := RenderHeader(VERSION, |svg|, p.metadata);
    var header := f.utf8(f.printRender(raw));
    hide Svg.Validates, U32Big, U32BigAt;
    PrefixRead(header, svg);
    DecodedText(f, f.printRender(raw));
    DecodedText(f, p.svg);
    SvgNotEmpty(f, p);
    UnmarkedValid(f, p);
    var b := EncodeRender(f, p).value;
    assert |b| == PREFIX_BYTES + |header| + |svg|;
  }

  /** The validator takes a byte order mark in front of the root for white space. */
  lemma UnmarkedValid(f: Foreign, p: RenderPayload)
    requires f.Lawful() && RenderValid(f, p)
    ensures RenderValid(f, p.(svg := Unmarked(p.svg)))
  {
    hide Svg.Validates;
    if Marked(p.svg) {
      assert [BYTE_ORDER_MARK] + p.svg[1..] == p.svg;
      Svg.SpaceInFront(f.policy, BYTE_ORDER_MARK, p.svg[1..]);
    }
  }

  /** The smallest text with a mark is valid, but comes back as another. */
  lemma MarkedRender(f: Foreign)
    requires f.Lawful() && f.policy.inspect("<svg>") && f.policy.inspect("</svg>")
    requires var p := RenderPayload([BYTE_ORDER_MARK] + "<svg></svg>", None);
             |f.utf8(p.svg)| <= MAX_SVG_BYTES && EncodeRender(f, p).Some?
    ensures var p := RenderPayload([BYTE_ORDER_MARK] + "<svg></svg>", None);
            RenderValid(f, p) && DecodeRender(f, EncodeRender(f, p).value) == Some(RenderPayload("<svg></svg>", None))
  {
    hide Svg.Validates, EncodeRender, DecodeRender;
    var p := RenderPayload([BYTE_ORDER_MARK] + "<svg></svg>", None);
    Svg.RootAccepts(f.policy);
    Svg.SpaceInFront(f.policy, BYTE_ORDER_MARK, "<svg></svg>");
    assert p.svg[1..] == "<svg></svg>";
    RenderRoundTrip(f, p);
  }

  /** A valid SVG has at least one byte. */
  lemma SvgNotEmpty(f: Foreign, p: RenderPayload)
    requires f.Lawful() && Svg.Validates(f.policy, p.svg)
    ensures |f.utf8(p.svg)| > 0
  {
    NothingValid(f);
    if |f.utf8(p.svg)| == 0 {
      ShorterTexts(f, p.svg);
    }
  }

  lemma NothingValid(f: Foreign)
    ensures !Svg.Validates(f.policy, "")
  {
  }

  lemma {:induction false} ShorterTexts(f: Foreign, t: string)
    requires f.Lawful()
    ensures |f.utf8("")| <= |f.utf8(t)|
    decreases |t|
  {
    if t != "" {
      ShorterTexts(f, t[1..]);
    }
  }

  /** The render decoder accepts only bytes that prefix, header and the declared SVG cover exactly. */
  lemma RenderCovers(f: Foreign, b: Bytes)
    requires DecodeRender(f, b).Some?
    ensures HeaderOf(b).Some? && ReadRenderHeader(f, HeaderOf(b).value).Some?
    ensures var header := HeaderOf(b).value;
            var raw := ReadRenderHeader(f, header).value;
            && |b| == PREFIX_BYTES + |header| + raw.svgBytes
            && Decode(f, b[PREFIX_BYTES + |header|..]) == Some(DecodeRender(f, b).value.svg)
            && raw.metadata == DecodeRender(f, b).value.metadata && RenderValid(f, DecodeRender(f, b).value)
  {
    hide Svg.Validates;
  }

  // The streaming reader

  /**
   One positioned read of at most `length` bytes: the operating system returns between one byte and all of
   them, and none at the end of the file. `short` picks how many.
   */
  function ReadInto(file: Bytes, short: nat -> nat, length: nat, position: nat): (r: Bytes)
    ensures |r| <= length && (r != [] ==> position + |r| <= |file| && r == file[position..position + |r|])
    ensures r == [] <==> position >= |file| || length == 0
  {
    if position >= |file| || length == 0 then []
    else
      var most := if length < |file| - position then length else |file| - position;
      var count := if 1 <= short(position) <= most then short(position) else most;
      file[position..position + count]
  }

  /** Reads a whole range, however short the reads are, or fails at the end of the file. */
  method ReadExactRange(file: Bytes, short: nat -> nat, position: nat, sizeBytes: nat) returns (r: Option<Bytes>)
    ensures r.Some? <==> sizeBytes == 0 || position + sizeBytes <= |file|
    ensures r.Some? && sizeBytes > 0 ==> r.value == file[position..position + sizeBytes]
    ensures r.Some? && sizeBytes == 0 ==> r.value == []
  {
    var result: Bytes := [];
    while |result| < sizeBytes
      invariant |result| <= sizeBytes
      invariant result != [] ==> position + |result| <= |file| && result == file[position..position + |result|]
      decreases sizeBytes - |result|
    {
      var part := ReadInto(file, short, sizeBytes - |result|, position + |result|);
      if |part| == 0 {
        return None;
      }
      result := result + part;
    }
    return Some(result);
  }

  /** What has been pushed into the validator after the decoder was fed `fed`. */
  ghost predicate Pushed(f: Foreign, fed: Bytes, state: Svg.State) {
    && f.soFar(fed).Some?
    && Svg.PushText(f.policy, Svg.NEW_VALIDATOR, f.soFar(fed).value) == Some(state)
  }

  /** What the bytes decode to so far is malformed or refused. */
  ghost predicate Stopped(f: Foreign, fed: Bytes) {
    f.soFar(fed).None? || Svg.PushText(f.policy, Svg.NEW_VALIDATOR, f.soFar(fed).value).None?
  }

  /** The range lies in the file and decodes to a text that the validator accepts. */
  ghost predicate SvgPartOk(f: Foreign, file: Bytes, offset: nat, length: nat) {
    && offset + length <= |file|
    && var svg := file[offset..offset + length];
       Decode(f, svg).Some? && Svg.Validates(f.policy, Decode(f, svg).value)
  }

  /** What stops early cannot become valid. */
  lemma StoppedForGood(f: Foreign, svg: Bytes, fed: Bytes)
    requires f.Streams() && fed <= svg && Stopped(f, fed)
    ensures Decode(f, svg).Some? ==> !Svg.Validates(f.policy, Decode(f, svg).value)
  {
    hide Svg.PushText, Decode;
    assert svg == fed + svg[|fed|..];
    if Decode(f, svg).Some? {
      var text, front := f.soFar(svg).value, f.soFar(fed).value;
      assert text == front + text[|front|..];
      Svg.ChunkInvariance(f.policy, Svg.NEW_VALIDATOR, front, text[|front|..]);
    }
  }

  lemma StoppedPart(f: Foreign, file: Bytes, offset: nat, length: nat, fed: Bytes)
    requires f.Streams() && ReadSoFar(file, offset, fed) && |fed| <= length && Stopped(f, fed)
    ensures !SvgPartOk(f, file, offset, length)
  {
    hide Decode, Svg.Validates, Stopped, Foreign.Streams;
    if offset + length <= |file| {
      var svg := file[offset..offset + length];
      assert fed <= svg;
      StoppedForGood(f, svg, fed);
    }
  }

  /** Decoding one more chunk, and pushing what that adds to the text. */
  lemma PushedMore(f: Foreign, fed: Bytes, part: Bytes, state: Svg.State)
    requires f.Streams() && Pushed(f, fed, state) && f.soFar(fed + part).Some?
    ensures |f.soFar(fed).value| <= |f.soFar(fed + part).value|
    ensures var text := f.soFar(fed + part).value[|f.soFar(fed).value|..];
            if Svg.PushText(f.policy, state, text).Some?
              then Pushed(f, fed + part, Svg.PushText(f.policy, state, text).value)
            else Stopped(f, fed + part)
  {
    hide Svg.PushText;
    var before, after := f.soFar(fed).value, f.soFar(fed + part).value;
    var text := after[|before|..];
    assert after == before + text;
    Svg.ChunkInvariance(f.policy, Svg.NEW_VALIDATOR, before, text);
  }

  lemma FedFits(f: Foreign, fed: Bytes, part: Bytes)
    requires f.Streams() && f.soFar(fed + part).Some?
    ensures f.soFar(fed).Some? && |f.soFar(fed).value| <= |f.soFar(fed + part).value|
  {
  }

  /** `fed` is the range of the file read so far. */
  predicate ReadSoFar(file: Bytes, position: nat, fed: Bytes) {
    fed != [] ==> position + |fed| <= |file| && fed == file[position..position + |fed|]
  }

  lemma ReadMore(file: Bytes, position: nat, fed: Bytes, part: Bytes)
    requires ReadSoFar(file, position, fed) && part != []
    requires position + |fed| + |part| <= |file| && part == file[position + |fed|..position + |fed| + |part|]
    ensures ReadSoFar(file, position, fed + part)
  {
  }

  /** The validation loop over the SVG part of the file, in chunks as short as the reads are. */
  method ValidateSvgPart(f: Foreign, file: Bytes, short: nat -> nat, svgOffset: nat, svgBytes: nat) returns (ok: bool)
    requires f.Streams() && svgBytes > 0
    ensures ok <==> SvgPartOk(f, file, svgOffset, svgBytes)
  {
    hide Svg.PushText, Pushed, ReadSoFar, ReadInto, Foreign.Streams, Decode, Svg.Validates, Svg.Finishes, Stopped,
      SvgPartOk;
    var validator := new Svg.IncrementalSvgPolicyValidator(f.policy);
    var fed: Bytes := [];
    var consumed: nat := 0;
    NothingPushed(f);
    NothingRead(file, svgOffset);
    while consumed < svgBytes
      invariant consumed == |fed| <= svgBytes && ReadSoFar(file, svgOffset, fed)
      invariant fresh(validator) && (validator.dataImage == null || fresh(validator.dataImage))
      invariant validator.policy == f.policy && Pushed(f, fed, validator.Model())
      decreases svgBytes - consumed
    {
      var requested := if VALIDATION_CHUNK_BYTES < svgBytes - consumed then VALIDATION_CHUNK_BYTES
        else svgBytes - consumed;
      var part := ReadInto(file, short, requested, svgOffset + consumed);
      if |part| == 0 {
        PartTooShort(f, file, svgOffset, svgBytes);
        return false;
      }
      ReadMore(file, svgOffset, fed, part);
      var before, after := f.soFar(fed), f.soFar(fed + part);
      if after.None? {
        StoppedHere(f, fed + part);
        StoppedPart(f, file, svgOffset, svgBytes, fed + part);
        return false;
      }
      FedFits(f, fed, part);
      PushedMore(f, fed, part, validator.Model());
      var pushed := validator.Push(after.value[|before.value|..]);
      if !pushed {
        StoppedPart(f, file, svgOffset, svgBytes, fed + part);
        return false;
      }
      fed := fed + part;
      consumed := consumed + |part|;
    }
    AllRead(file, svgOffset, fed);
    AllPushed(f, file, svgOffset, fed, validator.Model());
    if Decode(f, fed).None? {
      return false;
    }
    ok := validator.Finish();
  }

  lemma PartTooShort(f: Foreign, file: Bytes, offset: nat, length: nat)
    requires offset + length > |file|
    ensures !SvgPartOk(f, file, offset, length)
  {
  }

  lemma StoppedHere(f: Foreign, fed: Bytes)
    requires f.soFar(fed).None?
    ensures Stopped(f, fed)
  {
  }

  lemma AllRead(file: Bytes, position: nat, fed: Bytes)
    requires ReadSoFar(file, position, fed) && fed != []
    ensures position + |fed| <= |file| && fed == file[position..position + |fed|]
  {
  }

  lemma NothingRead(file: Bytes, position: nat)
    ensures ReadSoFar(file, position, [])
  {
  }

  lemma NothingPushed(f: Foreign)
    requires f.Streams()
    ensures Pushed(f, [], Svg.NEW_VALIDATOR)
  {
  }

  /** At the end, the part is valid exactly when it decodes and the validator finishes. */
  lemma AllPushed(f: Foreign, file: Bytes, offset: nat, svg: Bytes, state: Svg.State)
    requires f.Streams() && offset + |svg| <= |file| && svg == file[offset..offset + |svg|] && Pushed(f, svg, state)
    ensures SvgPartOk(f, file, offset, |svg|) <==> Decode(f, svg).Some? && Svg.Finishes(state)
  {
    hide Svg.PushText, Decode, Svg.Finishes;
  }

  datatype Validated = Validated(svgOffset: nat, svgBytes: nat, metadata: Option<string>)

  /** The bytes "<svg></svg>" stand for in the metadata check. */
  const PLACEHOLDER_BYTES: nat := 11

  /** The header of the spool declares an SVG within its size limit. */
  predicate SvgWithinLimit(f: Foreign, b: Bytes) {
    match HeaderOf(b)
    case None => false
    case Some(header) =>
      && ReadRenderHeader(f, header).Some?
      && ReadRenderHeader(f, header).value.svgBytes <= MAX_SVG_BYTES
  }

  /** What the header of a spool of `sizeBytes` bytes says, as far as the streaming validation checks it. */
  ghost predicate Declares(f: Foreign, file: Bytes, sizeBytes: nat, headerBytes: nat, raw: RenderHeader) {
    && 0 < headerBytes <= MAX_SAFE_JSON_BYTES && PREFIX_BYTES + headerBytes <= |file|
    && U32BigAt(file[0..PREFIX_BYTES], 0) == headerBytes
    && ReadRenderHeader(f, file[PREFIX_BYTES..PREFIX_BYTES + headerBytes]) == Some(raw)
    && raw.svgBytes > 0 && PREFIX_BYTES + headerBytes + raw.svgBytes == sizeBytes
    && RenderMeasures(f, PLACEHOLDER_BYTES, raw.metadata)
    && SvgPartOk(f, file, PREFIX_BYTES + headerBytes, raw.svgBytes)
  }

  ghost predicate StreamingAccepts(f: Foreign, file: Bytes, sizeBytes: nat) {
    sizeBytes <= |file| && DecodeRender(f, file[..sizeBytes]).Some? && SvgWithinLimit(f, file[..sizeBytes])
  }

  /**
   The streaming validation of a render spool of `sizeBytes` bytes. Under every schedule of short reads it
   accepts exactly what the decoder accepts with an SVG part within its limit, and takes the same slice
   and metadata.
   */
  method ValidateRenderSpool(f: Foreign, file: Bytes, short: nat -> nat, sizeBytes: nat) returns (r: Option<Validated>)
    requires f.Lawful() && f.Streams()
    ensures r.Some? <==>
            sizeBytes <= |file| && DecodeRender(f, file[..sizeBytes]).Some? && SvgWithinLimit(f, file[..sizeBytes])
    ensures r.Some? ==>
              && r.value.svgOffset + r.value.svgBytes == sizeBytes
              && var b := file[..sizeBytes];
                 && DecodeRender(f, b).value.metadata == r.value.metadata
                 && Decode(f, b[r.value.svgOffset..]) == Some(DecodeRender(f, b).value.svg)
  {
    hide Svg.Validates, U32BigAt, Decode, ReadRenderHeader, DecodeRender, SvgWithinLimit, SvgPartOk, RenderMeasures;
    if StreamingAccepts(f, file, sizeBytes) {
      Declared(f, file, sizeBytes);
    }
    var prefix := ReadExactRange(file, short, 0, PREFIX_BYTES);
    if prefix.None? {
      return None;
    }
    var headerBytes := U32BigAt(prefix.value, 0);
    if headerBytes <= 0 || headerBytes > MAX_SAFE_JSON_BYTES || headerBytes > sizeBytes - PREFIX_BYTES {
      return None;
    }
    var header := ReadExactRange(file, short, PREFIX_BYTES, headerBytes);
    if header.None? {
      return None;
    }
    var raw := ReadRenderHeader(f, header.value);
    if raw.None? {
      return None;
    }
    SizePositive(f, header.value);
    var svgOffset, svgBytes := PREFIX_BYTES + headerBytes, raw.value.svgBytes;
    if svgBytes > MAX_SVG_BYTES || svgOffset + svgBytes != sizeBytes
      || !RenderMeasures(f, PLACEHOLDER_BYTES, raw.value.metadata) {
      return None;
    }
    var ok := ValidateSvgPart(f, file, short, svgOffset, svgBytes);
    if !ok {
      return None;
    }
    Accepted(f, file, sizeBytes, headerBytes, raw.value);
    return Some(Validated(svgOffset, svgBytes, raw.value.metadata));
  }

  lemma SizePositive(f: Foreign, header: Bytes)
    ensures ReadRenderHeader(f, header).Some? ==> ReadRenderHeader(f, header).value.svgBytes > 0
  {
  }

  /** Everything that the streaming validation checks holds of what the decoder accepts. */
  lemma Declared(f: Foreign, file: Bytes, sizeBytes: nat)
    requires f.Lawful() && sizeBytes <= |file| && DecodeRender(f, file[..sizeBytes]).Some?
    ensures PREFIX_BYTES <= |file| && PREFIX_BYTES + U32BigAt(file[0..PREFIX_BYTES], 0) <= |file|
    ensures var headerBytes := U32BigAt(file[0..PREFIX_BYTES], 0);
            var read := ReadRenderHeader(f, file[PREFIX_BYTES..PREFIX_BYTES + headerBytes]);
            && read.Some? && Declares(f, file, sizeBytes, headerBytes, read.value)
            && (SvgWithinLimit(f, file[..sizeBytes]) <==> read.value.svgBytes <= MAX_SVG_BYTES)
  {
    hide Svg.Validates, U32BigAt, Decode, ReadRenderHeader, RenderMeasures;
    var b := file[..sizeBytes];
    RenderCovers(f, b);
    PrefixDeclares(file, sizeBytes);
    var header := HeaderOf(b).value;
    var raw := ReadRenderHeader(f, header).value;
    var offset := PREFIX_BYTES + |header|;
    SizePositive(f, header);
    assert b[offset..] == file[offset..sizeBytes];
    PlaceholderFits(f, DecodeRender(f, b).value);
  }

  lemma PrefixDeclares(file: Bytes, sizeBytes: nat)
    requires sizeBytes <= |file| && HeaderOf(file[..sizeBytes]).Some?
    ensures PREFIX_BYTES <= |file|
    ensures var n, header := U32BigAt(file[0..PREFIX_BYTES], 0), HeaderOf(file[..sizeBytes]).value;
            && |header| == n && 0 < n <= MAX_SAFE_JSON_BYTES && PREFIX_BYTES + n <= |file|
            && header == file[PREFIX_BYTES..PREFIX_BYTES + n]
  {
    var b := file[..sizeBytes];
    assert forall i | 0 <= i < 4 :: b[i] == file[0..PREFIX_BYTES][i];
    assert U32BigAt(b, 0) == U32BigAt(file[0..PREFIX_BYTES], 0);
  }

  /** Metadata that fit next to an SVG also fit next to the placeholder. */
  lemma PlaceholderFits(f: Foreign, p: RenderPayload)
    requires f.Lawful() && RenderValid(f, p)
    ensures RenderMeasures(f, PLACEHOLDER_BYTES, p.metadata)
  {
    hide Svg.Validates;
  }

  lemma Accepted(f: Foreign, file: Bytes, sizeBytes: nat, headerBytes: nat, raw: RenderHeader)
    requires f.Lawful() && Declares(f, file, sizeBytes, headerBytes, raw) && raw.svgBytes <= MAX_SVG_BYTES
    ensures sizeBytes <= |file| && SvgWithinLimit(f, file[..sizeBytes])
    ensures var b := file[..sizeBytes];
            && DecodeRender(f, b).Some? && DecodeRender(f, b).value.metadata == raw.metadata
            && Decode(f, b[PREFIX_BYTES + headerBytes..]) == Some(DecodeRender(f, b).value.svg)
  {
    hide Svg.Validates;
    var b, offset := file[..sizeBytes], PREFIX_BYTES + headerBytes;
    SamePrefix(file, sizeBytes, headerBytes);
    assert b[offset..] == file[offset..sizeBytes];
    DecodedShorter(f, b[offset..]);
  }

  /** The two differ only on a text that exceeds the limit by no more than its byte order mark. */
  lemma OnlyMarkedTooLong(f: Foreign, b: Bytes)
    requires f.Lawful() && DecodeRender(f, b).Some? && !SvgWithinLimit(f, b)
    ensures HeaderOf(b).Some?
    ensures var svg := b[PREFIX_BYTES + |HeaderOf(b).value|..];
            && |svg| > MAX_SVG_BYTES && f.textOf(svg).Some? && Marked(f.textOf(svg).value)
            && |f.utf8(Unmarked(f.textOf(svg).value))| <= MAX_SVG_BYTES
  {
    hide Svg.Validates, U32BigAt;
    RenderCovers(f, b);
  }

  lemma SamePrefix(file: Bytes, sizeBytes: nat, headerBytes: nat)
    requires 0 < headerBytes <= MAX_SAFE_JSON_BYTES && PREFIX_BYTES + headerBytes <= sizeBytes <= |file|
    requires U32BigAt(file[0..PREFIX_BYTES], 0) == headerBytes
    ensures HeaderOf(file[..sizeBytes]) == Some(file[PREFIX_BYTES..PREFIX_BYTES + headerBytes])
  {
    var b := file[..sizeBytes];
    assert forall i | 0 <= i < 4 :: b[i] == file[0..PREFIX_BYTES][i];
    assert U32BigAt(b, 0) == headerBytes;
    assert b[PREFIX_BYTES..PREFIX_BYTES + headerBytes] == file[PREFIX_BYTES..PREFIX_BYTES + headerBytes];
  }

  /** The decoded text is no longer than the bytes it came from. */
  lemma DecodedShorter(f: Foreign, b: Bytes)
    requires f.Lawful() && Decode(f, b).Some?
    ensures |f.utf8(Decode(f, b).value)| <= |b|
  {
  }
}
