/**
 When a result makes it into a spool and out of it again, read off the sizes of its parts: what the encoders
 can write, and what the decoders accept of the bytes between prefix and end.
 */
module SpoolDelivery {
  import opened Basics
  import opened Bytes
  import opened Spools
  import opened ParseSpools
  import Svg = SvgPolicy

  const MEBIBYTE: nat := 0x10_0000

  function RenderHeaderBytes(f: Foreign, p: RenderPayload): Bytes {
    f.utf8(f.printRender(RenderHeader(1, |f.utf8(p.svg)|, p.metadata)))
  }

  /** Header and body fit a spool. */
  predicate FitsSpool(header: Bytes, length: nat) {
    0 < |header| <= 8 * MEBIBYTE && 4 + |header| + length <= 512 * MEBIBYTE
  }

  lemma RenderEncodes(f: Foreign, p: RenderPayload)
    ensures EncodeRender(f, p)
            == if FitsSpool(RenderHeaderBytes(f, p), |f.utf8(p.svg)|)
               then Some(U32Big(|RenderHeaderBytes(f, p)|) + RenderHeaderBytes(f, p) + f.utf8(p.svg)) else None
  {
    hide U32Big;
  }

  /** The SVG text is within its limit, and with its metadata within that of a result. */
  predicate RenderWithinLimits(f: Foreign, p: RenderPayload) {
    && |f.utf8(p.svg)| <= 128 * MEBIBYTE
    && match p.metadata
       case None => true
       case Some(m) =>
         f.metadataBytes(m).Some? && |f.utf8(p.svg)| + f.metadataBytes(m).value <= 512 * MEBIBYTE
  }

  /** Every valid SVG within the limits is written, and delivered without its mark. */
  lemma RenderDelivered(f: Foreign, p: RenderPayload)
    requires f.Lawful() && Svg.Validates(f.policy, p.svg) && RenderWithinLimits(f, p)
    requires FitsSpool(RenderHeaderBytes(f, p), |f.utf8(p.svg)|)
    ensures EncodeRender(f, p).Some?
    ensures DecodeRender(f, EncodeRender(f, p).value) == Some(p.(svg := Unmarked(p.svg)))
  {
    hide Svg.Validates, DecodeRender, U32Big;
    assert RenderValid(f, p);
    RenderRoundTrip(f, p);
  }

  /**
   What the decoder makes of a prefix, a header that reads as `raw`, and `body`: it accepts exactly version 1
   with the size of a non-empty body that decodes to a valid SVG within the limits.
   */
  lemma RenderAccepts(f: Foreign, header: Bytes, text: string, raw: RenderHeader, body: Bytes, p: RenderPayload)
    requires 0 < |header| <= 8 * MEBIBYTE && Decode(f, header) == Some(text) && f.readRender(text) == Some(raw)
    ensures DecodeRender(f, U32Big(|header|) + header + body) == Some(p) <==>
            && raw.version == 1 && raw.svgBytes == |body| > 0 && raw.metadata == p.metadata
            && Decode(f, body) == Some(p.svg) && Svg.Validates(f.policy, p.svg) && RenderWithinLimits(f, p)
  {
    PrefixRead(header, body);
    hide U32Big, HeaderOf, Decode, Svg.Validates;
    assert |U32Big(|header|) + header + body| == 4 + |header| + |body|;
  }

  function ParseHeaderBytes(f: Foreign, p: ParsePayload): Bytes {
    f.utf8(f.printParse(HeaderFor(f, p)))
  }

  function TotalImageBytes(images: seq<Image>): nat {
    if images == [] then 0 else |images[0].bytes| + TotalImageBytes(images[1..])
  }

  lemma {:induction false} ImageBytesLength(images: seq<Image>)
    ensures |ImageBytes(images)| == TotalImageBytes(images)
  {
    if images != [] {
      ImageBytesLength(images[1..]);
    }
  }

  lemma ParseEncodes(f: Foreign, p: ParsePayload)
    ensures EncodeParse(f, p).Some? <==>
            FitsSpool(ParseHeaderBytes(f, p), |f.utf8(p.markdown)| + TotalImageBytes(p.images))
  {
    hide U32Big, ImageBytes;
    ImageBytesLength(p.images);
  }

  /** The header is read, and declares `markdown` and `images`, none of which is empty. */
  predicate DeclaresParts(f: Foreign, header: Bytes, raw: ParseHeader, markdown: Bytes, images: seq<Image>) {
    && Decode(f, header).Some? && f.readParse(Decode(f, header).value) == Some(raw) && raw.version == 1
    && raw.markdownBytes == |markdown| && |raw.images| == |images|
    && forall i | 0 <= i < |images| ::
         && images[i].bytes != []
         && raw.images[i] == ImageHeader(images[i].filename, images[i].mimeType, |images[i].bytes|)
  }

  /** A prefix, such a header and the declared parts are accepted exactly when the parts are a valid result. */
  lemma {:induction false} ParseAccepts(f: Foreign, header: Bytes, raw: ParseHeader, markdown: Bytes, text: string,
      images: seq<Image>)
    requires 0 < |header| <= 8 * MEBIBYTE && DeclaresParts(f, header, raw, markdown, images)
    requires Decode(f, markdown) == Some(text)
    ensures var p := ParsePayload(text, raw.fileType, raw.metadata, raw.pageCount, raw.isImageBased, raw.warnings,
                       images);
            DecodeParse(f, U32Big(|header|) + header + (markdown + ImageBytes(images)))
            == if f.parseOk(p) then Some(p) else None
  {
    hide U32Big, HeaderOf, Decode, TakeImages, ImageBytes;
    var body := markdown + ImageBytes(images);
    var b, offset := U32Big(|header|) + header + body, PREFIX_BYTES + |header|;
    PrefixRead(header, body);
    assert |b| == offset + |body|;
    assert b[offset..offset + |markdown|] == b[offset..][..|markdown|] == markdown;
    assert b[offset + |markdown|..] == b[offset..][|markdown|..] == ImageBytes(images);
    assert ImageHeaders(images) == raw.images;
    ImagesTaken(b, offset + |markdown|, images);
  }

  /** Every valid result whose parts fit is written, and delivered if it is valid without its mark. */
  lemma ParseDelivered(f: Foreign, p: ParsePayload)
    requires f.Lawful() && f.parseOk(p) && f.parseOk(p.(markdown := Unmarked(p.markdown)))
    requires FitsSpool(ParseHeaderBytes(f, p), |f.utf8(p.markdown)| + TotalImageBytes(p.images))
    ensures EncodeParse(f, p).Some?
    ensures DecodeParse(f, EncodeParse(f, p).value) == Some(p.(markdown := Unmarked(p.markdown)))
  {
    hide EncodeParse, DecodeParse, FitsSpool;
    ParseEncodes(f, p);
    ParseRoundTrip(f, p);
  }
}
