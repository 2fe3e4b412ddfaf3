/** Parse results as spools: markdown and images, packed behind one header that declares their sizes. */
module ParseSpools {
  import opened Basics
  import opened Bytes
  import opened Spools

  function ImageHeaders(images: seq<Image>): (hs: seq<ImageHeader>)
    ensures |hs| == |images|
  {
    seq(|images|, i requires 0 <= i < |images| =>
          ImageHeader(images[i].filename, images[i].mimeType, |images[i].bytes|))
  }

  function ImageBytes(images: seq<Image>): Bytes {
    if images == [] then [] else images[0].bytes + ImageBytes(images[1..])
  }

  function HeaderFor(f: Foreign, p: ParsePayload): ParseHeader {
    ParseHeader(VERSION, |f.utf8(p.markdown)|, p.fileType, p.metadata, p.pageCount, p.isImageBased, p.warnings,
      ImageHeaders(p.images))
  }

  function EncodeParse(f: Foreign, p: ParsePayload): Option<Bytes> {
    Assemble(f.utf8(f.printParse(HeaderFor(f, p))), f.utf8(p.markdown) + ImageBytes(p.images))
  }

  lemma {:induction false} ImageBytesAppend(a: seq<Image>, b: seq<Image>)
    ensures ImageBytes(a + b) == ImageBytes(a) + ImageBytes(b)
  {
    if a == [] {
      assert a + b == b;
    } else {
      assert (a + b)[1..] == a[1..] + b;
      ImageBytesAppend(a[1..], b);
    }
  }

  /** The encoder: sizes are added up first, then every part is copied at its offset. */
  method EncodeParseSpool(f: Foreign, p: ParsePayload) returns (encoded: Option<Bytes>)
    ensures encoded == EncodeParse(f, p)
  {
    var markdown := f.utf8(p.markdown);
    var header := f.utf8(f.printParse(HeaderFor(f, p)));
    if |header| == 0 || |header| > MAX_SAFE_JSON_BYTES {
      return None;
    }
    var total := PREFIX_BYTES + |header| + |markdown|;
    var k := 0;
    while k < |p.images|
      invariant 0 <= k <= |p.images| && total == PREFIX_BYTES + |header| + |markdown| + |ImageBytes(p.images[..k])|
    {
      ImageStep(p.images, k);
      total := total + |p.images[k].bytes|;
      k := k + 1;
    }
    assert p.images[..k] == p.images;
    if total > MAX_RESULT_BYTES {
      return None;
    }
    var bytes := U32Big(|header|) + header + markdown;
    ghost var front := bytes;
    k := 0;
    while k < |p.images|
      invariant 0 <= k <= |p.images| && bytes == front + ImageBytes(p.images[..k])
    {
      ImageStep(p.images, k);
      assert front + (ImageBytes(p.images[..k]) + p.images[k].bytes)
        == front + ImageBytes(p.images[..k]) + p.images[k].bytes;
      bytes := bytes + p.images[k].bytes;
      k := k + 1;
    }
    assert p.images[..k] == p.images;
    assert U32Big(|header|) + header + markdown + ImageBytes(p.images)
      == U32Big(|header|) + header + (markdown + ImageBytes(p.images));
    return Some(bytes);
  }

  lemma ImageStep(images: seq<Image>, k: nat)
    requires k < |images|
    ensures ImageBytes(images[..k + 1]) == ImageBytes(images[..k]) + images[k].bytes
  {
    assert images[..k + 1] == images[..k] + [images[k]];
    ImageBytesAppend(images[..k], [images[k]]);
    assert ImageBytes([images[k]]) == images[k].bytes;
  }

  function ReadParseHeader(f: Foreign, header: Bytes): Option<ParseHeader> {
    match Decode(f, header)
    case None => None
    case Some(text) =>
      match f.readParse(text)
      case None => None
      case Some(raw) =>
        if raw.version == VERSION && raw.markdownBytes >= 0
          && (forall i | 0 <= i < |raw.images| :: raw.images[i].sizeBytes > 0)
        then Some(raw) else None
  }

  /** The declared images one after the other from `offset`, and the position behind them. */
  function TakeImages(b: Bytes, offset: nat, headers: seq<ImageHeader>): (r: Option<(seq<Image>, nat)>)
    requires offset <= |b|
    ensures r.Some? ==> offset <= r.value.1 <= |b|
    decreases |headers|
  {
    if headers == [] then Some(([], offset))
    else
      match CheckedOffset(offset, headers[0].sizeBytes, |b|)
      case None => None
      case Some(end) =>
        match TakeImages(b, end, headers[1..])
        case None => None
        case Some(rest) => Some(([Image(headers[0].filename, headers[0].mimeType, b[offset..end])] + rest.0, rest.1))
  }

  function DecodeParse(f: Foreign, b: Bytes): Option<ParsePayload> {
    match HeaderOf(b)
    case None => None
    case Some(header) =>
      match ReadParseHeader(f, header)
      case None => None
      case Some(raw) =>
        var offset := PREFIX_BYTES + |header|;
        match CheckedOffset(offset, raw.markdownBytes, |b|)
        case None => None
        case Some(markdownEnd) =>
          match Decode(f, b[offset..markdownEnd])
          case None => None
          case Some(markdown) => Checked(f, b, raw, markdown, TakeImages(b, markdownEnd, raw.images))
  }

  /** The images must end where the bytes end, and the payload must be valid. */
  function Checked(f: Foreign, b: Bytes, raw: ParseHeader, markdown: string,
      taken: Option<(seq<Image>, nat)>): Option<ParsePayload> {
    if taken.None? || taken.value.1 != |b| then None
    else
      var payload := ParsePayload(markdown, raw.fileType, raw.metadata, raw.pageCount, raw.isImageBased, raw.warnings,
        taken.value.0);
      if f.parseOk(payload) then Some(payload) else None
  }

  /** The loop that cuts the images out. */
  method TakeImageParts(b: Bytes, start: nat, headers: seq<ImageHeader>) returns (r: Option<(seq<Image>, nat)>)
    requires start <= |b|
    ensures r == TakeImages(b, start, headers)
  {
    var images: seq<Image> := [];
    var offset: nat := start;
    var k := 0;
    assert headers[0..] == headers;
    ghost var whole := TakeImages(b, start, headers);
    PrependNoImage(whole);
    while k < |headers|
      invariant 0 <= k <= |headers| && offset <= |b|
      invariant whole == PrependImages(images, TakeImages(b, offset, headers[k..]))
    {
      assert headers[k..][0] == headers[k] && headers[k..][1..] == headers[k + 1..];
      var end := CheckedOffset(offset, headers[k].sizeBytes, |b|);
      if end.None? {
        return None;
      }
      var image := Image(headers[k].filename, headers[k].mimeType, b[offset..end.value]);
      PrependOneImage(images, image, TakeImages(b, end.value, headers[k + 1..]));
      images := images + [image];
      offset := end.value;
      k := k + 1;
    }
    assert headers[k..] == [] && images + [] == images;
    return Some((images, offset));
  }

  function PrependImages(images: seq<Image>, rest: Option<(seq<Image>, nat)>): Option<(seq<Image>, nat)> {
    match rest
    case None => None
    case Some(taken) => Some((images + taken.0, taken.1))
  }

  lemma PrependNoImage(rest: Option<(seq<Image>, nat)>)
    ensures PrependImages([], rest) == rest
  {
    if rest.Some? {
      assert [] + rest.value.0 == rest.value.0;
    }
  }

  lemma PrependOneImage(images: seq<Image>, image: Image, rest: Option<(seq<Image>, nat)>)
    ensures PrependImages(images, PrependImages([image], rest)) == PrependImages(images + [image], rest)
  {
    if rest.Some? {
      assert images + ([image] + rest.value.0) == images + [image] + rest.value.0;
    }
  }

  method DecodeParseSpool(f: Foreign, b: Bytes) returns (r: Option<ParsePayload>)
    ensures r == DecodeParse(f, b)
  {
    hide TakeImages, Decode, U32BigAt, HeaderOf;
    var header := HeaderOf(b);
    if header.None? {
      return None;
    }
    var raw := ReadParseHeader(f, header.value);
    if raw.None? {
      return None;
    }
    var offset := PREFIX_BYTES + |header.value|;
    var markdownEnd := CheckedOffset(offset, raw.value.markdownBytes, |b|);
    if markdownEnd.None? {
      return None;
    }
    var markdown := Decode(f, b[offset..markdownEnd.value]);
    if markdown.None? {
      return None;
    }
    var taken := TakeImageParts(b, markdownEnd.value, raw.value.images);
    return Checked(f, b, raw.value, markdown.value, taken);
  }

  // Round trip

  /** Packed images are cut out again, whatever stands in front of them. */
  lemma {:induction false} ImagesTaken(b: Bytes, offset: nat, images: seq<Image>)
    requires offset <= |b| && b[offset..] == ImageBytes(images)
    ensures TakeImages(b, offset, ImageHeaders(images)) == Some((images, |b|))
    decreases |images|
  {
    if images == [] {
      assert |b[offset..]| == 0;
    } else {
      var image, end := images[0], offset + |images[0].bytes|;
      assert |b[offset..]| == |image.bytes| + |ImageBytes(images[1..])|;
      assert b[offset..end] == b[offset..][..|image.bytes|] == image.bytes;
      assert b[end..] == b[offset..][|image.bytes|..] == ImageBytes(images[1..]);
      ImagesTaken(b, end, images[1..]);
      assert ImageHeaders(images)[1..] == ImageHeaders(images[1..]);
      assert [image] + images[1..] == images;
    }
  }

  /**
   An encoded valid parse result is decoded to itself without a leading byte order mark in its markdown,
   as far as that is valid; so to itself exactly when there is none.
   */
  lemma {:induction false} ParseRoundTrip(f: Foreign, p: ParsePayload)
    requires f.Lawful() && f.parseOk(p) && EncodeParse(f, p).Some?
    ensures var q := p.(markdown := Unmarked(p.markdown));
            DecodeParse(f, EncodeParse(f, p).value) == if f.parseOk(q) then Some(q) else None
    ensures DecodeParse(f, EncodeParse(f, p).value) == Some(p) <==> !Marked(p.markdown)
  {
    hide U32Big, U32BigAt, ImageBytes, TakeImages, HeaderOf;
    var markdown, body := f.utf8(p.markdown), f.utf8(p.markdown) + ImageBytes(p.images);
    var header := f.utf8(f.printParse(HeaderFor(f, p)));
    var b, offset := EncodeParse(f, p).value, PREFIX_BYTES + |header|;
    PrefixRead(header, body);
    DecodedText(f, f.printParse(HeaderFor(f, p)));
    DecodedText(f, p.markdown);
    assert |b| == offset + |body|;
    assert b[offset..offset + |markdown|] == b[offset..][..|markdown|] == markdown;
    assert b[offset + |markdown|..] == b[offset..][|markdown|..] == ImageBytes(p.images);
    ImagesTaken(b, offset + |markdown|, p.images);
    HeaderReadBack(f, p);
  }

  /** A parse result whose markdown starts with a mark comes back as another. */
  lemma {:induction false} MarkedParse(f: Foreign, p: ParsePayload)
    requires f.Lawful() && p.markdown == [BYTE_ORDER_MARK] + "text" && f.parseOk(p.(markdown := "text"))
    requires f.parseOk(p) && EncodeParse(f, p).Some?
    ensures DecodeParse(f, EncodeParse(f, p).value) == Some(p.(markdown := "text"))
  {
    hide EncodeParse, DecodeParse;
    assert p.markdown[1..] == "text";
    ParseRoundTrip(f, p);
  }

  lemma HeaderReadBack(f: Foreign, p: ParsePayload)
    requires f.Lawful() && f.parseOk(p)
    ensures ReadParseHeader(f, f.utf8(f.printParse(HeaderFor(f, p)))) == Some(HeaderFor(f, p))
  {
    DecodedText(f, f.printParse(HeaderFor(f, p)));
  }

  // Coverage

  lemma NothingTaken(b: Bytes, offset: nat)
    requires offset <= |b|
    ensures b[offset..offset] == ImageBytes([]) && ImageHeaders([]) == []
  {
  }

  lemma OneMoreImage(image: Image, images: seq<Image>)
    ensures ImageBytes([image] + images) == image.bytes + ImageBytes(images)
    ensures ImageHeaders([image] + images)
            == [ImageHeader(image.filename, image.mimeType, |image.bytes|)] + ImageHeaders(images)
  {
    assert ([image] + images)[1..] == images;
  }

  lemma {:induction false} TakenCover(b: Bytes, offset: nat, headers: seq<ImageHeader>)
    requires offset <= |b| && TakeImages(b, offset, headers).Some?
    requires forall i | 0 <= i < |headers| :: headers[i].sizeBytes > 0
    ensures var taken := TakeImages(b, offset, headers).value;
            b[offset..taken.1] == ImageBytes(taken.0) && ImageHeaders(taken.0) == headers
    decreases |headers|
  {
    hide ImageBytes, ImageHeaders;
    if headers == [] {
      NothingTaken(b, offset);
    } else {
      var end := CheckedOffset(offset, headers[0].sizeBytes, |b|).value;
      TakenCover(b, end, headers[1..]);
      var rest := TakeImages(b, end, headers[1..]).value;
      var image := Image(headers[0].filename, headers[0].mimeType, b[offset..end]);
      OneMoreImage(image, rest.0);
      assert b[offset..rest.1] == b[offset..end] + b[end..rest.1];
      assert [headers[0]] + headers[1..] == headers;
    }
  }

  /** The parse decoder accepts only bytes that prefix, header, declared markdown and declared images cover exactly. */
  lemma {:induction false} ParseCovers(f: Foreign, b: Bytes)
    requires DecodeParse(f, b).Some?
    ensures HeaderOf(b).Some? && ReadParseHeader(f, HeaderOf(b).value).Some?
    ensures var raw, p, offset := ReadParseHeader(f, HeaderOf(b).value).value, DecodeParse(f, b).value,
            PREFIX_BYTES + |HeaderOf(b).value|;
            && 0 <= raw.markdownBytes <= |b| - offset && ImageHeaders(p.images) == raw.images
            && Decode(f, b[offset..offset + raw.markdownBytes]) == Some(p.markdown)
            && b[offset + raw.markdownBytes..] == ImageBytes(p.images) && f.parseOk(p)
  {
    hide TakeImages, ImageBytes, ImageHeaders, U32BigAt;
    var raw, offset := ReadParseHeader(f, HeaderOf(b).value).value, PREFIX_BYTES + |HeaderOf(b).value|;
    var end := offset + raw.markdownBytes;
    TakenCover(b, end, raw.images);
    assert b[end..|b|] == b[end..];
  }
}
