/**
 Length-prefixed frames: a 32-bit big-endian length and as many payload bytes. The streaming decoder
 copies into a fixed header and one allocated payload; the frames it delivers depend on the bytes only.
 */
module BoundedFrame {
  import opened Basics
  import opened Bytes

  const HEADER_BYTES: nat := 4

  /** Frames and the bytes left over; None when a header declares an invalid length. */
  datatype Parsed = Parsed(frames: seq<Bytes>, rest: Bytes)

  predicate LengthOk(max: nat, length: nat) {
    0 < length <= max
  }

  function Parse(max: nat, b: Bytes): (r: Option<Parsed>)
    ensures r.Some? ==> |r.value.rest| <= |b|
  {
    if |b| < HEADER_BYTES then Some(Parsed([], b))
    else
      var length: nat := U32BigAt(b, 0);
      if !LengthOk(max, length) then None
      else if |b| < HEADER_BYTES + length then Some(Parsed([], b))
      else Deliver(b[HEADER_BYTES..HEADER_BYTES + length], Parse(max, b[HEADER_BYTES + length..]))
  }

  function Deliver(frame: Bytes, rest: Option<Parsed>): Option<Parsed> {
    match rest
    case None => None
    case Some(p) => Some(Parsed([frame] + p.frames, p.rest))
  }

  function Prepend(frames: seq<Bytes>, rest: Option<Parsed>): Option<Parsed> {
    match rest
    case None => None
    case Some(p) => Some(Parsed(frames + p.frames, p.rest))
  }

  function Encode(payload: Bytes): (b: Bytes)
    requires |payload| < 0x1_0000_0000
  {
    U32Big(|payload|) + payload
  }

  ghost predicate Encodable(max: nat, payloads: seq<Bytes>) {
    forall i | 0 <= i < |payloads| :: LengthOk(max, |payloads[i]|) && |payloads[i]| < 0x1_0000_0000
  }

  function EncodeAll(payloads: seq<Bytes>): Bytes
    requires forall i | 0 <= i < |payloads| :: |payloads[i]| < 0x1_0000_0000
  {
    if payloads == [] then [] else Encode(payloads[0]) + EncodeAll(payloads[1..])
  }

  /**
   `encodeBoundedJsonFrame` on its UTF-8 payload. A bad length is refused, under any limit; writing the
   length as 32 bits refuses what does not fit.
   */
  method EncodeBoundedFrame(payload: Bytes, maxFrameBytes: nat) returns (frame: Option<Bytes>)
    ensures frame.Some? <==> LengthOk(maxFrameBytes, |payload|) && |payload| < 0x1_0000_0000
    ensures frame.Some? ==> Parse(maxFrameBytes, frame.value) == Some(Parsed([payload], []))
  {
    if |payload| == 0 || |payload| > maxFrameBytes {
      return None;
    }
    if |payload| >= 0x1_0000_0000 {
      return None;
    }
    FrameParses(maxFrameBytes, payload, []);
    assert Encode(payload) + [] == Encode(payload);
    assert [payload] + [] == [payload];
    return Some(U32Big(|payload|) + payload);
  }

  lemma HeaderOf(n: U32, rest: Bytes)
    ensures U32BigAt(U32Big(n) + rest, 0) == n
  {
    var b := U32Big(n);
    assert forall i | 0 <= i < 4 :: (b + rest)[i] == b[i];
  }

  lemma FrameParses(max: nat, payload: Bytes, rest: Bytes)
    requires LengthOk(max, |payload|) && |payload| < 0x1_0000_0000
    ensures Parse(max, Encode(payload) + rest) == Deliver(payload, Parse(max, rest))
  {
    var b := Encode(payload) + rest;
    assert b == U32Big(|payload|) + (payload + rest);
    HeaderOf(|payload|, payload + rest);
    assert b[4..4 + |payload|] == payload && b[4 + |payload|..] == rest;
  }

  /** Decoding a concatenation of encoded frames yields their payloads in order, and nothing is left. */
  lemma {:induction false} RoundTrip(max: nat, payloads: seq<Bytes>)
    requires Encodable(max, payloads)
    ensures Parse(max, EncodeAll(payloads)) == Some(Parsed(payloads, []))
  {
    if payloads != [] {
      RoundTrip(max, payloads[1..]);
      FrameParses(max, payloads[0], EncodeAll(payloads[1..]));
      assert [payloads[0]] + payloads[1..] == payloads;
    }
  }

  lemma SplitHeader(b: Bytes)
    requires |b| >= 4
    ensures U32Big(U32BigAt(b, 0)) == b[..4]
  {
    BigDigits(b[0], b[1], b[2], b[3]);
  }

  lemma BigDigits(b0: Byte, b1: Byte, b2: Byte, b3: Byte)
    ensures var n: U32 := b3 as int + 0x100 * (b2 as int) + 0x1_0000 * (b1 as int) + 0x100_0000 * (b0 as int);
            ByteOf(n, 3) == b0 && ByteOf(n, 2) == b1 && ByteOf(n, 1) == b2 && ByteOf(n, 0) == b3
  {
    hide ByteOf;
    var n: U32 := b3 as int + 0x100 * (b2 as int) + 0x1_0000 * (b1 as int) + 0x100_0000 * (b0 as int);
    LowDigit(n, b2 as int + 0x100 * (b1 as int) + 0x1_0000 * (b0 as int), b3);
    SecondDigit(n, b1 as int + 0x100 * (b0 as int), b2, b3);
    ThirdDigit(n, b0, b1, b2 as int * 0x100 + b3 as int);
    TopDigit(n, b0, n as int - 0x100_0000 * (b0 as int));
  }

  lemma LowDigit(n: U32, high: int, low: Byte)
    requires n as int == 0x100 * high + low as int
    ensures ByteOf(n, 0) == low
  {
  }

  lemma SecondDigit(n: U32, high: int, digit: Byte, low: Byte)
    requires n as int == 0x1_0000 * high + 0x100 * (digit as int) + low as int
    ensures ByteOf(n, 1) == digit
  {
    assert n / 0x100 == 0x100 * high + digit as int;
  }

  lemma ThirdDigit(n: U32, high: Byte, digit: Byte, low: int)
    requires n as int == 0x100_0000 * (high as int) + 0x1_0000 * (digit as int) + low && 0 <= low < 0x1_0000
    ensures ByteOf(n, 2) == digit
  {
    assert n / 0x1_0000 == 0x100 * (high as int) + digit as int;
  }

  lemma TopDigit(n: U32, digit: Byte, low: int)
    requires n as int == 0x100_0000 * (digit as int) + low && 0 <= low < 0x100_0000
    ensures ByteOf(n, 3) == digit
  {
  }

  /** What was delivered, encoded again, and what is left over are exactly the bytes received. */
  lemma {:induction false} NothingLost(max: nat, b: Bytes)
    requires Parse(max, b).Some?
    ensures var p := Parse(max, b).value; Encodable(max, p.frames) && EncodeAll(p.frames) + p.rest == b
    decreases |b|
  {
    hide U32Big, U32BigAt;
    if |b| >= 4 && |b| >= 4 + U32BigAt(b, 0) as nat {
      var length: nat := U32BigAt(b, 0);
      var frame, tail := b[4..4 + length], b[4 + length..];
      NothingLost(max, tail);
      SplitHeader(b);
      ReassembleFront(b, length, frame, Parse(max, tail).value);
    }
  }

  lemma ReassembleFront(b: Bytes, length: U32, frame: Bytes, p: Parsed)
    requires 4 + length as nat <= |b| && frame == b[4..4 + length as nat] && U32Big(length) == b[..4]
    requires (forall i | 0 <= i < |p.frames| :: |p.frames[i]| < 0x1_0000_0000)
             && EncodeAll(p.frames) + p.rest == b[4 + length as nat..]
    ensures EncodeAll([frame] + p.frames) + p.rest == b
  {
    hide U32Big, U32BigAt;
    assert ([frame] + p.frames)[1..] == p.frames;
    assert Encode(frame) == b[..4 + length as nat] by {
      assert b[..4] + b[4..4 + length as nat] == b[..4 + length as nat];
    }
    assert b[..4 + length as nat] + b[4 + length as nat..] == b;
    assert Encode(frame) + EncodeAll(p.frames) + p.rest == Encode(frame) + (EncodeAll(p.frames) + p.rest);
  }

  /** Input that completes only whole frames: parsing leaves nothing over exactly for those. */
  lemma WholeFrames(max: nat, b: Bytes)
    ensures (Parse(max, b).Some? && Parse(max, b).value.rest == [])
            <==> exists payloads :: Encodable(max, payloads) && EncodeAll(payloads) == b
  {
    if Parse(max, b).Some? && Parse(max, b).value.rest == [] {
      NothingLost(max, b);
      var payloads := Parse(max, b).value.frames;
      assert EncodeAll(payloads) + [] == EncodeAll(payloads);
      assert Encodable(max, payloads) && EncodeAll(payloads) == b;
    }
    if exists payloads :: Encodable(max, payloads) && EncodeAll(payloads) == b {
      var payloads :| Encodable(max, payloads) && EncodeAll(payloads) == b;
      RoundTrip(max, payloads);
    }
  }

  // Chunks

  /** Parsing in two steps, the leftover in front of the second part, is parsing at once. */
  lemma {:induction false} ParseAppend(max: nat, a: Bytes, b: Bytes)
    ensures Parse(max, a + b)
            == match Parse(max, a) case None => None case Some(p) => Prepend(p.frames, Parse(max, p.rest + b))
    decreases |a|
  {
    var whole := Parse(max, a + b);
    if |a| < 4 {
      PrependNone(Parse(max, a + b));
    } else {
      assert forall i | 0 <= i < 4 :: (a + b)[i] == a[i];
      var length: nat := U32BigAt(a, 0);
      assert U32BigAt(a + b, 0) == length;
      if LengthOk(max, length) {
        if |a| < 4 + length {
          PrependNone(Parse(max, a + b));
        } else {
          var frame, tail := a[4..4 + length], a[4 + length..];
          assert (a + b)[4..4 + length] == frame && (a + b)[4 + length..] == tail + b;
          ParseAppend(max, tail, b);
          if Parse(max, tail).Some? {
            DeliverPrepend(frame, Parse(max, tail).value.frames, Parse(max, Parse(max, tail).value.rest + b));
          }
        }
      }
    }
  }

  lemma PrependNone(rest: Option<Parsed>)
    ensures Prepend([], rest) == rest
  {
    if rest.Some? {
      assert [] + rest.value.frames == rest.value.frames;
    }
  }

  lemma PrependLast(frames: seq<Bytes>, rest: Bytes)
    ensures Prepend(frames, Some(Parsed([], rest))) == Some(Parsed(frames, rest))
  {
    assert frames + [] == frames;
  }

  lemma Regroup(held: Bytes, chunk: Bytes, from: nat, next: nat)
    requires from <= next <= |chunk|
    ensures held + chunk[from..] == held + chunk[from..next] + chunk[next..]
  {
    assert chunk[from..] == chunk[from..next] + chunk[next..];
  }

  lemma DeliverPrepend(frame: Bytes, frames: seq<Bytes>, rest: Option<Parsed>)
    ensures Deliver(frame, Prepend(frames, rest)) == Prepend([frame] + frames, rest)
  {
    if rest.Some? {
      assert [frame] + (frames + rest.value.frames) == [frame] + frames + rest.value.frames;
    }
  }

  /** What a decoder delivers chunk by chunk; None once a push has failed. */
  function PushAll(max: nat, pending: Bytes, chunks: seq<Bytes>): Option<Parsed>
    decreases |chunks|
  {
    if chunks == [] then Some(Parsed([], pending))
    else
      match Parse(max, pending + chunks[0])
      case None => None
      case Some(p) => Prepend(p.frames, PushAll(max, p.rest, chunks[1..]))
  }

  /** The frames delivered, and whether a push fails, do not depend on how the bytes are cut into chunks. */
  lemma {:induction false} ChunkInvariance(max: nat, pending: Bytes, chunks: seq<Bytes>)
    requires Parse(max, pending) == Some(Parsed([], pending))
    ensures PushAll(max, pending, chunks) == Parse(max, pending + Concat(chunks))
    decreases |chunks|
  {
    if chunks == [] {
      assert pending + [] == pending;
    } else {
      var tail := Concat(chunks[1..]);
      assert pending + (chunks[0] + tail) == pending + chunks[0] + tail;
      ParseAppend(max, pending + chunks[0], tail);
      var first := Parse(max, pending + chunks[0]);
      if first.Some? {
        RestIsPending(max, pending + chunks[0]);
        ChunkInvariance(max, first.value.rest, chunks[1..]);
      }
    }
  }

  lemma {:induction false} RestIsPending(max: nat, b: Bytes)
    requires Parse(max, b).Some?
    ensures Parse(max, Parse(max, b).value.rest) == Some(Parsed([], Parse(max, b).value.rest))
    decreases |b|
  {
    if |b| >= 4 && |b| >= 4 + U32BigAt(b, 0) as nat {
      RestIsPending(max, b[4 + U32BigAt(b, 0) as nat..]);
    }
  }

  // The decoder

  /** One turn of the loop, once the frame in front is complete. */
  lemma CompleteFrame(max: nat, frame: Bytes, rest: Bytes, frames: seq<Bytes>)
    requires |frame| > 4 && LengthOk(max, U32BigAt(frame, 0)) && |frame| == 4 + U32BigAt(frame, 0) as nat
    ensures Prepend(frames, Parse(max, frame + rest)) == Prepend(frames + [frame[4..]], Parse(max, rest))
  {
    var b := frame + rest;
    assert forall i | 0 <= i < 4 :: b[i] == frame[i];
    assert b[4..|frame|] == frame[4..] && b[|frame|..] == rest;
    var p := Parse(max, rest);
    if p.Some? {
      assert frames + ([frame[4..]] + p.value.frames) == frames + [frame[4..]] + p.value.frames;
    }
  }

  lemma BadHeader(max: nat, header: Bytes, rest: Bytes, frames: seq<Bytes>)
    requires |header| == 4 && !LengthOk(max, U32BigAt(header, 0))
    ensures Prepend(frames, Parse(max, header + rest)) == None
  {
    assert forall i | 0 <= i < 4 :: (header + rest)[i] == header[i];
  }

  class BoundedFrameDecoder {
    const header: array<Byte>
    const maxFrameBytes: nat
    var headerBytes: nat
    var payload: array?<Byte>
    var payloadBytes: nat
    var failed: bool
    /** The sizes the observer was told, in order. */
    ghost var allocations: seq<nat>

    ghost predicate Valid()
      reads this, header, payload
    {
      && header.Length == HEADER_BYTES && headerBytes <= HEADER_BYTES && header != payload
      && (forall i | 0 <= i < |allocations| :: allocations[i] <= maxFrameBytes)
      && (!failed ==>
            (payload == null ==> headerBytes < HEADER_BYTES)
            && (payload != null ==>
                  && headerBytes == HEADER_BYTES && payload.Length == U32BigAt(header[..], 0)
                  && LengthOk(maxFrameBytes, payload.Length) && payloadBytes < payload.Length))
    }

    /** The bytes received since the last complete frame. */
    ghost function Pending(): (b: Bytes)
      requires Valid()
      reads this, header, payload
    {
      header[..headerBytes] + if payload == null || failed then [] else payload[..payloadBytes]
    }

    constructor (maxFrameBytes: nat)
      requires 0 < maxFrameBytes <= 0xFFFF_FFFF
      ensures Valid() && !failed && Pending() == [] && fresh(header) && this.maxFrameBytes == maxFrameBytes
      ensures allocations == []
    {
      header := new Byte[HEADER_BYTES](_ => 0);
      this.maxFrameBytes := maxFrameBytes;
      headerBytes, payload, payloadBytes, failed := 0, null, 0, false;
      allocations := [];
    }

    /** A partial frame at the end of the stream fails the decoder for good. */
    method Finish() returns (ok: bool)
      requires Valid()
      modifies this`failed, this`payload
      ensures Valid() && ok == (!old(failed) && old(Pending()) == [])
      ensures failed == !ok
    {
      if failed {
        return false;
      }
      if headerBytes != 0 || payload != null {
        failed := true;
        payload := null;
        return false;
      }
      return true;
    }

    /** Copies header bytes; what is pending grows by what the chunk loses. */
    method FillHeader(chunk: Bytes, offset: nat) returns (next: nat)
      requires header.Length == HEADER_BYTES && headerBytes < HEADER_BYTES && offset < |chunk|
      modifies this`headerBytes, header
      ensures offset < next <= |chunk| && headerBytes <= HEADER_BYTES && header.Length == HEADER_BYTES
      ensures headerBytes < HEADER_BYTES ==> next == |chunk|
      ensures header[..headerBytes] == old(header[..headerBytes]) + chunk[offset..next]
    {
      var copy := if HEADER_BYTES - headerBytes < |chunk| - offset then HEADER_BYTES - headerBytes
        else |chunk| - offset;
      forall i | headerBytes <= i < headerBytes + copy {
        header[i] := chunk[offset + (i - headerBytes)];
      }
      assert header[..headerBytes] == old(header[..headerBytes]);
      assert forall i | headerBytes <= i < headerBytes + copy :: header[i] == chunk[offset + (i - headerBytes)];
      assert header[headerBytes..headerBytes + copy] == chunk[offset..offset + copy];
      assert header[..headerBytes + copy] == header[..headerBytes] + header[headerBytes..headerBytes + copy];
      headerBytes := headerBytes + copy;
      next := offset + copy;
    }

    /** Copies payload bytes. */
    method FillPayload(chunk: Bytes, offset: nat) returns (next: nat)
      requires payload != null && payloadBytes < payload.Length && offset <= |chunk| && payload != header
      modifies this`payloadBytes, payload
      ensures offset <= next <= |chunk| && old(payloadBytes) <= payloadBytes <= payload.Length
      ensures payloadBytes < payload.Length ==> next == |chunk|
      ensures payload[..payloadBytes] == old(payload[..payloadBytes]) + chunk[offset..next]
    {
      var copy := if payload.Length - payloadBytes < |chunk| - offset then payload.Length - payloadBytes
        else |chunk| - offset;
      var target := payload;
      forall i | payloadBytes <= i < payloadBytes + copy {
        target[i] := chunk[offset + (i - payloadBytes)];
      }
      assert payload[..payloadBytes] == old(payload[..payloadBytes]);
      assert forall i | payloadBytes <= i < payloadBytes + copy :: payload[i] == chunk[offset + (i - payloadBytes)];
      assert payload[payloadBytes..payloadBytes + copy] == chunk[offset..offset + copy];
      assert payload[..payloadBytes + copy] == payload[..payloadBytes] + payload[payloadBytes..payloadBytes + copy];
      payloadBytes := payloadBytes + copy;
      next := offset + copy;
    }

    /** The header may now be complete: its length is checked and the payload allocated. */
    method StartPayload() returns (ok: bool)
      requires header.Length == HEADER_BYTES && headerBytes == HEADER_BYTES && payload == null && !failed
      requires forall i | 0 <= i < |allocations| :: allocations[i] <= maxFrameBytes
      modifies this`failed, this`payload, this`payloadBytes, this`allocations
      ensures Valid() && failed == !ok && ok == LengthOk(maxFrameBytes, U32BigAt(header[..], 0))
      ensures ok ==> payload != null && fresh(payload) && payloadBytes == 0 && Pending() == header[..]
      ensures ok ==> allocations == old(allocations) + [payload.Length]
      ensures !ok ==> payload == null && allocations == old(allocations)
    {
      var length := U32BigAt(header[..], 0);
      if length == 0 || length > maxFrameBytes {
        failed := true;
        return false;
      }
      allocations := allocations + [length];
      payload := new Byte[length](_ => 0);
      payloadBytes := 0;
      return true;
    }

    /** The header part of one turn of the loop. */
    method TakeHeader(chunk: Bytes, offset: nat) returns (next: nat, ok: bool)
      requires Valid() && !failed && payload == null && offset < |chunk|
      modifies this, header
      ensures Valid() && failed == !ok && offset < next <= |chunk| && (payload == null || fresh(payload))
      ensures ok ==> Pending() == old(Pending()) + chunk[offset..next] && (payload == null ==> next == |chunk|)
      ensures !ok ==> var head := old(Pending()) + chunk[offset..next];
                      |head| == 4 && !LengthOk(maxFrameBytes, U32BigAt(head, 0)) && payload == null
    {
      ghost var before := Pending();
      next := FillHeader(chunk, offset);
      ghost var head := before + chunk[offset..next];
      assert header[..headerBytes] == head;
      if headerBytes < HEADER_BYTES {
        return next, true;
      }
      assert header[..] == header[..headerBytes];
      ok := StartPayload();
    }

    /** Copies payload bytes, and takes the frame out when it is complete. */
    method TakePayload(chunk: Bytes, offset: nat) returns (next: nat, frames: seq<Bytes>)
      requires Valid() && !failed && payload != null && offset <= |chunk|
      modifies this`payloadBytes, this`payload, this`headerBytes, payload
      ensures Valid() && (payload == old(payload) || payload == null)
      ensures offset <= next <= |chunk| && (offset < |chunk| ==> offset < next)
      ensures frames == [] ==> next == |chunk| && Pending() == old(Pending()) + chunk[offset..next]
      ensures frames != [] ==>
                var frame := old(Pending()) + chunk[offset..next];
                && Pending() == [] && |frame| > 4 && LengthOk(maxFrameBytes, U32BigAt(frame, 0))
                && |frame| == 4 + U32BigAt(frame, 0) as nat && frames == [frame[4..]]
    {
      ghost var before := Pending();
      ghost var head := header[..];
      next := FillPayload(chunk, offset);
      assert header[..] == head && header[..4] == head;
      ghost var now := head + payload[..payloadBytes];
      assert now == before + chunk[offset..next];
      if payloadBytes < payload.Length {
        return next, [];
      }
      assert payload[..payloadBytes] == payload[..] && now[4..] == payload[..];
      assert forall i | 0 <= i < 4 :: now[i] == head[i];
      frames := [payload[..]];
      payload := null;
      payloadBytes := 0;
      headerBytes := 0;
    }

    /**
     Delivers the frames that the chunk completes, and keeps the rest pending; an invalid length
     fails this push and every later one.
     */
    method Push(chunk: Bytes) returns (r: Option<seq<Bytes>>)
      requires Valid()
      modifies this, header, payload
      ensures Valid()
      ensures old(failed) ==> r == None && failed
      ensures !old(failed) ==>
                match Parse(maxFrameBytes, old(Pending()) + chunk)
                case None => r == None && failed
                case Some(p) => r == Some(p.frames) && !failed && Pending() == p.rest
    {
      hide Parse, U32BigAt, LengthOk, Pending, Valid, Prepend;
      if failed {
        return None;
      }
      ghost var whole := Parse(maxFrameBytes, Pending() + chunk);
      var frames: seq<Bytes> := [];
      var offset := 0;
      assert chunk[0..] == chunk;
      PrependNone(whole);
      while offset < |chunk|
        invariant 0 <= offset <= |chunk| && Valid() && !failed
        invariant payload == old(payload) || payload == null || fresh(payload)
        invariant whole == Prepend(frames, Parse(maxFrameBytes, Pending() + chunk[offset..]))
        decreases |chunk| - offset
      {
        ghost var held, from := Pending(), offset;
        if payload == null {
          var next, ok := TakeHeader(chunk, offset);
          Regroup(held, chunk, from, next);
          offset := next;
          if !ok {
            BadHeader(maxFrameBytes, held + chunk[from..next], chunk[next..], frames);
            return None;
          }
        }
        held, from := Pending(), offset;
        if payload != null {
          var next, more := TakePayload(chunk, offset);
          Regroup(held, chunk, from, next);
          if more != [] {
            CompleteFrame(maxFrameBytes, held + chunk[from..next], chunk[next..], frames);
            frames := frames + more;
          }
          assert [] + chunk[next..] == chunk[next..];
          offset := next;
        }
      }
      assert chunk[offset..] == [] && Pending() + [] == Pending();
      PendingParses();
      PrependLast(frames, Pending());
      return Some(frames);
    }

    lemma PendingParses()
      requires Valid() && !failed
      ensures Parse(maxFrameBytes, Pending()) == Some(Parsed([], Pending()))
    {
      if payload != null {
        assert header[..headerBytes] == header[..];
        assert forall i | 0 <= i < 4 :: Pending()[i] == header[..][i];
      }
    }
  }
}
