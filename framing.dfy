/** The framing layer of the 9P-style protocol (container.go): a frame is a
    5-byte header (the little-endian uint32 size of the whole frame, then the
    message type byte) followed by the message body. Messages themselves are
    abstract: a protocol injects the type registry (Codec) and the messages'
    own binary encoding (Binary). */
module Framing {
  import opened LittleEndian
  import opened Streams

  /** Bytes in a frame header: four size bytes and one type byte. */
  const HeaderSize: nat := 5

  /** MessageType, the type byte of a frame. */
  type MessageType = byte

  /** A Go (value, error) pair of which exactly one half is meaningful. */
  datatype Result<T> = Ok(value: T) | Err(error: Error)

  /** The Codec struct: the message <-> message type registry of a protocol.
      mt2m yields a fresh, empty message of the given type. */
  datatype Codec<!M> = Codec(m2mt: M -> Result<MessageType>, mt2m: MessageType -> Result<M>)

  /** The messages' encoding.BinaryMarshaler and encoding.BinaryUnmarshaler
      methods; unmarshal fills the empty message it is given from a body. */
  datatype Binary<!M> = Binary(marshal: M -> Result<seq<byte>>, unmarshal: (M, seq<byte>) -> Result<M>)

  // ---------------------------------------------------------------------------
  // Header codec

  /** The size and type that DecodeHdr reads off a complete header. */
  function ParseHeader(h: seq<byte>): (uint32, MessageType)
    requires |h| == HeaderSize
  {
    (Uint32(h[..4]), h[4])
  }

  /** The header Encode builds: the little-endian size, then the type byte. */
  function Header(size: uint32, mt: MessageType): (h: seq<byte>)
    ensures |h| == HeaderSize && ParseHeader(h) == (size, mt)
  {
    assert (PutUint32(size) + [mt])[..4] == PutUint32(size);
    PutUint32(size) + [mt]
  }

  /** Every 5-byte header is the one Encode would build for the size and type
      read off it, so ParseHeader and Header are inverse bijections. */
  lemma HeaderOfParse(h: seq<byte>)
    requires |h| == HeaderSize
    ensures Header(ParseHeader(h).0, ParseHeader(h).1) == h
  {
    UnpackPack(h[..4]);
  }

  /** `size -= HeaderSize` on a uint32: nothing checks size >= HeaderSize, so a
      smaller size wraps around to a body length of nearly 2^32. */
  function BodyLength(size: uint32): (n: uint32)
    ensures Wrap(n as int + HeaderSize) == size
    ensures size as int >= HeaderSize <==> n as int + HeaderSize == size as int
    ensures size as int < HeaderSize ==> n as int >= Modulus - HeaderSize
  {
    Wrap(size as int - HeaderSize)
  }

  /** DecodeHdr: reads exactly HeaderSize bytes into a fresh buffer. With a
      full header it returns its size and type and no error; otherwise it
      returns (0, 0, err) with the io.ReadFull error, having consumed whatever
      was left of the stream. */
  method DecodeHdr(r: Reader) returns (size: uint32, mt: MessageType, err: Option<Error>)
    requires r.Valid()
    modifies r
    ensures r.Valid()
    ensures var rest := old(r.Rest());
      if |rest| >= HeaderSize then
        (size, mt) == ParseHeader(rest[..HeaderSize]) && err == None && r.pos == old(r.pos) + HeaderSize
      else
        size == 0 && mt == 0 && err == Some(ShortRead(|rest|, r.tail)) && r.pos == old(r.pos) + |rest|
  {
    var b := new byte[HeaderSize];
    var n;
    n, err := r.ReadFull(b);
    if n < HeaderSize {
      return 0, 0, err;
    }
    assert b[..] == old(r.Rest())[..HeaderSize];
    size := Uint32(b[0..4]);
    mt := b[4];
  }

  // ---------------------------------------------------------------------------
  // Frame decode

  /** What Codec.Decode returns, and how many bytes it consumes, when the reader
      holds `rest` and then reports `tail`. */
  function DecodeFrame<M>(c: Codec<M>, bin: Binary<M>, rest: seq<byte>, tail: Error): (r: (Result<M>, nat))
    ensures r.1 <= |rest|
    ensures r.0.Ok? ==> HeaderSize <= r.1 && Wrap(r.1) == Uint32(rest[..4])
    ensures r.0.Ok? ==> c.mt2m(rest[4]).Ok? && r.0 == bin.unmarshal(c.mt2m(rest[4]).value, rest[HeaderSize..r.1])
  {
    if |rest| < HeaderSize then (Err(ShortRead(|rest|, tail)), |rest|)
    else
      var (size, mt) := ParseHeader(rest[..HeaderSize]);
      var n := BodyLength(size) as int;
      var body := rest[HeaderSize..];
      if |body| < n then (Err(ShortRead(|body|, tail)), |rest|)
      else
        match c.mt2m(mt)
        case Err(e) => (Err(e), HeaderSize + n)
        case Ok(empty) =>
          assert body[..n] == rest[HeaderSize..HeaderSize + n];
          (bin.unmarshal(empty, body[..n]), HeaderSize + n)
  }

  /** Codec.Decode: reads a header, then a body of the length the header
      declares, resolves the type and unmarshals the body. Every error is
      returned as soon as it happens, with no message. */
  method Decode<M>(c: Codec<M>, bin: Binary<M>, r: Reader) returns (res: Result<M>)
    requires r.Valid()
    modifies r
    ensures r.Valid() && r.pos >= old(r.pos)
    ensures (res, r.pos - old(r.pos)) == DecodeFrame(c, bin, old(r.Rest()), r.tail)
  {
    ghost var rest := r.Rest();
    var size, mt, err := DecodeHdr(r);
    if err.Some? {
      return Err(err.value);
    }
    assert r.Rest() == rest[HeaderSize..];
    size := BodyLength(size);
    var b := new byte[size];
    var n;
    n, err := r.ReadFull(b);
    if err.Some? {
      return Err(err.value);
    }
    assert b[..] == rest[HeaderSize..][..size];
    // Codec.Decode's "short read" branch: ReadFull filled b, so it is never taken.
    assert n == size as int;
    var m := c.mt2m(mt);
    if m.Err? {
      return Err(m.error);
    }
    res := bin.unmarshal(m.value, b[..]);
  }

  // ---------------------------------------------------------------------------
  // Frame encode

  /** The bytes Codec.Encode emits for m, or the registry or marshalling error
      that stops it before anything is written. */
  function EncodeFrame<M>(c: Codec<M>, bin: Binary<M>, m: M): (r: Result<seq<byte>>)
  {
    match c.m2mt(m)
    case Err(e) => Err(e)
    case Ok(mt) =>
      match bin.marshal(m)
      case Err(e) => Err(e)
      case Ok(body) => Ok(Header(Wrap(|body| + HeaderSize), mt) + body)
  }

  /** qp's `write`: calls w.Write until the counter reaches len(b) or a
      call fails. The counter is overwritten by each call rather than added to,
      so the loop only finishes for a writer that takes the slice whole (the
      io.Writer contract, required here); Counter and Sent below show what it
      does against a writer that writes short. */
  method WriteAll(w: Writer, b: seq<byte>) returns (err: Option<Error>)
    requires w.TakesWhole(|b|)
    modifies w
    ensures err == if |b| <= old(w.room) then None else Some(w.fault)
    ensures w.out == old(w.out) + b[..Min(|b|, old(w.room))]
    ensures w.room == old(w.room) - Min(|b|, old(w.room))
  {
    var written: nat := 0;
    var l := |b|;
    while written < l
      invariant written == 0 || written == l
      invariant written == 0 ==> w.out == old(w.out) && w.room == old(w.room)
      invariant written == l ==> w.out == old(w.out) + b && w.room == old(w.room) - l
      decreases l - written
    {
      written, err := w.Write(b[written..]);
      if err.Some? {
        return err;
      }
    }
    return None;
  }

  /** Codec.Encode, where it fills `h`: a fresh 5-byte buffer filled with the
      little-endian size and the type byte. */
  method PutHeader(size: uint32, mt: MessageType) returns (h: array<byte>)
    ensures fresh(h) && h[..] == Header(size, mt)
  {
    h := new byte[HeaderSize];
    var le := PutUint32(size);
    h[0], h[1], h[2], h[3] := le[0], le[1], le[2], le[3];
    h[4] := mt;
  }

  /** The part of header ++ body that fits in `room` bytes. */
  lemma FramePrefix(h: seq<byte>, b: seq<byte>, room: nat)
    ensures (h + b)[..Min(|h + b|, room)]
         == if room < |h| then h[..room] else h + b[..Min(|b|, room - |h|)]
  {
    if room >= |h| {
      assert (h + b)[..Min(|h + b|, room)] == h + b[..Min(|b|, room - |h|)];
    }
  }

  /** Codec.Encode, where it writes the frame: the header, then the body, each through
      the write loop; a failure of the first skips the second. */
  method WriteFrame(w: Writer, h: seq<byte>, b: seq<byte>) returns (err: Option<Error>)
    requires w.TakesWhole(|h|) && w.TakesWhole(|b|)
    modifies w
    ensures err == if |h + b| <= old(w.room) then None else Some(w.fault)
    ensures w.out == old(w.out) + (h + b)[..Min(|h + b|, old(w.room))]
    ensures w.room == old(w.room) - Min(|h + b|, old(w.room))
  {
    FramePrefix(h, b, w.room);
    err := WriteAll(w, h);
    if err.Some? {
      return err;
    }
    err := WriteAll(w, b);
    assert w.out == old(w.out) + (h + b[..Min(|b|, old(w.room) - |h|)]);
  }

  /** Codec.Encode: resolves the type, marshals the body, then writes the header
      and the body. A registry or marshalling error is returned before anything
      is written; a transport failure leaves the frame's leading bytes, as far
      as they fit, in the writer. */
  method Encode<M>(c: Codec<M>, bin: Binary<M>, w: Writer, m: M) returns (err: Option<Error>)
    requires w.TakesWhole(HeaderSize)
    requires bin.marshal(m).Ok? ==> w.TakesWhole(|bin.marshal(m).value|)
    modifies w
    ensures EncodeFrame(c, bin, m).Err? ==>
      err == Some(EncodeFrame(c, bin, m).error) && w.out == old(w.out) && w.room == old(w.room)
    ensures EncodeFrame(c, bin, m).Ok? ==>
      var frame := EncodeFrame(c, bin, m).value;
      && err == (if |frame| <= old(w.room) then None else Some(w.fault))
      && w.out == old(w.out) + frame[..Min(|frame|, old(w.room))]
      && w.room == old(w.room) - Min(|frame|, old(w.room))
  {
    var mt := c.m2mt(m);
    if mt.Err? {
      return Some(mt.error);
    }
    var b := bin.marshal(m);
    if b.Err? {
      return Some(b.error);
    }
    var h := PutHeader(Wrap(|b.value| + HeaderSize), mt.value);
    assert EncodeFrame(c, bin, m) == Ok(h[..] + b.value);
    err := WriteFrame(w, h[..], b.value);
  }

  /** A Codec.Encode frame is the header, carrying the wrapped total size and
      the message type, followed by the marshalled body; it exists exactly
      when neither the registry nor the marshaller fails, and otherwise the
      first of their errors is returned. */
  lemma EncodeFrameLayout<M>(c: Codec<M>, bin: Binary<M>, m: M)
    ensures EncodeFrame(c, bin, m).Ok? <==> c.m2mt(m).Ok? && bin.marshal(m).Ok?
    ensures c.m2mt(m).Err? ==> EncodeFrame(c, bin, m) == Err(c.m2mt(m).error)
    ensures c.m2mt(m).Ok? && bin.marshal(m).Err? ==> EncodeFrame(c, bin, m) == Err(bin.marshal(m).error)
    ensures EncodeFrame(c, bin, m).Ok? ==>
      var frame, body := EncodeFrame(c, bin, m).value, bin.marshal(m).value;
      && |frame| == HeaderSize + |body|
      && Uint32(frame[..4]) == Wrap(|body| + HeaderSize)
      && frame[4] == c.m2mt(m).value
      && frame[HeaderSize..] == body
  {
    if EncodeFrame(c, bin, m).Ok? {
      var frame, body := EncodeFrame(c, bin, m).value, bin.marshal(m).value;
      var h := Header(Wrap(|body| + HeaderSize), c.m2mt(m).value);
      assert frame == h + body;
      assert frame[..HeaderSize] == h;
      assert frame[..4] == h[..4];
    }
  }

  /** Encoding a message with type 1 and an empty body gives the five bytes
      05 00 00 00 01. */
  lemma EmptyBodyFrame<M>(c: Codec<M>, bin: Binary<M>, m: M)
    requires c.m2mt(m) == Ok(1) && bin.marshal(m) == Ok([])
    ensures EncodeFrame(c, bin, m) == Ok([5, 0, 0, 0, 1])
  {
    var body := bin.marshal(m).value;
    assert |body| == 0;
    assert Wrap(|body| + HeaderSize) == 5;
    assert PutUint32(5) == [5, 0, 0, 0];
    assert Header(5, 1) == [5, 0, 0, 0, 1];
    assert body == [];
    assert Header(5, 1) + body == [5, 0, 0, 0, 1];
  }

  // ---------------------------------------------------------------------------
  // Decode outcomes

  /** Fewer than HeaderSize bytes left: the io.ReadFull error (io.EOF for an
      empty stream that ends, io.ErrUnexpectedEOF for a partial header), and
      the partial header is consumed. */
  lemma DecodeShortHeader<M>(c: Codec<M>, bin: Binary<M>, rest: seq<byte>, tail: Error)
    requires |rest| < HeaderSize
    ensures DecodeFrame(c, bin, rest, tail) == (Err(ShortRead(|rest|, tail)), |rest|)
    ensures tail == EOF ==> DecodeFrame(c, bin, rest, tail).0 == Err(if rest == [] then EOF else UnexpectedEOF)
  {
  }

  /** A complete header but fewer body bytes than it declares: the io.ReadFull
      error, no message, and the whole stream consumed. */
  lemma DecodeShortBody<M>(c: Codec<M>, bin: Binary<M>, rest: seq<byte>, tail: Error)
    requires |rest| >= HeaderSize
    requires |rest| - HeaderSize < BodyLength(Uint32(rest[..4])) as int
    ensures DecodeFrame(c, bin, rest, tail) == (Err(ShortRead(|rest| - HeaderSize, tail)), |rest|)
  {
  }

  /** A complete frame whose type the registry does not know: the registry's
      error, after the body has been consumed, so the reader stands at the next
      frame. */
  lemma DecodeUnknownType<M>(c: Codec<M>, bin: Binary<M>, rest: seq<byte>, tail: Error)
    requires |rest| >= HeaderSize
    requires |rest| - HeaderSize >= BodyLength(Uint32(rest[..4])) as int
    requires c.mt2m(rest[4]).Err?
    ensures DecodeFrame(c, bin, rest, tail) == (Err(c.mt2m(rest[4]).error), HeaderSize + BodyLength(Uint32(rest[..4])) as int)
  {
  }

  /** A header whose size is below HeaderSize is not rejected: the wrapped body
      length exceeds any stream shorter than 4 GiB, so Decode swallows the rest
      of the stream and fails with the io.ReadFull error. */
  lemma DecodeUndersizedFrame<M>(c: Codec<M>, bin: Binary<M>, rest: seq<byte>, tail: Error)
    requires |rest| >= HeaderSize && (Uint32(rest[..4]) as int) < HeaderSize
    requires |rest| < Modulus
    ensures DecodeFrame(c, bin, rest, tail) == (Err(ShortRead(|rest| - HeaderSize, tail)), |rest|)
  {
  }

  /** A complete frame whose type the registry knows: the unmarshalling of
      exactly the declared body bytes into the registry's fresh message, whether
      it succeeds or fails, with the whole frame consumed. */
  lemma DecodeCompleteFrame<M>(c: Codec<M>, bin: Binary<M>, rest: seq<byte>, tail: Error)
    requires |rest| >= HeaderSize
    requires |rest| - HeaderSize >= BodyLength(Uint32(rest[..4])) as int
    requires c.mt2m(rest[4]).Ok?
    ensures var n := BodyLength(Uint32(rest[..4])) as int;
      DecodeFrame(c, bin, rest, tail)
        == (bin.unmarshal(c.mt2m(rest[4]).value, rest[HeaderSize..HeaderSize + n]), HeaderSize + n)
  {
    var n := BodyLength(Uint32(rest[..4])) as int;
    assert rest[..HeaderSize][..4] == rest[..4];
    assert rest[HeaderSize..][..n] == rest[HeaderSize..HeaderSize + n];
  }

  // ---------------------------------------------------------------------------
  // Round trip

  /** A message the registry classifies and re-creates, and whose unmarshalling
      undoes its marshalling. */
  ghost predicate Invertible<M>(c: Codec<M>, bin: Binary<M>, m: M) {
    && c.m2mt(m).Ok?
    && bin.marshal(m).Ok?
    && c.mt2m(c.m2mt(m).value).Ok?
    && bin.unmarshal(c.mt2m(c.m2mt(m).value).value, bin.marshal(m).value) == Ok(m)
  }

  /** Decoding the bytes Encode emits for an invertible message gives the
      message back and stops exactly at the end of the frame, whatever follows.
      The body needs only to be shorter than 2^32: when len(body) + HeaderSize
      itself wraps, the wrapped subtraction in Decode undoes it. */
  lemma FrameRoundTrip<M>(c: Codec<M>, bin: Binary<M>, m: M, rest: seq<byte>, tail: Error)
    requires Invertible(c, bin, m)
    requires |bin.marshal(m).value| < Modulus
    ensures EncodeFrame(c, bin, m).Ok?
    ensures var frame := EncodeFrame(c, bin, m).value;
      DecodeFrame(c, bin, frame + rest, tail) == (Ok(m), |frame|)
  {
    EncodeFrameLayout(c, bin, m);
    var frame, body := EncodeFrame(c, bin, m).value, bin.marshal(m).value;
    var s := frame + rest;
    assert s[..4] == frame[..4] && s[4] == frame[4];
    assert BodyLength(Uint32(s[..4])) as int == |body|;
    assert s[HeaderSize..][..|body|] == body;
  }

  /** A body of 2^32 bytes or more does not survive: its header declares the
      length modulo 2^32, and Decode reads only that many body bytes. */
  lemma OversizedBodyTruncated<M>(c: Codec<M>, bin: Binary<M>, m: M, rest: seq<byte>, tail: Error)
    requires Invertible(c, bin, m)
    requires |bin.marshal(m).value| >= Modulus
    ensures var frame := EncodeFrame(c, bin, m).value;
      DecodeFrame(c, bin, frame + rest, tail).1 == HeaderSize + |bin.marshal(m).value| % Modulus
  {
    EncodeFrameLayout(c, bin, m);
    var frame, body := EncodeFrame(c, bin, m).value, bin.marshal(m).value;
    var s := frame + rest;
    assert s[..4] == frame[..4] && s[4] == frame[4];
    assert BodyLength(Uint32(s[..4])) as int == |body| % Modulus;
  }

  // ---------------------------------------------------------------------------
  // The write loop against a writer that writes short

  /** The loop counter `written` after k calls of w.Write(b[written:]) on a
      writer that never fails and takes at most `chunk` bytes per call, for l ==
      len(b). Each call's count replaces the counter instead of adding to it. */
  function Counter(l: nat, chunk: nat, k: nat): (written: nat)
    ensures written <= l
  {
    if k == 0 then 0 else Min(chunk, l - Counter(l, chunk, k - 1))
  }

  /** The bytes such a writer has received after k calls. */
  function Sent(b: seq<byte>, chunk: nat, k: nat): seq<byte>
  {
    if k == 0 then []
    else
      var from := Counter(|b|, chunk, k - 1);
      Sent(b, chunk, k - 1) + b[from..from + Counter(|b|, chunk, k)]
  }

  /** A writer that takes the slice whole ends the loop after one call, having
      received exactly b. */
  lemma WholeWriterFinishes(b: seq<byte>, chunk: nat)
    requires |b| <= chunk
    ensures Counter(|b|, chunk, 1) == |b| && Sent(b, chunk, 1) == b
  {
  }

  /** A writer that writes short never lets the loop finish: the counter stays
      below len(b) after every number of calls. */
  lemma {:induction false} ShortWriterNeverFinishes(l: nat, chunk: nat, k: nat)
    requires chunk < l
    ensures Counter(l, chunk, k) < l
  {
    if k > 0 {
      ShortWriterNeverFinishes(l, chunk, k - 1);
    }
  }

  /** ... and, when it takes at least one byte per call, it receives at least
      one byte per call, so after len(b) + 1 calls it holds more bytes than b:
      parts of b are written again. */
  lemma {:induction false} ShortWriterResends(b: seq<byte>, chunk: nat, k: nat)
    requires 0 < chunk < |b|
    ensures |Sent(b, chunk, k)| >= k
  {
    if k > 0 {
      ShortWriterResends(b, chunk, k - 1);
      ShortWriterNeverFinishes(|b|, chunk, k - 1);
    }
  }

  /** For b = 01 02 03 and a writer that takes two bytes per call, four calls
      deliver 01 02 03 02 03 03 and the counter stands at 1. */
  lemma ShortWriterExample()
    ensures Counter(3, 2, 4) == 1 && Sent([1, 2, 3], 2, 4) == [1, 2, 3, 2, 3, 3]
  {
    var b: seq<byte> := [1, 2, 3];
    assert Counter(3, 2, 1) == 2 && Counter(3, 2, 2) == 1 && Counter(3, 2, 3) == 2;
    assert Sent(b, 2, 1) == [1, 2];
    assert Sent(b, 2, 2) == [1, 2, 3];
    assert Sent(b, 2, 3) == [1, 2, 3, 2, 3];
  }

  /** Room for `left` more calls of `l` bytes each leaves room for one call
      and then `left - 1` more. */
  lemma RoomForOneMore(l: nat, left: nat, room: nat)
    requires 0 < left && l * left <= room
    ensures l <= room && l * (left - 1) <= room - l
  {
    assert l * left == l * (left - 1) + l;
  }

  /** qp's `write` loop run against a Writer that takes at most `chunk` bytes
      per call and has room for every call, stopped after at most `calls`
      calls: its counter and the bytes the writer received are Counter and
      Sent, so the lemmas above describe the loop itself. It stops early only
      when the counter reaches len(b). */
  method RunWriteLoop(w: Writer, b: seq<byte>, chunk: nat, calls: nat) returns (written: nat, k: nat)
    requires w.limit == Some(chunk)
    requires |b| * calls <= w.room
    modifies w
    ensures k <= calls && (written >= |b| || k == calls)
    ensures written == Counter(|b|, chunk, k)
    ensures w.out == old(w.out) + Sent(b, chunk, k)
  {
    written, k := 0, 0;
    while written < |b| && k < calls
      invariant k <= calls
      invariant written == Counter(|b|, chunk, k)
      invariant w.out == old(w.out) + Sent(b, chunk, k)
      invariant |b| * (calls - k) <= w.room
      decreases calls - k
    {
      RoomForOneMore(|b|, calls - k, w.room);
      ghost var out0 := w.out;
      var p := b[written..];
      assert w.Accepted(p) == Min(chunk, |b| - written);
      var err;
      written, err := w.Write(p);
      // The transport has room for the whole slice, so Write never fails here.
      assert err.None?;
      assert p[..written] == b[|b| - |p|..|b| - |p| + written];
      assert w.out == out0 + p[..written];
      k := k + 1;
    }
  }
}
