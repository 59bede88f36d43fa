/** The two stream interfaces the framing layer talks to, reduced to byte
    sequences: an io.Reader read through io.ReadFull, and an io.Writer that may
    take fewer bytes than it is given and may fail. */
module Streams {
  import opened LittleEndian

  datatype Option<T> = None | Some(value: T)

  /** The Go `error` values the framing layer can see. io.EOF and
      io.ErrUnexpectedEOF come from io.ReadFull; every other error (a transport
      failure, a registry or marshalling error) is an opaque value that is passed
      through unchanged. */
  datatype Error = EOF | UnexpectedEOF | Failure(reason: string)

  function Min(a: int, b: int): (m: int)
    ensures m <= a && m <= b && (m == a || m == b)
  {
    if a <= b then a else b
  }

  /** The error io.ReadFull returns when the stream ends, or fails, after only
      `got` of the requested bytes: the stream's own error, except that io.EOF
      becomes io.ErrUnexpectedEOF once at least one byte was read. */
  function ShortRead(got: nat, tail: Error): (e: Error)
    ensures tail == EOF ==> (e == EOF <==> got == 0) && (e == UnexpectedEOF <==> got > 0)
    ensures tail != EOF ==> e == tail
  {
    if got > 0 && tail == EOF then UnexpectedEOF else tail
  }

  /** An io.Reader: it delivers the bytes of `data` from `pos` on, and once they
      are exhausted it reports `tail` (io.EOF for a stream that simply ends, any
      other error for a transport that breaks). */
  class Reader {
    const data: seq<byte>
    const tail: Error
    var pos: nat

    ghost predicate Valid()
      reads this
    {
      pos <= |data|
    }

    /** The bytes not yet read. */
    function Rest(): seq<byte>
      reads this
      requires Valid()
    {
      data[pos..]
    }

    constructor (data: seq<byte>, tail: Error)
      ensures Valid() && this.data == data && this.tail == tail && pos == 0
    {
      this.data := data;
      this.tail := tail;
      pos := 0;
    }

    /** io.ReadFull(r, buf): fills buf from the front with as many of the
        remaining bytes as fit, and reports an error exactly when buf could not
        be filled. A request for zero bytes reads nothing and succeeds. */
    method ReadFull(buf: array<byte>) returns (n: nat, err: Option<Error>)
      requires Valid()
      modifies this, buf
      ensures Valid()
      ensures n == Min(buf.Length, |old(Rest())|)
      ensures pos == old(pos) + n
      ensures buf[..n] == old(Rest())[..n]
      ensures buf[n..] == old(buf[n..])
      ensures err == if n == buf.Length then None else Some(ShortRead(n, tail))
    {
      n := 0;
      while n < buf.Length && pos < |data|
        invariant n <= buf.Length && pos <= |data|
        invariant pos == old(pos) + n
        invariant buf[..n] == data[old(pos)..pos]
        invariant buf[n..] == old(buf[n..])
      {
        buf[n] := data[pos];
        n, pos := n + 1, pos + 1;
      }
      err := if n == buf.Length then None else Some(ShortRead(n, tail));
    }
  }

  /** An io.Writer. `out` holds every byte it has accepted. One call takes at
      most `limit` bytes (no bound when `limit` is None); a call that takes fewer
      bytes than it was given only for that reason reports no error (a short
      write). The transport takes `room` more bytes in all; a call that runs
      into that bound takes what still fits and reports `fault`. */
  class Writer {
    var out: seq<byte>
    var room: nat
    const limit: Option<nat>
    const fault: Error

    constructor (room: nat, limit: Option<nat>, fault: Error)
      ensures out == [] && this.room == room && this.limit == limit && this.fault == fault
    {
      out := [];
      this.room := room;
      this.limit := limit;
      this.fault := fault;
    }

    /** Whether one call takes a slice of `len` bytes whole (unless the transport
        fails), as the io.Writer contract demands of every writer. */
    predicate TakesWhole(len: nat) {
      limit.None? || len <= limit.value
    }

    /** How many bytes of p one call takes. */
    function Accepted(p: seq<byte>): (k: nat)
      reads this
      ensures k <= |p| && k <= room
      ensures TakesWhole(|p|) ==> k == Min(|p|, room)
    {
      Min(if limit.Some? then Min(|p|, limit.value) else |p|, room)
    }

    /** w.Write(p) */
    method Write(p: seq<byte>) returns (n: nat, err: Option<Error>)
      modifies this
      ensures n == old(Accepted(p))
      ensures out == old(out) + p[..n] && room == old(room) - n
      ensures err == if n < |p| && n == old(room) then Some(fault) else None
    {
      n := Accepted(p);
      out := out + p[..n];
      err := if n < |p| && n == room then Some(fault) else None;
      room := room - n;
    }
  }
}
