/** Framing. Requests go out bare and capped; responses come back behind an 8-byte
    big-endian length. The encoding of the bodies is a parameter. */
module Codec {
  import opened Wrappers
  import opened Errors
  import opened Protocol

  const MAX_REQUEST_BYTES: nat := 1024
  const MAX_RESPONSE_BYTES: nat := 512 * 1024 * 1024

  type byte = b: int | 0 <= b < 256

  /** The body encoding, which may fail in either direction. */
  datatype BodyCodec = BodyCodec(encodeRequest: Request -> Option<seq<byte>>, decode: seq<byte> -> Option<Response>)

  /** What a reader meets next: a byte, or a failure of the connection. Past the last
      arrival the connection is closed. */
  datatype Arrival = Data(value: byte) | Fault(failure: IoFailure)

  datatype IoFailure = UnexpectedEof | ConnectionReset | OtherFailure

  function FromIo(e: IoFailure): Error {
    if e.OtherFailure? then Io else ConnectionClosed
  }

  /** How one request goes out: whole, or broken off after some bytes. */
  datatype WriteOutcome = Accepted | Broken(kept: nat, failure: IoFailure)

  // ----- Big-endian lengths -----

  function BigEndian(n: nat, k: nat): (bytes: seq<byte>)
    ensures |bytes| == k
  {
    if k == 0 then [] else BigEndian(n / 256, k - 1) + [n % 256]
  }

  function FromBigEndian(bytes: seq<byte>): nat {
    if bytes == [] then 0 else 256 * FromBigEndian(bytes[..|bytes| - 1]) + bytes[|bytes| - 1]
  }

  function Pow256(k: nat): nat {
    if k == 0 then 1 else 256 * Pow256(k - 1)
  }

  /** The first byte is the highest. */
  lemma {:induction false} HighByteFirst(high: byte, rest: seq<byte>)
    ensures FromBigEndian([high] + rest) == high * Pow256(|rest|) + FromBigEndian(rest)
  {
    if rest == [] {
      assert FromBigEndian([]) == 0 && [high][..0] == [];
      assert [high] + rest == [high];
    } else {
      var init, low := rest[..|rest| - 1], rest[|rest| - 1];
      assert ([high] + rest)[..|rest|] == [high] + init;
      HighByteFirst(high, init);
      Shifted(high, Pow256(|init|), FromBigEndian(init), low);
    }
  }

  lemma Shifted(high: nat, power: nat, middle: nat, low: nat)
    ensures 256 * (high * power + middle) + low == high * (256 * power) + (256 * middle + low)
  {
  }

  lemma {:induction false} BigEndianReads(n: nat, k: nat)
    requires n < Pow256(k)
    ensures FromBigEndian(BigEndian(n, k)) == n
  {
    if k > 0 {
      BigEndianReads(n / 256, k - 1);
      assert BigEndian(n, k)[..k - 1] == BigEndian(n / 256, k - 1);
    }
  }

  lemma {:induction false} BigEndianWrites(bytes: seq<byte>)
    ensures BigEndian(FromBigEndian(bytes), |bytes|) == bytes
  {
    if bytes != [] {
      var init := bytes[..|bytes| - 1];
      BigEndianWrites(init);
      assert bytes == init + [bytes[|bytes| - 1]];
    }
  }

  lemma LimitFitsLength()
    ensures MAX_RESPONSE_BYTES < Pow256(8)
  {
    assert Pow256(4) == 0x1_0000_0000;
    assert Pow256(8) == 0x1_0000_0000 * Pow256(4);
  }

  // ----- Requests -----

  function EncodeRequest(codec: BodyCodec, request: Request): Result<seq<byte>, Error> {
    match codec.encodeRequest(request)
    case None => Failure(Encode)
    case Some(bytes) =>
      if |bytes| > MAX_REQUEST_BYTES then Failure(RequestTooLarge(|bytes|)) else Success(bytes)
  }

  // ----- Reading, on values -----

  /** Read exactly `n` bytes, or fail with whatever came first and lose what was read. */
  function TakeBytes(incoming: seq<Arrival>, n: nat): (Result<seq<byte>, IoFailure>, seq<Arrival>)
    decreases n
  {
    if n == 0 then (Success([]), incoming)
    else if incoming == [] then (Failure(UnexpectedEof), [])
    else match incoming[0]
      case Fault(e) => (Failure(e), incoming[1..])
      case Data(b) =>
        var (r, rest) := TakeBytes(incoming[1..], n - 1);
        Behind([b], (r, rest))
  }

  /** A read that follows bytes already taken. */
  function Behind(taken: seq<byte>, read: (Result<seq<byte>, IoFailure>, seq<Arrival>))
    : (Result<seq<byte>, IoFailure>, seq<Arrival>)
  {
    (if read.0.Success? then Success(taken + read.0.value) else read.0, read.1)
  }

  lemma BehindNothing(read: (Result<seq<byte>, IoFailure>, seq<Arrival>))
    ensures Behind([], read) == read
  {
    if read.0.Success? {
      assert [] + read.0.value == read.0.value;
    }
  }

  lemma BehindOne(taken: seq<byte>, b: byte, read: (Result<seq<byte>, IoFailure>, seq<Arrival>))
    ensures Behind(taken, Behind([b], read)) == Behind(taken + [b], read)
  {
    if read.0.Success? {
      assert taken + ([b] + read.0.value) == taken + [b] + read.0.value;
    }
  }

  function Decoded(codec: BodyCodec, body: seq<byte>): Result<Response, Error> {
    match codec.decode(body)
    case Some(response) => Success(response)
    case None => Failure(Decode)
  }

  function ReadFrame(codec: BodyCodec, incoming: seq<Arrival>): (Result<Response, Error>, seq<Arrival>) {
    var (header, rest) := TakeBytes(incoming, 8);
    if header.Failure? then (Failure(FromIo(header.error)), rest)
    else
      var length := FromBigEndian(header.value);
      if length == 0 then (Success(QuietOk), rest)
      else if length > MAX_RESPONSE_BYTES then (Failure(ResponseTooLarge(length)), rest)
      else
        var (body, left) := TakeBytes(rest, length);
        (if body.Failure? then Failure(FromIo(body.error)) else Decoded(codec, body.value), left)
  }

  // ----- Reading and writing, in place -----

  class Stream {
    var incoming: seq<Arrival>
    var writes: seq<WriteOutcome>
    var outgoing: seq<seq<byte>>

    constructor (incoming: seq<Arrival>, writes: seq<WriteOutcome>)
      ensures this.incoming == incoming && this.writes == writes && outgoing == []
    {
      this.incoming, this.writes, outgoing := incoming, writes, [];
    }

    /** Fill `buf`, or fail. */
    method ReadExact(buf: array<byte>) returns (failed: Option<IoFailure>)
      modifies this`incoming, buf
      ensures var (r, rest) := TakeBytes(old(incoming), buf.Length);
              incoming == rest &&
              match r case Success(bytes) => failed == None && buf[..] == bytes case Failure(e) => failed == Some(e)
    {
      ghost var before := incoming;
      BehindNothing(TakeBytes(incoming, buf.Length));
      assert buf[..0] == [];
      var i := 0;
      while i < buf.Length
        invariant 0 <= i <= buf.Length
        invariant TakeBytes(before, buf.Length) == Behind(buf[..i], TakeBytes(incoming, buf.Length - i))
      {
        if incoming == [] {
          return Some(UnexpectedEof);
        }
        var next := incoming[0];
        incoming := incoming[1..];
        if next.Fault? {
          return Some(next.failure);
        }
        BehindOne(buf[..i], next.value, TakeBytes(incoming, buf.Length - i - 1));
        buf[i] := next.value;
        assert buf[..i + 1] == buf[..i] + [next.value];
        i := i + 1;
      }
      assert buf[..] == buf[..i] + [];
      return None;
    }

    /** Put `bytes` on the wire, or as many of them as get through. */
    method WriteAll(bytes: seq<byte>) returns (failed: Option<IoFailure>)
      modifies this`writes, this`outgoing
      ensures writes == Later(old(writes))
      ensures outgoing == old(outgoing) + [Reaching(NextOutcome(old(writes)), bytes)]
      ensures failed == WriteFailure(NextOutcome(old(writes)))
    {
      var outcome := NextOutcome(writes);
      writes := Later(writes);
      outgoing := outgoing + [Reaching(outcome, bytes)];
      return WriteFailure(outcome);
    }
  }

  /** Writes beyond the scripted ones are accepted. */
  function NextOutcome(writes: seq<WriteOutcome>): WriteOutcome {
    if writes == [] then Accepted else writes[0]
  }

  function Later(writes: seq<WriteOutcome>): seq<WriteOutcome> {
    if writes == [] then [] else writes[1..]
  }

  function Reaching(outcome: WriteOutcome, bytes: seq<byte>): seq<byte> {
    if outcome.Broken? && outcome.kept < |bytes| then bytes[..outcome.kept] else bytes
  }

  function WriteFailure(outcome: WriteOutcome): Option<IoFailure> {
    if outcome.Accepted? then None else Some(outcome.failure)
  }

  method WriteRequest(codec: BodyCodec, stream: Stream, request: Request) returns (failed: Option<Error>)
    modifies stream`writes, stream`outgoing
    ensures match codec.encodeRequest(request)
            case None => failed == Some(Encode) && stream.outgoing == old(stream.outgoing)
            case Some(bytes) =>
              if |bytes| > 1024 then
                failed == Some(RequestTooLarge(|bytes|)) && stream.outgoing == old(stream.outgoing)
              else |stream.outgoing| == |old(stream.outgoing)| + 1
    ensures match EncodeRequest(codec, request)
            case Failure(e) =>
              failed == Some(e) && stream.writes == old(stream.writes) && stream.outgoing == old(stream.outgoing)
            case Success(bytes) =>
              var outcome := NextOutcome(old(stream.writes));
              stream.writes == Later(old(stream.writes)) &&
              stream.outgoing == old(stream.outgoing) + [Reaching(outcome, bytes)] &&
              failed == if outcome.Accepted? then None else Some(FromIo(outcome.failure))
  {
    var bytes := EncodeRequest(codec, request);
    if bytes.Failure? {
      return Some(bytes.error);
    }
    var broken := stream.WriteAll(bytes.value);
    if broken.Some? {
      return Some(FromIo(broken.value));
    }
    return None;
  }

  method ReadResponse(codec: BodyCodec, stream: Stream) returns (r: Result<Response, Error>)
    modifies stream`incoming
    ensures (r, stream.incoming) == ReadFrame(codec, old(stream.incoming))
  {
    var header := new byte[8];
    var failed := stream.ReadExact(header);
    if failed.Some? {
      return Failure(FromIo(failed.value));
    }
    var length := FromBigEndian(header[..]);
    if length == 0 {
      return Success(QuietOk);
    }
    if length > MAX_RESPONSE_BYTES {
      return Failure(ResponseTooLarge(length));
    }
    var body := new byte[length];
    failed := stream.ReadExact(body);
    if failed.Some? {
      return Failure(FromIo(failed.value));
    }
    return Decoded(codec, body[..]);
  }
}
