/** What reading frames recovers: everything that was framed, in order, and nothing
    beyond it. */
module Framing {
  import opened Wrappers
  import opened Errors
  import opened Protocol
  import opened Codec

  function Arrivals(bytes: seq<byte>): (arrivals: seq<Arrival>)
    ensures |arrivals| == |bytes| && forall i | 0 <= i < |bytes| :: arrivals[i] == Data(bytes[i])
  {
    seq(|bytes|, i requires 0 <= i < |bytes| => Data(bytes[i]))
  }

  /** A body behind its length, as the server sends it. */
  function Frame(body: seq<byte>): seq<byte> {
    BigEndian(|body|, 8) + body
  }

  function Frames(bodies: seq<seq<byte>>): seq<byte> {
    if bodies == [] then [] else Frame(bodies[0]) + Frames(bodies[1..])
  }

  predicate Bufferable(bodies: seq<seq<byte>>) {
    forall i | 0 <= i < |bodies| :: |bodies[i]| <= MAX_RESPONSE_BYTES
  }

  /** What a body says: an empty one is a quiet acknowledgement. */
  function Meaning(codec: BodyCodec, body: seq<byte>): Result<Response, Error> {
    if body == [] then Success(QuietOk) else Decoded(codec, body)
  }

  function Meanings(codec: BodyCodec, bodies: seq<seq<byte>>): seq<Result<Response, Error>> {
    if bodies == [] then [] else [Meaning(codec, bodies[0])] + Meanings(codec, bodies[1..])
  }

  /** `n` reads, one after the other. */
  function ReadMany(codec: BodyCodec, incoming: seq<Arrival>, n: nat)
    : (seq<Result<Response, Error>>, seq<Arrival>)
    decreases n
  {
    if n == 0 then ([], incoming)
    else
      var (first, rest) := ReadFrame(codec, incoming);
      var (others, left) := ReadMany(codec, rest, n - 1);
      ([first] + others, left)
  }

  // ----- Exact reads -----

  lemma {:induction false} TakeBytesGets(bytes: seq<byte>, more: seq<Arrival>)
    ensures TakeBytes(Arrivals(bytes) + more, |bytes|) == (Success(bytes), more)
  {
    var incoming := Arrivals(bytes) + more;
    if bytes == [] {
      assert incoming == more;
    } else {
      assert incoming[0] == Data(bytes[0]);
      assert incoming[1..] == Arrivals(bytes[1..]) + more;
      TakeBytesGets(bytes[1..], more);
      assert bytes == [bytes[0]] + bytes[1..];
    }
  }

  lemma {:induction false} TakeBytesStarves(bytes: seq<byte>, n: nat)
    requires |bytes| < n
    ensures TakeBytes(Arrivals(bytes), n) == (Failure(UnexpectedEof), [])
  {
    if bytes != [] {
      assert Arrivals(bytes)[1..] == Arrivals(bytes[1..]);
      TakeBytesStarves(bytes[1..], n - 1);
    }
  }

  /** A fault ends a read, and what was taken in front of it is lost. */
  lemma {:induction false} TakeBytesFaults(bytes: seq<byte>, n: nat, e: IoFailure, more: seq<Arrival>)
    requires |bytes| < n
    ensures TakeBytes(Arrivals(bytes) + [Fault(e)] + more, n) == (Failure(e), more)
  {
    var incoming := Arrivals(bytes) + [Fault(e)] + more;
    if bytes == [] {
      assert incoming[0] == Fault(e) && incoming[1..] == more;
    } else {
      assert incoming[0] == Data(bytes[0]);
      assert incoming[1..] == Arrivals(bytes[1..]) + [Fault(e)] + more;
      TakeBytesFaults(bytes[1..], n - 1, e, more);
    }
  }

  /** A read that succeeds found its bytes at the front. */
  lemma {:induction false} TakeBytesFound(incoming: seq<Arrival>, n: nat)
    ensures var (r, rest) := TakeBytes(incoming, n);
            r.Success? ==> |r.value| == n && incoming == Arrivals(r.value) + rest
  {
    if n > 0 && incoming != [] && incoming[0].Data? {
      TakeBytesFound(incoming[1..], n - 1);
      var (r, rest) := TakeBytes(incoming[1..], n - 1);
      if r.Success? {
        var bytes := [incoming[0].value] + r.value;
        assert Arrivals(bytes) == [incoming[0]] + Arrivals(r.value);
        assert incoming == [incoming[0]] + incoming[1..];
      }
    }
  }

  lemma ArrivalsConcat(a: seq<byte>, b: seq<byte>)
    ensures Arrivals(a + b) == Arrivals(a) + Arrivals(b)
  {
  }

  lemma LengthReads(body: seq<byte>)
    requires |body| <= MAX_RESPONSE_BYTES
    ensures FromBigEndian(BigEndian(|body|, 8)) == |body|
  {
    LimitFitsLength();
    BigEndianReads(|body|, 8);
  }

  // ----- Reads among faults -----

  /** The data that arrives, with the faults left out. */
  function Bytes(incoming: seq<Arrival>): seq<byte> {
    if incoming == [] then []
    else (if incoming[0].Data? then [incoming[0].value] else []) + Bytes(incoming[1..])
  }

  /** What is left of some data once its front has been taken. */
  predicate EndOf(left: seq<byte>, data: seq<byte>) {
    |left| <= |data| && left == data[|data| - |left|..]
  }

  /** The next `n` arrivals are all data. */
  predicate FaultFree(incoming: seq<Arrival>, n: nat) {
    n <= |incoming| && forall k | 0 <= k < n :: incoming[k].Data?
  }

  lemma {:induction false} BytesOfArrivals(bytes: seq<byte>, more: seq<Arrival>)
    ensures Bytes(Arrivals(bytes) + more) == bytes + Bytes(more)
    ensures FaultFree(Arrivals(bytes) + more, |bytes|)
  {
    if bytes == [] {
      assert Arrivals(bytes) + more == more;
    } else {
      assert (Arrivals(bytes) + more)[1..] == Arrivals(bytes[1..]) + more;
      BytesOfArrivals(bytes[1..], more);
      assert bytes == [bytes[0]] + bytes[1..];
    }
  }

  /** How far a read gets: it always leaves an end of the data, it succeeds exactly when
      no fault is in its way, it takes less than it wanted when it fails, and nothing
      exactly when it meets a fault or the end at once. */
  lemma {:induction false} TakeBytesConsumes(incoming: seq<Arrival>, n: nat)
    ensures var (r, rest) := TakeBytes(incoming, n);
            var data, left := Bytes(incoming), Bytes(rest);
            EndOf(left, data) &&
            (r.Success? <==> FaultFree(incoming, n)) &&
            (r.Success? ==> |left| == |data| - n && r.value == data[..n] && rest == incoming[n..]) &&
            (r.Failure? ==> |data| - |left| < n) &&
            (|left| == |data| <==> n == 0 || incoming == [] || incoming[0].Fault?)
  {
    if n > 0 && incoming != [] {
      var tail := incoming[1..];
      if incoming[0].Data? {
        TakeBytesConsumes(tail, n - 1);
        FaultFreeStep(incoming, n);
        var (r, rest) := TakeBytes(tail, n - 1);
        assert Bytes(incoming)[1..] == Bytes(tail);
        DataDropped(incoming[0].value, Bytes(tail), |Bytes(rest)|);
        if r.Success? {
          assert incoming[n..] == tail[n - 1..];
          assert Bytes(incoming)[..n] == [incoming[0].value] + Bytes(tail)[..n - 1];
        }
      }
    }
  }

  lemma FaultFreeStep(incoming: seq<Arrival>, n: nat)
    requires n > 0 && incoming != [] && incoming[0].Data?
    ensures FaultFree(incoming, n) <==> FaultFree(incoming[1..], n - 1)
  {
    assert forall k | 1 <= k < |incoming| :: incoming[k] == incoming[1..][k - 1];
    assert forall k | 0 <= k < |incoming| - 1 :: incoming[1..][k] == incoming[k + 1];
  }

  lemma DataDropped(b: byte, data: seq<byte>, left: nat)
    requires left <= |data|
    ensures ([b] + data)[1 + |data| - left..] == data[|data| - left..]
  {
  }

  lemma FaultFreeSplits(incoming: seq<Arrival>, a: nat, b: nat)
    requires a <= |incoming|
    ensures FaultFree(incoming, a + b) <==> FaultFree(incoming, a) && FaultFree(incoming[a..], b)
    ensures FaultFree(incoming, a + b) ==> a + b <= |incoming|
  {
    assert forall k | 0 <= k < |incoming| - a :: incoming[a..][k] == incoming[a + k];
    assert forall k | a <= k < |incoming| :: incoming[k] == incoming[a..][k - a];
  }

  // ----- One frame -----

  /** A framed body of at most 512 MiB is read back, and the reader stops right behind it. */
  lemma ReadFrameGets(codec: BodyCodec, body: seq<byte>, more: seq<Arrival>)
    requires |body| <= 536_870_912
    ensures ReadFrame(codec, Arrivals(Frame(body)) + more) == (Meaning(codec, body), more)
  {
    hide BigEndian, FromBigEndian, TakeBytes;
    var header := BigEndian(|body|, 8);
    ArrivalsConcat(header, body);
    assert Arrivals(Frame(body)) + more == Arrivals(header) + (Arrivals(body) + more);
    TakeBytesGets(header, Arrivals(body) + more);
    TakeBytesGets(body, more);
    LengthReads(body);
    assert Arrivals([]) + more == more;
  }

  /** A fault inside a body leaves the reader right behind the fault. */
  lemma FaultInBody(codec: BodyCodec, n: nat, part: seq<byte>, e: IoFailure, more: seq<Arrival>)
    requires |part| < n <= MAX_RESPONSE_BYTES
    ensures ReadFrame(codec, Arrivals(BigEndian(n, 8) + part) + [Fault(e)] + more) == (Failure(FromIo(e)), more)
  {
    hide BigEndian, FromBigEndian, TakeBytes, Pow256;
    var header := BigEndian(n, 8);
    ArrivalsConcat(header, part);
    assert Arrivals(header + part) + [Fault(e)] + more == Arrivals(header) + (Arrivals(part) + [Fault(e)] + more);
    TakeBytesGets(header, Arrivals(part) + [Fault(e)] + more);
    TakeBytesFaults(part, n, e, more);
    LimitFitsLength();
    BigEndianReads(n, 8);
  }

  /** The reader consumed exactly the frame of `body` and made of it what it says. */
  ghost predicate Consumed(codec: BodyCodec, incoming: seq<Arrival>, body: seq<byte>,
                           r: Result<Response, Error>, rest: seq<Arrival>)
  {
    |body| <= MAX_RESPONSE_BYTES && incoming == Arrivals(Frame(body)) + rest && r == Meaning(codec, body)
  }

  /** The connection failed under a read, or announced more than will be buffered. */
  predicate LostFrame(r: Result<Response, Error>) {
    r.Failure? && (r.error.Io? || r.error.ConnectionClosed? || r.error.ResponseTooLarge?)
  }

  /** Whatever arrives: one read consumes exactly one whole frame unless it reports a
      failed connection or an oversized length, and then it consumes no whole frame. */
  lemma ReadFrameConsumes(codec: BodyCodec, incoming: seq<Arrival>)
    ensures var (r, rest) := ReadFrame(codec, incoming);
            !LostFrame(r) <==> exists body :: Consumed(codec, incoming, body, r, rest)
  {
    hide BigEndian, FromBigEndian, TakeBytes;
    var (r, rest) := ReadFrame(codec, incoming);
    if !LostFrame(r) {
      var body := FrameFound(codec, incoming);
    }
  }

  lemma FrameFound(codec: BodyCodec, incoming: seq<Arrival>) returns (body: seq<byte>)
    requires !LostFrame(ReadFrame(codec, incoming).0)
    ensures var (r, rest) := ReadFrame(codec, incoming); Consumed(codec, incoming, body, r, rest)
  {
    hide BigEndian, FromBigEndian, TakeBytes;
    var (header, rest) := TakeBytes(incoming, 8);
    TakeBytesFound(incoming, 8);
    BigEndianWrites(header.value);
    var length := FromBigEndian(header.value);
    if length == 0 {
      body := [];
      assert header.value + [] == header.value;
    } else {
      var (read, left) := TakeBytes(rest, length);
      TakeBytesFound(rest, length);
      body := read.value;
      ArrivalsConcat(header.value, body);
      assert incoming == Arrivals(header.value + body) + left;
    }
  }

  /** What the next read does to a stream whose data begins with the frame of `answer`:
      it takes exactly that frame if and only if the answer is not too long to buffer and
      no fault comes before the end of the frame, and then it returns what the answer
      says, while otherwise it reports that the frame is lost; it takes nothing if and only
      if a fault comes first; and in every other case it stops somewhere inside the frame. */
  lemma ReadFrameExactly(codec: BodyCodec, incoming: seq<Arrival>, answer: seq<byte>, later: seq<byte>)
    requires Bytes(incoming) == Frame(answer) + later && |answer| < Pow256(8)
    ensures var (r, rest) := ReadFrame(codec, incoming);
            var data, left := Bytes(incoming), Bytes(rest);
            |later| <= |left| && EndOf(left, data) &&
            (left == later <==> |answer| <= 536_870_912 && FaultFree(incoming, |Frame(answer)|)) &&
            (left == later <==> !LostFrame(r)) &&
            (left == later ==> r == Meaning(codec, answer) && rest == incoming[|Frame(answer)|..]) &&
            (left == data <==> incoming != [] && incoming[0].Fault?)
  {
    hide BigEndian, FromBigEndian, TakeBytes, Bytes, Pow256, FaultFree, ReadFrame, EndOf, Meaning;
    var header := BigEndian(|answer|, 8);
    NoDataNoArrivals(incoming);
    TakeExactly(incoming, header, answer + later);
    assert Bytes(incoming) == header + (answer + later);
    var (h, rest) := TakeBytes(incoming, 8);
    ReadsOn(codec, incoming, answer);
    if h.Success? {
      TakeExactly(rest, answer, later);
      FaultFreeSplits(incoming, 8, |answer|);
      EndOfEnd(Bytes(TakeBytes(rest, |answer|).1), answer + later, Bytes(incoming));
      SameEnd(Bytes(ReadFrame(codec, incoming).1), later, Bytes(incoming));
    } else {
      ShorterFaults(incoming, 8, |Frame(answer)|);
    }
  }

  /** What a read does behind the length it was given. */
  lemma ReadsOn(codec: BodyCodec, incoming: seq<Arrival>, answer: seq<byte>)
    requires |answer| < Pow256(8)
    ensures var (h, rest) := TakeBytes(incoming, 8);
            var (body, left) := TakeBytes(rest, |answer|);
            (h.Failure? ==> ReadFrame(codec, incoming) == (Failure(FromIo(h.error)), rest)) &&
            (h == Success(BigEndian(|answer|, 8)) && |answer| > MAX_RESPONSE_BYTES ==>
               ReadFrame(codec, incoming) == (Failure(ResponseTooLarge(|answer|)), rest)) &&
            (h == Success(BigEndian(|answer|, 8)) && |answer| <= MAX_RESPONSE_BYTES && body.Failure? ==>
               ReadFrame(codec, incoming) == (Failure(FromIo(body.error)), left)) &&
            (h == Success(BigEndian(|answer|, 8)) && |answer| <= MAX_RESPONSE_BYTES && body == Success(answer) ==>
               ReadFrame(codec, incoming) == (Meaning(codec, answer), left)) &&
            !LostFrame(Meaning(codec, answer))
  {
    hide BigEndian, FromBigEndian, TakeBytes, Pow256;
    BigEndianReads(|answer|, 8);
    TakeNothing(TakeBytes(incoming, 8).1);
  }

  lemma EndOfEnd(left: seq<byte>, middle: seq<byte>, data: seq<byte>)
    requires EndOf(left, middle) && EndOf(middle, data)
    ensures EndOf(left, data)
  {
  }

  /** Two ends of the same data differ only in length. */
  lemma SameEnd(left: seq<byte>, later: seq<byte>, data: seq<byte>)
    requires EndOf(left, data) && EndOf(later, data)
    ensures left == later <==> |left| == |later|
  {
  }

  /** A read of `wanted` where the data begins with it. */
  lemma TakeExactly(incoming: seq<Arrival>, wanted: seq<byte>, later: seq<byte>)
    requires Bytes(incoming) == wanted + later
    ensures var (r, rest) := TakeBytes(incoming, |wanted|);
            var data, left := Bytes(incoming), Bytes(rest);
            |later| <= |left| && EndOf(left, data) &&
            (r.Success? <==> FaultFree(incoming, |wanted|)) &&
            (FaultFree(incoming, |wanted|) ==> |wanted| <= |incoming|) &&
            (r.Success? ==> r.value == wanted && left == later && rest == incoming[|wanted|..]) &&
            (r.Failure? ==> |left| > |later|) &&
            (|left| == |data| <==> wanted == [] || incoming == [] || incoming[0].Fault?)
  {
    TakeBytesConsumes(incoming, |wanted|);
    assert (wanted + later)[..|wanted|] == wanted && (wanted + later)[|wanted|..] == later;
  }

  lemma NoDataNoArrivals(incoming: seq<Arrival>)
    ensures Bytes(incoming) != [] ==> incoming != []
  {
  }

  lemma TakeNothing(incoming: seq<Arrival>)
    ensures TakeBytes(incoming, 0) == (Success([]), incoming)
  {
  }

  lemma ShorterFaults(incoming: seq<Arrival>, n: nat, m: nat)
    requires n <= m && !FaultFree(incoming, n)
    ensures !FaultFree(incoming, m)
  {
  }

  // ----- Many frames -----

  lemma {:induction false} MeaningsAt(codec: BodyCodec, bodies: seq<seq<byte>>)
    ensures |Meanings(codec, bodies)| == |bodies|
    ensures forall i | 0 <= i < |bodies| :: Meanings(codec, bodies)[i] == Meaning(codec, bodies[i])
  {
    if bodies != [] {
      MeaningsAt(codec, bodies[1..]);
    }
  }

  /** Reading any concatenation of frames gives exactly what they say, in order, and
      leaves exactly what followed them. */
  lemma {:induction false} ReadManyGets(codec: BodyCodec, bodies: seq<seq<byte>>, more: seq<Arrival>)
    requires Bufferable(bodies)
    ensures ReadMany(codec, Arrivals(Frames(bodies)) + more, |bodies|) == (Meanings(codec, bodies), more)
  {
    var incoming := Arrivals(Frames(bodies)) + more;
    if bodies == [] {
      assert incoming == more;
    } else {
      var left := Arrivals(Frames(bodies[1..])) + more;
      ArrivalsConcat(Frame(bodies[0]), Frames(bodies[1..]));
      assert incoming == Arrivals(Frame(bodies[0])) + left;
      assert |bodies[0]| <= MAX_RESPONSE_BYTES;
      ReadFrameGets(codec, bodies[0], left);
      assert forall i | 0 <= i < |bodies[1..]| :: bodies[1..][i] == bodies[i + 1];
      ReadManyGets(codec, bodies[1..], more);
    }
  }

  /** `encode` is undone by the codec on these responses, in bodies that fit a frame. */
  ghost predicate Carries(codec: BodyCodec, encode: Response -> seq<byte>, responses: seq<Response>) {
    forall i | 0 <= i < |responses| ::
      var body := encode(responses[i]);
      0 < |body| <= MAX_RESPONSE_BYTES && codec.decode(body) == Some(responses[i])
  }

  function Bodies(encode: Response -> seq<byte>, responses: seq<Response>): (bodies: seq<seq<byte>>)
    ensures |bodies| == |responses| && forall i | 0 <= i < |bodies| :: bodies[i] == encode(responses[i])
  {
    seq(|responses|, i requires 0 <= i < |responses| => encode(responses[i]))
  }

  /** Responses sent as frames are received as sent. */
  lemma ResponsesRoundTrip(codec: BodyCodec, encode: Response -> seq<byte>, responses: seq<Response>,
                           more: seq<Arrival>)
    requires Carries(codec, encode, responses)
    ensures var (read, rest) := ReadMany(codec, Arrivals(Frames(Bodies(encode, responses))) + more, |responses|);
            rest == more && |read| == |responses| &&
            forall i | 0 <= i < |responses| :: read[i] == Success(responses[i])
  {
    var bodies := Bodies(encode, responses);
    assert forall i | 0 <= i < |bodies| :: bodies[i] == encode(responses[i]);
    ReadManyGets(codec, bodies, more);
    MeaningsAt(codec, bodies);
  }

  // ----- Streams cut short -----

  /** A frame cut short reads as a closed connection, and so does everything after. */
  lemma PartialFrameCloses(codec: BodyCodec, body: seq<byte>, n: nat)
    requires |body| <= MAX_RESPONSE_BYTES && n < |Frame(body)|
    ensures ReadFrame(codec, Arrivals(Frame(body)[..n])) == (Failure(ConnectionClosed), [])
  {
    hide BigEndian, FromBigEndian, TakeBytes;
    var header := BigEndian(|body|, 8);
    if n < 8 {
      TakeBytesStarves(Frame(body)[..n], 8);
    } else {
      var part := body[..n - 8];
      assert Frame(body)[..n] == header + part;
      ArrivalsConcat(header, part);
      TakeBytesGets(header, Arrivals(part));
      LengthReads(body);
      TakeBytesStarves(part, |body|);
    }
  }

  /** A proper prefix of a concatenation of frames is some whole frames and part of the next. */
  lemma {:induction false} PrefixOfFrames(bodies: seq<seq<byte>>, cut: nat) returns (whole: nat, part: nat)
    requires cut < |Frames(bodies)|
    ensures whole < |bodies| && part < |Frame(bodies[whole])|
    ensures Frames(bodies)[..cut] == Frames(bodies[..whole]) + Frame(bodies[whole])[..part]
  {
    var first := Frame(bodies[0]);
    if cut < |first| {
      whole, part := 0, cut;
    } else {
      var rest := bodies[1..];
      var w, p := PrefixOfFrames(rest, cut - |first|);
      whole, part := w + 1, p;
      assert bodies[..whole] == [bodies[0]] + rest[..w];
      assert Frames(bodies)[..cut] == first + Frames(rest)[..cut - |first|];
      assert ([bodies[0]] + rest[..w])[1..] == rest[..w];
      assert first + (Frames(rest[..w]) + Frame(rest[w])[..p]) == first + Frames(rest[..w]) + Frame(rest[w])[..p];
    }
  }

  lemma {:induction false} ReadManySplits(codec: BodyCodec, incoming: seq<Arrival>, a: nat, b: nat)
    ensures var (first, rest) := ReadMany(codec, incoming, a);
            var (second, left) := ReadMany(codec, rest, b);
            ReadMany(codec, incoming, a + b) == (first + second, left)
    decreases a
  {
    hide ReadFrame;
    if a == 0 {
      var (second, left) := ReadMany(codec, incoming, b);
      assert [] + second == second;
    } else {
      var (one, after) := ReadFrame(codec, incoming);
      ReadManySplits(codec, after, a - 1, b);
      var (first, rest) := ReadMany(codec, after, a - 1);
      var (second, left) := ReadMany(codec, rest, b);
      assert [one] + (first + second) == [one] + first + second;
    }
  }

  lemma OneRead(codec: BodyCodec, incoming: seq<Arrival>)
    ensures var (r, rest) := ReadFrame(codec, incoming); ReadMany(codec, incoming, 1) == ([r], rest)
  {
    hide ReadFrame;
    var (r, rest) := ReadFrame(codec, incoming);
    assert ReadMany(codec, rest, 0) == ([], rest);
    assert [r] + [] == [r];
  }

  /** A stream of frames cut anywhere short of its end gives the complete responses and
      then a closed connection. */
  lemma CutStreamCloses(codec: BodyCodec, bodies: seq<seq<byte>>, cut: nat)
    requires Bufferable(bodies) && cut < |Frames(bodies)|
    ensures exists whole: nat :: whole < |bodies| && |Frames(bodies[..whole])| <= cut &&
              ReadMany(codec, Arrivals(Frames(bodies)[..cut]), whole + 1) ==
              (Meanings(codec, bodies[..whole]) + [Failure(ConnectionClosed)], [])
  {
    var whole, part := PrefixOfFrames(bodies, cut);
    var tail := Frame(bodies[whole])[..part];
    ArrivalsConcat(Frames(bodies[..whole]), tail);
    ReadManyGets(codec, bodies[..whole], Arrivals(tail));
    PartialFrameCloses(codec, bodies[whole], part);
    ReadManySplits(codec, Arrivals(Frames(bodies)[..cut]), whole, 1);
    OneRead(codec, Arrivals(tail));
  }
}
