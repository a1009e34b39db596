/** Requests and answers: when the answer that is read is the answer to the request that
    was sent, over a connection that may fail anywhere and from a server that may leave any
    request unanswered.

    `replies[n]` is the body the server sends for the n-th request that was begun, if it
    sends one; for requests beyond the last of them it sends nothing. */
module SessionPace {
  import opened Wrappers
  import opened Errors
  import opened Text
  import opened Protocol
  import opened Codec
  import opened Framing
  import opened Session
  import opened SessionLaws

  // ----- What the server sends -----

  type Replies = seq<Option<seq<byte>>>

  /** The answers in the order they are sent. */
  function Sent(replies: Replies): seq<seq<byte>> {
    if replies == [] then []
    else (if replies[0].Some? then [replies[0].value] else []) + Sent(replies[1..])
  }

  predicate Answered(replies: Replies, n: nat) {
    n < |replies| && replies[n].Some?
  }

  /** How many of the first `n` requests are answered. */
  function Due(replies: Replies, n: nat): nat {
    |Sent(if n < |replies| then replies[..n] else replies)|
  }

  lemma {:induction false} SentSplits(replies: Replies, n: nat)
    requires n <= |replies|
    ensures Sent(replies) == Sent(replies[..n]) + Sent(replies[n..])
  {
    if n == 0 {
      assert replies[0..] == replies && replies[..0] == [];
    } else {
      assert replies[..n][1..] == replies[1..][..n - 1] && replies[n..] == replies[1..][n - 1..];
      SentSplits(replies[1..], n - 1);
    }
  }

  /** The answer to request `n` is sent behind those to the requests before it. */
  lemma DueSteps(replies: Replies, n: nat)
    ensures Due(replies, n + 1) == Due(replies, n) + if Answered(replies, n) then 1 else 0
    ensures Due(replies, n) <= |Sent(replies)|
    ensures Answered(replies, n) ==>
              Due(replies, n) < |Sent(replies)| && Sent(replies)[Due(replies, n)] == replies[n].value
  {
    if n < |replies| {
      SentSplits(replies, n);
      SentSplits(replies, n + 1);
      SentSplits(replies[n..], 1);
      assert replies[n..][..1] == [replies[n]] && replies[n..][1..] == replies[n + 1..];
      assert Sent([replies[n]]) == (if replies[n].Some? then [replies[n].value] else []) + Sent([]);
      if n + 1 == |replies| {
        assert replies[..n + 1] == replies;
      }
    }
  }

  /** The answers can be announced in an 8-byte length. */
  predicate Announceable(answers: seq<seq<byte>>) {
    forall i | 0 <= i < |answers| :: |answers[i]| < Pow256(8)
  }

  /** The unread data are the answers from the `k`-th onward. */
  predicate At(incoming: seq<Arrival>, answers: seq<seq<byte>>, k: int) {
    0 <= k <= |answers| && Bytes(incoming) == Frames(answers[k..])
  }

  /** Of the answers to the requests begun so far, all but `lag` have been read. With a lag
      of zero, exactly the answers to earlier requests have: the session is in step. A
      negative lag has read answers to requests still to come. */
  predicate Trails(s: State, replies: Replies, lag: int) {
    At(s.incoming, Sent(replies), Due(replies, |s.log|) - lag)
  }

  // ----- One exchange -----

  /** An exchange that takes the whole `k`-th answer: its write is accepted, the answer can
      be buffered, and no fault comes before the end of its frame. */
  predicate Takes(incoming: seq<Arrival>, writes: seq<WriteOutcome>, answers: seq<seq<byte>>, k: int) {
    0 <= k < |answers| && NextOutcome(writes).Accepted? && |answers[k]| <= 536_870_912 &&
    FaultFree(incoming, |Frame(answers[k])|)
  }

  /** An exchange that takes no data: its write breaks off, or a fault or the end of the
      input is what it meets first. */
  predicate TakesNothing(incoming: seq<Arrival>, writes: seq<WriteOutcome>) {
    !NextOutcome(writes).Accepted? || incoming == [] || incoming[0].Fault?
  }

  lemma FramesFirst(bodies: seq<seq<byte>>, i: nat)
    requires i < |bodies|
    ensures Frames(bodies[i..]) == Frame(bodies[i]) + Frames(bodies[i + 1..])
    ensures Frames(bodies[i..i + 1]) == Frame(bodies[i])
  {
    assert bodies[i..][1..] == bodies[i + 1..];
    assert bodies[i..i + 1][1..] == [];
  }

  lemma {:induction false} FramesShrink(bodies: seq<seq<byte>>, i: nat, j: nat)
    requires i < j <= |bodies|
    ensures |Frames(bodies[i..])| > |Frames(bodies[j..])|
    decreases j - i
  {
    hide Frames, Frame;
    FramesFirst(bodies, i);
    FrameIsLong(bodies[i]);
    if i + 1 < j {
      FramesShrink(bodies, i + 1, j);
    }
  }

  lemma FrameIsLong(body: seq<byte>)
    ensures |Frame(body)| >= 8
  {
  }

  /** A session is at one place only. */
  lemma AtOnce(incoming: seq<Arrival>, answers: seq<seq<byte>>, j: int, k: int)
    requires At(incoming, answers, j) && At(incoming, answers, k)
    ensures j == k
  {
    hide Frames, Bytes;
    if j < k {
      FramesShrink(answers, j, k);
    } else if k < j {
      FramesShrink(answers, k, j);
    }
  }

  lemma ReadNothing(codec: BodyCodec, incoming: seq<Arrival>)
    requires incoming == [] || incoming[0].Fault?
    ensures var (reply, rest) := ReadFrame(codec, incoming);
            LostFrame(reply) && Bytes(rest) == Bytes(incoming) &&
            rest == if incoming == [] then [] else incoming[1..]
  {
  }

  lemma NoDataNothingFirst(incoming: seq<Arrival>)
    requires Bytes(incoming) == []
    ensures incoming == [] || incoming[0].Fault?
  {
  }

  /** What is left to read once an exchange has taken the `k`-th answer, or nothing. */
  function Past(incoming: seq<Arrival>, writes: seq<WriteOutcome>, taken: Option<seq<byte>>): seq<Arrival>
    requires taken.Some? ==> |Frame(taken.value)| <= |incoming|
  {
    if taken.Some? then incoming[|Frame(taken.value)|..]
    else if NextOutcome(writes).Accepted? && incoming != [] then incoming[1..]
    else incoming
  }

  /** Where an exchange leads from answer `k`: to the next answer exactly when it takes this
      one, nowhere exactly when it takes nothing, and neither further nor back. */
  lemma FetchMoves(codec: BodyCodec, incoming: seq<Arrival>, writes: seq<WriteOutcome>, answers: seq<seq<byte>>,
                   k: int)
    requires At(incoming, answers, k) && Announceable(answers)
    ensures var (reply, rest) := Fetched(codec, incoming, NextOutcome(writes));
            (At(rest, answers, k + 1) <==> Takes(incoming, writes, answers, k)) &&
            (At(rest, answers, k) <==> TakesNothing(incoming, writes)) &&
            !At(rest, answers, k - 1) && !At(rest, answers, k + 2) &&
            (Takes(incoming, writes, answers, k) <==> !LostFrame(reply)) &&
            (Takes(incoming, writes, answers, k) ==>
               reply == Meaning(codec, answers[k]) && rest == incoming[|Frame(answers[k])|..]) &&
            (TakesNothing(incoming, writes) ==> rest == Past(incoming, writes, None))
  {
    hide ReadFrame, Frame, Meaning, Bytes, Pow256, Frames, FaultFree;
    var (reply, rest) := Fetched(codec, incoming, NextOutcome(writes));
    if k > 0 {
      FramesShrink(answers, k - 1, k);
    }
    if !NextOutcome(writes).Accepted? {
      StaysAt(incoming, answers, k);
    } else if k == |answers| {
      assert answers[k..] == [];
      FramesOfNone();
      NoDataNothingFirst(incoming);
      ReadNothing(codec, incoming);
    } else {
      ReadMoves(codec, incoming, answers, k);
      if incoming == [] || incoming[0].Fault? {
        ReadNothing(codec, incoming);
      }
    }
  }

  lemma FramesOfNone()
    ensures Frames([]) == []
  {
  }

  lemma StaysAt(incoming: seq<Arrival>, answers: seq<seq<byte>>, k: int)
    requires At(incoming, answers, k)
    ensures forall j :: At(incoming, answers, j) <==> j == k
  {
    hide At;
    forall j | At(incoming, answers, j) ensures j == k {
      AtOnce(incoming, answers, j, k);
    }
  }

  /** The same for a read among answers still to come. */
  lemma ReadMoves(codec: BodyCodec, incoming: seq<Arrival>, answers: seq<seq<byte>>, k: int)
    requires At(incoming, answers, k) && Announceable(answers) && k < |answers|
    ensures var (reply, rest) := ReadFrame(codec, incoming);
            var whole := |answers[k]| <= 536_870_912 && FaultFree(incoming, |Frame(answers[k])|);
            incoming != [] && EndOf(Bytes(rest), Bytes(incoming)) &&
            (At(rest, answers, k + 1) <==> whole) &&
            (At(rest, answers, k) <==> incoming[0].Fault?) &&
            !At(rest, answers, k - 1) && !At(rest, answers, k + 2) &&
            (whole <==> !LostFrame(reply)) &&
            (whole ==> reply == Meaning(codec, answers[k]) && rest == incoming[|Frame(answers[k])|..])
  {
    hide ReadFrame, Frame, Meaning, Bytes, Pow256, Frames, FaultFree;
    var later := Frames(answers[k + 1..]);
    FramesFirst(answers, k);
    FrameIsLong(answers[k]);
    assert Bytes(incoming) == Frame(answers[k]) + later;
    NoDataNoArrivals(incoming);
    ReadFrameExactly(codec, incoming, answers[k], later);
    if k > 0 {
      FramesShrink(answers, k - 1, k);
    }
    if k + 2 <= |answers| {
      FramesShrink(answers, k + 1, k + 2);
    }
  }

  /** Request `n` keeps the pace: it takes its answer, or it has none and takes nothing. */
  predicate Paced(incoming: seq<Arrival>, writes: seq<WriteOutcome>, replies: Replies, lag: int, n: nat) {
    if Answered(replies, n) then Takes(incoming, writes, Sent(replies), Due(replies, n) - lag)
    else TakesNothing(incoming, writes)
  }

  /** The answer `lag` places back from the one request `n` is owed. */
  function AnswerTo(replies: Replies, lag: int, n: nat): Option<seq<byte>> {
    var k := Due(replies, n) - lag;
    if Answered(replies, n) && 0 <= k < |Sent(replies)| then Some(Sent(replies)[k]) else None
  }

  /** In step, that is what the server sends for the request itself. */
  lemma OwnAnswer(replies: Replies, n: nat)
    ensures AnswerTo(replies, 0, n) == if n < |replies| then replies[n] else None
  {
    DueSteps(replies, n);
  }

  predicate Tells(codec: BodyCodec, reply: Result<Response, Error>, answer: Option<seq<byte>>) {
    match answer
    case None => LostFrame(reply)
    case Some(body) => reply == Meaning(codec, body)
  }

  /** An exchange leaves the session as far behind as it was if and only if it takes the
      answer, or none is sent and it takes nothing. It falls one further behind if and only
      if an answer is sent and it takes nothing, and comes one nearer if and only if it
      takes an answer and none is sent. */
  lemma ExchangePace(codec: BodyCodec, s: State, t: State, replies: Replies, lag: int)
    requires Exchanged(codec, s, t) && Trails(s, replies, lag) && Announceable(Sent(replies))
    ensures var n, answers := |s.log|, Sent(replies);
            var k, reply := Due(replies, n) - lag, t.log[n].reply;
            var takes, nothing := Takes(s.incoming, s.writes, answers, k), TakesNothing(s.incoming, s.writes);
            (Trails(t, replies, lag) <==> if Answered(replies, n) then takes else nothing) &&
            (Trails(t, replies, lag + 1) <==> Answered(replies, n) && nothing) &&
            (Trails(t, replies, lag - 1) <==> !Answered(replies, n) && takes) &&
            (takes <==> !LostFrame(reply)) &&
            (takes ==> reply == Meaning(codec, answers[k]))
    ensures Paced(s.incoming, s.writes, replies, lag, |s.log|) ==>
              var answer := AnswerTo(replies, lag, |s.log|);
              Tells(codec, t.log[|s.log|].reply, answer) &&
              (answer.Some? ==> |Frame(answer.value)| <= |s.incoming|) &&
              t.incoming == Past(s.incoming, s.writes, answer)
  {
    hide Fetched, Meaning, Frame, At, TakesNothing, LostFrame, Sent, Due, Pow256;
    var n := |s.log|;
    var k := Due(replies, n) - lag;
    FetchMoves(codec, s.incoming, s.writes, Sent(replies), k);
    DueSteps(replies, n);
    TakesExcludesNothing(s.incoming, s.writes, Sent(replies), k);
  }

  lemma TakesExcludesNothing(incoming: seq<Arrival>, writes: seq<WriteOutcome>, answers: seq<seq<byte>>, k: int)
    ensures Takes(incoming, writes, answers, k) ==>
              !TakesNothing(incoming, writes) && |Frame(answers[k])| <= |incoming|
  {
    if 0 <= k < |answers| {
      FrameIsLong(answers[k]);
    }
  }

  /** A first answer of nine bytes with a fault behind the first of them, and an empty
      second answer. */
  function Realigning(): seq<Arrival> {
    Arrivals(BigEndian(9, 8) + [0]) + [Fault(OtherFailure)] + Arrivals(BigEndian(8, 8) + Frame([]))
  }

  /** A fault inside a frame can be made up for by accident: the second read takes the end
      of the first answer for a length, and stops where the second frame does. */
  lemma SecondReadRealigns(codec: BodyCodec, s: State, t: State, u: State)
    requires s.incoming == Realigning() && s.writes == [] && s.log == []
    requires Exchanged(codec, s, t) && Exchanged(codec, t, u)
    ensures var replies := [Some([0] + BigEndian(8, 8)), Some([])];
            Trails(s, replies, 0) && !Trails(t, replies, 0) && Trails(u, replies, 0)
  {
    hide BigEndian, Bytes, TakeBytes, FromBigEndian, ReadFrame;
    var long: seq<byte> := [0] + BigEndian(8, 8);
    var answers: seq<seq<byte>> := [long, []];
    var part, tail := BigEndian(9, 8) + [0], BigEndian(8, 8) + Frame([]);
    var more := Arrivals(tail);
    var behind := [Fault(OtherFailure)] + more;
    TwoSent(long, []);
    assert s.incoming == Arrivals(part) + [Fault(OtherFailure)] + more;
    assert s.incoming == Arrivals(part) + behind;
    FramesFirst(answers, 0);
    FramesFirst(answers, 1);
    assert answers[0..] == answers && answers[1..] == [[]] && answers[2..] == [];
    assert Frames(answers) == part + tail;
    BytesOfArrivals(part, behind);
    BytesBehindFault(OtherFailure, tail);
    FaultInBody(codec, 9, [0], OtherFailure, more);
    assert t.incoming == more + [];
    ReadFrameGets(codec, Frame([]), []);
    assert u.incoming == [];
  }

  /** Two answers, one to each of two requests. */
  lemma TwoSent(a: seq<byte>, b: seq<byte>)
    ensures var replies := [Some(a), Some(b)];
            Sent(replies) == [a, b] && Due(replies, 0) == 0 && Due(replies, 1) == 1 && Due(replies, 2) == 2
  {
    var replies: Replies := [Some(a), Some(b)];
    assert replies[1..] == [Some(b)] && replies[1..][1..] == [];
    assert Sent([Some(b)]) == [b] + Sent([]);
    DueSteps(replies, 0);
    DueSteps(replies, 1);
  }

  lemma BytesBehindFault(e: IoFailure, tail: seq<byte>)
    ensures Bytes([Fault(e)] + Arrivals(tail)) == tail && Bytes(Arrivals(tail)) == tail && Bytes([]) == []
  {
    BytesOfArrivals(tail, []);
    assert Arrivals(tail) + [] == Arrivals(tail);
    assert ([Fault(e)] + Arrivals(tail))[1..] == Arrivals(tail);
  }

  /** So a run can fall out of step and still end in step, and only what holds after every
      call can be told from the input. */
  lemma RealignedByAccident(codec: BodyCodec)
    requires EncodeRequest(codec, DBRequest(DBCommand.Commit, [])).Success?
    ensures var s := State(None, true, Realigning(), [], [], []);
            var replies := [Some([0] + BigEndian(8, 8)), Some([])];
            var (t, u) := (Run(codec, s, [Call.Commit]).0, Run(codec, s, [Call.Commit, Call.Commit]).0);
            |u.log| == 2 && Trails(s, replies, 0) && !Trails(t, replies, 0) && Trails(u, replies, 0)
  {
    hide Step, Trails, BigEndian;
    var s := State(None, true, Realigning(), [], [], []);
    var t := Step(codec, s, Call.Commit).0;
    var u := Step(codec, t, Call.Commit).0;
    SendingExchanges(codec, s, Call.Commit);
    SendingExchanges(codec, t, Call.Commit);
    RunOfOne(codec, s, Call.Commit);
    RunOfTwo(codec, s, Call.Commit, Call.Commit);
    SecondReadRealigns(codec, s, t, u);
  }

  /** A call that is not refused makes one exchange. */
  lemma SendingExchanges(codec: BodyCodec, s: State, call: Call)
    requires !call.SetStatementGuard? && !Refused(codec, s, call)
    ensures Exchanged(codec, s, Step(codec, s, call).0)
  {
    hide Step, Refused, Fetched;
    RefusalIsLocal(codec, s, call);
    StepExchanges(codec, s, call);
  }

  // ----- Runs -----

  /** The session trails by `lag` before, between and after all the calls. */
  predicate KeepsPace(codec: BodyCodec, s: State, calls: seq<Call>, replies: Replies, lag: int)
    decreases |calls|
  {
    Trails(s, replies, lag) &&
    (calls != [] ==> KeepsPace(codec, Step(codec, s, calls[0]).0, calls[1..], replies, lag))
  }

  /** What the input and the writes hold for the `count` requests from request `n` onward:
      for each that is answered an accepted write and a whole frame, and for each that is
      not a broken write, a fault or the end. */
  predicate WayClear(incoming: seq<Arrival>, writes: seq<WriteOutcome>, replies: Replies, lag: int, n: nat, count: nat)
    decreases count
  {
    count > 0 ==>
      Paced(incoming, writes, replies, lag, n) &&
      var answer := AnswerTo(replies, lag, n);
      (answer.Some? ==> |Frame(answer.value)| <= |incoming|) &&
      WayClear(Past(incoming, writes, answer), Later(writes), replies, lag, n + 1, count - 1)
  }

  /** Over every run, whatever the server leaves unanswered: the session trails by the same
      lag after every call if and only if the way is clear for all the requests it sent.
      Then each is answered by the answer `lag` places back, or by a lost frame if the
      server sends it none. In step stays in step, and behind stays behind. */
  lemma {:induction false} PaceKeptExactly(codec: BodyCodec, s: State, calls: seq<Call>, replies: Replies, lag: int)
    requires Trails(s, replies, lag) && Announceable(Sent(replies))
    ensures var t := Run(codec, s, calls).0;
            s.log <= t.log &&
            (KeepsPace(codec, s, calls, replies, lag) <==>
             WayClear(s.incoming, s.writes, replies, lag, |s.log|, |t.log| - |s.log|)) &&
            (KeepsPace(codec, s, calls, replies, lag) ==>
               Trails(t, replies, lag) &&
               forall n | |s.log| <= n < |t.log| :: Tells(codec, t.log[n].reply, AnswerTo(replies, lag, n)))
    decreases |calls|
  {
    hide Step, Trails, Paced, Past, AnswerTo, Tells, Frame, Fetched, Takes, TakesNothing, Sent, Due;
    RunExtendsLog(codec, s, calls);
    if calls != [] {
      var next, t := Step(codec, s, calls[0]).0, Run(codec, s, calls).0;
      RunExtendsLog(codec, next, calls[1..]);
      assert t == Run(codec, next, calls[1..]).0;
      StepExchanges(codec, s, calls[0]);
      if Quiet(s, next) {
        QuietTrails(s, next, replies, lag);
        PaceKeptExactly(codec, next, calls[1..], replies, lag);
      } else {
        ExchangeKeeps(codec, s, next, replies, lag);
        if Trails(next, replies, lag) {
          PaceKeptExactly(codec, next, calls[1..], replies, lag);
          assert next.log[|s.log|] == t.log[|s.log|];
        } else {
          TrailsFirst(codec, next, calls[1..], replies, lag);
        }
      }
    }
  }

  /** One exchange of a run. */
  lemma ExchangeKeeps(codec: BodyCodec, s: State, t: State, replies: Replies, lag: int)
    requires Exchanged(codec, s, t) && Trails(s, replies, lag) && Announceable(Sent(replies))
    ensures Trails(t, replies, lag) <==> Paced(s.incoming, s.writes, replies, lag, |s.log|)
    ensures Paced(s.incoming, s.writes, replies, lag, |s.log|) ==>
              var answer := AnswerTo(replies, lag, |s.log|);
              Tells(codec, t.log[|s.log|].reply, answer) &&
              (answer.Some? ==> |Frame(answer.value)| <= |s.incoming|) &&
              t.incoming == Past(s.incoming, s.writes, answer)
  {
    hide Exchanged, Trails, Takes, TakesNothing, Tells, Past, AnswerTo, Frame, Sent, Due, Announceable;
    ExchangePace(codec, s, t, replies, lag);
  }

  lemma QuietTrails(s: State, t: State, replies: Replies, lag: int)
    requires Quiet(s, t)
    ensures Trails(t, replies, lag) == Trails(s, replies, lag)
  {
  }

  lemma TrailsFirst(codec: BodyCodec, s: State, calls: seq<Call>, replies: Replies, lag: int)
    requires !Trails(s, replies, lag)
    ensures !KeepsPace(codec, s, calls, replies, lag)
  {
    hide Trails, Step;
  }

  // ----- Runs in which every request that arrives is answered -----

  /** The `n` answers from the `from`-th onward can be buffered and lie in front of any
      fault. */
  predicate FramesWhole(incoming: seq<Arrival>, answers: seq<seq<byte>>, from: int, n: nat) {
    0 <= from && from + n <= |answers| &&
    (forall i | from <= i < from + n :: |answers[i]| <= 536_870_912) &&
    FaultFree(incoming, |Frames(answers[from..from + n])|)
  }

  lemma FramesConcat(a: seq<seq<byte>>, b: seq<seq<byte>>)
    ensures Frames(a + b) == Frames(a) + Frames(b)
  {
    if a == [] {
      assert a + b == b;
    } else {
      assert (a + b)[1..] == a[1..] + b;
      FramesConcat(a[1..], b);
    }
  }

  /** They do exactly when the first of them does and, behind it, the others do. */
  lemma FramesWholeSplits(incoming: seq<Arrival>, answers: seq<seq<byte>>, from: int, n: nat)
    requires 0 <= from < |answers|
    ensures FramesWhole(incoming, answers, from, n + 1) <==>
            |answers[from]| <= 536_870_912 && FaultFree(incoming, |Frame(answers[from])|) &&
            |Frame(answers[from])| <= |incoming| &&
            FramesWhole(incoming[|Frame(answers[from])|..], answers, from + 1, n)
  {
    hide Frame, FaultFree;
    if from + n + 1 <= |answers| {
      var first, others := answers[from..from + 1], answers[from + 1..from + 1 + n];
      assert answers[from..from + (n + 1)] == first + others;
      FramesConcat(first, others);
      FramesFirst(answers, from);
      if FaultFree(incoming, |Frame(answers[from])|) {
        FaultFreeFits(incoming, |Frame(answers[from])|);
        FaultFreeSplits(incoming, |Frame(answers[from])|, |Frames(others)|);
      } else {
        ShorterFaults(incoming, |Frame(answers[from])|, |Frames(first + others)|);
      }
    }
  }

  lemma FaultFreeFits(incoming: seq<Arrival>, n: nat)
    requires FaultFree(incoming, n)
    ensures n <= |incoming|
  {
  }

  /** Of the requests from `n` to `end`, the server answers each whose write is accepted. */
  predicate AnswersArrivals(writes: seq<WriteOutcome>, replies: Replies, n: nat, end: nat) {
    forall i | n <= i < end && !Answered(replies, i) :: i - n < |writes| && writes[i - n].Broken?
  }

  /** It answers none whose write broke off. */
  predicate AnswersOnlyArrivals(writes: seq<WriteOutcome>, replies: Replies, n: nat, end: nat) {
    forall i | n <= i < end && Answered(replies, i) :: i - n < |writes| ==> writes[i - n].Accepted?
  }

  lemma WritesRest(writes: seq<WriteOutcome>, replies: Replies, n: nat, end: nat)
    requires n < end
    ensures AnswersArrivals(writes, replies, n, end) <==>
            (Answered(replies, n) || NextOutcome(writes).Broken?) &&
            AnswersArrivals(Later(writes), replies, n + 1, end)
    ensures AnswersOnlyArrivals(writes, replies, n, end) <==>
            (Answered(replies, n) ==> NextOutcome(writes).Accepted?) &&
            AnswersOnlyArrivals(Later(writes), replies, n + 1, end)
  {
  }

  lemma {:induction false} DueGrows(replies: Replies, n: nat, count: nat)
    ensures Due(replies, n) <= Due(replies, n + count) <= |Sent(replies)|
    decreases count
  {
    hide Due, Sent;
    DueSteps(replies, n + count);
    if count > 0 {
      DueSteps(replies, n + count - 1);
      DueGrows(replies, n, count - 1);
    }
  }

  /** If each request that arrives is answered, the way is clear exactly when no other is,
      every answer read fits, and no fault comes before the end of the last of their
      frames. */
  lemma {:induction false} WayClearAnswered(incoming: seq<Arrival>, writes: seq<WriteOutcome>, replies: Replies,
                                            lag: int, n: nat, count: nat)
    requires AnswersArrivals(writes, replies, n, n + count)
    requires 0 <= Due(replies, n) - lag <= |Sent(replies)|
    ensures Due(replies, n) <= Due(replies, n + count)
    ensures WayClear(incoming, writes, replies, lag, n, count) <==>
            AnswersOnlyArrivals(writes, replies, n, n + count) &&
            FramesWhole(incoming, Sent(replies), Due(replies, n) - lag, Due(replies, n + count) - Due(replies, n))
    decreases count
  {
    hide Sent, Due, Frame, FaultFree, Frames, Later, NextOutcome, AnswersArrivals, AnswersOnlyArrivals, FramesWhole;
    var answers, k := Sent(replies), Due(replies, n) - lag;
    DueGrows(replies, n, count);
    if count == 0 {
      NoneWhole(incoming, answers, k);
      NoWrites(writes, replies, n);
    } else {
      var m := Due(replies, n + count) - Due(replies, n);
      DueSteps(replies, n);
      DueGrows(replies, n + 1, count - 1);
      WritesRest(writes, replies, n, n + count);
      if !Answered(replies, n) {
        WayClearAnswered(incoming, Later(writes), replies, lag, n + 1, count - 1);
      } else if k < |answers| {
        FramesWholeSplits(incoming, answers, k, m - 1);
        var f := |Frame(answers[k])|;
        if f <= |incoming| {
          WayClearAnswered(incoming[f..], Later(writes), replies, lag, n + 1, count - 1);
        }
      } else {
        WholeInRange(incoming, answers, k, m);
      }
    }
  }

  lemma NoneWhole(incoming: seq<Arrival>, answers: seq<seq<byte>>, k: int)
    requires 0 <= k <= |answers|
    ensures FramesWhole(incoming, answers, k, 0)
  {
    assert answers[k..k + 0] == [];
    FramesOfNone();
  }

  lemma NoWrites(writes: seq<WriteOutcome>, replies: Replies, n: nat)
    ensures AnswersOnlyArrivals(writes, replies, n, n)
  {
  }

  lemma WholeInRange(incoming: seq<Arrival>, answers: seq<seq<byte>>, k: int, n: nat)
    requires k >= |answers| && n > 0
    ensures !FramesWhole(incoming, answers, k, n)
  {
  }

  lemma TakesInRange(incoming: seq<Arrival>, writes: seq<WriteOutcome>, answers: seq<seq<byte>>, k: int)
    ensures Takes(incoming, writes, answers, k) ==> 0 <= k < |answers|
  {
  }

  /** Over every run in which each request that arrives is answered: the lag is kept after
      every call if and only if none whose write broke off is answered, every answer read
      fits, and no fault comes before the end of a frame that is read. */
  lemma PaceKeptWhenAnswered(codec: BodyCodec, s: State, calls: seq<Call>, replies: Replies, lag: int)
    requires Trails(s, replies, lag) && Announceable(Sent(replies))
    requires AnswersArrivals(s.writes, replies, |s.log|, |Run(codec, s, calls).0.log|)
    ensures var n, end := |s.log|, |Run(codec, s, calls).0.log|;
            n <= end && Due(replies, n) <= Due(replies, end) &&
            (KeepsPace(codec, s, calls, replies, lag) <==>
             AnswersOnlyArrivals(s.writes, replies, n, end) &&
             FramesWhole(s.incoming, Sent(replies), Due(replies, n) - lag, Due(replies, end) - Due(replies, n)))
  {
    hide Run, KeepsPace, WayClear, FramesWhole, AnswersArrivals, AnswersOnlyArrivals, Sent, Due, Tells, AnswerTo,
         Frames;
    PaceKeptExactly(codec, s, calls, replies, lag);
    WayClearAnswered(s.incoming, s.writes, replies, lag, |s.log|, |Run(codec, s, calls).0.log| - |s.log|);
  }

  // ----- The recorded database and the server's answers -----

  /** The database selected once `reply` has come back for `request`. */
  function Acknowledged(request: Request, reply: Result<Response, Error>, current: Option<string>): Option<string> {
    if CheckReply(reply).Failure? then current
    else if request.command == System(Connect) && |request.args| == 1 then Some(request.args[0])
    else if request.command == System(Reset) then None
    else current
  }

  /** The database selected by the requests `from` to `end`, if each is taken to be answered
      by the answer `lag` places back, and an unanswered one selects nothing. With a lag of
      zero this is the server's own view. */
  function Selected(codec: BodyCodec, log: seq<Exchange>, replies: Replies, lag: int, from: nat, end: nat,
                    start: Option<string>): Option<string>
    requires from <= end <= |log|
    decreases end
  {
    if end == from then start
    else
      Granted(codec, log[end - 1].request, AnswerTo(replies, lag, end - 1),
              Selected(codec, log, replies, lag, from, end - 1, start))
  }

  /** The database selected once `answer` has been sent for `request`, if it has. */
  function Granted(codec: BodyCodec, request: Request, answer: Option<seq<byte>>, current: Option<string>)
    : Option<string>
  {
    match answer
    case None => current
    case Some(body) => Acknowledged(request, Meaning(codec, body), current)
  }

  lemma TellsGrants(codec: BodyCodec, request: Request, reply: Result<Response, Error>, answer: Option<seq<byte>>,
                    current: Option<string>)
    requires Tells(codec, reply, answer)
    ensures Acknowledged(request, reply, current) == Granted(codec, request, answer, current)
  {
    hide Meaning;
  }

  /** Any call records what its logged reply acknowledges. */
  lemma StepAcknowledges(codec: BodyCodec, s: State, call: Call)
    ensures var t := Step(codec, s, call).0;
            if t.log == s.log then t.database == s.database
            else
              |t.log| == |s.log| + 1 &&
              t.database == Acknowledged(t.log[|s.log|].request, t.log[|s.log|].reply, s.database)
  {
    hide Fetched, Check, Trim, Interpret, CheckStatement, Reaching, Later;
  }

  lemma {:induction false} SelectedFirst(codec: BodyCodec, log: seq<Exchange>, replies: Replies, lag: int,
                                         from: nat, end: nat, start: Option<string>)
    requires from < end <= |log|
    ensures Selected(codec, log, replies, lag, from, end, start) ==
            Selected(codec, log, replies, lag, from + 1, end,
                     Granted(codec, log[from].request, AnswerTo(replies, lag, from), start))
    decreases end
  {
    hide Granted, AnswerTo;
    if end > from + 1 {
      SelectedFirst(codec, log, replies, lag, from, end - 1, start);
    } else {
      assert Selected(codec, log, replies, lag, from, from, start) == start;
    }
  }

  /** A session that keeps pace records the database that the answers select, each taken
      for the request `lag` places on. In step this is the server's own view of every
      selection and reset; behind, it is a view shifted by `lag`. */
  lemma {:induction false} RecordFollowsAnswers(codec: BodyCodec, s: State, calls: seq<Call>, replies: Replies,
                                                lag: int)
    requires KeepsPace(codec, s, calls, replies, lag) && Announceable(Sent(replies))
    ensures var t := Run(codec, s, calls).0;
            |s.log| <= |t.log| &&
            t.database == Selected(codec, t.log, replies, lag, |s.log|, |t.log|, s.database)
    decreases |calls|
  {
    hide Step, Trails, Tells, Granted, Acknowledged, WayClear, AnswerTo, Fetched, Sent;
    PaceKeptExactly(codec, s, calls, replies, lag);
    if calls != [] {
      var next, t := Step(codec, s, calls[0]).0, Run(codec, s, calls).0;
      assert t == Run(codec, next, calls[1..]).0;
      StepAcknowledges(codec, s, calls[0]);
      RunExtendsLog(codec, next, calls[1..]);
      RecordFollowsAnswers(codec, next, calls[1..], replies, lag);
      StepExchanges(codec, s, calls[0]);
      if !Quiet(s, next) {
        var e := t.log[|s.log|];
        assert next.log[|s.log|] == e;
        TellsGrants(codec, e.request, e.reply, AnswerTo(replies, lag, |s.log|), s.database);
        SelectedFirst(codec, t.log, replies, lag, |s.log|, |t.log|, s.database);
      }
    }
  }

  /** When `use_database` records a name: exactly when it takes the answer `lag` places back
      and that passes the check, whatever the server made of the request itself. So in step
      only a name the server took is recorded; behind, a name it refused is recorded
      whenever an older answer comes through and passes; and with no answer left, none. */
  lemma NameRecordedExactly(codec: BodyCodec, s: State, name: string, replies: Replies, lag: int)
    requires Trails(s, replies, lag) && Announceable(Sent(replies))
    requires !Refused(codec, s, UseDatabase(name))
    ensures var (t, result) := Step(codec, s, UseDatabase(name));
            var k := Due(replies, |s.log|) - lag;
            (result.Success? <==>
             Takes(s.incoming, s.writes, Sent(replies), k) &&
             CheckReply(Meaning(codec, Sent(replies)[k])).Success?) &&
            t.database == if result.Success? then Some(Trim(name)) else s.database
  {
    hide Step, Fetched, Meaning, Check, Takes, Trails, Sent, Due, TakesNothing, Refused;
    var call := UseDatabase(name);
    var k := Due(replies, |s.log|) - lag;
    TakesInRange(s.incoming, s.writes, Sent(replies), k);
    SendingExchanges(codec, s, call);
    StepRecords(codec, s, call);
    ExchangePace(codec, s, Step(codec, s, call).0, replies, lag);
  }

  /** Such a run: a commit times out, and a selection the server refuses reads the
      commit's late answer and is recorded. */
  lemma StaleAnswerIsRecorded(codec: BodyCodec, accepted: seq<byte>, refused: seq<byte>, message: string)
    requires codec.decode(accepted) == Some(Ok) && codec.decode(refused) == Some(SystemErr(message))
    requires 0 < |accepted| <= 536_870_912 && 0 < |refused| <= 536_870_912
    requires EncodeRequest(codec, DBRequest(DBCommand.Commit, [])).Success?
    requires EncodeRequest(codec, SystemRequest(Connect, ["b"])).Success?
    ensures var s := TimedOut([accepted, refused]);
            var (t, results) := Run(codec, s, [Call.Commit, UseDatabase("b")]);
            results == [Failure(Io), Success(Done)] && t.database == Some("b") &&
            t.log[1].request == SystemRequest(Connect, ["b"]) &&
            CheckReply(Meaning(codec, refused)).Failure?
  {
    hide ReadFrame, Frames, Contains, Bytes, Takes, Step, Pow256, Run, Sent, Due, Trails;
    var s := TimedOut([accepted, refused]);
    var replies := [Some(accepted), Some(refused)];
    var call := UseDatabase("b");
    TimeoutLags(codec, s, accepted, refused);
    TwoSent(accepted, refused);
    var (next, first) := Step(codec, s, Call.Commit);
    ConnectGoesOut(codec, next);
    NameRecordedExactly(codec, next, "b", replies, 1);
    StepRecords(codec, next, call);
    StepDone(codec, next, call);
    RunOfTwo(codec, s, Call.Commit, call);
  }

  /** A fresh session whose first read fails in front of these answers. */
  function TimedOut(answers: seq<seq<byte>>): State {
    State(None, true, [Fault(OtherFailure)] + Arrivals(Frames(answers)), [], [], [])
  }

  lemma TimeoutLags(codec: BodyCodec, s: State, first: seq<byte>, second: seq<byte>)
    requires |first| <= 536_870_912 && |second| <= 536_870_912
    requires s == TimedOut([first, second]) && EncodeRequest(codec, DBRequest(DBCommand.Commit, [])).Success?
    ensures var (next, result) := Step(codec, s, Call.Commit);
            var replies := [Some(first), Some(second)];
            result == Failure(Io) && |next.log| == 1 && next.database == None &&
            Announceable(Sent(replies)) && Trails(next, replies, 1) &&
            Takes(next.incoming, next.writes, [first, second], 0)
  {
    hide Frames, Frame, Pow256, FaultFree, Sent, Due;
    var answers := [first, second];
    var tail := Arrivals(Frames(answers));
    TwoSent(first, second);
    LimitFitsLength();
    assert s.incoming[1..] == tail;
    BytesOfArrivals(Frames(answers), []);
    assert tail + [] == tail;
    assert TakeBytes(s.incoming, 8) == (Failure(OtherFailure), tail);
    var next := Step(codec, s, Call.Commit).0;
    assert next.incoming == tail && next.writes == [];
    assert answers[0..] == answers;
    FramesFirst(answers, 0);
    if !FaultFree(tail, |Frame(first)|) {
      ShorterFaults(tail, |Frame(first)|, |Frames(answers)|);
    }
  }

  lemma ConnectGoesOut(codec: BodyCodec, s: State)
    requires EncodeRequest(codec, SystemRequest(Connect, ["b"])).Success?
    ensures Trim("b") == "b" && !Refused(codec, s, UseDatabase("b"))
  {
    TrimOfTrimmed("b");
  }

  lemma StepDone(codec: BodyCodec, s: State, call: Call)
    requires call.UseDatabase? && Step(codec, s, call).1.Success?
    ensures Step(codec, s, call).1 == Success(Done)
  {
    hide ReadFrame, CheckReply;
  }

  lemma RunOfOne(codec: BodyCodec, s: State, call: Call)
    ensures Run(codec, s, [call]).0 == Step(codec, s, call).0
  {
    hide Step;
    var next := Step(codec, s, call).0;
    assert [call][1..] == [];
    assert Run(codec, next, []) == (next, []);
  }
}
