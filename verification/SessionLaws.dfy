/** What holds over every run of a session. */
module SessionLaws {
  import opened Wrappers
  import opened Errors
  import opened Machine
  import opened Text
  import opened Digits
  import opened Protocol
  import opened Codec
  import opened Framing
  import opened Lists
  import opened Session
  import SqlGuard

  // ----- What goes out -----

  /** One exchange as the rules of the wire allow it: at most 1024 bytes, taken from the
      front of the request's encoding, and for SQL sent under the guard one statement
      that the guard accepts. */
  predicate Lawful(codec: BodyCodec, e: Exchange) {
    && |e.bytes| <= 1024
    && codec.encodeRequest(e.request).Some?
    && e.bytes <= codec.encodeRequest(e.request).value
    && (e.guarded && e.request.command == DB(ExecuteSQL) ==>
          |e.request.args| == 1 && SqlGuard.Inspection(e.request.args[0]).Success?)
  }

  predicate WireLawful(codec: BodyCodec, s: State) {
    |s.outgoing| == |s.log| &&
    forall i | 0 <= i < |s.log| :: s.outgoing[i] == s.log[i].bytes && Lawful(codec, s.log[i])
  }

  /** A call that never reaches the wire, by the state before it. */
  predicate Refused(codec: BodyCodec, s: State, call: Call)
    requires !call.SetStatementGuard?
  {
    var request := Prepare(call, s.guard);
    request.Failure? || EncodeRequest(codec, request.value).Failure?
  }

  lemma PrepareObeysGuard(call: Call, guard: bool)
    requires !call.SetStatementGuard? && Prepare(call, guard).Success?
    ensures var request := Prepare(call, guard).value;
            guard && request.command == DB(ExecuteSQL) ==>
              |request.args| == 1 && SqlGuard.Inspection(request.args[0]).Success?
  {
    hide SqlGuard.Inspection;
  }

  /** A refused call reports an error and changes nothing; any other call puts exactly
      one request on the wire and logs one reply. */
  lemma RefusalIsLocal(codec: BodyCodec, s: State, call: Call)
    requires !call.SetStatementGuard?
    ensures var (t, result) := Step(codec, s, call);
            if Refused(codec, s, call) then t == s && result.Failure?
            else
              s.log <= t.log && |t.log| == |s.log| + 1 && |t.outgoing| == |s.outgoing| + 1 &&
              t.log[|s.log|].request == Prepare(call, s.guard).value &&
              (call.Execute? || call.Query? ==> t.log[|s.log|].request == DBRequest(ExecuteSQL, [call.sql]))
  {
    hide Interpret, ReadFrame;
  }

  lemma StepKeepsWireLawful(codec: BodyCodec, s: State, call: Call)
    requires WireLawful(codec, s)
    ensures WireLawful(codec, Step(codec, s, call).0)
  {
    hide Prepare, Interpret, ReadFrame, SqlGuard.Inspection;
    if !call.SetStatementGuard? && !Refused(codec, s, call) {
      PrepareObeysGuard(call, s.guard);
      RoundTripKeepsWireLawful(codec, s, Prepare(call, s.guard).value);
    }
  }

  lemma RoundTripKeepsWireLawful(codec: BodyCodec, s: State, request: Request)
    requires WireLawful(codec, s) && EncodeRequest(codec, request).Success?
    requires s.guard && request.command == DB(ExecuteSQL) ==>
               |request.args| == 1 && SqlGuard.Inspection(request.args[0]).Success?
    ensures WireLawful(codec, RoundTrip(codec, s, request, EncodeRequest(codec, request).value))
  {
    hide ReadFrame, SqlGuard.Inspection;
  }

  /** Over every run: nothing oversized and, while the guard is on, no statement it
      rejects is ever on the wire. */
  lemma {:induction false} RunKeepsWireLawful(codec: BodyCodec, s: State, calls: seq<Call>)
    requires WireLawful(codec, s)
    ensures WireLawful(codec, Run(codec, s, calls).0)
    decreases |calls|
  {
    hide Step, WireLawful;
    if calls != [] {
      StepKeepsWireLawful(codec, s, calls[0]);
      RunKeepsWireLawful(codec, Step(codec, s, calls[0]).0, calls[1..]);
    }
  }

  // ----- The recorded database -----

  /** A call that changed the recorded database. */
  predicate Selects(call: Call, result: Result<Answer, Error>) {
    (call.UseDatabase? || call.ResetServer?) && result.Success?
  }

  /** Selecting succeeds exactly when the request went out and its reply passed the check;
      only then is the database recorded, and nothing else ever records one. */
  lemma StepRecords(codec: BodyCodec, s: State, call: Call)
    ensures var (t, result) := Step(codec, s, call);
            t.database == if Selects(call, result) then Recorded(call, None) else s.database
    ensures var (t, result) := Step(codec, s, call);
            call.UseDatabase? || call.ResetServer? ==>
              (result.Success? <==>
               !Refused(codec, s, call) && CheckReply(t.log[|s.log|].reply).Success?)
    ensures var (t, result) := Step(codec, s, call);
            call.UseDatabase? && result.Success? ==>
              t.database.Some? && t.log[|s.log|].request == SystemRequest(Connect, [t.database.value]) &&
              t.database.value != [] && Trimmed(t.database.value)
  {
    hide ReadFrame, Check, Trim;
    if call.UseDatabase? {
      TrimGivesTrimmed(call.name);
    }
  }

  /** In every reachable state the recorded database is the trimmed name of the last
      selection that succeeded, none after a reset that succeeded, and otherwise what it
      was at the start. */
  lemma {:induction false} DatabaseIsLastSelection(codec: BodyCodec, s: State, calls: seq<Call>)
    ensures |Run(codec, s, calls).1| == |calls|
    ensures var (t, results) := Run(codec, s, calls);
            (forall k | 0 <= k < |calls| :: !Selects(calls[k], results[k])) ==> t.database == s.database
    ensures var (t, results) := Run(codec, s, calls);
            forall k | 0 <= k < |calls| && Selects(calls[k], results[k]) &&
                       (forall j | k < j < |calls| :: !Selects(calls[j], results[j])) ::
              t.database == Recorded(calls[k], None)
    decreases |calls|
  {
    hide Step, Selects, Recorded;
    if calls != [] {
      var (next, result) := Step(codec, s, calls[0]);
      var (t, results) := Run(codec, next, calls[1..]);
      StepRecords(codec, s, calls[0]);
      DatabaseIsLastSelection(codec, next, calls[1..]);
      var all := Run(codec, s, calls).1;
      assert forall k | 0 < k < |calls| :: all[k] == results[k - 1] && calls[k] == calls[1..][k - 1];
      if forall j | 0 < j < |calls| :: !Selects(calls[j], all[j]) {
        forall k | 0 <= k < |calls[1..]| ensures !Selects(calls[1..][k], results[k]) {
          assert !Selects(calls[k + 1], all[k + 1]);
        }
      }
      forall k | 0 < k < |calls| && Selects(calls[k], all[k]) &&
                 (forall j | k < j < |calls| :: !Selects(calls[j], all[j]))
        ensures t.database == Recorded(calls[k], None)
      {
        assert Selects(calls[1..][k - 1], results[k - 1]);
        forall j | k - 1 < j < |calls[1..]| ensures !Selects(calls[1..][j], results[j]) {
          assert !Selects(calls[j + 1], all[j + 1]);
        }
      }
    }
  }

  // ----- Answers in prose -----

  /** A response that carries only this message, in either of its forms. */
  predicate Says(response: Response, message: string) {
    response == SystemMsg(message) || response == QueryOutcome(MessageOnly(message))
  }

  /** The names the server lists are the names the call returns. */
  lemma ListingArrives(response: Response, names: seq<string>)
    requires forall name | name in names :: Listable(name)
    ensures Says(response, "Databases:" + " " + Join(names, ", ")) ==>
              Check(response).Success? && Interpret(Databases, response) == Success(NameList(names))
    ensures Says(response, "Tables:" + " " + Join(names, ", ")) ==>
              Check(response).Success? && Interpret(Call.ShowTables, response) == Success(NameList(names))
  {
    hide ParseList, Join, Contains;
    ParseUndoesListing(names, "Databases:");
    ParseUndoesListing(names, "Tables:");
  }

  /** The row count the server reports is the count the call returns. */
  lemma ImportCountArrives(response: Response, n: nat, path: string, table: string)
    requires n < TWO_64 && Says(response, "Imported " + Numeral(n) + " rows into table " + table)
    ensures Check(response).Success? && Interpret(ImportCsv(path, table), response) == Success(Count(n))
  {
    hide ParseImported, Numeral, Contains;
    ImportCountReads(n, table);
  }

  // ----- Requests and answers -----

  /** Nothing sent and nothing read. */
  predicate Quiet(s: State, t: State) {
    t.log == s.log && t.incoming == s.incoming && t.writes == s.writes
  }

  /** One request begun and, if its write is accepted, one frame read for it. */
  predicate Exchanged(codec: BodyCodec, s: State, t: State) {
    |t.log| == |s.log| + 1 && s.log <= t.log && t.writes == Later(s.writes) &&
    (t.log[|s.log|].reply, t.incoming) == Fetched(codec, s.incoming, NextOutcome(s.writes))
  }

  /** What one call does to the log and the input: nothing, or one exchange. */
  lemma StepExchanges(codec: BodyCodec, s: State, call: Call)
    ensures var t := Step(codec, s, call).0; Quiet(s, t) || Exchanged(codec, s, t)
  {
    hide Prepare, Interpret, ReadFrame, CheckReply, Recorded;
  }

  /** No reply logged from position `from` on reports a lost frame. */
  predicate NoneLost(log: seq<Exchange>, from: nat) {
    forall i | from <= i < |log| :: !LostFrame(log[i].reply)
  }

  lemma {:induction false} RunExtendsLog(codec: BodyCodec, s: State, calls: seq<Call>)
    ensures s.log <= Run(codec, s, calls).0.log
    decreases |calls|
  {
    hide Step;
    if calls != [] {
      StepExchanges(codec, s, calls[0]);
      RunExtendsLog(codec, Step(codec, s, calls[0]).0, calls[1..]);
    }
  }

  lemma RunOfTwo(codec: BodyCodec, s: State, first: Call, second: Call)
    ensures var (next, a) := Step(codec, s, first);
            var (t, b) := Step(codec, next, second);
            Run(codec, s, [first, second]) == (t, [a, b])
  {
    hide Step;
    var (next, a) := Step(codec, s, first);
    var (t, b) := Step(codec, next, second);
    assert [first, second][1..] == [second] && [second][1..] == [];
    assert Run(codec, t, []) == (t, []);
    assert Run(codec, next, [second]) == (t, [b] + []);
    assert [a] + ([b] + []) == [a, b];
  }

  /** In any run without a lost frame the input consumed is one whole frame for each
      request sent, and the n-th reply is the meaning of the n-th frame. */
  lemma {:induction false} RunConsumesFrames(codec: BodyCodec, s: State, calls: seq<Call>)
    returns (bodies: seq<seq<byte>>)
    requires NoneLost(Run(codec, s, calls).0.log, |s.log|)
    ensures var t := Run(codec, s, calls).0;
            |t.log| == |s.log| + |bodies| && s.incoming == Arrivals(Frames(bodies)) + t.incoming &&
            forall i | 0 <= i < |bodies| :: t.log[|s.log| + i].reply == Meaning(codec, bodies[i])
    decreases |calls|
  {
    hide Step, Fetched, Frame, Meaning, LostFrame;
    var t := Run(codec, s, calls).0;
    if calls == [] {
      bodies := [];
      assert Arrivals([]) + t.incoming == t.incoming;
    } else {
      var next := Step(codec, s, calls[0]).0;
      StepExchanges(codec, s, calls[0]);
      RunExtendsLog(codec, next, calls[1..]);
      bodies := RunConsumesFrames(codec, next, calls[1..]);
      if !Quiet(s, next) {
        assert next.log[|s.log|] == t.log[|s.log|];
        var body := ExchangeConsumes(codec, s, next);
        FrameInFront(body, bodies, t.incoming);
        bodies := [body] + bodies;
      }
    }
  }

  lemma ExchangeConsumes(codec: BodyCodec, s: State, t: State) returns (body: seq<byte>)
    requires Exchanged(codec, s, t) && !LostFrame(t.log[|s.log|].reply)
    ensures |t.log| == |s.log| + 1 && s.incoming == Arrivals(Frame(body)) + t.incoming
    ensures t.log[|s.log|].reply == Meaning(codec, body)
  {
    hide ReadFrame, Frame, Meaning;
    body := FrameFound(codec, s.incoming);
  }

  lemma FrameInFront(body: seq<byte>, bodies: seq<seq<byte>>, rest: seq<Arrival>)
    ensures Arrivals(Frames([body] + bodies)) + rest == Arrivals(Frame(body)) + (Arrivals(Frames(bodies)) + rest)
  {
    hide Frame;
    ArrivalsConcat(Frame(body), Frames(bodies));
    assert ([body] + bodies)[1..] == bodies;
    assert Arrivals(Frame(body)) + (Arrivals(Frames(bodies)) + rest) ==
           Arrivals(Frame(body)) + Arrivals(Frames(bodies)) + rest;
  }
}
