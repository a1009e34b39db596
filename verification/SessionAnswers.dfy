/** From call to result: what each call sends, when it is refused, and what it returns for
    each answer. Nothing here is stated through the client's own steps. */
module SessionAnswers {
  import opened Wrappers
  import opened Errors
  import opened Text
  import opened Digits
  import opened Machine
  import opened Protocol
  import opened Codec
  import opened Framing
  import opened Lists
  import opened Tables
  import opened Session
  import opened SessionLaws
  import SqlGuard

  // ----- What is sent -----

  /** Nothing but white space. */
  predicate Blank(s: string) {
    forall k | 0 <= k < |s| :: IsWhitespace(s[k])
  }

  /** The request has an encoding of at most 1024 bytes. */
  predicate Sendable(codec: BodyCodec, request: Request) {
    codec.encodeRequest(request).Some? && |codec.encodeRequest(request).value| <= 1024
  }

  /** The call sends exactly this request, unless it is blocked or the request cannot be
      sent; then it does nothing. */
  predicate Sends(codec: BodyCodec, s: State, call: Call, blocked: bool, request: Request)
    requires !call.SetStatementGuard?
  {
    var (t, result) := Step(codec, s, call);
    (Refused(codec, s, call) <==> blocked || !Sendable(codec, request)) &&
    if Refused(codec, s, call) then t == s && result.Failure?
    else
      |t.log| == |s.log| + 1 && t.log[|s.log|].request == request &&
      (NextOutcome(s.writes).Accepted? ==> t.outgoing == s.outgoing + [codec.encodeRequest(request).value])
  }

  lemma TrimOfBlank(s: string)
    ensures Trim(s) == [] <==> Blank(s)
  {
    TrimStartIsSuffix(s);
    TrimEndIsPrefix(TrimStart(s));
  }

  /** What every call sends, and when it sends nothing. */
  lemma CallSends(codec: BodyCodec, s: State, call: Call)
    requires !call.SetStatementGuard?
    ensures match call
            case CreateDatabase(name) =>
              Sends(codec, s, call, Blank(name), Request(System(Create), [Trim(name)]))
            case UseDatabase(name) =>
              Sends(codec, s, call, Blank(name), Request(System(Connect), [Trim(name)]))
            case Databases => Sends(codec, s, call, false, Request(System(ShowDatabases), []))
            case ShowTables => Sends(codec, s, call, false, Request(DB(DBCommand.ShowTables), []))
            case Execute(sql) =>
              Sends(codec, s, call, if s.guard then SqlGuard.Inspection(sql).Failure? else Blank(sql),
                    Request(DB(ExecuteSQL), [sql]))
            case Query(sql) =>
              Sends(codec, s, call, if s.guard then SqlGuard.Inspection(sql).Failure? else Blank(sql),
                    Request(DB(ExecuteSQL), [sql]))
            case ImportCsv(path, table) =>
              Sends(codec, s, call, Blank(path) || Blank(table), Request(DB(Import), [Trim(path), Trim(table)]))
            case Commit => Sends(codec, s, call, false, Request(DB(DBCommand.Commit), []))
            case Help => Sends(codec, s, call, false, Request(System(SystemCommand.Help), []))
            case ResetServer => Sends(codec, s, call, false, Request(System(Reset), []))
  {
    hide Step, Trim, Blank, SqlGuard.Inspection;
    StepSends(codec, s, call);
    match call
    case CreateDatabase(name) => TrimOfBlank(name);
    case UseDatabase(name) => TrimOfBlank(name);
    case Execute(sql) => TrimOfBlank(sql);
    case Query(sql) => TrimOfBlank(sql);
    case ImportCsv(path, table) =>
      TrimOfBlank(path);
      TrimOfBlank(table);
    case _ =>
  }

  lemma StepSends(codec: BodyCodec, s: State, call: Call)
    requires !call.SetStatementGuard?
    ensures var (t, result) := Step(codec, s, call);
            if Refused(codec, s, call) then t == s && result.Failure?
            else
              |t.log| == |s.log| + 1 && t.log[|s.log|].request == Prepare(call, s.guard).value &&
              (NextOutcome(s.writes).Accepted? ==>
                 t.outgoing == s.outgoing + [codec.encodeRequest(Prepare(call, s.guard).value).value])
  {
    hide Prepare, Interpret, Fetched, Check;
  }

  /** The reason a call gives for sending nothing. */
  lemma RefusalsExplained(codec: BodyCodec, s: State, call: Call)
    requires !call.SetStatementGuard? && Prepare(call, s.guard).Failure?
    ensures var e := Step(codec, s, call).1.error;
            Step(codec, s, call).1.Failure? &&
            match call
            case CreateDatabase(_) => e == InvalidArgument("database name is empty")
            case UseDatabase(_) => e == InvalidArgument("database name is empty")
            case ImportCsv(path, _) =>
              e == InvalidArgument(if Blank(path) then "path is empty" else "table name is empty")
            case Execute(sql) =>
              if s.guard then SqlGuard.Inspection(sql) == Failure(e) else e == InvalidArgument("statement is empty")
            case Query(sql) =>
              if s.guard then SqlGuard.Inspection(sql) == Failure(e) else e == InvalidArgument("statement is empty")
            case _ => false
  {
    hide Trim, Blank, SqlGuard.Inspection;
    if call.ImportCsv? {
      TrimOfBlank(call.path);
    }
  }

  /** Size decides exactly at 1024 bytes: beyond it a call is refused for the size of its
      request, and for nothing else; up to it the bytes go out whole. */
  lemma SizeDecides(codec: BodyCodec, s: State, call: Call, bytes: seq<byte>)
    requires !call.SetStatementGuard? && Prepare(call, s.guard).Success?
    requires codec.encodeRequest(Prepare(call, s.guard).value) == Some(bytes)
    ensures var (t, result) := Step(codec, s, call);
            if |bytes| > 1024 then t == s && result == Failure(RequestTooLarge(|bytes|))
            else
              |t.log| == |s.log| + 1 && (NextOutcome(s.writes).Accepted? ==> t.outgoing == s.outgoing + [bytes])
  {
    hide Prepare, Interpret, Fetched, Check;
  }

  /** Switching the guard decides what happens to the next statement: on, it must pass
      inspection; off, it need only not be blank. */
  lemma GuardSwitches(codec: BodyCodec, s: State, enabled: bool, sql: string)
    requires Sendable(codec, Request(DB(ExecuteSQL), [sql]))
    ensures var (t, results) := Run(codec, s, [SetStatementGuard(enabled), Execute(sql)]);
            |results| == 2 && results[0] == Success(Done) &&
            if (if enabled then SqlGuard.Inspection(sql).Failure? else Blank(sql)) then
              t.log == s.log && results[1].Failure? &&
              (enabled ==> results[1] == Failure(SqlGuard.Inspection(sql).error))
            else |t.log| == |s.log| + 1 && t.log[|s.log|].request == Request(DB(ExecuteSQL), [sql])
  {
    hide Step, Blank, SqlGuard.Inspection, Prepare;
    var turn, call := SetStatementGuard(enabled), Execute(sql);
    var next := Step(codec, s, turn).0;
    GuardSet(codec, s, enabled);
    var (t, result) := Step(codec, next, call);
    RunOfTwo(codec, s, turn, call);
    CallSends(codec, next, call);
    if enabled && SqlGuard.Inspection(sql).Failure? {
      GuardRefuses(next, sql);
      RefusalsExplained(codec, next, call);
    }
  }

  lemma GuardSet(codec: BodyCodec, s: State, enabled: bool)
    ensures Step(codec, s, SetStatementGuard(enabled)) == (s.(guard := enabled), Success(Done))
  {
  }

  lemma GuardRefuses(s: State, sql: string)
    requires s.guard && SqlGuard.Inspection(sql).Failure?
    ensures Prepare(Execute(sql), s.guard).Failure?
  {
    hide SqlGuard.Inspection;
  }

  // ----- What comes back -----

  /** The next frame to be read, of at most 512 MiB. */
  predicate Delivers(incoming: seq<Arrival>, body: seq<byte>, rest: seq<Arrival>) {
    |body| <= 536_870_912 && incoming == Arrivals(Frame(body)) + rest
  }

  /** The call goes out, and its reply is what this body says. */
  predicate Gets(codec: BodyCodec, s: State, call: Call, body: seq<byte>, rest: seq<Arrival>) {
    !call.SetStatementGuard? && !Refused(codec, s, call) && NextOutcome(s.writes).Accepted? &&
    Delivers(s.incoming, body, rest)
  }

  /** The call goes out, and the next frame decodes to this response; an empty one is a
      quiet acknowledgement. */
  predicate Receives(codec: BodyCodec, s: State, call: Call, body: seq<byte>, rest: seq<Arrival>,
                     response: Response)
  {
    Gets(codec, s, call, body, rest) &&
    if body == [] then response == QuietOk else codec.decode(body) == Some(response)
  }

  lemma StepGets(codec: BodyCodec, s: State, call: Call, body: seq<byte>, rest: seq<Arrival>)
    requires Gets(codec, s, call, body, rest)
    ensures var (t, result) := Step(codec, s, call);
            t.incoming == rest &&
            match CheckReply(Meaning(codec, body))
            case Failure(e) => result == Failure(e) && t.database == s.database
            case Success(response) =>
              result == Interpret(call, response) && t.database == Recorded(call, s.database)
  {
    hide Prepare, Interpret, ReadFrame, Check, Frame, Recorded;
    ReadFrameGets(codec, body, rest);
  }

  /** A body that does not decode is an error of its own, and is consumed all the same. */
  lemma UndecodableAnswer(codec: BodyCodec, s: State, call: Call, body: seq<byte>, rest: seq<Arrival>)
    requires Gets(codec, s, call, body, rest) && body != [] && codec.decode(body) == None
    ensures var (t, result) := Step(codec, s, call);
            result == Failure(Decode) && t.database == s.database && t.incoming == rest
  {
    hide Step, Gets, Interpret, Check;
    StepGets(codec, s, call, body, rest);
  }

  // ----- Reported failures -----

  ghost predicate Mentions(text: string, part: string) {
    exists before, after :: text == before + part + after
  }

  /** The four responses that report a failure, and the error each of them is. */
  ghost predicate Reports(response: Response, e: Error) {
    match response
    case SystemErr(message) =>
      e == if Mentions(message, "Not connected to a database") then NotConnected else Server(message)
    case QueryExecutionError(message) => e == Error.Query(message)
    case QuietErr => e == Server("server reported an error")
    case ShuttingDown(requested) => !requested && e == ServerShutdown
    case _ => false
  }

  predicate IsReport(response: Response) {
    response.SystemErr? || response.QueryExecutionError? || response.QuietErr? || response == ShuttingDown(false)
  }

  lemma ContainsMentions(text: string, part: string)
    ensures Contains(text, part) <==> Mentions(text, part)
  {
    if Contains(text, part) {
      var i :| 0 <= i <= |text| && part <= text[i..];
      assert text == text[..i] + part + text[i + |part|..];
    }
    if Mentions(text, part) {
      var before, after :| text == before + part + after;
      assert text[|before|..] == part + after;
    }
  }

  /** A call that receives a report of failure returns the error it reports, whatever the
      call, and leaves the record as it was. */
  lemma ReportedFailure(codec: BodyCodec, s: State, call: Call, body: seq<byte>, rest: seq<Arrival>,
                        response: Response, e: Error)
    requires Receives(codec, s, call, body, rest, response) && Reports(response, e)
    ensures var (t, result) := Step(codec, s, call);
            result == Failure(e) && t.database == s.database && t.incoming == rest
  {
    hide Step, Gets, Interpret, Mentions, Contains;
    StepGets(codec, s, call, body, rest);
    if response.SystemErr? {
      ContainsMentions(response.message, "Not connected to a database");
    }
  }

  /** Any other response is as good as another for the calls that want no answer: they
      succeed, and the record is the name selected, nothing after a reset, and otherwise
      what it was. */
  lemma Acknowledgement(codec: BodyCodec, s: State, call: Call, body: seq<byte>, rest: seq<Arrival>,
                        response: Response)
    requires Receives(codec, s, call, body, rest, response) && !IsReport(response)
    requires call.CreateDatabase? || call.UseDatabase? || call.Commit? || call.ResetServer?
    ensures var (t, result) := Step(codec, s, call);
            result == Success(Done) &&
            t.database == if call.UseDatabase? then Some(Trim(call.name))
                          else if call.ResetServer? then None
                          else s.database
  {
    hide Step, Gets, Contains, Trim;
    StepGets(codec, s, call, body, rest);
  }

  // ----- Results -----

  /** What a statement returns for each response that reports no failure. */
  lemma StatementAnswers(codec: BodyCodec, s: State, sql: string, body: seq<byte>, rest: seq<Arrival>,
                         response: Response)
    requires Receives(codec, s, Execute(sql), body, rest, response) && !IsReport(response)
    ensures var (t, result) := Step(codec, s, Execute(sql));
            t.database == s.database &&
            result == match response
              case QueryOutcome(Select(schema, rows, paging)) =>
                Success(Statement(ResultRows(Rows(schema, rows), paging)))
              case QueryOutcome(Inserted(n, table)) => Success(Statement(InsertedRows(n, table)))
              case QueryOutcome(MessageOnly(message)) => Success(Statement(Message(message)))
              case SystemMsg(message) => Success(Statement(Message(message)))
              case Ok => Success(Statement(Message("")))
              case QuietOk => Success(Statement(Message("")))
              case _ => Failure(UnexpectedResponse)
  {
    hide Step, Gets, Contains;
    StepGets(codec, s, Execute(sql), body, rest);
  }

  /** A query returns the rows, schema and paging of the response it receives, and fails if
      that brings no rows. */
  lemma QueryAnswers(codec: BodyCodec, s: State, sql: string, body: seq<byte>, rest: seq<Arrival>,
                     response: Response)
    requires Receives(codec, s, Call.Query(sql), body, rest, response) && !IsReport(response)
    ensures var (t, result) := Step(codec, s, Call.Query(sql));
            t.database == s.database &&
            result == match response
              case QueryOutcome(Select(schema, rows, paging)) => Success(TableRows(Rows(schema, rows), paging))
              case _ => Failure(UnexpectedResponse)
  {
    hide Step, Gets, Contains;
    StepGets(codec, s, Call.Query(sql), body, rest);
  }

  /** Help returns the message, whichever of its two forms it comes in, and fails without
      one; so do the calls that read a message. */
  lemma MessageAnswers(codec: BodyCodec, s: State, call: Call, body: seq<byte>, rest: seq<Arrival>,
                       response: Response)
    requires Receives(codec, s, call, body, rest, response) && !IsReport(response)
    requires call.Help? || call.Databases? || call.ShowTables? || call.ImportCsv?
    ensures var (t, result) := Step(codec, s, call);
            t.database == s.database &&
            (call.Help? ==> forall m | Says(response, m) :: result == Success(HelpText(m))) &&
            ((forall m :: !Says(response, m)) ==> result == Failure(UnexpectedResponse))
  {
    hide Step, Gets, Contains, ParseList, ParseImported;
    StepGets(codec, s, call, body, rest);
    if response.SystemMsg? || (response.QueryOutcome? && response.result.MessageOnly?) {
      var m := if response.SystemMsg? then response.message else response.result.message;
      assert Says(response, m);
    }
  }

  /** The names the server lists and the rows it counts are what the calls return. */
  lemma ProseAnswers(codec: BodyCodec, s: State, call: Call, body: seq<byte>, rest: seq<Arrival>,
                     response: Response, names: seq<string>, n: nat, table: string)
    requires Receives(codec, s, call, body, rest, response)
    requires n < TWO_64 && forall name | name in names :: Listable(name)
    ensures var (t, result) := Step(codec, s, call);
            (call.Databases? && Says(response, "Databases: " + Join(names, ", ")) ==>
               result == Success(NameList(names))) &&
            (call.ShowTables? && Says(response, "Tables: " + Join(names, ", ")) ==>
               result == Success(NameList(names))) &&
            (call.ImportCsv? && Says(response, "Imported " + Numeral(n) + " rows into table " + table) ==>
               result == Success(Count(n)))
  {
    hide Step, Gets, Contains, ParseList, ParseImported, Join, Numeral;
    StepGets(codec, s, call, body, rest);
    assert "Databases: " == "Databases:" + " " && "Tables: " == "Tables:" + " ";
    ListingArrives(response, names);
    if call.ImportCsv? && Says(response, "Imported " + Numeral(n) + " rows into table " + table) {
      ImportCountArrives(response, n, call.path, table);
      ImportCountReads(n, table);
    }
  }

  // ----- Failed connections -----

  /** The error for a connection that failed: closed at its end and on a reset, and
      otherwise a plain failure of input or output. */
  function FailureOf(e: IoFailure): Error {
    if e == UnexpectedEof || e == ConnectionReset then ConnectionClosed else Io
  }

  /** A call whose write or read fails returns that error and records nothing. */
  lemma FailedConnection(codec: BodyCodec, s: State, call: Call)
    requires !call.SetStatementGuard? && !Refused(codec, s, call)
    ensures var (t, result) := Step(codec, s, call);
            var outcome := NextOutcome(s.writes);
            (outcome.Broken? ==>
               result == Failure(FailureOf(outcome.failure)) && t.incoming == s.incoming && t.database == s.database) &&
            (outcome.Accepted? && s.incoming == [] ==>
               result == Failure(ConnectionClosed) && t.database == s.database) &&
            (outcome.Accepted? && s.incoming != [] && s.incoming[0].Fault? ==>
               result == Failure(FailureOf(s.incoming[0].failure)) && t.incoming == s.incoming[1..] &&
               t.database == s.database)
  {
    hide Prepare, Interpret, Check, Recorded, FromBigEndian;
  }

  /** An answer announced as longer than 512 MiB is refused by its length, and its body is
      left unread. */
  lemma OversizedAnswer(codec: BodyCodec, s: State, call: Call, n: nat, rest: seq<Arrival>)
    requires !call.SetStatementGuard? && !Refused(codec, s, call) && NextOutcome(s.writes).Accepted?
    requires 536_870_912 < n < Pow256(8) && s.incoming == Arrivals(BigEndian(n, 8)) + rest
    ensures var (t, result) := Step(codec, s, call);
            result == Failure(ResponseTooLarge(n)) && t.incoming == rest && t.database == s.database
  {
    hide Prepare, Interpret, Check, Recorded, FromBigEndian, BigEndian, TakeBytes, Pow256;
    TakeBytesGets(BigEndian(n, 8), rest);
    BigEndianReads(n, 8);
  }
}
