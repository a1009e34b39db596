/** The client object, each of whose methods is one step of the session. */
module Client {
  import opened Wrappers
  import opened Errors
  import opened Text
  import opened Protocol
  import opened Codec
  import opened Lists
  import opened Session
  import SqlGuard

  class Client {
    const codec: BodyCodec
    const stream: Stream
    var database: Option<string>
    var statementGuard: bool
    ghost var log: seq<Exchange>

    constructor (codec: BodyCodec, stream: Stream, statementGuard: bool)
      ensures this.codec == codec && this.stream == stream
      ensures Now() == State(None, statementGuard, stream.incoming, stream.writes, stream.outgoing, [])
    {
      this.codec, this.stream := codec, stream;
      this.database, this.statementGuard := None, statementGuard;
      log := [];
    }

    /** The session this client is in. */
    ghost function Now(): State
      reads this, stream
    {
      State(database, statementGuard, stream.incoming, stream.writes, stream.outgoing, log)
    }

    method SetStatementGuard(enabled: bool)
      modifies this`statementGuard
      ensures Now() == Step(codec, old(Now()), Call.SetStatementGuard(enabled)).0
    {
      statementGuard := enabled;
    }

    /** Send a request and read its response; a request that cannot be encoded leaves
        everything as it was. */
    method RoundTrip(request: Request) returns (r: Result<Response, Error>)
      modifies this`log, stream
      ensures match EncodeRequest(codec, request)
              case Failure(e) => r == Failure(e) && Now() == old(Now())
              case Success(bytes) =>
                Now() == Session.RoundTrip(codec, old(Now()), request, bytes) &&
                r == log[|old(log)|].reply
    {
      ghost var before := Now();
      ghost var bytes := EncodeRequest(codec, request);
      var failed := WriteRequest(codec, stream, request);
      if failed.Some? {
        r := Failure(failed.value);
      } else {
        r := ReadResponse(codec, stream);
      }
      if bytes.Success? {
        log := Session.RoundTrip(codec, before, request, bytes.value).log;
      }
    }

    /** A request whose response must pass the check. */
    method Ask(request: Request) returns (r: Result<Response, Error>)
      modifies this`log, stream
      ensures match EncodeRequest(codec, request)
              case Failure(e) => r == Failure(e) && Now() == old(Now())
              case Success(bytes) =>
                Now() == Session.RoundTrip(codec, old(Now()), request, bytes) &&
                r == CheckReply(log[|old(log)|].reply)
    {
      var reply := RoundTrip(request);
      r := CheckReply(reply);
    }

    method CreateDatabase(name: string) returns (r: Result<Answer, Error>)
      modifies this`log, stream
      ensures (Now(), r) == Step(codec, old(Now()), Call.CreateDatabase(name))
    {
      var required := RequireName(name, "database name");
      if required.Failure? {
        return Failure(required.error);
      }
      var response := Ask(SystemRequest(Create, [required.value]));
      r := if response.Failure? then Failure(response.error) else Success(Done);
    }

    method UseDatabase(name: string) returns (r: Result<Answer, Error>)
      modifies this, stream
      ensures (Now(), r) == Step(codec, old(Now()), Call.UseDatabase(name))
    {
      var required := RequireName(name, "database name");
      if required.Failure? {
        return Failure(required.error);
      }
      var response := Ask(SystemRequest(Connect, [required.value]));
      if response.Failure? {
        return Failure(response.error);
      }
      database := Some(required.value);
      return Success(Done);
    }

    method Databases() returns (r: Result<Answer, Error>)
      modifies this`log, stream
      ensures (Now(), r) == Step(codec, old(Now()), Call.Databases)
    {
      var response := Ask(SystemRequest(ShowDatabases, []));
      if response.Failure? {
        return Failure(response.error);
      }
      var message := ExpectMessage(response.value);
      r := if message.Failure? then Failure(message.error)
           else Success(NameList(ParseList(message.value, "Databases:")));
    }

    method Tables() returns (r: Result<Answer, Error>)
      modifies this`log, stream
      ensures (Now(), r) == Step(codec, old(Now()), Call.ShowTables)
    {
      var response := Ask(DBRequest(DBCommand.ShowTables, []));
      if response.Failure? {
        return Failure(response.error);
      }
      var message := ExpectMessage(response.value);
      r := if message.Failure? then Failure(message.error)
           else Success(NameList(ParseList(message.value, "Tables:")));
    }

    /** Run a statement, if the guard lets it through. */
    method Run(sql: string) returns (r: Result<Outcome, Error>)
      modifies this`log, stream
      ensures match CheckStatement(statementGuard, sql)
              case Failure(e) => r == Failure(e) && Now() == old(Now())
              case Success(_) =>
                match EncodeRequest(codec, DBRequest(ExecuteSQL, [sql]))
                case Failure(e) => r == Failure(e) && Now() == old(Now())
                case Success(bytes) =>
                  Now() == Session.RoundTrip(codec, old(Now()), DBRequest(ExecuteSQL, [sql]), bytes) &&
                  r == match CheckReply(log[|old(log)|].reply)
                       case Failure(e) => Failure(e)
                       case Success(response) => StatementOutcome(response)
    {
      if statementGuard {
        var kind := SqlGuard.Inspect(sql);
        if kind.Failure? {
          return Failure(kind.error);
        }
      } else if Trim(sql) == [] {
        return Failure(InvalidArgument("statement is empty"));
      }
      var response := Ask(DBRequest(ExecuteSQL, [sql]));
      r := if response.Failure? then Failure(response.error) else StatementOutcome(response.value);
    }

    method Execute(sql: string) returns (r: Result<Answer, Error>)
      modifies this`log, stream
      ensures (Now(), r) == Step(codec, old(Now()), Call.Execute(sql))
    {
      var outcome := Run(sql);
      r := if outcome.Failure? then Failure(outcome.error) else Success(Statement(outcome.value));
    }

    method Query(sql: string) returns (r: Result<Answer, Error>)
      modifies this`log, stream
      ensures (Now(), r) == Step(codec, old(Now()), Call.Query(sql))
    {
      var outcome := Run(sql);
      if outcome.Failure? {
        return Failure(outcome.error);
      }
      r := if outcome.value.ResultRows? then Success(TableRows(outcome.value.result, outcome.value.paging))
           else Failure(UnexpectedResponse);
    }

    method ImportCsv(path: string, table: string) returns (r: Result<Answer, Error>)
      modifies this`log, stream
      ensures (Now(), r) == Step(codec, old(Now()), Call.ImportCsv(path, table))
    {
      var from := RequireName(path, "path");
      if from.Failure? {
        return Failure(from.error);
      }
      var into := RequireName(table, "table name");
      if into.Failure? {
        return Failure(into.error);
      }
      var response := Ask(DBRequest(Import, [from.value, into.value]));
      if response.Failure? {
        return Failure(response.error);
      }
      var message := ExpectMessage(response.value);
      if message.Failure? {
        return Failure(message.error);
      }
      var n := ParseImported(message.value);
      r := if n.Failure? then Failure(n.error) else Success(Count(n.value));
    }

    method Commit() returns (r: Result<Answer, Error>)
      modifies this`log, stream
      ensures (Now(), r) == Step(codec, old(Now()), Call.Commit)
    {
      var response := Ask(DBRequest(DBCommand.Commit, []));
      r := if response.Failure? then Failure(response.error) else Success(Done);
    }

    method Help() returns (r: Result<Answer, Error>)
      modifies this`log, stream
      ensures (Now(), r) == Step(codec, old(Now()), Call.Help)
    {
      var response := Ask(SystemRequest(SystemCommand.Help, []));
      if response.Failure? {
        return Failure(response.error);
      }
      var message := ExpectMessage(response.value);
      r := if message.Failure? then Failure(message.error) else Success(HelpText(message.value));
    }

    method ResetServer() returns (r: Result<Answer, Error>)
      modifies this, stream
      ensures (Now(), r) == Step(codec, old(Now()), Call.ResetServer)
    {
      var response := Ask(SystemRequest(Reset, []));
      if response.Failure? {
        return Failure(response.error);
      }
      database := None;
      return Success(Done);
    }

    // ----- Any call, any number of calls -----

    /** Every method of this client is the session's step for its call. */
    method Perform(call: Call) returns (r: Result<Answer, Error>)
      modifies this, stream
      ensures (Now(), r) == Step(codec, old(Now()), call)
    {
      match call
      case SetStatementGuard(enabled) =>
        SetStatementGuard(enabled);
        r := Success(Done);
      case CreateDatabase(name) => r := CreateDatabase(name);
      case UseDatabase(name) => r := UseDatabase(name);
      case Databases => r := Databases();
      case ShowTables => r := Tables();
      case Execute(sql) => r := Execute(sql);
      case Query(sql) => r := Query(sql);
      case ImportCsv(path, table) => r := ImportCsv(path, table);
      case Commit => r := Commit();
      case Help => r := Help();
      case ResetServer => r := ResetServer();
    }

    /** The session's run is what a client goes through, so every law of a run holds of a
        client that is called in sequence. */
    method PerformAll(calls: seq<Call>) returns (results: seq<Result<Answer, Error>>)
      modifies this, stream
      ensures (Now(), results) == Session.Run(codec, old(Now()), calls)
      decreases |calls|
    {
      hide Step;
      if calls == [] {
        return [];
      }
      var first := Perform(calls[0]);
      var others := PerformAll(calls[1..]);
      results := [first] + others;
    }
  }
}
