/** A client session as a state machine over calls: local checks, one exchange on the
    wire, and what the call makes of the answer. */
module Session {
  import opened Wrappers
  import opened Errors
  import opened Text
  import opened Protocol
  import opened Codec
  import opened Lists
  import opened Tables
  import SqlGuard

  /** One request that got past every local check: what reached the wire, whether the
      statement guard was on, and what was read in answer. */
  datatype Exchange = Exchange(request: Request, guarded: bool, bytes: seq<byte>, reply: Result<Response, Error>)

  datatype State = State(
    database: Option<string>,
    guard: bool,
    incoming: seq<Arrival>,
    writes: seq<WriteOutcome>,
    outgoing: seq<seq<byte>>,
    log: seq<Exchange>
  )

  datatype Outcome =
    | Message(message: string)
    | InsertedRows(rows: nat, table: string)
    | ResultRows(result: Rows, paging: Option<PagingInfo>)

  datatype Call =
    | SetStatementGuard(enabled: bool)
    | CreateDatabase(name: string)
    | UseDatabase(name: string)
    | Databases
    | ShowTables
    | Execute(sql: string)
    | Query(sql: string)
    | ImportCsv(path: string, table: string)
    | Commit
    | Help
    | ResetServer

  datatype Answer =
    | Done
    | NameList(names: seq<string>)
    | Statement(outcome: Outcome)
    | TableRows(rows: Rows, paging: Option<PagingInfo>)
    | Count(n: nat)
    | HelpText(text: string)

  // ----- Before the wire -----

  function SystemRequest(command: SystemCommand, args: seq<string>): Request {
    Request(System(command), args)
  }

  function DBRequest(command: DBCommand, args: seq<string>): Request {
    Request(DB(command), args)
  }

  function CheckStatement(guard: bool, sql: string): Result<(), Error> {
    if guard then
      var kind :- SqlGuard.Inspection(sql);
      Success(())
    else if Trim(sql) == [] then Failure(InvalidArgument("statement is empty"))
    else Success(())
  }

  /** The request a call makes, or why it is refused before anything is encoded. */
  function Prepare(call: Call, guard: bool): Result<Request, Error>
    requires !call.SetStatementGuard?
  {
    match call
    case CreateDatabase(name) =>
      var name :- RequireName(name, "database name");
      Success(SystemRequest(Create, [name]))
    case UseDatabase(name) =>
      var name :- RequireName(name, "database name");
      Success(SystemRequest(Connect, [name]))
    case Databases => Success(SystemRequest(ShowDatabases, []))
    case ShowTables => Success(DBRequest(DBCommand.ShowTables, []))
    case Execute(sql) =>
      var checked :- CheckStatement(guard, sql);
      Success(DBRequest(ExecuteSQL, [sql]))
    case Query(sql) =>
      var checked :- CheckStatement(guard, sql);
      Success(DBRequest(ExecuteSQL, [sql]))
    case ImportCsv(path, table) =>
      var path :- RequireName(path, "path");
      var table :- RequireName(table, "table name");
      Success(DBRequest(Import, [path, table]))
    case Commit => Success(DBRequest(DBCommand.Commit, []))
    case Help => Success(SystemRequest(SystemCommand.Help, []))
    case ResetServer => Success(SystemRequest(Reset, []))
  }

  // ----- On the wire -----

  /** What comes back once a request has gone out, and what is left to read. */
  function Fetched(codec: BodyCodec, incoming: seq<Arrival>, outcome: WriteOutcome)
    : (Result<Response, Error>, seq<Arrival>)
  {
    if outcome.Accepted? then ReadFrame(codec, incoming) else (Failure(FromIo(outcome.failure)), incoming)
  }

  /** Send an encoded request and read one response. */
  function RoundTrip(codec: BodyCodec, s: State, request: Request, bytes: seq<byte>): State {
    var outcome := NextOutcome(s.writes);
    var (reply, rest) := Fetched(codec, s.incoming, outcome);
    var sent := Reaching(outcome, bytes);
    s.(incoming := rest, writes := Later(s.writes), outgoing := s.outgoing + [sent],
       log := s.log + [Exchange(request, s.guard, sent, reply)])
  }

  // ----- After the wire -----

  predicate Contains(s: string, part: string) {
    exists i | 0 <= i <= |s| :: part <= s[i..]
  }

  /** Success exactly for the responses that report no failure, which pass unchanged. */
  function Check(response: Response): Result<Response, Error> {
    match response
    case SystemErr(message) =>
      if Contains(message, "Not connected to a database") then Failure(NotConnected) else Failure(Server(message))
    case QueryExecutionError(message) => Failure(Error.Query(message))
    case QuietErr => Failure(Server("server reported an error"))
    case ShuttingDown(requested) => if requested then Success(response) else Failure(ServerShutdown)
    case _ => Success(response)
  }

  function CheckReply(reply: Result<Response, Error>): Result<Response, Error> {
    var response :- reply;
    Check(response)
  }

  function IntoOutcome(result: QueryResult): Outcome {
    match result
    case MessageOnly(message) => Message(message)
    case Inserted(n, table) => InsertedRows(n, table)
    case Select(schema, rows, paging) => ResultRows(Rows(schema, rows), paging)
  }

  function StatementOutcome(response: Response): Result<Outcome, Error> {
    match response
    case QueryOutcome(result) => Success(IntoOutcome(result))
    case SystemMsg(message) => Success(Message(message))
    case Ok => Success(Message(""))
    case QuietOk => Success(Message(""))
    case _ => Failure(UnexpectedResponse)
  }

  function ExpectMessage(response: Response): Result<string, Error> {
    match response
    case SystemMsg(message) => Success(message)
    case QueryOutcome(MessageOnly(message)) => Success(message)
    case _ => Failure(UnexpectedResponse)
  }

  /** What a call returns for a response that passed the check. */
  function Interpret(call: Call, response: Response): Result<Answer, Error> {
    match call
    case Databases =>
      var message :- ExpectMessage(response);
      Success(NameList(ParseList(message, "Databases:")))
    case ShowTables =>
      var message :- ExpectMessage(response);
      Success(NameList(ParseList(message, "Tables:")))
    case Execute(_) =>
      var outcome :- StatementOutcome(response);
      Success(Statement(outcome))
    case Query(_) =>
      var outcome :- StatementOutcome(response);
      if outcome.ResultRows? then Success(TableRows(outcome.result, outcome.paging)) else Failure(UnexpectedResponse)
    case ImportCsv(_, _) =>
      var message :- ExpectMessage(response);
      var n :- ParseImported(message);
      Success(Count(n))
    case Help =>
      var message :- ExpectMessage(response);
      Success(HelpText(message))
    case _ => Success(Done)
  }

  /** The database a call records once its response has passed the check. */
  function Recorded(call: Call, database: Option<string>): Option<string> {
    match call
    case UseDatabase(name) => Some(Trim(name))
    case ResetServer => None
    case _ => database
  }

  // ----- Calls -----

  function Step(codec: BodyCodec, s: State, call: Call): (State, Result<Answer, Error>) {
    if call.SetStatementGuard? then (s.(guard := call.enabled), Success(Done))
    else
      match Prepare(call, s.guard)
      case Failure(e) => (s, Failure(e))
      case Success(request) => Dispatch(codec, s, call, request)
  }

  function Dispatch(codec: BodyCodec, s: State, call: Call, request: Request): (State, Result<Answer, Error>) {
    match EncodeRequest(codec, request)
    case Failure(e) => (s, Failure(e))
    case Success(bytes) =>
      var after := RoundTrip(codec, s, request, bytes);
      match CheckReply(after.log[|s.log|].reply)
      case Failure(e) => (after, Failure(e))
      case Success(response) =>
        (after.(database := Recorded(call, s.database)), Interpret(call, response))
  }

  /** A run of calls, with what each returned. */
  function Run(codec: BodyCodec, s: State, calls: seq<Call>): (State, seq<Result<Answer, Error>>)
    decreases |calls|
  {
    if calls == [] then (s, [])
    else
      var (next, result) := Step(codec, s, calls[0]);
      var (last, results) := Run(codec, next, calls[1..]);
      (last, [result] + results)
  }
}
