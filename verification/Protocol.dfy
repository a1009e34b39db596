/** The wire types: what a client asks and what a server answers. */
module Protocol {
  import opened Wrappers
  import opened Values
  import opened Schemas

  datatype SystemCommand =
    | Create | Connect | Reset | Shutdown | CloseConnection | QuietMode | ShowDatabases | Test | Help

  datatype DBCommand =
    | ExecuteSQL | RegisterQuery | RunQueryFull | RunQueryPartial | ConvertQuery | ShowTables | ShowQueries
    | Generate | Import | Commit

  datatype Command = System(system: SystemCommand) | DB(db: DBCommand)

  datatype Request = Request(command: Command, args: seq<string>)

  datatype PagingInfo = PagingInfo(currentPage: nat, totalPages: nat, hasNextPage: bool, pageSize: nat)

  datatype QueryResult =
    | MessageOnly(message: string)
    | Select(schema: seq<Attribute>, result: seq<seq<Value>>, paging: Option<PagingInfo>)
    | Inserted(inserted: nat, tableName: string)

  datatype Response =
    | Ok
    | SystemMsg(message: string)
    | SystemErr(message: string)
    | QueryOutcome(result: QueryResult)
    | QueryExecutionError(message: string)
    | ShuttingDown(requested: bool)
    | QuietOk
    | QuietErr
}
