/** What a handler sends back, and the store it leaves behind. */
module Http {
  import opened Models

  /** `to_dict()` of a row; its exact JSON shape is defined in kanban/models.py and kept abstract. */
  datatype Record =
    | UserRecord(user: User)
    | CardRecord(card: Card)
    | CategoryRecord(category: CardCategory)

  datatype Response =
    | Ok(record: Record)
      /** A 200 whose body is a list of records. */
    | OkList(records: seq<Record>)
      /** A raised `HTTPException`: body `{"detail": detail}`. */
    | HttpException(status: nat, detail: string)
      /** `JSONResponse({'error': error}, status_code=status)`. */
    | ErrorResponse(status: nat, error: string)
      /** An exception nothing catches (the framework answers 500). */
    | ServerError

  /** The outcome of one request: the response and the store after it. */
  datatype Reply = Reply(response: Response, store: Store)

  const BadRequest: nat := 400
  const NotFound: nat := 404
}
