/** Outcomes of a route handler: the record it answers with, or why it refused. */
module Outcome {

  datatype Option<+T> = None | Some(value: T)

  /** The ways a handler can refuse a request. */
  datatype Error =
    | ValidationError   // the Joi schema rejected the body; the handler forwards it with next(err)
    | MissingItemStat   // item creation without item_stat: answered with 400
    | NotFound          // no record with the requested key: answered with 404
    | UnknownItemCode   // item patch of a code that is not stored: answered with 400
    | DuplicateKey      // a unique index rejected the save; the handler forwards it with next(err)

  datatype Result<+T> = Success(value: T) | Failure(error: Error)
}
