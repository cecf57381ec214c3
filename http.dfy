/** The shapes a handler produces: either a response it writes itself
    (`res.status(s).json(body)`) or an error it passes to `next`, which the terminal
    error handler turns into a response. */
module Http {
  import opened Common
  import opened Records
  import Joi

  /** What reaches `next(err)`. */
  datatype Error =
    | HttpError(status: int, message: string)          // createError(status, message)
    | ValidationError(details: seq<Joi.Detail>)         // a thrown Joi.ValidationError
    | Fault(statusCode: Option<int>, message: string)   // any other thrown Error

  /** The JSON bodies the handlers send. */
  datatype Payload =
    | ErrorsBody(errors: map<string, string>)           // { errors: {...} }
    | MessageBody(message: string)                      // { message }
    | TokenBody(token: string)                          // { token }
    | UserBody(user: User)                              // the whole stored record
    | ProfileBody(profile: Profile)
    | ListBody(users: seq<Summary>, page: int, totalPages: int, totalUsers: int)
    | ExportBody(rows: seq<Summary>)                    // the rows written to the workbook

  datatype Reply = Respond(status: int, payload: Payload) | Next(error: Error)

  datatype Response = Response(status: int, payload: Payload)

  /** `{ errors: { [key]: message } }`. */
  function Errors(key: string, message: string): Payload {
    ErrorsBody(map[key := message])
  }
}
