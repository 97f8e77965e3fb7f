/** The JSON envelope the handlers answer with: `{ success, message?, data? }`
    together with the HTTP status code that `res.status(...)` sets. The
    `error` field that 500 replies also carry is not modelled. */
module Http {
  import opened Wrappers

  /** Marker for responses whose envelope carries no `data` field. */
  datatype NoData = NoData

  datatype Body<T> = Body(success: bool, message: Option<string>, data: Option<T>)

  datatype Response<T> = Response(status: nat, body: Body<T>)

  /** `res.status(status).json({ success: false, message })`. */
  function Fail<T>(status: nat, message: string): Response<T> {
    Response(status, Body(false, Some(message), None))
  }

  /** A successful envelope; `res.json(...)` without `status(...)` answers 200. */
  function Succeed<T>(status: nat, message: Option<string>, data: Option<T>): Response<T> {
    Response(status, Body(true, message, data))
  }
}
