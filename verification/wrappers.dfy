/** Optional values and tagged results shared by the endpoint models. */
module Wrappers {

  /** A value that may be absent: a form field or JSON member that was not sent. */
  datatype Option<+T> = None | Some(value: T)

  /** JavaScript truthiness of an optional string, a request field or a nullable column: null, undefined and "" are falsy. */
  predicate Present(o: Option<string>) {
    o.Some? && o.value != ""
  }

  /** Either a successful value or a tagged error. */
  datatype Result<+R, +E> = Success(value: R) | Failure(error: E)

  /** A check that either passes or fails with an error, carrying no value. */
  datatype Outcome<+E> = Pass | Fail(error: E)
}

/** An HTTP answer: a status code and a JSON body whose shape each endpoint defines. */
module Http {
  datatype HttpResponse<+B> = HttpResponse(status: int, body: B)
}
