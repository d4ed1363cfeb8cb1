/** `check_response` of client.py: the classification of one HTTP response as
    a success payload, a protocol error, or a reply from something that is not
    a protocol server. */
module Classifier {
  import opened Wrappers
  import opened Json
  import opened Errors

  /** One HTTP response, with the outcome of its one-shot body decode
      (`None` when `resp.json()` raised). Header names are compared exactly. */
  datatype Response = Response(status: int, headers: map<string, string>, decoded: Option<Value>)

  predicate IsSuccessStatus(status: int) {
    200 <= status < 400
  }

  /** `check_response(resp)`. On an error status the body is decoded and
      probed with `"errcode" in result`; every exception other than the
      protocol error itself (a failed decode, or the `TypeError` of `in` on a
      number, boolean or null) becomes `NotMatrixServerError`. */
  function CheckResponse(resp: Response): (r: Result<(int, Value), Error>)
    ensures r.Success? <==> IsSuccessStatus(resp.status) && resp.decoded.Some?
    ensures r.Success? ==> r.value == (resp.status, resp.decoded.value)
    ensures r.Failure? ==> r.error.NotMatrixServer? || r.error.MatrixError?
    ensures r.Failure? && r.error.MatrixError? <==>
      !IsSuccessStatus(resp.status) && resp.decoded.Some?
      && PyIn("errcode", resp.decoded.value) == Some(true)
    ensures r.Failure? && r.error.MatrixError? ==>
      r.error.code == resp.status && r.error.body == resp.decoded.value
  {
    if !IsSuccessStatus(resp.status) then
      match resp.decoded
      case None => Failure(NotMatrixServer)
      case Some(result) =>
        match PyIn("errcode", result)
        case Some(true) => Failure(MatrixError(resp.status, result))
        case _ => Failure(NotMatrixServer)
    else
      match resp.decoded
      case None => Failure(NotMatrixServer)
      case Some(body) => Success((resp.status, body))
  }

  /** For a decoded JSON object the three outcomes are: the body unchanged on
      a success status, `MatrixError` with that status and body when the
      object has an "errcode" key, and `NotMatrixServerError` otherwise; an
      undecodable body is never a success. */
  lemma ClassifyDecodedObject(resp: Response)
    ensures resp.decoded.None? ==> CheckResponse(resp) == Failure(NotMatrixServer)
    ensures resp.decoded.Some? && resp.decoded.value.Obj? ==>
      CheckResponse(resp) ==
        if IsSuccessStatus(resp.status) then Success((resp.status, resp.decoded.value))
        else if "errcode" in resp.decoded.value.members then Failure(MatrixError(resp.status, resp.decoded.value))
        else Failure(NotMatrixServer)
  {
  }
}
