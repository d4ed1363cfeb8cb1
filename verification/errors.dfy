/** The three exception classes of the error module; they carry no behaviour. */
module Errors {
  import opened Json

  datatype Error =
      /** The server's reply does not look like a protocol server's reply. */
    | NotMatrixServer
      /** A well-formed protocol error: the HTTP status and the decoded body. */
    | MatrixError(code: int, body: Value)
      /** A decoded body did not match the schema the caller expected. */
    | InvalidResponse
}
