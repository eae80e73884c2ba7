/** The JSON responses the two handlers return, with their HTTP status. */
module Http {
  import opened Common

  /** The contact-form fields a successful verification hands back. */
  datatype FormData = FormData(name: string, email: string, message: string, fileName: Option<string>)

  datatype Body =
    | ErrorBody(error: string)          // `{ error }`
    | Ack(message: string)              // `{ success: true, message }`
    | Verified(formData: FormData)      // `{ success: true, verified: true, formData }`

  datatype Response = Response(status: int, body: Body)

  /** A client error: status 400 with an `{ error }` body. */
  function BadRequest(error: string): Response
  {
    Response(400, ErrorBody(error))
  }
}
