/** The conversion service's HTTP handler (cmd/main.go): an ordered chain of
    checks on the request, each ending the exchange with its own status and
    JSON error, before the message is handed to the conversion function. */
module Server {
  import opened Common

  const StatusOK: nat := 200
  const StatusBadRequest: nat := 400
  const StatusMethodNotAllowed: nat := 405
  const StatusInternalServerError: nat := 500

  /** The `response` record the handler encodes, with the status it is sent
      under. `candidates` is `None` where the Go slice is nil, which the JSON
      encoder writes as `null`: in every error reply, and in a success whose
      conversion returned a nil slice. */
  datatype Reply = Reply(status: nat, candidates: Option<seq<string>>, errorMessage: string)

  /** What one request led to: the reply, and the message the conversion
      function was called with, if it was called at all. */
  datatype Handled = Handled(reply: Reply, converted: Option<string>)

  /** `handleError`: the given status, the given message and no candidates. */
  function HandleError(status: nat, message: string): Reply {
    Reply(status, None, message)
  }

  /** The request passes every check before the conversion. */
  predicate Admissible(httpMethod: string, contentType: string, body: string, decode: string -> Option<string>) {
    && httpMethod == "POST"
    && contentType == "application/json"
    && decode(body).Some?
    && decode(body).value != ""
  }

  /** The handler built by `createOpenAIHandler`. `decode` stands for the JSON
      decoder reading the request's `message` field (`None` when decoding
      fails); `convert` is the conversion function it was built with, whose
      successful result is `None` when it returns a nil slice. */
  function Handle(httpMethod: string, contentType: string, body: string,
                  decode: string -> Option<string>,
                  convert: string -> Result<Option<seq<string>>, string>): (h: Handled)
    // the checks, in order, and what each rejection sends
    ensures httpMethod != "POST" ==>
      h == Handled(Reply(StatusMethodNotAllowed, None, "method not allowed"), None)
    ensures httpMethod == "POST" && contentType != "application/json" ==>
      h == Handled(Reply(StatusBadRequest, None, "unsupported Content-Type"), None)
    ensures httpMethod == "POST" && contentType == "application/json" && decode(body).None? ==>
      h == Handled(Reply(StatusBadRequest, None, "invalid request"), None)
    ensures httpMethod == "POST" && contentType == "application/json" && decode(body) == Some("") ==>
      h == Handled(Reply(StatusBadRequest, None, "message should not be empty"), None)
    // the conversion runs exactly when every check passes, on the decoded message
    ensures h.converted.Some? <==> Admissible(httpMethod, contentType, body, decode)
    ensures h.converted.Some? ==> h.converted == decode(body)
    // a failed conversion is a 500 with a fixed text; a successful one is
    // the default status with the candidates as they came, nil included
    ensures h.converted.Some? && convert(h.converted.value).Err? ==>
      h.reply == Reply(StatusInternalServerError, None, "internal server error")
    ensures h.converted.Some? && convert(h.converted.value).Ok? ==>
      h.reply == Reply(StatusOK, convert(h.converted.value).value, "")
    // only a success is a 200, only a success carries candidates, and only
    // a failure carries an error text
    ensures h.reply.status == StatusOK <==> h.converted.Some? && convert(h.converted.value).Ok?
    ensures h.reply.candidates.Some? ==> h.reply.status == StatusOK
    ensures h.reply.status == StatusOK <==> h.reply.errorMessage == ""
  {
    if httpMethod != "POST" then
      Handled(HandleError(StatusMethodNotAllowed, "method not allowed"), None)
    else if contentType != "application/json" then
      Handled(HandleError(StatusBadRequest, "unsupported Content-Type"), None)
    else
      match decode(body)
      case None => Handled(HandleError(StatusBadRequest, "invalid request"), None)
      case Some(message) =>
        if message == "" then
          Handled(HandleError(StatusBadRequest, "message should not be empty"), None)
        else
          match convert(message)
          case Err(_) => Handled(HandleError(StatusInternalServerError, "internal server error"), Some(message))
          case Ok(candidates) => Handled(Reply(StatusOK, candidates, ""), Some(message))
  }

  /** A rejected request never reaches the conversion: its reply is the same
      whatever conversion function the handler was built with. */
  lemma RejectionIgnoresConverter(httpMethod: string, contentType: string, body: string,
                                  decode: string -> Option<string>,
                                  convert1: string -> Result<Option<seq<string>>, string>,
                                  convert2: string -> Result<Option<seq<string>>, string>)
    requires !Admissible(httpMethod, contentType, body, decode)
    ensures Handle(httpMethod, contentType, body, decode, convert1) == Handle(httpMethod, contentType, body, decode, convert2)
    ensures Handle(httpMethod, contentType, body, decode, convert1).reply.status != StatusOK
  {
  }

  /** The method is looked at first: a request with any other method is
      turned away the same way whatever its headers and body. */
  lemma MethodCheckedFirst(httpMethod: string, contentType1: string, body1: string, contentType2: string, body2: string,
                           decode: string -> Option<string>, convert: string -> Result<Option<seq<string>>, string>)
    requires httpMethod != "POST"
    ensures Handle(httpMethod, contentType1, body1, decode, convert) == Handle(httpMethod, contentType2, body2, decode, convert)
  {
  }

  /** The conversion's error text never reaches the client: two conversions
      that both fail give the same reply. */
  lemma ConversionErrorHidden(httpMethod: string, contentType: string, body: string,
                              decode: string -> Option<string>,
                              convert1: string -> Result<Option<seq<string>>, string>,
                              convert2: string -> Result<Option<seq<string>>, string>)
    requires Admissible(httpMethod, contentType, body, decode)
    requires convert1(decode(body).value).Err? && convert2(decode(body).value).Err?
    ensures Handle(httpMethod, contentType, body, decode, convert1).reply == Handle(httpMethod, contentType, body, decode, convert2).reply
  {
  }
}
