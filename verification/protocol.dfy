/** The two ends of the local conversion protocol together: what the input
    method's client (imeclient.cpp) makes of a reply the service's handler
    (cmd/main.go) sent. */
module Protocol {
  import opened Common
  import opened ImeClient
  import opened Server

  /** The JSON encoding of a reply, read back by the client's decoder, gives
      the two fields the handler filled in. */
  predicate Encodes(reply: Reply, encoded: string, decode: string -> Option<JsonFields>) {
    decode(encoded) == Some(JsonFields(reply.candidates, Some(reply.errorMessage)))
  }

  /** What the client reports for a handled request: success with the
      candidates exactly when the conversion succeeded with a list, the
      handler's error message when it did not run or failed, and a thrown
      type error when it succeeded with a nil slice, which the handler sends
      as `"candidates": null`. */
  lemma {:induction false} ClientSeesHandlerReply(httpMethod: string, contentType: string, body: string,
                                decode: string -> Option<string>,
                                convert: string -> Result<Option<seq<string>>, string>,
                                encoded: string, decodeReply: string -> Option<JsonFields>)
    requires Encodes(Handle(httpMethod, contentType, body, decode, convert).reply, encoded, decodeReply)
    ensures var h := Handle(httpMethod, contentType, body, decode, convert);
            var o := Dispatch(h.reply.status, encoded, decodeReply);
            var ok := h.converted.Some? && convert(h.converted.value).Ok?;
            && (o.Thrown? <==> ok && convert(h.converted.value).value.None?)
            && (o.Returned? && o.response.isSuccess <==> ok && convert(h.converted.value).value.Some?)
            && (o.Returned? && o.response.isSuccess ==> Some(o.response.candidates) == convert(h.converted.value).value)
            && (!ok ==> o.Returned? && o.response.errorMessage == h.reply.errorMessage)
  {
    var h := Handle(httpMethod, contentType, body, decode, convert);
    if h.reply.status == StatusOK {
      assert h.converted.Some? && convert(h.converted.value).Ok?;
    } else {
      assert h.reply.candidates.None?;
    }
  }
}
