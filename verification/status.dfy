/** The acceptance test every remote reply goes through (`request_check`), and
    the shape of a reply as the loops of the collector see it. */
module Status {
  import opened Wrappers

  /** `RequestError`: the only exception `request_check` raises. */
  datatype RequestError = RequestError(message: string)

  /** One reply of the remote service: its top-level `status` field and the
      part of the JSON body the caller goes on to read (`results` or `result`). */
  datatype Reply<P> = Reply(status: string, body: P)

  const MessagePrefix: string := "Google API returned the following status: "

  /** The two statuses the service uses for a successful request. */
  predicate Accepted(status: string) {
    status == "OK" || status == "ZERO_RESULTS"
  }

  /** `request_check`: `None` when the reply is accepted, otherwise the error
      it raises. */
  function RequestCheck(status: string): (r: Option<RequestError>)
    ensures r.None? <==> status == "OK" || status == "ZERO_RESULTS"
    ensures r.Some? ==> StatusOf(r.value) == Some(status)
  {
    if status != "OK" && status != "ZERO_RESULTS" then
      Some(RequestError(MessagePrefix + status))
    else
      None
  }

  /** The status a `RequestError` reports, read back from its message. */
  function StatusOf(e: RequestError): Option<string> {
    if |MessagePrefix| <= |e.message| && e.message[..|MessagePrefix|] == MessagePrefix then
      Some(e.message[|MessagePrefix|..])
    else
      None
  }

  /** Different rejected statuses give different errors: the error determines
      the status it was raised for. */
  lemma RequestCheckInjective(s: string, t: string)
    requires RequestCheck(s).Some? && RequestCheck(t).Some?
    requires RequestCheck(s) == RequestCheck(t)
    ensures s == t
  {
  }
}
