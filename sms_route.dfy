/** The SMS endpoint: request checks and the rewriting of a local Bosnian number into
    the `+387` international form. The Twilio call is an input: `None` when it fails,
    the message id when it succeeds. */
module SmsRoute {
  import opened Text

  const CountryCode: string := "+387"
  const NotConfigured: string := "Twilio credentials not configured"
  const MissingFields: string := "Phone number and message are required"
  const SendFailed: string := "Failed to send SMS"

  /** The JSON body's two fields; `None` for a field that is absent. */
  datatype Body = Body(to: Option<string>, message: Option<string>)

  datatype Reply = Failure(status: nat, error: string) | Success(messageId: string, sentTo: string)

  /** A configuration value that is unset or empty is falsy. */
  predicate Present(v: Option<string>)
  {
    v.Some? && v.value != ""
  }

  /** The number Twilio is asked to text. */
  function NormalizePhone(to: string): (r: string)
    ensures |r| >= 1 && r[0] == '+'
    ensures |to| >= 1 && to[0] == '+' ==> r == to
    ensures !(|to| >= 1 && to[0] == '+') ==>
      && |r| >= 4 && r[..4] == CountryCode
      && (forall i :: 4 <= i < |r| ==> !IsWhitespace(r[i]))
      && r[4..] == RemoveWhitespace(if |to| >= 1 && to[0] == '0' then to[1..] else to)
  {
    if |to| >= 1 && to[0] == '+' then to
    else if |to| >= 1 && to[0] == '0' then CountryCode + RemoveWhitespace(to[1..])
    else CountryCode + RemoveWhitespace(to)
  }

  /** A normalised number is left alone by a second pass. */
  lemma NormalizePhoneIdempotent(to: string)
    ensures NormalizePhone(NormalizePhone(to)) == NormalizePhone(to)
  {
  }

  /** `POST`: credentials are checked before the body is read (500), then both
      fields are required (400); a body that is not JSON or a failed send gives 500. */
  function Post(accountSid: Option<string>, authToken: Option<string>, fromNumber: Option<string>,
                body: Option<Body>, sent: Option<string>): (reply: Reply)
    ensures !(Present(accountSid) && Present(authToken) && Present(fromNumber)) ==>
              reply == Failure(500, NotConfigured)
    ensures Present(accountSid) && Present(authToken) && Present(fromNumber) && body.Some?
            && !(Present(body.value.to) && Present(body.value.message)) ==>
              reply == Failure(400, MissingFields)
    ensures reply.Success? <==>
              && Present(accountSid) && Present(authToken) && Present(fromNumber)
              && body.Some? && Present(body.value.to) && Present(body.value.message) && sent.Some?
    ensures reply.Success? ==> reply.sentTo == NormalizePhone(body.value.to.value) && reply.sentTo[0] == '+'
  {
    if !(Present(accountSid) && Present(authToken) && Present(fromNumber)) then Failure(500, NotConfigured)
    else if body.None? then Failure(500, SendFailed)
    else if !(Present(body.value.to) && Present(body.value.message)) then Failure(400, MissingFields)
    else
      var formatted := NormalizePhone(body.value.to.value);
      match sent
      case None => Failure(500, SendFailed)
      case Some(sid) => Success(sid, formatted)
  }
}
