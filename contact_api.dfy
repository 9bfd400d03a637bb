/**
 * The contact-form endpoint (pages/api/contact.ts): an early-return chain that
 * checks the HTTP method, then the required fields, then the reCAPTCHA token,
 * and answers with a status code and a JSON body.
 *
 * The environment variable holding the reCAPTCHA secret is the parameter
 * `secret`, and what the verification service answered is the parameter
 * `verifier`; the request to that service is not modelled.
 */
module ContactApi {
  import opened Wrappers
  import opened JsValues

  /** The token the form sends in demo mode; it is accepted without verification. */
  const DemoToken: string := "demo_token"

  /** The outcome of asking the verification service: the call or its JSON parse threw, or it answered `data`. */
  datatype Verification = Threw | Answered(data: JsValue)

  /** A response: status code and JSON body. */
  datatype Reply = Reply(status: int, body: Record)

  /** `name`, `email` and `message` are all truthy; `subject` is not required. */
  predicate HasRequiredFields(body: Record)
  {
    TruthyProp(Get(body, "name")) && TruthyProp(Get(body, "email")) && TruthyProp(Get(body, "message"))
  }

  /** `process.env.RECAPTCHA_SECRET_KEY` is set and non-empty. */
  predicate SecretConfigured(secret: Option<string>)
  {
    secret.Some? && secret.value != ""
  }

  /** The token is strictly equal to the demo token. */
  predicate IsDemoToken(body: Record)
  {
    Get(body, "token") == Some(JString(DemoToken))
  }

  /** `data.key` on a parsed JSON value other than `null`: objects have their own properties, nothing else has these. */
  function Member(data: JsValue, key: string): (v: Option<JsValue>)
    ensures v.Some? <==> data.JObject? && key in data.fields
    ensures v.Some? ==> v.value == data.fields[key]
  {
    if data.JObject? && key in data.fields then Some(data.fields[key]) else None
  }

  /** The service vouched for the token: it answered an object whose `success` is truthy. */
  predicate Verified(verifier: Verification)
  {
    verifier.Answered? && TruthyProp(Member(verifier.data, "success"))
  }

  /** Reading `success` on the service's answer throws: the call failed, or the answer was `null`. */
  predicate VerificationThrows(verifier: Verification)
  {
    verifier.Threw? || verifier.data.JNull?
  }

  function MessageBody(message: string): Record
  {
    map["message" := JString(message)]
  }

  /** The rejection body; `errorCodes` disappears from the JSON when the answer has no `error-codes`. */
  function RejectionBody(data: JsValue): (b: Record)
    ensures Get(b, "message") == Some(JString("reCAPTCHA failed"))
    ensures "errorCodes" in b <==> Member(data, "error-codes").Some?
    ensures "errorCodes" in b ==> b["errorCodes"] == Member(data, "error-codes").value
  {
    match Member(data, "error-codes")
    case None => MessageBody("reCAPTCHA failed")
    case Some(codes) => MessageBody("reCAPTCHA failed")["errorCodes" := codes]
  }

  function SuccessBody(): Record
  {
    map["success" := JBool(true), "message" := JString("Message sent successfully!")]
  }

  /** `handler(req, res)`; `verb` is the request method, `None` when absent. */
  function Handle(verb: Option<string>, body: Record, secret: Option<string>, verifier: Verification): (r: Reply)
    ensures r.status in {200, 400, 405, 500}
    ensures r.status == 405 <==> verb != Some("POST")
    ensures r.status == 405 ==> r.body == MessageBody("Method Not Allowed")
    ensures Get(r.body, "message") == Some(JString("Missing required fields")) <==> verb == Some("POST") && !HasRequiredFields(body)
    ensures Get(r.body, "message") == Some(JString("Missing required fields")) ==> r == Reply(400, MessageBody("Missing required fields"))
    ensures r.status == 200 <==>
              && verb == Some("POST") && HasRequiredFields(body)
              && (IsDemoToken(body) || !SecretConfigured(secret) || Verified(verifier))
    ensures r.status == 200 ==> r.body == SuccessBody()
    ensures r.status == 500 <==>
              && verb == Some("POST") && HasRequiredFields(body)
              && !IsDemoToken(body) && SecretConfigured(secret) && VerificationThrows(verifier)
    ensures r.status == 500 ==> r.body == MessageBody("Internal Server Error")
    ensures Get(r.body, "message") == Some(JString("reCAPTCHA failed")) <==>
              && verb == Some("POST") && HasRequiredFields(body)
              && !IsDemoToken(body) && SecretConfigured(secret)
              && !VerificationThrows(verifier) && !Verified(verifier)
    ensures Get(r.body, "message") == Some(JString("reCAPTCHA failed")) ==>
              r.status == 400 && r.body == RejectionBody(verifier.data)
  {
    if verb != Some("POST") then
      Reply(405, MessageBody("Method Not Allowed"))
    else if !HasRequiredFields(body) then
      Reply(400, MessageBody("Missing required fields"))
    else if !IsDemoToken(body) && SecretConfigured(secret) then
      match verifier
      case Threw => Reply(500, MessageBody("Internal Server Error"))
      case Answered(data) =>
        if data.JNull? then Reply(500, MessageBody("Internal Server Error"))
        else if !TruthyProp(Member(data, "success")) then Reply(400, RejectionBody(data))
        else Reply(200, SuccessBody())
    else
      Reply(200, SuccessBody())
  }

  // ---------------------------------------------------------------------------
  // Order of the checks

  /** A verb other than POST is refused before anything else is looked at. */
  lemma MethodCheckedFirst(verb: Option<string>, body1: Record, body2: Record,
                           secret1: Option<string>, secret2: Option<string>, v1: Verification, v2: Verification)
    requires verb != Some("POST")
    ensures Handle(verb, body1, secret1, v1) == Handle(verb, body2, secret2, v2)
  {
  }

  /** Missing fields are refused before the token is looked at or the service is asked. */
  lemma FieldsCheckedBeforeToken(body: Record, secret1: Option<string>, secret2: Option<string>, v1: Verification, v2: Verification)
    requires !HasRequiredFields(body)
    ensures Handle(Some("POST"), body, secret1, v1) == Handle(Some("POST"), body, secret2, v2)
  {
  }

  /** The demo token, or a missing secret, accepts the message whatever the service would say. */
  lemma VerificationSkipped(body: Record, secret: Option<string>, v: Verification)
    requires HasRequiredFields(body) && (IsDemoToken(body) || !SecretConfigured(secret))
    ensures Handle(Some("POST"), body, secret, v) == Reply(200, SuccessBody())
  {
  }

  /** `subject` never affects the reply (it is only logged): adding, changing or removing it changes no response. */
  lemma SubjectIgnored(verb: Option<string>, body: Record, subject: JsValue, secret: Option<string>, v: Verification)
    ensures Handle(verb, body["subject" := subject], secret, v) == Handle(verb, body - {"subject"}, secret, v)
  {
    var withSubject := body["subject" := subject];
    var withoutSubject := body - {"subject"};
    assert forall k | k != "subject" :: Get(withSubject, k) == Get(withoutSubject, k);
  }
}
