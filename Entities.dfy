/** Validation of the request payloads of the comment and reply use cases. */
module Entities {
  import opened Domain

  /** A JSON value as it arrives in a request body. */
  datatype Json = JString(s: string) | JNumber(n: int) | JBool(b: bool) | JNull | JComposite

  type Payload = map<string, Json>

  /** The NewComment / NewReply entity: the payload must carry `content`, and
      it must be a string. `entity` names what is being created, for the message. */
  function NewContent(payload: Payload, entity: Resource): (r: Result<string>)
    ensures r.Success? <==> "content" in payload && payload["content"].JString?
    ensures r.Success? ==> r.value == payload["content"].s
    ensures "content" !in payload ==> r == Failure(Invalid(entity, MissingProperty))
    ensures "content" in payload && !payload["content"].JString? ==> r == Failure(Invalid(entity, WrongType))
  {
    if "content" !in payload then Failure(Invalid(entity, MissingProperty))
    else match payload["content"]
      case JString(s) => Success(s)
      case _ => Failure(Invalid(entity, WrongType))
  }
}
