/** What the members endpoint may answer, and how a roster is taken out of it. */
module Response {
  import opened Wrappers
  import opened Members

  /** A decoded response body. An array is taken to hold member objects;
      the other JSON scalars (strings, numbers, booleans) behave alike here
      and are folded into `JScalar`. */
  datatype Json =
    | JArray(items: seq<Member>)
    | JObject(fields: map<string, Json>)
    | JNull
    | JScalar

  /** Why a group run stops before writing anything. */
  datatype Rejection =
    | FetchFailed        // the request or the body decoding threw
    | InvalidFormat      // neither an array nor an object with a `members` array
    | NullBody           // reading `members` of a `null` body throws
    | BaselineNotArray   // the saved roster decodes to something without `map`

  /** The body carries a `members` property holding an array. */
  predicate HasMembersArray(body: Json) {
    body.JObject? && "members" in body.fields && body.fields["members"].JArray?
  }

  /** The roster in a body: the body itself when it is an array, its
      `members` property when that is an array; any other shape is refused. */
  function SelectRoster(body: Json): (r: Result<seq<Member>, Rejection>)
    ensures r.Success? <==> body.JArray? || HasMembersArray(body)
    ensures r.Success? ==> JArray(r.value) == body || (body.JObject? && JArray(r.value) == body.fields["members"])
    ensures body.JNull? ==> r == Failure(NullBody)
  {
    match body
    case JArray(items) => Success(items)
    case JNull => Failure(NullBody)
    case JObject(fields) =>
      if "members" in fields && fields["members"].JArray? then Success(fields["members"].items)
      else Failure(InvalidFormat)
    case JScalar => Failure(InvalidFormat)
  }
}
