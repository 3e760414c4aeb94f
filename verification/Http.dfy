/**
 * The request-side values the handlers read: parsed form fields and the
 * cookie session.
 */
module Http {
  import opened Text
  import opened Results
  import opened Store

  /** A parsed form (`r.Form`): each key with the list of its values. */
  type Form = map<Text, seq<Text>>

  /** `r.FormValue(key)`: the first value of the key, or the empty text. */
  function FormValue(form: Form, key: Text): (v: Text)
    ensures key in form && form[key] != [] ==> v == form[key][0]
    ensures key !in form || form[key] == [] ==> v == []
  {
    if key in form && form[key] != [] then form[key][0] else []
  }

  /** The values stored in the session cookie. */
  datatype Session = Session(authenticated: bool, username: Option<Text>, userId: Option<Id>)

  /** How a handler's session gate ends. */
  datatype Gate = NotAuthenticated | NoUserId | Allowed(userId: Id)

  /**
   * The gate at the top of most handlers: a session that is not
   * authenticated is sent to the login page, and an authenticated one
   * without a user id is an error.
   */
  function SessionGate(s: Session): (g: Gate)
    ensures g.Allowed? <==> s.authenticated && s.userId.Some?
    ensures g.Allowed? ==> g.userId == s.userId.value
    ensures g == NotAuthenticated <==> !s.authenticated
  {
    if !s.authenticated then NotAuthenticated
    else if s.userId.None? then NoUserId
    else Allowed(s.userId.value)
  }
}
