/**
 * The request-body validators that run before the user routes: each one
 * either answers 400 with an error message or hands the request on.
 */
module UserMiddleware {
  import opened Wrappers

  /** A field of a parsed JSON (or multipart) body, as JavaScript sees it. */
  datatype JsValue = Undefined | Null | Bool(b: bool) | Num(n: int) | Str(s: string) | Object

  /** JavaScript truthiness: `undefined`, `null`, `false`, `0` and `''` are
      falsy, everything else is truthy. */
  predicate Truthy(v: JsValue) {
    match v
    case Undefined => false
    case Null => false
    case Bool(b) => b
    case Num(n) => n != 0
    case Str(s) => s != ""
    case Object => true
  }

  /** `typeof v !== 'undefined'`. */
  predicate Defined(v: JsValue) {
    !v.Undefined?
  }

  /** The fields the validators read; a field the client did not send is
      `Undefined`. */
  datatype Body = Body(name: JsValue, email: JsValue, password: JsValue, profilePic: JsValue)

  /** `req.body` (absent when nothing was parsed) and whether the upload
      middleware attached a file. */
  datatype Request = Request(body: Option<Body>, hasFile: bool)

  /** A 400 answer with its `error` message, or `next()`. */
  datatype Outcome = Respond(status: nat, error: string) | Next

  const UserDataRequired: string := "User data is required."
  const AllFieldsRequired: string := "All fields are required."
  const AtLeastOneField: string := "At least one field must be provided."

  /** `validateUserRegister`. */
  function ValidateUserRegister(req: Request): Outcome {
    if req.body.None? then Respond(400, UserDataRequired)
    else
      var b := req.body.value;
      if !Truthy(b.name) || !Truthy(b.email) || !Truthy(b.password) then Respond(400, AllFieldsRequired)
      else Next
  }

  /** `validateUserLogin`. */
  function ValidateUserLogin(req: Request): Outcome {
    if req.body.None? then Respond(400, UserDataRequired)
    else
      var b := req.body.value;
      if !Truthy(b.email) || !Truthy(b.password) then Respond(400, AllFieldsRequired)
      else Next
  }

  /** `validateUserUpdate`. */
  function ValidateUserUpdate(req: Request): Outcome {
    if req.body.None? then Respond(400, UserDataRequired)
    else
      var b := req.body.value;
      var hasAnyField := Defined(b.name) || Defined(b.email) || Defined(b.password) || Defined(b.profilePic);
      if !hasAnyField && !req.hasFile then Respond(400, AtLeastOneField)
      else Next
  }

  /** Name, email and password are all truthy. */
  predicate Complete(b: Body) {
    Truthy(b.name) && Truthy(b.email) && Truthy(b.password)
  }

  /** A body in which none of the four fields was sent. */
  const Empty: Body := Body(Undefined, Undefined, Undefined, Undefined)

  /** Registration goes on exactly when there is a body whose name, email
      and password are all truthy; a missing body is reported first, and
      every other request gets 'All fields are required.'. */
  lemma ValidateUserRegisterSpec(req: Request)
    ensures var o := ValidateUserRegister(req);
            && (o == Next <==> req.body.Some? && Complete(req.body.value))
            && (o == Respond(400, UserDataRequired) <==> req.body.None?)
            && (o == Respond(400, AllFieldsRequired) <==> req.body.Some? && !Complete(req.body.value))
  {
  }

  /** Login goes on exactly when there is a body whose email and password
      are truthy. */
  lemma ValidateUserLoginSpec(req: Request)
    ensures var o := ValidateUserLogin(req);
            && (o == Next <==> req.body.Some? && Truthy(req.body.value.email) && Truthy(req.body.value.password))
            && (o == Respond(400, UserDataRequired) <==> req.body.None?)
            && (o == Respond(400, AllFieldsRequired) <==>
                  req.body.Some? && !(Truthy(req.body.value.email) && Truthy(req.body.value.password)))
  {
  }

  /** The name plays no part in a login, and neither do the picture and the
      uploaded file. */
  lemma LoginIgnoresName(b: Body, name: JsValue, pic: JsValue, hasFile: bool, hasFile': bool)
    ensures ValidateUserLogin(Request(Some(b.(name := name, profilePic := pic)), hasFile))
            == ValidateUserLogin(Request(Some(b), hasFile'))
  {
  }

  /** An update goes on exactly when there is a body and at least one of the
      four fields is present, whatever its value, or a file is attached. */
  lemma ValidateUserUpdateSpec(req: Request)
    ensures var o := ValidateUserUpdate(req);
            && (o == Next <==> req.body.Some? && (req.hasFile || req.body.value != Empty))
            && (o == Respond(400, UserDataRequired) <==> req.body.None?)
            && (o == Respond(400, AtLeastOneField) <==> req.body == Some(Empty) && !req.hasFile)
  {
  }

  /** Presence is not truthiness: an empty string or `null` in any one field
      is enough for an update, though it would fail a registration. */
  lemma UpdateAcceptsEmptyValues(v: JsValue, field: nat)
    requires v == Str("") || v == Null
    requires field < 4
    ensures var b := if field == 0 then Empty.(name := v)
                     else if field == 1 then Empty.(email := v)
                     else if field == 2 then Empty.(password := v)
                     else Empty.(profilePic := v);
            && ValidateUserUpdate(Request(Some(b), false)) == Next
            && ValidateUserRegister(Request(Some(b), false)) == Respond(400, AllFieldsRequired)
  {
  }

  /** A body good enough to register with is good enough to log in with and
      to update with. */
  lemma RegisterAcceptedImpliesLoginAndUpdateAccepted(req: Request)
    requires ValidateUserRegister(req) == Next
    ensures ValidateUserLogin(req) == Next
    ensures ValidateUserUpdate(req) == Next
  {
  }

  /** Each validator answers 400 or goes on, and the three agree on a
      missing body. */
  lemma ValidatorsAgreeOnMissingBody(req: Request)
    ensures ValidateUserRegister(req).Respond? ==> ValidateUserRegister(req).status == 400
    ensures ValidateUserLogin(req).Respond? ==> ValidateUserLogin(req).status == 400
    ensures ValidateUserUpdate(req).Respond? ==> ValidateUserUpdate(req).status == 400
    ensures req.body.None? <==> ValidateUserRegister(req) == ValidateUserLogin(req)
                                == ValidateUserUpdate(req) == Respond(400, UserDataRequired)
  {
  }
}
