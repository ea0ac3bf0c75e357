/**
 The server's registration endpoint: register_user checks that username and
 password are present, that the password has at least 8 characters and
 that the username is free, in that order, and then creates the user. The
 user table is a map from username to id; ids are handed out in order.
 */
module AuthViews {
  import opened Dom

  /** The user table: each username's id, and the next id to hand out. */
  datatype Users = Users(ids: map<string, nat>, nextId: nat)

  /** Every id is below the next one and no two users share an id. */
  predicate Valid(t: Users) {
    && (forall u :: u in t.ids ==> t.ids[u] < t.nextId)
    && (forall u, v :: u in t.ids && v in t.ids && u != v ==> t.ids[u] != t.ids[v])
  }

  const RequiredError := "Username and password are required"
  const LengthError := "Password must be at least 8 characters long"
  const TakenError := "Username already exists"
  const MinPasswordLength := 8

  datatype Body = Error(error: string) | Created(userId: nat)

  datatype Response = Response(status: nat, body: Body)

  /** A request field: absent (`None` from `request.data.get`) or a string. */
  type Field = Option<string>

  /** Python's `not value` on an optional string. */
  predicate Missing(v: Field) {
    v.None? || v.value == ""
  }

  /** register_user. `dbError` is the text of the exception the database
      raises when the user is created, if it does. */
  function RegisterUser(t: Users, username: Field, password: Field, dbError: Option<string>): (r: (Response, Users))
    ensures Missing(username) || Missing(password) ==> r == (Response(400, Error(RequiredError)), t)
    ensures !Missing(username) && !Missing(password) && |password.value| < MinPasswordLength ==>
              r == (Response(400, Error(LengthError)), t)
    ensures !Missing(username) && !Missing(password) && |password.value| >= MinPasswordLength
            && username.value in t.ids ==>
              r == (Response(400, Error(TakenError)), t)
    ensures r.0.status == 201 <==>
              !Missing(username) && !Missing(password) && |password.value| >= MinPasswordLength
              && username.value !in t.ids && dbError.None?
    ensures r.0.status == 201 ==>
              r.0.body == Created(t.nextId) && r.1 == Users(t.ids[username.value := t.nextId], t.nextId + 1)
    ensures !Missing(username) && !Missing(password) && |password.value| >= MinPasswordLength
            && username.value !in t.ids && dbError.Some? ==>
              r == (Response(500, Error(dbError.value)), t)
    ensures r.0.status == 500 ==> dbError.Some? && r.0.body == Error(dbError.value) && r.1 == t
    ensures r.0.status != 201 ==> r.1 == t
  {
    if Missing(username) || Missing(password) then (Response(400, Error(RequiredError)), t)
    else if |password.value| < MinPasswordLength then (Response(400, Error(LengthError)), t)
    else if username.value in t.ids then (Response(400, Error(TakenError)), t)
    else match dbError
      case Some(e) => (Response(500, Error(e)), t)
      case None => (Response(201, Created(t.nextId)), Users(t.ids[username.value := t.nextId], t.nextId + 1))
  }

  /** Registration keeps the table valid, adds exactly the new username on
      success, and gives it an id no other user has. */
  lemma RegisterKeepsValid(t: Users, username: Field, password: Field, dbError: Option<string>)
    requires Valid(t)
    ensures var (resp, t') := RegisterUser(t, username, password, dbError);
            Valid(t')
            && (resp.status == 201 ==>
                  t'.ids.Keys == t.ids.Keys + {username.value}
                  && username.value !in t.ids
                  && forall u :: u in t.ids ==> t.ids[u] != t'.ids[username.value])
            && (resp.status != 201 ==> t' == t)
  {
  }

  /** Registering the same name twice: the second attempt is refused and
      changes nothing. */
  lemma SecondRegistrationRefused(t: Users, username: string, password: string, again: string,
                                   dbError: Option<string>)
    requires RegisterUser(t, Some(username), Some(password), None).0.status == 201
    requires |again| >= MinPasswordLength
    ensures var t' := RegisterUser(t, Some(username), Some(password), None).1;
            RegisterUser(t', Some(username), Some(again), dbError) == (Response(400, Error(TakenError)), t')
  {
  }

  /** Every refusal is a 400 naming the first check that failed, or a 500
      carrying the database's message. */
  lemma StatusesAreExact(t: Users, username: Field, password: Field, dbError: Option<string>)
    ensures var resp := RegisterUser(t, username, password, dbError).0;
            resp.status in {201, 400, 500}
            && (resp.status == 400 ==> resp.body.error in {RequiredError, LengthError, TakenError})
  {
  }
}
