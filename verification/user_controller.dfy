/**
  The user store behind the REST controller: a map from email to `User` and
  the five request handlers over it. Each handler is a pure function of the
  store before the request, the request's arguments, the current date and the
  configured minimum age, returning the response status, the body and the
  store after the request.
 */
module UserController {
  import opened Wrappers
  import opened Dates
  import opened Users

  type Store = map<string, User>

  /** Response statuses; `Error` stands for an exception escaping the handler. */
  datatype Status =
    | Created     // 201
    | Ok          // 200
    | NoContent   // 204
    | BadRequest  // 400
    | NotFound    // 404
    | Error

  datatype Reply = Reply(status: Status, body: Option<User>, store: Store)

  /**
    POST /users. Bean Validation runs first; then a birth date later than
    `today` minus `minimumAge` years is refused. On success the record is
    stored under its email, replacing any record already there.
   */
  function Create(store: Store, user: User, today: Date, minimumAge: int): (r: Reply)
    ensures !Valid(user, today) ==> r == Reply(BadRequest, None, store)
    ensures Valid(user, today) && user.birthDate.None? ==> r.status == Error
    ensures Valid(user, today) && user.birthDate.Some? ==>
      (r.status == BadRequest <==> IsAfter(user.birthDate.value, MinusYears(today, minimumAge)))
    ensures r.status == Created <==>
      Valid(user, today) && user.birthDate.Some?
      && !IsAfter(user.birthDate.value, MinusYears(today, minimumAge))
    ensures r.status == Created ==>
      && user.email.Some?
      && r.body == Some(user)
      && r.store.Keys == store.Keys + {user.email.value}
      && r.store[user.email.value] == user
      && (forall k :: k in store && k != user.email.value ==> r.store[k] == store[k])
    ensures r.status != Created ==> r.store == store && r.body == None
  {
    if !Valid(user, today) then Reply(BadRequest, None, store)
    else if user.birthDate.None? then Reply(Error, None, store)
    else if IsAfter(user.birthDate.value, MinusYears(today, minimumAge)) then Reply(BadRequest, None, store)
    else Reply(Created, Some(user), store[user.email.value := user])
  }

  /** Whether a key of the JSON patch object was sent, and with which value. */
  datatype Field<T> = Absent | Present(value: T)

  /** The `birthDate` value of a patch: a string that `LocalDate.parse` accepts, or anything else. */
  datatype DateText = Parsed(date: Date) | Unparsable

  /**
    The recognised keys of a PATCH body. A string key sent as JSON `null`
    is `Present(None)` and clears the field; unrecognised keys are not modelled
    because they are ignored.
   */
  datatype Patch = Patch(
    firstName: Field<Option<string>>,
    lastName: Field<Option<string>>,
    address: Field<Option<string>>,
    phoneNumber: Field<Option<string>>,
    birthDate: Field<DateText>)

  const EmptyPatch: Patch := Patch(Absent, Absent, Absent, Absent, Absent)

  /** The value of a field after assigning a patch key to it. */
  function Assign<T>(f: Field<T>, current: T): T {
    match f
    case Absent => current
    case Present(v) => v
  }

  /** The four setter calls for string keys, applied in place before the birth date is looked at. */
  function AssignStrings(u: User, p: Patch): User {
    u.(firstName := Assign(p.firstName, u.firstName),
       lastName := Assign(p.lastName, u.lastName),
       address := Assign(p.address, u.address),
       phoneNumber := Assign(p.phoneNumber, u.phoneNumber))
  }

  /**
    PATCH /users/{email}. The stored record is mutated in place, so the
    string keys are applied even when the birth date is then refused
    (a date after today) or fails to parse.
   */
  function PatchUser(store: Store, email: string, p: Patch, today: Date): (r: Reply)
    ensures r.status == NotFound <==> email !in store
    ensures email !in store ==> r.store == store && r.body == None
    ensures r.status in {NotFound, Ok, BadRequest, Error}
    ensures r.status == BadRequest <==>
      email in store && p.birthDate.Present? && p.birthDate.value.Parsed?
      && IsAfter(p.birthDate.value.date, today)
    ensures r.status == Error <==> email in store && p.birthDate == Present(Unparsable)
    ensures email in store ==>
      && r.store.Keys == store.Keys
      && (forall k :: k in store && k != email ==> r.store[k] == store[k])
      && r.store[email].email == store[email].email
      && r.store[email].firstName == Assign(p.firstName, store[email].firstName)
      && r.store[email].lastName == Assign(p.lastName, store[email].lastName)
      && r.store[email].address == Assign(p.address, store[email].address)
      && r.store[email].phoneNumber == Assign(p.phoneNumber, store[email].phoneNumber)
    ensures email in store && r.status != Ok ==> r.store[email].birthDate == store[email].birthDate
    ensures r.status == Ok ==>
      && r.body == Some(r.store[email])
      && r.store[email].birthDate ==
           (if p.birthDate.Present? then Some(p.birthDate.value.date) else store[email].birthDate)
    ensures r.status != Ok ==> r.body == None
  {
    if email !in store then Reply(NotFound, None, store)
    else
      var u := AssignStrings(store[email], p);
      match p.birthDate
      case Absent => Reply(Ok, Some(u), store[email := u])
      case Present(Unparsable) => Reply(Error, None, store[email := u])
      case Present(Parsed(d)) =>
        if IsAfter(d, today) then Reply(BadRequest, None, store[email := u])
        else
          var v := u.(birthDate := Some(d));
          Reply(Ok, Some(v), store[email := v])
  }

  /**
    PUT /users/{email}. Bean Validation of the body runs first; the record
    under the path key is then overwritten by the body as given, whatever
    email the body carries, and without the minimum-age rule.
   */
  function Replace(store: Store, email: string, body: User, today: Date): (r: Reply)
    ensures !Valid(body, today) ==> r == Reply(BadRequest, None, store)
    ensures Valid(body, today) ==> (r.status == NotFound <==> email !in store)
    ensures r.status == Ok <==> Valid(body, today) && email in store
    ensures r.status == Ok ==>
      && r.body == Some(body)
      && r.store.Keys == store.Keys
      && r.store[email] == body
      && (forall k :: k in store && k != email ==> r.store[k] == store[k])
    ensures r.status != Ok ==> r.store == store && r.body == None
  {
    if !Valid(body, today) then Reply(BadRequest, None, store)
    else if email !in store then Reply(NotFound, None, store)
    else Reply(Ok, Some(body), store[email := body])
  }

  /** DELETE /users/{email}: removes the key, or answers 404 when there is none. */
  function Delete(store: Store, email: string): (r: Reply)
    ensures r.status == NotFound <==> email !in store
    ensures r.status == NoContent <==> email in store
    ensures r.store.Keys == store.Keys - {email}
    ensures forall k :: k in r.store ==> r.store[k] == store[k]
    ensures r.body == None
  {
    if email !in store then Reply(NotFound, None, store)
    else Reply(NoContent, None, store - {email})
  }

  /** The search filter: born strictly after `from` and strictly before `to`. */
  predicate InRange(u: User, from: Date, to: Date)
    requires u.birthDate.Some?
  {
    IsAfter(u.birthDate.value, from) && IsBefore(u.birthDate.value, to)
  }

  /**
    The answer to a search: its status and the matching entries of the store.
    The returned list holds the values of `matches`, one per key, in the
    store's iteration order.
   */
  datatype SearchReply = SearchReply(status: Status, matches: Store)

  /**
    GET /users/search. A reversed range is refused. The filter dereferences
    every stored birth date, so one stored record without a birth date makes
    the request fail. The store is only read.
   */
  function Search(store: Store, from: Date, to: Date): (r: SearchReply)
    ensures r.status == BadRequest <==> IsAfter(from, to)
    ensures r.status == Error <==>
      !IsAfter(from, to) && exists k :: k in store && store[k].birthDate.None?
    ensures r.status in {BadRequest, Error, Ok}
    ensures r.status == Ok ==>
      forall k :: k in r.matches <==> k in store && InRange(store[k], from, to)
    ensures forall k :: k in r.matches ==> k in store && r.matches[k] == store[k]
    ensures r.status != Ok ==> r.matches == map[]
  {
    if IsAfter(from, to) then SearchReply(BadRequest, map[])
    else if exists k :: k in store && store[k].birthDate.None? then SearchReply(Error, map[])
    else SearchReply(Ok, map k | k in store && InRange(store[k], from, to) :: store[k])
  }

  /**
    The search as the stream pipeline computes it: the store's values are
    visited in an order the caller does not control, and each match is
    appended to the result list. The ghost `keys` records the key each entry
    came from.
   */
  method SearchList(store: Store, from: Date, to: Date) returns (status: Status, users: seq<User>, ghost keys: seq<string>)
    ensures status == BadRequest <==> IsAfter(from, to)
    ensures status == Error <==>
      !IsAfter(from, to) && exists k :: k in store && store[k].birthDate.None?
    ensures status == Search(store, from, to).status
    ensures status != Ok ==> users == [] && keys == []
    ensures |keys| == |users|
    ensures forall i :: 0 <= i < |keys| ==> keys[i] in store && users[i] == store[keys[i]]
    ensures forall i, j :: 0 <= i < j < |keys| ==> keys[i] != keys[j]
    ensures status == Ok ==>
      forall k :: k in keys <==> k in store && InRange(store[k], from, to)
    ensures forall k :: k in keys <==> k in Search(store, from, to).matches
    ensures status == Ok ==>
      forall u :: u in users <==> exists k :: k in store && store[k] == u && InRange(u, from, to)
  {
    keys := [];
    if IsAfter(from, to) {
      return BadRequest, [], keys;
    }
    if exists k :: k in store && store[k].birthDate.None? {
      return Error, [], keys;
    }
    status := Ok;
    users := [];
    var pending := store.Keys;
    while pending != {}
      invariant pending <= store.Keys
      invariant |keys| == |users|
      invariant forall i :: 0 <= i < |keys| ==> keys[i] in store && keys[i] !in pending && users[i] == store[keys[i]]
      invariant forall i, j :: 0 <= i < j < |keys| ==> keys[i] != keys[j]
      invariant forall k :: k in keys <==> k in store && k !in pending && InRange(store[k], from, to)
      decreases pending
    {
      var k :| k in pending;
      if InRange(store[k], from, to) {
        users := users + [store[k]];
        keys := keys + [k];
      }
      pending := pending - {k};
    }
    forall u | u in users ensures exists k :: k in store && store[k] == u && InRange(u, from, to) {
      var i :| 0 <= i < |users| && users[i] == u;
      assert keys[i] in keys;
    }
  }
}
