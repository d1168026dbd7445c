/**
  Properties that relate several requests to the user store: round trips,
  idempotence, the age rule's boundaries, and an invariant kept by every
  sequence of requests.
 */
module ControllerProperties {
  import opened Wrappers
  import opened Dates
  import opened EmailPattern
  import opened Users
  import opened UserController

  /** A record born exactly `minimumAge` years before today is old enough. */
  lemma CreateAcceptsExactMinimumAge(store: Store, user: User, today: Date, minimumAge: int)
    requires Valid(user, today)
    requires user.birthDate == Some(MinusYears(today, minimumAge))
    ensures Create(store, user, today, minimumAge).status == Created
  {
  }

  /** An older record is accepted whenever a younger one is. */
  lemma CreateAcceptsOlder(store: Store, user: User, older: Date, today: Date, minimumAge: int)
    requires Create(store, user, today, minimumAge).status == Created
    requires IsBefore(older, user.birthDate.value)
    ensures Create(store, user.(birthDate := Some(older)), today, minimumAge).status == Created
  {
    StrictTotalOrder(older, user.birthDate.value, today);
    StrictTotalOrder(older, user.birthDate.value, MinusYears(today, minimumAge));
  }

  /** Raising the minimum age can only turn acceptances into refusals. */
  lemma CreateStricterWithAge(store: Store, user: User, today: Date, lower: int, higher: int)
    requires lower <= higher
    requires Create(store, user, today, higher).status == Created
    ensures Create(store, user, today, lower).status == Created
  {
    if lower < higher {
      MinusYearsAntitone(today, lower, higher);
      StrictTotalOrder(user.birthDate.value, MinusYears(today, higher), MinusYears(today, lower));
    }
  }

  /** A birth date after today is refused whatever the minimum age, and nothing is stored. */
  lemma CreateRefusesFutureBirthDate(store: Store, user: User, today: Date, minimumAge: int)
    requires user.birthDate.Some? && IsAfter(user.birthDate.value, today)
    ensures Create(store, user, today, minimumAge) == Reply(BadRequest, None, store)
  {
    StrictTotalOrder(user.birthDate.value, today, today);
  }

  /** Creating a record under a new email and deleting it restores the store. */
  lemma CreateThenDelete(store: Store, user: User, today: Date, minimumAge: int)
    requires Create(store, user, today, minimumAge).status == Created
    requires user.email.value !in store
    ensures Delete(Create(store, user, today, minimumAge).store, user.email.value) == Reply(NoContent, None, store)
  {
    var after := Create(store, user, today, minimumAge).store;
    assert after - {user.email.value} == store;
  }

  /** Replacing a freshly created record by itself leaves the store as the creation left it. */
  lemma CreateThenReplaceSame(store: Store, user: User, today: Date, minimumAge: int)
    requires Create(store, user, today, minimumAge).status == Created
    ensures var after := Create(store, user, today, minimumAge).store;
      Replace(after, user.email.value, user, today) == Reply(Ok, Some(user), after)
  {
    var after := Create(store, user, today, minimumAge).store;
    assert after[user.email.value := user] == after;
  }

  /** Deleting the same key twice: the second request finds nothing and changes nothing. */
  lemma DeleteTwice(store: Store, email: string)
    requires email in store
    ensures Delete(store, email).status == NoContent
    ensures var once := Delete(store, email).store;
      Delete(once, email) == Reply(NotFound, None, once)
  {
  }

  /** An empty patch answers 200 with the stored record and changes nothing. */
  lemma EmptyPatchIsIdentity(store: Store, email: string, today: Date)
    requires email in store
    ensures PatchUser(store, email, EmptyPatch, today) == Reply(Ok, Some(store[email]), store)
  {
    assert PatchUser(store, email, EmptyPatch, today).store == store;
  }

  /** Sending the same patch twice leaves the store as sending it once. */
  lemma PatchIdempotent(store: Store, email: string, p: Patch, today: Date)
    ensures var once := PatchUser(store, email, p, today);
      PatchUser(once.store, email, p, today) == once
  {
    var once := PatchUser(store, email, p, today);
    if email in store {
      assert PatchUser(once.store, email, p, today).store == once.store;
    }
  }

  /** A patch on an unknown email is refused whatever it carries. */
  lemma PatchUnknownEmail(store: Store, email: string, p: Patch, today: Date)
    requires email !in store
    ensures PatchUser(store, email, p, today) == Reply(NotFound, None, store)
  {
  }

  /**
    A patch whose birth date is after today is refused, yet the names,
    address and phone number it carries are already in the store.
   */
  lemma RefusedPatchKeepsStringChanges(store: Store, email: string, p: Patch, d: Date, today: Date)
    requires email in store
    requires p.birthDate == Present(Parsed(d)) && IsAfter(d, today)
    ensures var r := PatchUser(store, email, p, today);
      && r.status == BadRequest
      && r.store[email] == AssignStrings(store[email], p)
  {
  }

  /** A patched birth date equal to today is accepted (only a later date is refused). */
  lemma PatchAcceptsToday(store: Store, email: string, p: Patch, today: Date)
    requires email in store
    requires p.birthDate == Present(Parsed(today))
    ensures PatchUser(store, email, p, today).status == Ok
    ensures PatchUser(store, email, p, today).store[email].birthDate == Some(today)
  {
    StrictTotalOrder(today, today, today);
  }

  /** Replacing twice with the same body is the same as replacing once. */
  lemma ReplaceIdempotent(store: Store, email: string, body: User, today: Date)
    ensures var once := Replace(store, email, body, today);
      Replace(once.store, email, body, today).store == once.store
  {
  }

  /**
    Replace neither re-keys nor checks the age: an under-age record with a
    different email ends up under the path key, and its own email is not a key.
   */
  lemma ReplaceKeepsPathKeySkipsAge(store: Store, key: string, young: User, today: Date, minimumAge: int)
    requires key in store && young.email.Some? && young.email.value != key
    requires Valid(young, today) && young.birthDate.Some?
    requires IsAfter(young.birthDate.value, MinusYears(today, minimumAge))
    ensures Create(store, young, today, minimumAge) == Reply(BadRequest, None, store)
    ensures var r := Replace(store, key, young, today);
      && r.status == Ok
      && r.store[key] == young
      && (young.email.value in r.store <==> young.email.value in store)
  {
  }

  /** The body sent by the full-update test is valid on any day after its birth date. */
  lemma UpdateTestBodyValid(body: User, today: Date)
    requires body == User(Some("new_test@gmail.com"), Some("And"), Some("Klm"), Some(Ymd(1987, 2, 3)),
                          Some("22 st"), Some("1987654321"))
    requires IsBefore(Ymd(1987, 2, 3), today)
    ensures Valid(body, today)
  {
    TestAddressesMatch(body.email.value);
  }

  /**
    The full-update test: replacing the default record under its key with
    the test body answers 200 with the body as sent, stored under the path key.
   */
  lemma ReplaceTestScenario(key: string, existing: User, body: User, today: Date)
    requires key == "test@gmail.com"
    requires existing == User(Some(key), Some("DAD"), Some("Doe"), Some(Ymd(1990, 1, 1)),
                              Some("123 Street"), Some("1234567890"))
    requires body == User(Some("new_test@gmail.com"), Some("And"), Some("Klm"), Some(Ymd(1987, 2, 3)),
                          Some("22 st"), Some("1987654321"))
    requires IsBefore(Ymd(1987, 2, 3), today)
    ensures Replace(map[key := existing], key, body, today) == Reply(Ok, Some(body), map[key := body])
  {
    UpdateTestBodyValid(body, today);
  }

  /** With equal bounds no birth date is strictly inside the range. */
  lemma SearchEqualBoundsIsEmpty(store: Store, d: Date)
    requires forall k :: k in store ==> store[k].birthDate.Some?
    ensures Search(store, d, d) == SearchReply(Ok, map[])
  {
    StrictTotalOrder(d, d, d);
    var r := Search(store, d, d);
    forall k | k in store ensures !InRange(store[k], d, d) {
      StrictTotalOrder(store[k].birthDate.value, d, d);
    }
    assert r.matches == map[];
  }

  /** After a delete, the search finds what it found before except the deleted entry. */
  lemma SearchAfterDelete(store: Store, email: string, from: Date, to: Date)
    requires Search(store, from, to).status == Ok
    ensures Search(Delete(store, email).store, from, to)
         == SearchReply(Ok, Search(store, from, to).matches - {email})
  {
    var before := Search(store, from, to);
    var after := Search(Delete(store, email).store, from, to);
    assert after.matches == before.matches - {email};
  }

  /** A freshly created record is found by every search whose range strictly contains its birth date. */
  lemma SearchFindsCreated(store: Store, user: User, today: Date, minimumAge: int, from: Date, to: Date)
    requires Create(store, user, today, minimumAge).status == Created
    requires Search(store, from, to).status == Ok
    requires IsAfter(user.birthDate.value, from) && IsBefore(user.birthDate.value, to)
    ensures var r := Search(Create(store, user, today, minimumAge).store, from, to);
      r.status == Ok && user.email.value in r.matches && r.matches[user.email.value] == user
  {
  }

  /** One request of the controller, as it reaches the store. */
  datatype Request =
    | CreateRequest(user: User)
    | PatchRequest(email: string, patch: Patch)
    | ReplaceRequest(email: string, body: User)
    | DeleteRequest(email: string)
    | SearchRequest(from: Date, to: Date)

  /** A request together with the date on which it is served. */
  datatype Call = Call(today: Date, request: Request)

  /** The store after one call. */
  function Step(store: Store, call: Call, minimumAge: int): Store {
    match call.request
    case CreateRequest(u) => Create(store, u, call.today, minimumAge).store
    case PatchRequest(e, p) => PatchUser(store, e, p, call.today).store
    case ReplaceRequest(e, b) => Replace(store, e, b, call.today).store
    case DeleteRequest(e) => Delete(store, e).store
    case SearchRequest(_, _) => store
  }

  /** The store after serving the calls in order. */
  function Run(store: Store, calls: seq<Call>, minimumAge: int): Store
    decreases |calls|
  {
    if |calls| == 0 then store
    else Run(Step(store, calls[0], minimumAge), calls[1..], minimumAge)
  }

  /**
    Every key is an address that fits the pattern, and every stored record
    carries such an address (not necessarily its key).
   */
  predicate WellFormed(store: Store) {
    forall k :: k in store ==>
      IsEmail(k) && store[k].email.Some? && IsEmail(store[k].email.value)
  }

  /** Each handler keeps the store well formed. */
  lemma StepPreservesWellFormed(store: Store, call: Call, minimumAge: int)
    requires WellFormed(store)
    ensures WellFormed(Step(store, call, minimumAge))
  {
    match call.request
    case CreateRequest(u) =>
      var r := Create(store, u, call.today, minimumAge);
      if r.status == Created {
        assert IsEmail(u.email.value);
      }
    case PatchRequest(e, p) =>
      var r := PatchUser(store, e, p, call.today);
      if e in store {
        assert r.store[e].email == store[e].email;
      }
    case ReplaceRequest(e, b) =>
      var r := Replace(store, e, b, call.today);
      if r.status == Ok {
        assert IsEmail(b.email.value);
      }
    case DeleteRequest(e) =>
    case SearchRequest(_, _) =>
  }

  /** Starting from a well-formed store (the empty one at start-up), every sequence of calls keeps it well formed. */
  lemma {:induction false} RunPreservesWellFormed(store: Store, calls: seq<Call>, minimumAge: int)
    requires WellFormed(store)
    ensures WellFormed(Run(store, calls, minimumAge))
    decreases |calls|
  {
    if |calls| > 0 {
      StepPreservesWellFormed(store, calls[0], minimumAge);
      RunPreservesWellFormed(Step(store, calls[0], minimumAge), calls[1..], minimumAge);
    }
  }

  /** The scenario of the search tests: the default record is found between the test bounds, and reversed bounds are refused. */
  lemma SearchTestScenario()
    ensures var u := User(Some("test@gmail.com"), Some("DAD"), Some("Doe"), Some(Ymd(1990, 1, 1)),
                          Some("123 Street"), Some("1234567890"));
      var store := map["test@gmail.com" := u];
      && Search(store, Ymd(1987, 2, 3), Ymd(1995, 3, 13)) == SearchReply(Ok, store)
      && Search(store, Ymd(1997, 2, 3), Ymd(1985, 3, 13)).status == BadRequest
  {
    var u := User(Some("test@gmail.com"), Some("DAD"), Some("Doe"), Some(Ymd(1990, 1, 1)),
                  Some("123 Street"), Some("1234567890"));
    var store := map["test@gmail.com" := u];
    assert Search(store, Ymd(1987, 2, 3), Ymd(1995, 3, 13)).matches == store;
  }
}
