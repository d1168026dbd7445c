# User store model

A Dafny model of the user store behind a small REST service. The service keeps
user records in an in-memory map keyed by email and offers five requests:
create (POST), partial update (PATCH), full replace (PUT), delete (DELETE) and
search by birth date (GET). Records carry Bean Validation constraints: an email
pattern, two required names and a birth date in the past.

The model is functional. The store is a `map<string, User>`. Each request
handler is a pure function from the store, the request's arguments, the
current date `today` and the configured `minimumAge` to a reply: a status,
an optional body and the store after the request.

Modules:

- `Wrappers`: `Option`, standing for Java's nullable references.
- `Dates`: `LocalDate` as a valid (year, month, day) triple. It covers the
  ISO leap-year rule, `isBefore`/`isAfter` as lexicographic order, and
  `minusYears`, which moves 29 February back to 28 February in a common year.
- `EmailPattern`: the regular expression `^[a-z0-9._%+-]+@[a-z0-9.-]+\.[a-z]{2,4}$`.
  A reference definition says some split of the string into local part, `@`,
  domain, `.` and top-level domain fits the character classes. A matcher
  decides it without search, and a lemma proves the two agree.
- `Users`: the `User` record, the set of constraint violations (one per
  annotation message) and `Valid`.
- `UserController`: the store, the statuses and the five handlers. It also
  has `SearchList`, a loop that builds the result list by visiting the keys in
  an arbitrary order, as the stream over `HashMap.values()` does.
- `ControllerProperties`: properties that relate several requests. It also
  defines `Run`, which replays a sequence of requests, and an invariant that
  every such sequence keeps.

Behaviour of the code worth noting:

- Only `@NotNull` guards the names, so an empty first or last name is valid.
- `birthDate` has no `@NotNull`, so a record without a birth date passes
  validation. `create` then dereferences it and fails; the model gives status
  `Error`.
- An unparsable `birthDate` in a PATCH throws from `LocalDate.parse`. It is
  not a handled validation error, so the model gives `Error`. The string
  fields assigned before it stay changed.
- PUT validates the body before the handler runs. An invalid body is therefore
  refused with 400 even when the path email is absent.
- Search dereferences every stored birth date. One stored record without a
  birth date makes every well-ordered search fail with `Error`.

## Model

| member | source | states |
|---|---|---|
| Dates.DaysInMonth | src/main/java/org/chdtu/testassignment/Controller/UserController.java:31 | the length of a month in the ISO calendar, 28 to 31 days, with 29 in February of a leap year; the bound `minusYears` clamps the day to |
| Dates.MinusYears | src/main/java/org/chdtu/testassignment/Controller/UserController.java:31 | `today.minusYears(n)` keeps the month, lowers the year by n, and picks the latest day that exists in that month, never later than the original day |
| Dates.MinusYearsClampsOnlyLeapDay | src/main/java/org/chdtu/testassignment/Controller/UserController.java:31 | the day changes exactly when 29 February lands in a common year, and then it becomes 28 |
| Dates.MinusYearsRoundTrip | src/main/java/org/chdtu/testassignment/Controller/UserController.java:31 | going n years back and n years forward returns the original date if and only if no leap-day clamping happened |
| Dates.MinusYearsMonotone | src/main/java/org/chdtu/testassignment/Controller/UserController.java:31 | subtracting years never reverses the order of two dates |
| Dates.MinusYearsAntitone | src/main/java/org/chdtu/testassignment/Controller/UserController.java:25-31 | a larger minimum age gives a strictly earlier age floor |
| Dates.StrictTotalOrder | src/main/java/org/chdtu/testassignment/Controller/UserController.java:97-102 | `isBefore`/`isAfter` form a strict total order: irreflexive, asymmetric, transitive and total on distinct dates |
| EmailPattern.IsEmail | src/main/java/org/chdtu/testassignment/model/User.java:16 | the matcher for the email pattern; its meaning is given by `IsEmailMatchesRegex` |
| EmailPattern.IsEmailMatchesRegex | src/main/java/org/chdtu/testassignment/model/User.java:16 | the matcher accepts a string if and only if some split fits the pattern's local part, `@`, domain, `.` and 2 to 4 letter top-level domain |
| EmailPattern.MatchHasNoUppercase | src/main/java/org/chdtu/testassignment/model/User.java:16 | every character of a matching address is outside `A`–`Z` |
| EmailPattern.UppercaseNeverMatches | src/main/java/org/chdtu/testassignment/model/User.java:16 | an address with an upper-case letter is rejected by the pattern and by the matcher |
| EmailPattern.AcceptsWitness | src/main/java/org/chdtu/testassignment/model/User.java:16 | one fitting split is enough for the matcher to accept |
| EmailPattern.TestAddressesMatch | src/test/java/org/chdtu/testassignment/Controller/UserControllerTest.java:44-134 | `test@gmail.com` (line 44) and `new_test@gmail.com` (line 134) fit the pattern |
| Users.Valid | src/main/java/org/chdtu/testassignment/model/User.java:16-27 | `@Valid`: no declared constraint is violated; characterised field by field by `ValidMeansConstraints` |
| Users.ValidMeansConstraints | src/main/java/org/chdtu/testassignment/model/User.java:16-27 | a record is valid if and only if its email is present and in the pattern's language, both names are present, and a present birth date is before today |
| Users.ValidIgnoresContactFields | src/main/java/org/chdtu/testassignment/model/User.java:29-30 | changing `address` or `phoneNumber` never changes validity |
| Users.NamesNeedOnlyBePresent | src/main/java/org/chdtu/testassignment/model/User.java:20-24 | for a record whose email and birth date pass, validity needs exactly that both names are non-null, and empty names are accepted |
| Users.BirthDateMustBePast | src/main/java/org/chdtu/testassignment/model/User.java:26-27 | a missing birth date is valid; a present one is valid if and only if it is strictly before today |
| Users.UppercaseEmailInvalid | src/main/java/org/chdtu/testassignment/model/User.java:16-18 | an upper-case letter in the email makes the record invalid with the "Invalid email format" violation |
| UserController.Create | src/main/java/org/chdtu/testassignment/Controller/UserController.java:28-36 | invalid records are refused with 400 and the store unchanged. A valid record is refused with 400 if and only if its birth date is after today minus the minimum age. On 201 the record is stored under its email, replacing any previous one, and no other key changes |
| UserController.AssignStrings | src/main/java/org/chdtu/testassignment/Controller/UserController.java:45-56 | the four setter calls of a patch: each string key that was sent replaces its field, all other fields are kept; its effect is stated in `PatchUser` |
| UserController.PatchUser | src/main/java/org/chdtu/testassignment/Controller/UserController.java:38-74 | an unknown email gives 404 and no change. Otherwise exactly the sent string keys are assigned and the email is kept. A birth date after today gives 400 and an unparsable one `Error`, in both cases leaving the old birth date but keeping the string changes. On 200 a sent birth date is stored and no other key changes |
| UserController.Replace | src/main/java/org/chdtu/testassignment/Controller/UserController.java:76-84 | invalid bodies give 400. A valid body gives 404 if and only if the path email is absent. On 200 the path key holds the body as sent, whatever its email, no age check applies, and no other key changes |
| UserController.Delete | src/main/java/org/chdtu/testassignment/Controller/UserController.java:86-94 | 404 if and only if the key is absent, else 204. The keys afterwards are the old keys minus the email and no value changes |
| UserController.Search | src/main/java/org/chdtu/testassignment/Controller/UserController.java:95-106 | 400 if and only if `from` is after `to`. `Error` if and only if `from` is not after `to` and a stored record has no birth date. On 200 the matches are exactly the stored entries born strictly between the bounds |
| UserController.InRange | src/main/java/org/chdtu/testassignment/Controller/UserController.java:102 | the search filter: a birth date strictly after `from` and strictly before `to`; used by the contracts of `Search` and `SearchList` |
| UserController.SearchList | src/main/java/org/chdtu/testassignment/Controller/UserController.java:101-105 | for any visiting order, the returned list pairs one-to-one with the matching keys: entry i is the record under a distinct key i, and these keys are exactly the stored keys whose birth date lies strictly between the bounds, that is the keys of `Search`'s matches, and the status is `Search`'s |
| ControllerProperties.CreateAcceptsExactMinimumAge | src/main/java/org/chdtu/testassignment/Controller/UserController.java:30-35 | a valid record born exactly `minimumAge` years before today is created |
| ControllerProperties.CreateAcceptsOlder | src/main/java/org/chdtu/testassignment/Controller/UserController.java:30-35 | if a record is created, the same record with an earlier birth date is created too |
| ControllerProperties.CreateStricterWithAge | src/main/java/org/chdtu/testassignment/Controller/UserController.java:25-35 | a record accepted under a higher minimum age is accepted under any lower one |
| ControllerProperties.CreateRefusesFutureBirthDate | src/test/java/org/chdtu/testassignment/Controller/UserControllerTest.java:63-77 | a birth date after today is refused with 400 and no change, whatever the minimum age |
| ControllerProperties.CreateThenDelete | src/main/java/org/chdtu/testassignment/Controller/UserController.java:34-92 | creating a record under a new email and then deleting that email restores the store |
| ControllerProperties.CreateThenReplaceSame | src/main/java/org/chdtu/testassignment/Controller/UserController.java:34-82 | replacing a just-created record by itself answers 200 and leaves the store as created |
| ControllerProperties.DeleteTwice | src/main/java/org/chdtu/testassignment/Controller/UserController.java:86-94 | the first delete of a present key gives 204; the second gives 404 and changes nothing |
| ControllerProperties.EmptyPatchIsIdentity | src/main/java/org/chdtu/testassignment/Controller/UserController.java:45-73 | a patch with no recognised keys answers 200 with the stored record and changes nothing |
| ControllerProperties.PatchIdempotent | src/main/java/org/chdtu/testassignment/Controller/UserController.java:45-73 | sending the same patch twice leaves the same reply and store as sending it once |
| ControllerProperties.PatchUnknownEmail | src/test/java/org/chdtu/testassignment/Controller/UserControllerTest.java:110-124 | a patch on an absent email gives 404 with the store unchanged, whatever the payload |
| ControllerProperties.RefusedPatchKeepsStringChanges | src/main/java/org/chdtu/testassignment/Controller/UserController.java:45-64 | a patch refused for a future birth date still leaves its string fields assigned in the store |
| ControllerProperties.PatchAcceptsToday | src/main/java/org/chdtu/testassignment/Controller/UserController.java:62-69 | a patched birth date equal to today is accepted and stored |
| ControllerProperties.ReplaceIdempotent | src/main/java/org/chdtu/testassignment/Controller/UserController.java:82 | replacing twice with the same body leaves the same store as replacing once |
| ControllerProperties.ReplaceKeepsPathKeySkipsAge | src/main/java/org/chdtu/testassignment/Controller/UserController.java:77-83 | a valid record that create refuses as under age is stored by replace under the path key, and its own email does not become a key |
| ControllerProperties.UpdateTestBodyValid | src/test/java/org/chdtu/testassignment/Controller/UserControllerTest.java:133-139 | the full-update test body (born 1987-02-03, address "22 st", phone "1987654321") is valid on every day after its birth date |
| ControllerProperties.ReplaceTestScenario | src/test/java/org/chdtu/testassignment/Controller/UserControllerTest.java:126-151 | replacing the default record under `test@gmail.com` with the full-update test body answers 200 with that body, stored as sent under the path key |
| ControllerProperties.SearchEqualBoundsIsEmpty | src/main/java/org/chdtu/testassignment/Controller/UserController.java:101-103 | when every stored record has a birth date, `from == to` gives 200 with no matches, since both bounds are exclusive |
| ControllerProperties.SearchAfterDelete | src/main/java/org/chdtu/testassignment/Controller/UserController.java:86-106 | when the search before the delete succeeds (no stored record lacks a birth date and `from` is not after `to`), the search after it returns 200 with the old matches minus the deleted key |
| ControllerProperties.SearchFindsCreated | src/main/java/org/chdtu/testassignment/Controller/UserController.java:34-103 | when the search over the store before the creation succeeds (no stored record lacks a birth date and `from` is not after `to`), a created record is found under its email by every such search whose bounds strictly enclose its birth date |
| ControllerProperties.SearchTestScenario | src/test/java/org/chdtu/testassignment/Controller/UserControllerTest.java:188-219 | the default record born 1990-01-01 is found between 1987-02-03 and 1995-03-13; the reversed range gives 400 |
| ControllerProperties.StepPreservesWellFormed | src/main/java/org/chdtu/testassignment/Controller/UserController.java:23-93 | every handler keeps each key a pattern-matching address and each stored record's email present and pattern-matching |
| ControllerProperties.RunPreservesWellFormed | src/main/java/org/chdtu/testassignment/Controller/UserController.java:23-93 | starting from a well-formed store, such as the empty one at start-up, every sequence of requests keeps the store well formed |

## Left out

- HTTP routing, JSON (de)serialisation, `ResponseEntity` and the injection of `user.minimumAge` are framework plumbing. The minimum age is a parameter and each reply carries a status.
- `LocalDate.now()` is replaced by the `today` parameter. Bean Validation's `@Past` and the handlers are assumed to read the same date.
- Exceptions escaping a handler are all the single status `Error`. This covers the null birth date in create, `LocalDate.parse` in patch and the null birth date in search. The HTTP status the framework then sends is not modelled.
- A non-string JSON value for a string patch key (the casts on lines 46-55) is not modelled: string keys carry a string or `null`. A non-string or `null` `birthDate` value is folded into `Unparsable`.
- Unrecognised patch keys are ignored by the code and have no representation in `Patch`.
- Dates.MinusYears: years are unbounded, so the `DateTimeException` that `LocalDate` throws outside years -999999999..999999999 is not modelled.
- Concurrency on the static, unsynchronised `HashMap` is left out: the model is sequential.
- The iteration order of `HashMap` is not modelled. `Search` returns the matching entries as a map, and `SearchList` visits keys in an arbitrary order.
- The checks that Hibernate's `@Email` performs on its own, beyond the declared pattern, belong to a library that is not part of this model.
- The binding and parsing of the search parameters `from` and `to` (`@RequestParam @NotNull`) is framework work; the model takes two dates.
- In-place mutation is modelled as an update of the patched key. Every stored record is a distinct deserialised object, so no other key shares it.
