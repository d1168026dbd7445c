/**
  The `User` record and the Bean Validation constraints declared on its
  fields. Every field is a Java reference, so every field may be `null`.
 */
module Users {
  import opened Wrappers
  import opened Dates
  import opened EmailPattern

  datatype User = User(
    email: Option<string>,
    firstName: Option<string>,
    lastName: Option<string>,
    birthDate: Option<Date>,
    address: Option<string>,
    phoneNumber: Option<string>)

  /** One failed constraint, named after the message the annotation carries. */
  datatype Violation =
    | InvalidEmailFormat    // "Invalid email format"
    | EmailRequired         // "Email is required"
    | FirstNameRequired     // "First name is required"
    | LastNameRequired      // "Last name is required"
    | BirthDateNotInPast    // "Birth date must be in the past"

  /**
    The constraint violations of u when validated on day `today`. As in Bean
    Validation, `@Email` and `@Past` accept `null`; only `@NotNull` rejects it.
   */
  function Violations(u: User, today: Date): set<Violation> {
    (if u.email.Some? && !IsEmail(u.email.value) then {InvalidEmailFormat} else {})
    + (if u.email.None? then {EmailRequired} else {})
    + (if u.firstName.None? then {FirstNameRequired} else {})
    + (if u.lastName.None? then {LastNameRequired} else {})
    + (if u.birthDate.Some? && !IsBefore(u.birthDate.value, today) then {BirthDateNotInPast} else {})
  }

  /** `@Valid`: the record passes every declared constraint. */
  predicate Valid(u: User, today: Date) {
    Violations(u, today) == {}
  }

  /**
    A record is valid exactly when its email is present and in the language of
    the pattern, both names are present, and a present birth date is in the past.
   */
  lemma ValidMeansConstraints(u: User, today: Date)
    ensures Valid(u, today) <==>
      && u.email.Some? && MatchesRegex(u.email.value)
      && u.firstName.Some? && u.lastName.Some?
      && (u.birthDate.Some? ==> IsBefore(u.birthDate.value, today))
  {
    if u.email.Some? {
      IsEmailMatchesRegex(u.email.value);
    }
  }

  /** `address` and `phoneNumber` carry no constraint: validity ignores them. */
  lemma ValidIgnoresContactFields(u: User, today: Date, address: Option<string>, phone: Option<string>)
    ensures Valid(u, today) <==> Valid(u.(address := address, phoneNumber := phone), today)
  {
  }

  /** `@NotNull` alone: empty names are accepted, missing ones are not. */
  lemma NamesNeedOnlyBePresent(u: User, today: Date)
    requires u.email.Some? && IsEmail(u.email.value)
    requires u.birthDate.Some? ==> IsBefore(u.birthDate.value, today)
    ensures Valid(u, today) <==> u.firstName.Some? && u.lastName.Some?
    ensures Valid(u.(firstName := Some(""), lastName := Some("")), today)
  {
    IsEmailMatchesRegex(u.email.value);
  }

  /** A missing birth date passes; a present one must lie strictly before today. */
  lemma BirthDateMustBePast(u: User, today: Date, d: Date)
    requires Valid(u, today)
    ensures Valid(u.(birthDate := None), today)
    ensures Valid(u.(birthDate := Some(d)), today) <==> IsBefore(d, today)
  {
  }

  /** An upper-case letter anywhere in the address fails `@Email`. */
  lemma UppercaseEmailInvalid(u: User, today: Date, k: int)
    requires u.email.Some? && 0 <= k < |u.email.value| && 'A' <= u.email.value[k] <= 'Z'
    ensures !Valid(u, today)
    ensures InvalidEmailFormat in Violations(u, today)
  {
    UppercaseNeverMatches(u.email.value, k);
  }
}
