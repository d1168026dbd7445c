/**
  The email format declared on `User.email`:
  `^[a-z0-9._%+-]+@[a-z0-9.-]+\.[a-z]{2,4}$`, matched against the whole string.
 */
module EmailPattern {
  import opened Wrappers

  /** `[a-z0-9._%+-]`, the local part before the `@`. */
  predicate IsLocalChar(c: char) {
    ('a' <= c <= 'z') || ('0' <= c <= '9') || c == '.' || c == '_' || c == '%' || c == '+' || c == '-'
  }

  /** `[a-z0-9.-]`, the domain between the `@` and the final `.`. */
  predicate IsDomainChar(c: char) {
    ('a' <= c <= 'z') || ('0' <= c <= '9') || c == '.' || c == '-'
  }

  /** `[a-z]`, the top-level domain. */
  predicate IsTldChar(c: char) {
    'a' <= c <= 'z'
  }

  /**
    The pattern matches s when the `@` is at index `at` and the `.` that
    introduces the top-level domain is at index `dot`: each of the three
    parts is non-empty, the top-level domain is 2 to 4 letters long.
   */
  predicate MatchesAt(s: string, at: int, dot: int) {
    && 0 < at && at + 1 < dot && dot < |s|
    && 2 <= |s| - dot - 1 <= 4
    && s[at] == '@' && s[dot] == '.'
    && (forall i :: 0 <= i < at ==> IsLocalChar(s[i]))
    && (forall i :: at < i < dot ==> IsDomainChar(s[i]))
    && (forall i :: dot < i < |s| ==> IsTldChar(s[i]))
  }

  /** The language of the regular expression: some split of s fits it. */
  ghost predicate MatchesRegex(s: string) {
    exists at, dot :: MatchesAt(s, at, dot)
  }

  /** Index of the first occurrence of c in s. */
  function FirstIndexOf(s: string, c: char): (r: Option<nat>)
    ensures r.Some? ==> r.value < |s| && s[r.value] == c
    ensures r.Some? ==> forall i :: 0 <= i < r.value ==> s[i] != c
    ensures r.None? ==> forall i :: 0 <= i < |s| ==> s[i] != c
  {
    if |s| == 0 then None
    else if s[0] == c then Some(0)
    else match FirstIndexOf(s[1..], c)
      case None => None
      case Some(i) => Some(i + 1)
  }

  /**
    Decides the pattern without search: no allowed character is `@`, so the
    `@` must be the first one, and no top-level-domain letter is `.`, so the
    `.` sits 3, 4 or 5 positions from the end.
   */
  function IsEmail(s: string): bool {
    match FirstIndexOf(s, '@')
    case None => false
    case Some(at) => MatchesAt(s, at, |s| - 3) || MatchesAt(s, at, |s| - 4) || MatchesAt(s, at, |s| - 5)
  }

  /** The matcher accepts exactly the strings of the regular expression. */
  lemma IsEmailMatchesRegex(s: string)
    ensures IsEmail(s) <==> MatchesRegex(s)
  {
    if MatchesRegex(s) {
      var at, dot :| MatchesAt(s, at, dot);
      assert forall i :: 0 <= i < at ==> s[i] != '@' by {
        forall i | 0 <= i < at ensures s[i] != '@' {
          assert IsLocalChar(s[i]);
        }
      }
      assert FirstIndexOf(s, '@') == Some(at);
      assert dot == |s| - 3 || dot == |s| - 4 || dot == |s| - 5;
    }
  }

  /** No character the pattern allows is an upper-case letter. */
  lemma MatchHasNoUppercase(s: string)
    ensures MatchesRegex(s) ==> forall i :: 0 <= i < |s| ==> !('A' <= s[i] <= 'Z')
  {
    if MatchesRegex(s) {
      var at, dot :| MatchesAt(s, at, dot);
      forall i | 0 <= i < |s| ensures !('A' <= s[i] <= 'Z') {
        if i < at {
          assert IsLocalChar(s[i]);
        } else if at < i < dot {
          assert IsDomainChar(s[i]);
        } else if dot < i {
          assert IsTldChar(s[i]);
        }
      }
    }
  }

  /** Any upper-case letter makes an address invalid. */
  lemma UppercaseNeverMatches(s: string, k: int)
    requires 0 <= k < |s| && 'A' <= s[k] <= 'Z'
    ensures !MatchesRegex(s)
    ensures !IsEmail(s)
  {
    MatchHasNoUppercase(s);
    IsEmailMatchesRegex(s);
  }

  /** A witness split is enough for the matcher to accept. */
  lemma AcceptsWitness(s: string, at: int, dot: int)
    requires MatchesAt(s, at, dot)
    ensures IsEmail(s)
  {
    IsEmailMatchesRegex(s);
  }

  /** The addresses used by the controller tests fit the pattern. */
  lemma TestAddressesMatch(s: string)
    requires s == "test@gmail.com" || s == "new_test@gmail.com"
    ensures IsEmail(s)
  {
    if s == "test@gmail.com" {
      assert MatchesAt(s, 4, 10);
      AcceptsWitness(s, 4, 10);
    } else {
      assert MatchesAt(s, 8, 14);
      AcceptsWitness(s, 8, 14);
    }
  }
}
