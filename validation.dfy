/**
 * The structural rules on the request body of `PATCH /username`: an optional new
 * username and the current password, each checked by a derived validator before
 * the handler does anything else.
 */
module UsernameValidation {
  import opened Wrappers

  /** The request body: `username` may be absent, `password` is required. */
  datatype Data = Data(username: Option<string>, password: string)

  /** The field rules the validator can report as broken. */
  datatype Violation =
    | UsernameLength   // username present with fewer than 2 or more than 32 characters
    | UsernamePattern  // username present and not matching ^[a-zA-Z0-9_.]+$
    | PasswordLength   // password with fewer than 8 or more than 72 characters

  const UsernameMinLength: nat := 2
  const UsernameMaxLength: nat := 32
  const PasswordMinLength: nat := 8
  const PasswordMaxLength: nat := 72

  /** The character class `[a-zA-Z0-9_.]`: ASCII letters, digits, underscore and dot. */
  predicate IsUsernameChar(c: char) {
    ('a' <= c <= 'z') || ('A' <= c <= 'Z') || ('0' <= c <= '9') || c == '_' || c == '.'
  }

  /**
   * The anchored pattern `^[a-zA-Z0-9_.]+$` read as a matcher: one character of the
   * class, then either the end of the input or one or more further matches.
   */
  predicate MatchesUsernamePattern(s: string)
    decreases |s|
  {
    |s| > 0 && IsUsernameChar(s[0]) && (|s| == 1 || MatchesUsernamePattern(s[1..]))
  }

  /** Reference reading of the same pattern: a non-empty string over the class. */
  ghost predicate NonEmptyOverClass(s: string) {
    |s| > 0 && forall i | 0 <= i < |s| :: IsUsernameChar(s[i])
  }

  /** The matcher accepts exactly the non-empty strings over the class. */
  lemma {:induction false} MatchesUsernamePatternIff(s: string)
    ensures MatchesUsernamePattern(s) <==> NonEmptyOverClass(s)
    decreases |s|
  {
    if |s| > 1 {
      MatchesUsernamePatternIff(s[1..]);
      assert forall i | 1 <= i < |s| :: s[i] == s[1..][i - 1];
    }
  }

  /** Because of the `+`, the empty string never matches. */
  lemma EmptyNeverMatches()
    ensures !MatchesUsernamePattern("")
  {
  }

  /** Length in the inclusive range [lo, hi], counted in characters. */
  predicate LengthWithin(s: string, lo: nat, hi: nat) {
    lo <= |s| <= hi
  }

  /**
   * Every rule the request breaks. An absent username is not checked at all; a
   * present one is checked for length and for the pattern independently, so both
   * can be reported at once.
   */
  function Violations(d: Data): set<Violation> {
    (if d.username.Some? && !LengthWithin(d.username.value, UsernameMinLength, UsernameMaxLength)
     then {UsernameLength} else {})
    + (if d.username.Some? && !MatchesUsernamePattern(d.username.value)
       then {UsernamePattern} else {})
    + (if !LengthWithin(d.password, PasswordMinLength, PasswordMaxLength)
       then {PasswordLength} else {})
  }

  /** Each rule is reported exactly when the field it guards breaks it. */
  lemma {:induction false} ViolationsMeaning(d: Data)
    ensures UsernameLength in Violations(d) <==>
      d.username.Some? && !(2 <= |d.username.value| <= 32)
    ensures UsernamePattern in Violations(d) <==>
      d.username.Some? && !NonEmptyOverClass(d.username.value)
    ensures PasswordLength in Violations(d) <==> !(8 <= |d.password| <= 72)
  {
    if d.username.Some? {
      MatchesUsernamePatternIff(d.username.value);
    }
  }

  /**
   * `data.validate()`: success exactly when a present username has 2 to 32
   * characters, all from the class, and the password has 8 to 72; a failure
   * reports each broken rule, and only those.
   */
  function Validate(d: Data): (r: Result<(), set<Violation>>)
    ensures r.Ok? <==>
      && (d.username.Some? ==>
            2 <= |d.username.value| <= 32 && NonEmptyOverClass(d.username.value))
      && 8 <= |d.password| <= 72
    ensures r.Err? ==> r.error != {}
    ensures r.Err? ==>
      (UsernameLength in r.error <==> d.username.Some? && !(2 <= |d.username.value| <= 32))
    ensures r.Err? ==>
      (UsernamePattern in r.error <==> d.username.Some? && !NonEmptyOverClass(d.username.value))
    ensures r.Err? ==> (PasswordLength in r.error <==> !(8 <= |d.password| <= 72))
  {
    ViolationsMeaning(d);
    var v := Violations(d);
    if v == {} then Ok(()) else Err(v)
  }

  /**
   * With a username present, the request passes exactly when the username has 2 to
   * 32 characters, all from `[a-zA-Z0-9_.]`, and the password has 8 to 72.
   */
  lemma PresentUsernameAcceptedIff(u: string, password: string)
    ensures Validate(Data(Some(u), password)).Ok? <==>
      && 2 <= |u| <= 32
      && (forall i | 0 <= i < |u| :: IsUsernameChar(u[i]))
      && 8 <= |password| <= 72
  {
  }

  /** An absent username imposes nothing: only the password length decides. */
  lemma AbsentUsernameAcceptedIff(password: string)
    ensures Validate(Data(None, password)).Ok? <==> 8 <= |password| <= 72
  {
  }

  /** A password outside [8, 72] fails validation whatever the username is. */
  lemma PasswordRuleIndependent(d: Data)
    ensures PasswordLength in Violations(d) <==> !(8 <= |d.password| <= 72)
    ensures !(8 <= |d.password| <= 72) ==> Validate(d).Err?
  {
  }

  /** A username with a character outside the class is refused whatever its length. */
  lemma {:induction false} ForeignCharacterRejected(u: string, password: string, i: nat)
    requires i < |u| && !IsUsernameChar(u[i])
    ensures UsernamePattern in Violations(Data(Some(u), password))
    ensures Validate(Data(Some(u), password)).Err?
  {
    MatchesUsernamePatternIff(u);
  }

  /** A present empty username breaks both username rules. */
  lemma EmptyUsernameRejected(password: string)
    ensures UsernameLength in Violations(Data(Some(""), password))
    ensures UsernamePattern in Violations(Data(Some(""), password))
  {
  }
}
