/**
 * What the sign-in screens hand to `AuthRepository` and what comes back
 * (domain/repository/AuthRepository.kt): the credentials of a `login` or
 * `register` call and the `Result<FirebaseUser>` it returns, reduced to
 * success or a failure with a possibly null message.
 */
module Auth {
  import opened Wrappers
  import opened KotlinText

  datatype Credentials = Credentials(email: string, password: string)

  datatype AuthResult = AuthSuccess | AuthFailure(message: Option<string>)

  /** Non-empty, and neither starting nor ending with whitespace. */
  predicate TrimmedNonEmpty(s: string) {
    s != [] && !IsWhitespace(s[0]) && !IsWhitespace(s[|s| - 1])
  }

  /**
   * The inputs as both screens read them: each field trimmed, and nothing
   * at all when either trimmed field is blank.
   */
  function TrimmedCredentials(email: string, password: string): (r: Option<Credentials>)
    ensures r.None? <==> IsBlank(email) || IsBlank(password)
    ensures r.Some? ==> r.value == Credentials(Trim(email), Trim(password))
    ensures r.Some? ==> TrimmedNonEmpty(r.value.email) && TrimmedNonEmpty(r.value.password)
  {
    var email', password' := Trim(email), Trim(password);
    if IsBlank(email') || IsBlank(password') then
      TrimPreservesBlank(email);
      TrimPreservesBlank(password);
      None
    else
      assert email' != [] && password' != [];
      Some(Credentials(email', password'))
  }

  /**
   * Whitespace around either field makes no difference: the fields of the
   * credentials sent are already trimmed, so trimming them again changes
   * nothing.
   */
  lemma TrimmedCredentialsStable(email: string, password: string)
    requires TrimmedCredentials(email, password).Some?
    ensures var c := TrimmedCredentials(email, password).value;
            TrimmedCredentials(c.email, c.password) == Some(c)
  {
    TrimIdempotent(email);
    TrimIdempotent(password);
  }
}
