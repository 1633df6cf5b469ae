/**
 * ui/auth/RegisterViewModel.kt: the sign-up screen's state holder, split
 * like the sign-in one at `authRepository.register(...)`. Validation adds a
 * minimum length on the trimmed password, counted as Kotlin counts
 * `String.length`, in UTF-16 code units.
 */
module RegisterViewModels {
  import opened Wrappers
  import opened KotlinText
  import opened Auth

  /** ui/auth/AuthState.kt, `RegisterState`; `error` is never written by the view model. */
  datatype RegisterState = RegisterState(email: string, password: string, isLoading: bool, error: Option<string>)

  datatype RegisterEvent = EnteredEmail(value: string) | EnteredPassword(value: string) | Register

  datatype UiEvent = RegisterSuccess | ShowSnackbar(message: string)

  const FieldsCannotBeEmpty := "Fields cannot be empty"
  const PasswordTooShort := "Password must be at least 6 characters"
  const RegistrationFailed := "Registration failed"
  const MinPasswordLength := 6

  /** Credentials that pass both checks: trimmed, non-blank, and a password of at least six UTF-16 code units. */
  predicate RegistrableCredentials(c: Credentials) {
    TrimmedNonEmpty(c.email) && TrimmedNonEmpty(c.password) && Utf16Length(c.password) >= MinPasswordLength
  }

  /** The outcome of the two checks: the credentials to register with, or the message to show. */
  datatype Validation = Accepted(credentials: Credentials) | Rejected(message: string)

  /** The checks in the order the source makes them: blankness first, then the trimmed password's length. */
  function Validate(email: string, password: string): (r: Validation)
    ensures r.Accepted? ==> Some(r.credentials) == TrimmedCredentials(email, password)
    ensures r.Accepted? ==> RegistrableCredentials(r.credentials)
    ensures r.Rejected? ==> r.message in {FieldsCannotBeEmpty, PasswordTooShort}
  {
    match TrimmedCredentials(email, password)
    case None => Rejected(FieldsCannotBeEmpty)
    case Some(c) =>
      if Utf16Length(c.password) < MinPasswordLength then Rejected(PasswordTooShort) else Accepted(c)
  }

  /**
   * Which check rejects: a blank trimmed field, whatever the password's
   * length; otherwise a trimmed password under six UTF-16 code units;
   * otherwise nothing.
   */
  lemma ValidateChecks(email: string, password: string)
    ensures Validate(email, password) == Rejected(FieldsCannotBeEmpty) <==> IsBlank(email) || IsBlank(password)
    ensures Validate(email, password) == Rejected(PasswordTooShort) <==>
              !IsBlank(email) && !IsBlank(password) && Utf16Length(Trim(password)) < MinPasswordLength
    ensures Validate(email, password).Accepted? <==>
              !IsBlank(email) && !IsBlank(password) && Utf16Length(Trim(password)) >= MinPasswordLength
  {
    var c := TrimmedCredentials(email, password);
    assert c.Some? ==> c.value.password == Trim(password);
  }

  /**
   * The length rule counts the trimmed password: whitespace around a short
   * password does not make it long enough.
   */
  lemma PaddedShortPasswordRejected()
    ensures Validate("a@b.c", " 12345 ") == Rejected(PasswordTooShort)
  {
    var p := " 12345 ";
    assert IsWhitespace(p[0]) && !IsWhitespace(p[1]) && !IsWhitespace(p[5]) && IsWhitespace(p[6]);
    assert LeadingWhitespace(p[1..]) == 0;
    assert LeadingWhitespace(p) == 1;
    assert TrailingWhitespace(p[..6]) == 0;
    assert TrailingWhitespace(p) == 1;
    assert Trim(p) == p[1..6] == "12345";
    assert Utf16Length("12345") == 5;
    assert !IsWhitespace("a@b.c"[0]);
    assert TrimmedCredentials("a@b.c", p) == Some(Credentials(Trim("a@b.c"), "12345"));
  }

  /** For a password of Basic Multilingual Plane characters the rule is on the number of characters. */
  lemma BmpPasswordLength(email: string, password: string)
    requires InBmp(password)
    requires !IsBlank(email) && !IsBlank(password)
    ensures Validate(email, password).Accepted? <==> |Trim(password)| >= MinPasswordLength
  {
    ValidateChecks(email, password);
    TrimInBmp(password);
  }

  /** The outcome emitted once a register call has returned. */
  function RegisterOutcome(result: AuthResult): (e: UiEvent)
    ensures e == RegisterSuccess <==> result.AuthSuccess?
    ensures result.AuthFailure? && result.message.Some? ==> e == ShowSnackbar(result.message.value)
    ensures result.AuthFailure? && result.message.None? ==> e == ShowSnackbar(RegistrationFailed)
  {
    match result
    case AuthSuccess => RegisterSuccess
    case AuthFailure(message) => ShowSnackbar(message.GetOr(RegistrationFailed))
  }

  class RegisterViewModel {
    var state: RegisterState
    var events: seq<UiEvent>
    /** The credentials of every `authRepository.register` call made, in order. */
    var registerCalls: seq<Credentials>
    /** How many of those calls have returned. */
    ghost var returned: nat

    /**
     * At most one register call is in flight, and exactly while loading;
     * every call was made with trimmed, non-blank fields and a password of
     * at least six UTF-16 code units.
     */
    ghost predicate Valid()
      reads this
    {
      && |registerCalls| == returned + (if state.isLoading then 1 else 0)
      && forall i :: 0 <= i < |registerCalls| ==> RegistrableCredentials(registerCalls[i])
    }

    constructor ()
      ensures Valid()
      ensures state == RegisterState("", "", false, None) && events == [] && registerCalls == []
    {
      state := RegisterState("", "", false, None);
      events := [];
      registerCalls := [];
      returned := 0;
    }

    /**
     * `onEvent(event)`: a field edit replaces that field alone; `Register`
     * is ignored while loading, rejected with the first failing check's
     * message, and otherwise starts loading and calls register with the
     * trimmed fields.
     */
    method OnEvent(event: RegisterEvent)
      requires Valid()
      modifies this
      ensures Valid()
      ensures event.EnteredEmail? ==>
                state == old(state).(email := event.value) && events == old(events) && registerCalls == old(registerCalls)
      ensures event.EnteredPassword? ==>
                state == old(state).(password := event.value) && events == old(events) && registerCalls == old(registerCalls)
      ensures event.Register? && old(state).isLoading ==>
                state == old(state) && events == old(events) && registerCalls == old(registerCalls)
      ensures event.Register? && !old(state).isLoading ==>
                match Validate(old(state).email, old(state).password)
                case Rejected(message) =>
                  state == old(state) && events == old(events) + [ShowSnackbar(message)]
                  && registerCalls == old(registerCalls)
                case Accepted(c) =>
                  state == old(state).(isLoading := true) && events == old(events)
                  && registerCalls == old(registerCalls) + [c]
    {
      match event
      case EnteredEmail(value) =>
        state := state.(email := value);
      case EnteredPassword(value) =>
        state := state.(password := value);
      case Register =>
        if state.isLoading {
          return;
        }
        var validation := Validate(state.email, state.password);
        match validation
        case Rejected(message) =>
          events := events + [ShowSnackbar(message)];
        case Accepted(credentials) =>
          assert RegistrableCredentials(credentials);
          state := state.(isLoading := true);
          registerCalls := registerCalls + [credentials];
    }

    /** The rest of the `Register` coroutine: loading stops, then the result is folded into one event. */
    method OnRegisterResult(result: AuthResult)
      requires Valid() && state.isLoading
      modifies this
      ensures Valid() && !state.isLoading
      ensures state == old(state).(isLoading := false)
      ensures events == old(events) + [RegisterOutcome(result)]
      ensures registerCalls == old(registerCalls)
    {
      state := state.(isLoading := false);
      returned := returned + 1;
      events := events + [RegisterOutcome(result)];
    }
  }
}
