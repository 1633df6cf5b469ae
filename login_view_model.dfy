/**
 * ui/auth/LoginViewModel.kt: the sign-in screen's state holder. The
 * coroutine that `Login` launches is split at its one suspension point,
 * `authRepository.login(...)`: `OnEvent(Login)` runs up to and including
 * the call (recorded in `loginCalls`), `OnLoginResult` runs the rest with
 * the call's outcome. `events` is everything emitted on the event flow.
 */
module LoginViewModels {
  import opened Wrappers
  import opened Auth

  /** ui/auth/AuthState.kt, `LoginState`; `error` is never written by the view model. */
  datatype LoginState = LoginState(email: string, password: string, isLoading: bool, error: Option<string>)

  datatype LoginEvent = EnteredEmail(value: string) | EnteredPassword(value: string) | Login

  datatype UiEvent = LoginSuccess | ShowSnackbar(message: string)

  const FillInAllFields := "Please fill in all fields"
  const LoginFailed := "Login failed"

  /** What the view model emits once a login call has returned. */
  function LoginOutcome(result: AuthResult): (e: UiEvent)
    ensures e == LoginSuccess <==> result.AuthSuccess?
    ensures result.AuthFailure? && result.message.Some? ==> e == ShowSnackbar(result.message.value)
    ensures result.AuthFailure? && result.message.None? ==> e == ShowSnackbar(LoginFailed)
  {
    match result
    case AuthSuccess => LoginSuccess
    case AuthFailure(message) => ShowSnackbar(message.GetOr(LoginFailed))
  }

  class LoginViewModel {
    var state: LoginState
    var events: seq<UiEvent>
    /** The credentials of every `authRepository.login` call made, in order. */
    var loginCalls: seq<Credentials>
    /** How many of those calls have returned. */
    ghost var returned: nat

    /**
     * At most one login call is in flight, and exactly while the screen
     * shows it loading; every call was made with trimmed, non-blank fields.
     */
    ghost predicate Valid()
      reads this
    {
      && |loginCalls| == returned + (if state.isLoading then 1 else 0)
      && forall i :: 0 <= i < |loginCalls| ==> TrimmedNonEmpty(loginCalls[i].email) && TrimmedNonEmpty(loginCalls[i].password)
    }

    constructor ()
      ensures Valid()
      ensures state == LoginState("", "", false, None) && events == [] && loginCalls == []
    {
      state := LoginState("", "", false, None);
      events := [];
      loginCalls := [];
      returned := 0;
    }

    /**
     * `onEvent(event)`: a field edit replaces that field alone; `Login` is
     * ignored while loading, rejected with a snackbar when either trimmed
     * field is blank, and otherwise starts loading and calls login with the
     * trimmed fields.
     */
    method OnEvent(event: LoginEvent)
      requires Valid()
      modifies this
      ensures Valid()
      ensures event.EnteredEmail? ==>
                state == old(state).(email := event.value) && events == old(events) && loginCalls == old(loginCalls)
      ensures event.EnteredPassword? ==>
                state == old(state).(password := event.value) && events == old(events) && loginCalls == old(loginCalls)
      ensures event.Login? && old(state).isLoading ==>
                state == old(state) && events == old(events) && loginCalls == old(loginCalls)
      ensures event.Login? && !old(state).isLoading ==>
                match TrimmedCredentials(old(state).email, old(state).password)
                case None =>
                  state == old(state) && events == old(events) + [ShowSnackbar(FillInAllFields)]
                  && loginCalls == old(loginCalls)
                case Some(c) =>
                  state == old(state).(isLoading := true) && events == old(events)
                  && loginCalls == old(loginCalls) + [c]
    {
      match event
      case EnteredEmail(value) =>
        state := state.(email := value);
      case EnteredPassword(value) =>
        state := state.(password := value);
      case Login =>
        if state.isLoading {
          return;
        }
        var credentials := TrimmedCredentials(state.email, state.password);
        if credentials.None? {
          events := events + [ShowSnackbar(FillInAllFields)];
          return;
        }
        state := state.(isLoading := true);
        loginCalls := loginCalls + [credentials.value];
    }

    /** The rest of the `Login` coroutine: loading stops, then the result is folded into one event. */
    method OnLoginResult(result: AuthResult)
      requires Valid() && state.isLoading
      modifies this
      ensures Valid() && !state.isLoading
      ensures state == old(state).(isLoading := false)
      ensures events == old(events) + [LoginOutcome(result)]
      ensures loginCalls == old(loginCalls)
    {
      state := state.(isLoading := false);
      returned := returned + 1;
      events := events + [LoginOutcome(result)];
    }
  }
}
