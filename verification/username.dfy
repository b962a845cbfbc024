/** The username screen's state machine (`UsernameViewModel.kt`): the
    validator, the two actions and the preference store they write to.
    The store is the value `saved`; the view model's `StateFlow` is the
    value `UiState`. */
module Username {
  import opened Wrappers

  const InvalidUsername: string := "Invalid username"
  const ProvideUsername: string := "Provide a username"

  /** One character of the class `[a-zA-Z0-9_]`. */
  predicate IsWordChar(c: char)
  {
    ('a' <= c <= 'z') || ('A' <= c <= 'Z') || ('0' <= c <= '9') || c == '_'
  }

  /** `input.matches(Regex("^[a-zA-Z0-9_]+$"))`: one or more word characters
      and nothing else. */
  predicate MatchesWordPattern(input: string)
  {
    |input| >= 1 && forall i :: 0 <= i < |input| ==> IsWordChar(input[i])
  }

  /** `validateUsername`: non-empty, at least three characters, and the
      whole input matches the pattern. */
  predicate ValidateUsername(input: string)
  {
    |input| != 0 && |input| >= 3 && MatchesWordPattern(input)
  }

  /** The emptiness test and the `+` of the pattern are subsumed by the
      length test: a username is valid exactly when it has at least three
      characters, all of them word characters. */
  lemma ValidateUsernameMeaning(input: string)
    ensures ValidateUsername(input) <==>
      |input| >= 3 && forall c :: c in input ==> IsWordChar(c)
  {
    if |input| >= 3 && forall c :: c in input ==> IsWordChar(c) {
      forall i | 0 <= i < |input|
        ensures IsWordChar(input[i])
      {
        assert input[i] in input;
      }
    }
  }

  /** The screen's state: the name typed so far (null before any typing
      when nothing was saved) and the error shown under the field. */
  datatype UiState = UiState(username: Option<string>, usernameErr: Option<string>)

  /** The view model's `init`: a saved name, if any, pre-fills the field. */
  function Init(saved: Option<string>): (s: UiState)
    ensures s.username == saved && s.usernameErr == None
  {
    match saved
    case Some(name) => UiState(Some(name), None)
    case None => UiState(None, None)
  }

  /** `changeUsername(name)`: the field always takes the new text; the
      error is set when and only when the text is not a valid username. */
  function ChangeUsername(s: UiState, name: string): (t: UiState)
    ensures t.username == Some(name)
    ensures t.usernameErr == None <==> ValidateUsername(name)
    ensures t.usernameErr != None ==> t.usernameErr == Some(InvalidUsername)
  {
    s.(username := Some(name), usernameErr := if !ValidateUsername(name) then Some(InvalidUsername) else None)
  }

  /** `saveUsername()`: the new screen state and the new stored name. */
  function SaveUsername(s: UiState, saved: Option<string>): (r: (UiState, Option<string>))
    ensures s.username == None ==>
      r.0 == s.(usernameErr := Some(ProvideUsername)) && r.1 == saved
    ensures s.username != None && !ValidateUsername(s.username.value) ==>
      r.0 == s.(usernameErr := Some(InvalidUsername)) && r.1 == saved
    ensures s.username != None && ValidateUsername(s.username.value) ==>
      r.0 == s && r.1 == s.username
  {
    match s.username
    case Some(name) =>
      if ValidateUsername(name) then (s, Some(name))
      else (s.(usernameErr := Some(InvalidUsername)), saved)
    case None => (s.(usernameErr := Some(ProvideUsername)), saved)
  }

  /** Saving never changes the typed text, and the store changes only to
      a valid name that is exactly the typed text. */
  lemma SaveOnlyStoresValidText(s: UiState, saved: Option<string>)
    ensures SaveUsername(s, saved).0.username == s.username
    ensures SaveUsername(s, saved).1 != saved ==>
      SaveUsername(s, saved).1 == s.username && ValidateUsername(s.username.value)
  {
  }

  /** A reachable configuration: the store holds nothing or a valid name,
      the error is one of the two messages, and a typed name shown without
      an error is valid. */
  predicate Reachable(s: UiState, saved: Option<string>)
  {
    && (saved == None || ValidateUsername(saved.value))
    && (s.usernameErr == None || s.usernameErr == Some(InvalidUsername) || s.usernameErr == Some(ProvideUsername))
    && (s.usernameErr == None && s.username != None ==> ValidateUsername(s.username.value))
  }

  /** Starting from a store that holds a valid name or nothing, both actions
      keep the configuration reachable: in particular the store only ever
      holds valid names. */
  lemma InitReachable(saved: Option<string>)
    requires saved == None || ValidateUsername(saved.value)
    ensures Reachable(Init(saved), saved)
  {
  }

  lemma ChangeKeepsReachable(s: UiState, saved: Option<string>, name: string)
    requires Reachable(s, saved)
    ensures Reachable(ChangeUsername(s, name), saved)
  {
  }

  lemma SaveKeepsReachable(s: UiState, saved: Option<string>)
    requires Reachable(s, saved)
    ensures Reachable(SaveUsername(s, saved).0, SaveUsername(s, saved).1)
  {
  }

  /** One user action. */
  datatype Action = Change(name: string) | Save

  /** The state and store after a sequence of actions. */
  function Run(s: UiState, saved: Option<string>, actions: seq<Action>): (r: (UiState, Option<string>))
    decreases |actions|
  {
    if |actions| == 0 then (s, saved)
    else
      var (s', saved') := match actions[0]
        case Change(name) => (ChangeUsername(s, name), saved)
        case Save => SaveUsername(s, saved);
      Run(s', saved', actions[1..])
  }

  /** Whatever the user does, the store never holds an invalid name. */
  lemma {:induction false} RunKeepsReachable(s: UiState, saved: Option<string>, actions: seq<Action>)
    requires Reachable(s, saved)
    ensures Reachable(Run(s, saved, actions).0, Run(s, saved, actions).1)
    decreases |actions|
  {
    if |actions| > 0 {
      match actions[0]
      case Change(name) =>
        ChangeKeepsReachable(s, saved, name);
        RunKeepsReachable(ChangeUsername(s, name), saved, actions[1..]);
      case Save =>
        SaveKeepsReachable(s, saved);
        RunKeepsReachable(SaveUsername(s, saved).0, SaveUsername(s, saved).1, actions[1..]);
    }
  }

  /** Typing a name and saving it stores the name exactly when it is
      valid; otherwise the store is unchanged and the error is shown. */
  lemma ChangeThenSave(s: UiState, saved: Option<string>, name: string)
    ensures ValidateUsername(name) ==>
      SaveUsername(ChangeUsername(s, name), saved) == (ChangeUsername(s, name), Some(name))
    ensures !ValidateUsername(name) ==>
      SaveUsername(ChangeUsername(s, name), saved) == (ChangeUsername(s, name), saved)
  {
  }

  /** Saving twice is saving once. */
  lemma SaveIdempotent(s: UiState, saved: Option<string>)
    ensures var (s1, saved1) := SaveUsername(s, saved);
      SaveUsername(s1, saved1) == (s1, saved1)
  {
  }

  /** Some concrete names. */
  lemma Examples()
    ensures ValidateUsername("bob") && ValidateUsername("a_1")
    ensures !ValidateUsername("ab") && !ValidateUsername("") && !ValidateUsername("bo b")
  {
    assert !IsWordChar("bo b"[2]);
  }
}
