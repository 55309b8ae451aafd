/** Signup, login, logout and session resolution over the store plus the
    persisted session pointer (the id of the logged-in account, if any). */
module Auth {
  import opened Wrappers
  import opened Text
  import opened UserStore

  /** Everything the application persists: the record list and the session pointer. */
  datatype State = State(users: seq<User>, session: Option<string>)

  /** Why a signup or login form is refused. */
  datatype AuthError = MissingFields | DuplicateEmail | InvalidCredentials

  /** The opening balance of every new account. */
  const StartingBalance := 30000

  /** The record signup writes for the trimmed form values, the generated id and
      the creation timestamp. */
  function NewAccount(id: string, name: string, email: string, password: string, createdAt: string): User
  {
    User(id, name, email, password, StartingBalance, createdAt, None, [], ReferralCode(id), false)
  }

  /** What a freshly created account looks like, field by field. */
  predicate IsNewAccount(u: User, id: string, name: string, email: string, password: string, createdAt: string)
  {
    && u.id == id && u.name == name && u.email == email && u.password == password
    && u.balance == 30000 && u.createdAt == createdAt
    && u.lastCheckIn.None? && |u.checkedDates| == 0
    && u.referralCode == ReferralCode(id)
    && !u.hasPayId
  }

  /** The signup form handler. The name and e-mail fields are trimmed, the
      password is taken as typed; `id` is the freshly generated account id and
      `createdAt` the current timestamp. */
  function Signup(st: State, nameField: string, emailField: string, password: string,
                  id: string, createdAt: string): (r: Result<State, AuthError>)
    ensures r == Failure(MissingFields) <==> Blank(nameField) || Blank(emailField) || password == ""
    ensures r == Failure(DuplicateEmail) <==>
              && !Blank(nameField) && !Blank(emailField) && password != ""
              && exists i :: 0 <= i < |st.users| && EmailMatches(st.users[i], Trim(emailField))
    ensures r != Failure(InvalidCredentials)
    ensures r.Success? ==> r.value.session == Some(id)
    ensures r.Success? && IndexOfId(st.users, id).None? ==>
              && |r.value.users| == |st.users| + 1
              && IsNewAccount(r.value.users[|st.users|], id, Trim(nameField), Trim(emailField), password, createdAt)
              && forall i :: 0 <= i < |st.users| ==> r.value.users[i] == st.users[i]
    ensures r.Success? && IndexOfId(st.users, id).Some? ==>
              && |r.value.users| == |st.users|
              && IsNewAccount(r.value.users[IndexOfId(st.users, id).value], id, Trim(nameField), Trim(emailField), password, createdAt)
              && forall i :: 0 <= i < |st.users| && i != IndexOfId(st.users, id).value ==> r.value.users[i] == st.users[i]
  {
    var name := Trim(nameField);
    var email := Trim(emailField);
    if name == "" || email == "" || password == "" then
      Failure(MissingFields)
    else if FindByEmail(st.users, email).Some? then
      Failure(DuplicateEmail)
    else
      Success(State(Persist(st.users, NewAccount(id, name, email, password, createdAt)), Some(id)))
  }

  /** Signup never lets two accounts share an e-mail address, whether or not the
      generated id collides with an existing one. */
  lemma SignupKeepsEmailsUnique(st: State, nameField: string, emailField: string, password: string,
                                id: string, createdAt: string)
    requires EmailsUnique(st.users)
    ensures Signup(st, nameField, emailField, password, id, createdAt).Success? ==>
              EmailsUnique(Signup(st, nameField, emailField, password, id, createdAt).value.users)
  {
  }

  /** After a successful signup the new account is what a lookup of its e-mail
      finds, in any letter case. */
  lemma SignupThenFindByEmail(st: State, nameField: string, emailField: string, password: string,
                              id: string, createdAt: string, query: string)
    requires Lower(query) == Lower(Trim(emailField))
    ensures Signup(st, nameField, emailField, password, id, createdAt).Success? ==>
              FindByEmail(Signup(st, nameField, emailField, password, id, createdAt).value.users, query)
              == Some(NewAccount(id, Trim(nameField), Trim(emailField), password, createdAt))
  {
    if Signup(st, nameField, emailField, password, id, createdAt).Success? {
      var email := Trim(emailField);
      var u := NewAccount(id, Trim(nameField), email, password, createdAt);
      var r := Persist(st.users, u);
      assert query != "" by { assert |Lower(query)| == |Lower(email)|; }
      assert EmailMatches(u, query);
      assert forall i :: 0 <= i < |st.users| ==> !EmailMatches(st.users[i], query);
      match IndexOfId(st.users, id)
      case None =>
        assert forall i :: 0 <= i < |st.users| ==> !EmailMatches(r[i], query);
        assert IndexOfEmail(r, query) == Some(|st.users|);
      case Some(k) =>
        assert forall i :: 0 <= i < k ==> !EmailMatches(r[i], query);
        assert IndexOfEmail(r, query) == Some(k);
    }
  }

  /** After a successful signup, resolving the session yields the new account. */
  lemma SignupThenResolve(st: State, nameField: string, emailField: string, password: string,
                          id: string, createdAt: string)
    requires id != ""
    ensures Signup(st, nameField, emailField, password, id, createdAt).Success? ==>
              ResolveSession(Signup(st, nameField, emailField, password, id, createdAt).value).user
              == Some(NewAccount(id, Trim(nameField), Trim(emailField), password, createdAt))
  {
    if Signup(st, nameField, emailField, password, id, createdAt).Success? {
      PersistThenFindById(st.users, NewAccount(id, Trim(nameField), Trim(emailField), password, createdAt));
    }
  }

  /** The login form handler: the e-mail field is trimmed, the password compared
      exactly with the stored one. Only the session pointer can change. */
  function Login(st: State, emailField: string, password: string): (r: Result<State, AuthError>)
    ensures r == Failure(MissingFields) <==> Blank(emailField) || password == ""
    ensures r.Success? <==>
              && !Blank(emailField) && password != ""
              && FindByEmail(st.users, Trim(emailField)).Some?
              && FindByEmail(st.users, Trim(emailField)).value.password == password
    ensures r.Failure? ==> r.error != DuplicateEmail
    ensures r.Success? ==> r.value.users == st.users
    ensures r.Success? ==> r.value.session == Some(FindByEmail(st.users, Trim(emailField)).value.id)
  {
    var email := Trim(emailField);
    if email == "" || password == "" then
      Failure(MissingFields)
    else
      match FindByEmail(st.users, email)
      case None => Failure(InvalidCredentials)
      case Some(u) =>
        if u.password != password then Failure(InvalidCredentials)
        else Success(State(st.users, Some(u.id)))
  }

  /** With unique e-mails, login succeeds exactly when some account has the
      given e-mail (in any letter case) and exactly the given password, and the
      session then points at that account. */
  lemma LoginIffCredentialsMatch(st: State, emailField: string, password: string, k: nat)
    requires EmailsUnique(st.users)
    requires !Blank(emailField) && password != ""
    requires k < |st.users| && EmailMatches(st.users[k], Trim(emailField))
    ensures Login(st, emailField, password).Success? <==> st.users[k].password == password
    ensures Login(st, emailField, password).Success? ==>
              Login(st, emailField, password).value.session == Some(st.users[k].id)
  {
    var email := Trim(emailField);
    var f := IndexOfEmail(st.users, email);
    assert f.Some?;
    if f.value < k {
      assert EmailMatches(st.users[k], st.users[f.value].email);
    }
    assert f.value == k;
  }

  /** Login with an e-mail no account has is refused as bad credentials. */
  lemma LoginUnknownEmail(st: State, emailField: string, password: string)
    requires !Blank(emailField) && password != ""
    requires forall i :: 0 <= i < |st.users| ==> !EmailMatches(st.users[i], Trim(emailField))
    ensures Login(st, emailField, password) == Failure(InvalidCredentials)
  {
  }

  /** The logout handler: clears the session pointer, never touches a record. */
  function Logout(st: State): (r: State)
    ensures r.session.None?
    ensures r.users == st.users
  {
    State(st.users, None)
  }

  /** After logout nobody is logged in, but the account is still found by its id. */
  lemma LogoutKeepsRecords(st: State, id: string)
    ensures ResolveSession(Logout(st)).user.None?
    ensures FindById(Logout(st).users, id) == FindById(st.users, id)
  {
  }

  /** Position of the logged-in account: the pointer must be set to a non-empty
      id (an empty string counts as unset) that some record carries. */
  function CurrentIndex(st: State): (r: Option<nat>)
    ensures r.Some? ==> r.value < |st.users| && st.session == Some(st.users[r.value].id) && st.session != Some("")
                        && forall j :: 0 <= j < r.value ==> st.users[j].id != st.session.value
    ensures r.None? ==> st.session.None? || st.session == Some("")
                        || forall i :: 0 <= i < |st.users| ==> st.users[i].id != st.session.value
  {
    match st.session
    case None => None
    case Some(id) => if id == "" then None else IndexOfId(st.users, id)
  }

  /** The outcome of resolving the session: the state afterwards and the
      logged-in account, if any. */
  datatype Resolution = Resolution(state: State, user: Option<User>)

  /** `requireAuthOrRedirect`: an unset pointer yields nobody and changes
      nothing; a pointer to an id no record has is cleared and yields nobody;
      otherwise the pointed-to account is returned and nothing changes. */
  function ResolveSession(st: State): (r: Resolution)
    ensures r.state.users == st.users
    ensures (st.session.None? || st.session == Some("")) ==> r.state == st && r.user.None?
    ensures CurrentIndex(st).Some? ==> r.state == st && r.user == Some(st.users[CurrentIndex(st).value])
    ensures st.session.Some? && st.session.value != "" && CurrentIndex(st).None? ==>
              r.state.session.None? && r.user.None?
  {
    match st.session
    case None => Resolution(st, None)
    case Some(id) =>
      if id == "" then Resolution(st, None)
      else
        match FindById(st.users, id)
        case None => Resolution(State(st.users, None), None)
        case Some(u) => Resolution(st, Some(u))
  }

  /** Resolution heals the pointer: afterwards it is unset or names an existing
      account, and resolving again changes nothing. */
  lemma ResolveSessionHeals(st: State)
    ensures var s := ResolveSession(st).state;
            s.session.None? || s.session == Some("") || CurrentIndex(s).Some?
    ensures ResolveSession(ResolveSession(st).state) == ResolveSession(st)
  {
  }
}
