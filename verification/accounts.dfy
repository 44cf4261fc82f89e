/** The in-memory account store behind `POST /register` and `POST /login`: a map from
    e-mail address to the record registered under it, passwords kept and compared as
    plain text. It shares no state with the room registry. */
module Accounts {
  import opened Wrappers

  type Email = string

  /** A stored account, exactly the three fields the registration request carried. */
  datatype Account = Account(name: string, email: Email, password: string)

  /** What a successful login reports back: the account without its password. */
  datatype PublicUser = PublicUser(name: string, email: Email)

  /** The `userAccounts` map. */
  type Store = map<Email, Account>

  /** The failures the two routes report, each answered with HTTP status 400. */
  datatype AuthError = UserAlreadyExists | UserNotFound | InvalidPassword

  /** The `error` text of the 400 response. */
  function ErrorText(e: AuthError): string {
    match e
    case UserAlreadyExists => "User already exists"
    case UserNotFound => "User not found"
    case InvalidPassword => "Invalid password"
  }

  /** The store after a registration request, and whether it was accepted. */
  datatype Registration = Registration(store: Store, outcome: Outcome<AuthError>)

  /** Every record is filed under its own e-mail address. */
  ghost predicate StoreValid(store: Store) {
    forall e :: e in store ==> store[e].email == e
  }

  /** `POST /register`: an address already present is refused and its record kept;
      otherwise the record is stored under the address and nothing else changes. */
  function Register(store: Store, name: string, email: Email, password: string): (r: Registration)
    ensures email in store <==> r.outcome == Fail(UserAlreadyExists)
    ensures r.outcome.Pass? <==> email !in store
    ensures email in store ==> r.store == store
    ensures r.store.Keys == store.Keys + {email}
    ensures r.store[email] == if email in store then store[email] else Account(name, email, password)
    ensures forall e :: e in store && e != email ==> r.store[e] == store[e]
    ensures StoreValid(store) ==> StoreValid(r.store)
  {
    if email in store then Registration(store, Fail(UserAlreadyExists))
    else Registration(store[email := Account(name, email, password)], Pass)
  }

  /** `POST /login`: an unknown address and a wrong password are refused with different
      errors; a match reports the stored name and address, never the password. The
      store is an input only, so a login never changes it. */
  function Login(store: Store, email: Email, password: string): (r: Result<PublicUser, AuthError>)
    ensures r == Err(UserNotFound) <==> email !in store
    ensures r == Err(InvalidPassword) <==> email in store && store[email].password != password
    ensures r.Ok? <==> email in store && store[email].password == password
    ensures r.Ok? ==> r.value == PublicUser(store[email].name, store[email].email)
    ensures r.Ok? && StoreValid(store) ==> r.value.email == email
  {
    if email !in store then Err(UserNotFound)
    else
      var user := store[email];
      if user.password != password then Err(InvalidPassword)
      else Ok(PublicUser(user.name, user.email))
  }

  /** Registering a new address makes exactly its password log in, reporting the
      registered name and address. */
  lemma RegisterThenLogin(store: Store, name: string, email: Email, password: string, attempt: string)
    requires email !in store
    ensures var store' := Register(store, name, email, password).store;
      Login(store', email, attempt) ==
        if attempt == password then Ok(PublicUser(name, email)) else Err(InvalidPassword)
  {
  }

  /** A refused re-registration leaves every login answering as before, so the first
      registrant keeps the address and its password. */
  lemma ReRegisterKeepsLogin(store: Store, name: string, email: Email, password: string,
                             who: Email, attempt: string)
    requires email in store
    ensures Login(Register(store, name, email, password).store, who, attempt) == Login(store, who, attempt)
  {
  }

  /** A registration leaves the logins of every other address unchanged. */
  lemma RegisterIsolated(store: Store, name: string, email: Email, password: string,
                         who: Email, attempt: string)
    requires who != email
    ensures Login(Register(store, name, email, password).store, who, attempt) == Login(store, who, attempt)
  {
  }
}
