/** The user table behind login and sign-up: rows of (username, password
    hash), appended to on sign-up and searched on login. The hash function is
    a parameter; a file that does not exist reads as an empty table. */
module Credentials {
  import opened Wrappers

  /** One row of the users file; `password` holds the hash, never the plain text. */
  datatype Row = Row(username: string, password: string)

  /** The users file: `None` when it does not exist. */
  type UserFile = Option<seq<Row>>

  /** `load_users`: the rows of the file, or no rows when there is no file. */
  function LoadUsers(file: UserFile): (rows: seq<Row>)
    ensures file.None? ==> rows == []
    ensures file.Some? ==> rows == file.value
  {
    match file
    case None => []
    case Some(rows) => rows
  }

  /** Whether some row has username `u`. */
  predicate Registered(rows: seq<Row>, u: string) {
    exists i :: 0 <= i < |rows| && rows[i].username == u
  }

  /** The position of the earliest row with username `u`. */
  function FirstRow(rows: seq<Row>, u: string): (r: Option<nat>)
    ensures r.None? <==> !Registered(rows, u)
    ensures r.Some? ==> r.value < |rows| && rows[r.value].username == u
    ensures r.Some? ==> forall j :: 0 <= j < r.value ==> rows[j].username != u
  {
    if |rows| == 0 then None
    else if rows[0].username == u then Some(0)
    else
      match FirstRow(rows[1..], u)
      case None => None
      case Some(i) =>
        assert rows[i + 1] == rows[1..][i];
        Some(i + 1)
  }

  /** `save_user`: the new contents of the file, which is the previous table (empty
      when there was no file) with one row `(u, hash(p))` appended. There is no
      check for an existing row with the same username. */
  function SaveUser(file: UserFile, u: string, p: string, hash: string -> string): (rows: seq<Row>)
    ensures |rows| == |LoadUsers(file)| + 1
    ensures rows[..|LoadUsers(file)|] == LoadUsers(file)
    ensures rows[|LoadUsers(file)|] == Row(u, hash(p))
  {
    LoadUsers(file) + [Row(u, hash(p))]
  }

  /** `authenticate`: false when no row has username `u`; otherwise whether the
      earliest such row stores the hash of `p`. */
  function Authenticate(file: UserFile, u: string, p: string, hash: string -> string): (ok: bool)
    ensures !Registered(LoadUsers(file), u) ==> !ok
    ensures forall i :: 0 <= i < |LoadUsers(file)| && LoadUsers(file)[i].username == u
                        && (forall j :: 0 <= j < i ==> LoadUsers(file)[j].username != u)
                        ==> (ok <==> LoadUsers(file)[i].password == hash(p))
  {
    var rows := LoadUsers(file);
    match FirstRow(rows, u)
    case None => false
    case Some(i) => rows[i].password == hash(p)
  }

  /** Without a users file every login fails. */
  lemma AbsentFileRejectsAll(u: string, p: string, hash: string -> string)
    ensures !Authenticate(None, u, p, hash)
  {
  }

  /** After a first sign-up of `u` with password `p`, logging in as `u` with `p` succeeds. */
  lemma SignedUpUserCanLogIn(file: UserFile, u: string, p: string, hash: string -> string)
    requires !Registered(LoadUsers(file), u)
    ensures Authenticate(Some(SaveUser(file, u, p, hash)), u, p, hash)
  {
  }

  /** A second sign-up of an existing username changes nothing for logins: the
      earliest row still decides, whatever the new password. */
  lemma RepeatSignUpIgnored(file: UserFile, u: string, p: string, q: string, hash: string -> string)
    requires Registered(LoadUsers(file), u)
    ensures Authenticate(Some(SaveUser(file, u, q, hash)), u, p, hash) == Authenticate(file, u, p, hash)
  {
  }

  /** Signing up `u` leaves every other user's logins as they were. */
  lemma SignUpKeepsOtherLogins(file: UserFile, u: string, p: string, v: string, q: string, hash: string -> string)
    requires v != u
    ensures Authenticate(Some(SaveUser(file, u, p, hash)), v, q, hash) == Authenticate(file, v, q, hash)
  {
  }

  /** The outcome of pressing "Sign up": the users file afterwards, and whether
      an account was created. */
  datatype SignUpOutcome = SignUpOutcome(file: UserFile, created: bool)

  /** The sign-up form: the account is saved only when the password equals its
      confirmation; otherwise the file is left as it was. */
  function SignUp(file: UserFile, u: string, p: string, confirm: string, hash: string -> string): (r: SignUpOutcome)
    ensures r.created <==> p == confirm
    ensures r.created ==> r.file == Some(SaveUser(file, u, p, hash))
    ensures !r.created ==> r.file == file
  {
    if p == confirm then SignUpOutcome(Some(SaveUser(file, u, p, hash)), true)
    else SignUpOutcome(file, false)
  }

  /** A confirmed first sign-up lets the new user log in; a mismatched
      confirmation changes no login result. */
  lemma SignUpThenLogIn(file: UserFile, u: string, p: string, confirm: string,
                        v: string, q: string, hash: string -> string)
    ensures p == confirm && !Registered(LoadUsers(file), u) ==>
      Authenticate(SignUp(file, u, p, confirm, hash).file, u, p, hash)
    ensures p != confirm ==>
      Authenticate(SignUp(file, u, p, confirm, hash).file, v, q, hash) == Authenticate(file, v, q, hash)
  {
  }

  /** The sidebar's login state. */
  datatype Session = Session(loggedIn: bool, username: string)

  /** Pressing "Login": a successful check logs `u` in; a failed one leaves the
      session as it was. */
  function LogIn(s: Session, file: UserFile, u: string, p: string, hash: string -> string): (r: Session)
    ensures Authenticate(file, u, p, hash) ==> r == Session(true, u)
    ensures !Authenticate(file, u, p, hash) ==> r == s
  {
    if Authenticate(file, u, p, hash) then Session(true, u) else s
  }

  /** Signing up with a confirmed password and then pressing "Login" with it
      logs the new user in, whatever the session was before. */
  lemma SignUpThenSession(s: Session, file: UserFile, u: string, p: string, hash: string -> string)
    requires !Registered(LoadUsers(file), u)
    ensures LogIn(s, SignUp(file, u, p, p, hash).file, u, p, hash) == Session(true, u)
  {
  }
}
