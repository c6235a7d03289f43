/** Account rules of `routes/auth_routes.py`: the bearer-header check that
    guards every protected route, the ordered registration validator and the
    login lookup. Firebase token verification and werkzeug password hashing are
    foreign code and are passed in as functions. */
module AuthRoutes {
  import opened Common
  import opened Seqs
  import opened Text
  import opened Database

  /** The decoded Firebase token that the guard places on `request.user`. */
  type Claims = map<string, string>

  /** The two session keys the routes write. */
  datatype Session = Session(userId: Option<int>, authenticated: bool)

  // ---------------------------------------------------------------------------
  // require_auth

  const BearerPrefix: string := "Bearer "

  /** The separator `"Bearer "` starts at position `k` of `t`. */
  predicate MarkerAt(t: string, k: int) {
    0 <= k && k + |BearerPrefix| <= |t| && t[k..k + |BearerPrefix|] == BearerPrefix
  }

  lemma MarkerShift(t: string)
    requires t != []
    ensures forall k :: 1 <= k ==> (MarkerAt(t, k) <==> MarkerAt(t[1..], k - 1))
  {
    forall k | 1 <= k
      ensures MarkerAt(t, k) <==> MarkerAt(t[1..], k - 1)
    {
      if k + |BearerPrefix| <= |t| {
        assert t[1..][k - 1..k - 1 + |BearerPrefix|] == t[k..k + |BearerPrefix|];
      }
    }
  }

  /** `t.split('Bearer ')[0]`: `t` up to the first separator, or all of `t`. */
  function UpToMarker(t: string): (r: string)
    ensures IsPrefix(r, t)
    ensures forall k :: 0 <= k < |r| ==> !MarkerAt(t, k)
    ensures |r| < |t| ==> MarkerAt(t, |r|)
  {
    if t == [] || MarkerAt(t, 0) then []
    else
      var r := UpToMarker(t[1..]);
      MarkerShift(t);
      assert t[..|r| + 1] == [t[0]] + t[1..][..|r|];
      [t[0]] + r
  }

  /** The token of an `Authorization` header: None when the header is missing
      or does not start with `Bearer `; otherwise `header.split('Bearer ')[1]`,
      the text after the prefix up to the next `Bearer `. */
  function BearerToken(header: Option<string>): (token: Option<string>)
    ensures token.None? <==> header.None? || !IsPrefix(BearerPrefix, header.value)
    ensures token.Some? ==> IsPrefix(BearerPrefix + token.value, header.value)
    ensures token.Some? ==> forall k :: |BearerPrefix| <= k < |BearerPrefix| + |token.value| ==> !MarkerAt(header.value, k)
    ensures token.Some? && |BearerPrefix| + |token.value| < |header.value| ==>
              MarkerAt(header.value, |BearerPrefix| + |token.value|)
  {
    if header.None? || !IsPrefix(BearerPrefix, header.value) then None
    else
      var h := header.value;
      var rest := h[|BearerPrefix|..];
      var t := UpToMarker(rest);
      assert h == BearerPrefix + rest;
      forall k | |BearerPrefix| <= k <= |h| - |BearerPrefix|
        ensures MarkerAt(h, k) <==> MarkerAt(rest, k - |BearerPrefix|)
      {
        assert h[k..k + |BearerPrefix|] == rest[k - |BearerPrefix|..k];
      }
      Some(t)
  }

  datatype Auth = Authenticated(user: Claims) | Unauthorized(message: string)

  /** The `require_auth` guard; `verify` is Firebase token verification, None
      when it raises. Every rejection is answered with status 401. */
  function RequireAuth(header: Option<string>, verify: string -> Option<Claims>): (a: Auth)
    ensures BearerToken(header).None? ==> a == Unauthorized("No token provided")
    ensures BearerToken(header).Some? ==>
              match verify(BearerToken(header).value)
              case None => a == Unauthorized("Invalid token")
              case Some(c) => a == Authenticated(c)
  {
    match BearerToken(header)
    case None => Unauthorized("No token provided")
    case Some(token) =>
      match verify(token)
      case None => Unauthorized("Invalid token")
      case Some(c) => Authenticated(c)
  }

  // ---------------------------------------------------------------------------
  // register

  datatype RegisterBody = RegisterBody(
    email: Field<string>, password: Field<string>, username: Field<string>, displayName: Field<string>)

  /** The registration fields after normalisation. */
  datatype Account = Account(email: string, password: string, username: string, displayName: string)

  datatype Registered = Registered(userId: int, email: string, username: string, displayName: string)

  /** What `str(e)` says when the request has no JSON body and `data.get` is
      called on None. */
  const NoBodyError: string := "'NoneType' object has no attribute 'get'"

  /** The first required field, in the order email, password, username,
      display_name, that is missing, null or empty. */
  function MissingField(b: RegisterBody): (f: Option<string>)
    ensures f == Some("email") <==> !TruthyStr(b.email.Get())
    ensures f == Some("password") <==> TruthyStr(b.email.Get()) && !TruthyStr(b.password.Get())
    ensures f == Some("username") <==>
              TruthyStr(b.email.Get()) && TruthyStr(b.password.Get()) && !TruthyStr(b.username.Get())
    ensures f == Some("display_name") <==>
              && TruthyStr(b.email.Get()) && TruthyStr(b.password.Get()) && TruthyStr(b.username.Get())
              && !TruthyStr(b.displayName.Get())
    ensures f.None? ==> b.email.Present? && b.password.Present? && b.username.Present? && b.displayName.Present?
  {
    if !TruthyStr(b.email.Get()) then Some("email")
    else if !TruthyStr(b.password.Get()) then Some("password")
    else if !TruthyStr(b.username.Get()) then Some("username")
    else if !TruthyStr(b.displayName.Get()) then Some("display_name")
    else None
  }

  /** Email and username are lowercased and stripped, the display name is only
      stripped, and the password is kept exactly as sent. */
  function Normalized(b: RegisterBody): (a: Account)
    requires b.email.Present? && b.password.Present? && b.username.Present? && b.displayName.Present?
    ensures a.password == b.password.value
    ensures a.email == Normalize(b.email.value) && a.username == Normalize(b.username.value)
    ensures a.displayName == Strip(b.displayName.value)
  {
    Account(Normalize(b.email.value), b.password.value, Normalize(b.username.value), Strip(b.displayName.value))
  }

  /** A character of the class `[^\s@]`. */
  predicate Plain(c: char) { !IsSpace(c) && c != '@' }

  predicate AllPlain(s: string) { forall k :: 0 <= k < |s| ==> Plain(s[k]) }

  /** Splits an address of the pattern's shape at its `@` and its dot. */
  predicate ShapeAt(s: string, i: int, j: int) {
    && 0 < i < j - 1 && j + 1 < |s| && s[i] == '@' && s[j] == '.'
    && AllPlain(s[..i]) && AllPlain(s[i + 1..j]) && AllPlain(s[j + 1..])
  }

  /** `s` is `a@b.c` where `a`, `b` and `c` are non-empty runs of `[^\s@]`:
      the body of the pattern `^[^\s@]+@[^\s@]+\.[^\s@]+$`. */
  ghost predicate EmailShape(s: string) {
    exists i, j :: ShapeAt(s, i, j)
  }

  /** What `re.match` accepts for the email pattern: its `$` also matches
      just before one final newline. */
  ghost predicate EmailRegex(s: string) {
    EmailShape(s) || (|s| > 0 && s[|s| - 1] == '\n' && EmailShape(s[..|s| - 1]))
  }

  predicate IsWordChar(c: char) { IsUpper(c) || IsLowerLetter(c) || IsDigit(c) || c == '_' }

  predicate AllWord(s: string) { forall k :: 0 <= k < |s| ==> IsWordChar(s[k]) }

  /** What `re.match(r'^[a-zA-Z0-9_]+$', s)` accepts. */
  ghost predicate UsernameRegex(s: string) {
    (s != [] && AllWord(s)) || (|s| > 1 && s[|s| - 1] == '\n' && AllWord(s[..|s| - 1]))
  }

  predicate NoSpace(s: string) { forall k :: 0 <= k < |s| ==> !IsSpace(s[k]) }

  predicate NoAt(s: string) { forall k :: 0 <= k < |s| ==> s[k] != '@' }

  predicate DotInside(d: string) { exists k :: 0 < k < |d| - 1 && d[k] == '.' }

  /** The email check as a scan: one `@`, not first, no whitespace, and a dot
      strictly inside the part after the `@`. */
  predicate IsEmail(s: string) {
    match FirstIndex(s, (c: char) => c == '@')
    case None => false
    case Some(i) => 0 < i && NoSpace(s) && NoAt(s[i + 1..]) && DotInside(s[i + 1..])
  }

  /** Every address the scan accepts has the shape of the pattern. */
  lemma IsEmailSound(s: string)
    requires IsEmail(s)
    ensures EmailShape(s)
  {
    var at := (c: char) => c == '@';
    var i := FirstIndex(s, at).value;
    var d := s[i + 1..];
    var k :| 0 < k < |d| - 1 && d[k] == '.';
    var j := i + 1 + k;
    assert s[j] == '.';
    var local := s[..i];
    var host := s[i + 1..j];
    var tld := s[j + 1..];
    assert AllPlain(local) by {
      forall m | 0 <= m < |local| ensures Plain(local[m]) { assert !at(s[m]); }
    }
    assert AllPlain(host) by {
      forall m | 0 <= m < |host| ensures Plain(host[m]) { assert host[m] == d[m]; }
    }
    assert AllPlain(tld) by {
      forall m | 0 <= m < |tld| ensures Plain(tld[m]) { assert tld[m] == d[k + 1 + m]; }
    }
    assert ShapeAt(s, i, j);
  }

  lemma ShapeNoSpace(s: string, i: int, j: int)
    requires ShapeAt(s, i, j)
    ensures NoSpace(s)
  {
    var local, host, tld := s[..i], s[i + 1..j], s[j + 1..];
    forall m | 0 <= m < |s| ensures !IsSpace(s[m]) {
      if m < i { assert local[m] == s[m]; }
      else if i < m < j { assert host[m - i - 1] == s[m]; }
      else if j < m { assert tld[m - j - 1] == s[m]; }
    }
  }

  lemma ShapeDomain(s: string, i: int, j: int)
    requires ShapeAt(s, i, j)
    ensures NoAt(s[i + 1..]) && DotInside(s[i + 1..])
  {
    var host, tld := s[i + 1..j], s[j + 1..];
    var d := s[i + 1..];
    forall m | 0 <= m < |d| ensures d[m] != '@' {
      if m < j - i - 1 { assert host[m] == d[m]; }
      else if m > j - i - 1 { assert tld[m - (j - i)] == d[m]; }
    }
    assert d[j - i - 1] == '.';
  }

  /** Every string of the pattern's shape passes the scan. */
  lemma IsEmailComplete(s: string)
    requires EmailShape(s)
    ensures IsEmail(s)
  {
    var at := (c: char) => c == '@';
    var i, j :| ShapeAt(s, i, j);
    var local := s[..i];
    assert forall m :: 0 <= m < i ==> s[m] != '@' by {
      forall m | 0 <= m < i ensures s[m] != '@' { assert local[m] == s[m]; }
    }
    assert at(s[i]);
    assert FirstIndex(s, at) == Some(i);
    ShapeNoSpace(s, i, j);
    ShapeDomain(s, i, j);
  }

  /** On a string that does not end in whitespace, which is every stripped
      email, the scan accepts exactly what the regular expression accepts. */
  lemma IsEmailIffRegex(s: string)
    requires s == [] || !IsSpace(s[|s| - 1])
    ensures IsEmail(s) <==> EmailRegex(s)
  {
    if IsEmail(s) {
      IsEmailSound(s);
    }
    if EmailRegex(s) {
      IsEmailComplete(s);
    }
  }

  /** On a string that does not end in whitespace the username pattern is a
      plain character-class check. */
  lemma UsernameRegexOnTrimmed(s: string)
    requires s == [] || !IsSpace(s[|s| - 1])
    ensures UsernameRegex(s) <==> s != [] && AllWord(s)
  {
  }

  /** The first validation failure of a normalised account, checked in the
      order email format, password length, username length, username
      characters. */
  function AccountError(a: Account): (e: Option<string>)
    requires a.email == [] || !IsSpace(a.email[|a.email| - 1])
    requires a.username == [] || !IsSpace(a.username[|a.username| - 1])
    ensures !EmailRegex(a.email) ==> e == Some("Invalid email format")
    ensures EmailRegex(a.email) && |a.password| < 6 ==> e == Some("Password must be at least 6 characters long")
    ensures EmailRegex(a.email) && |a.password| >= 6 && !(3 <= |a.username| <= 30) ==>
              e == Some("Username must be between 3 and 30 characters")
    ensures EmailRegex(a.email) && |a.password| >= 6 && 3 <= |a.username| <= 30 && !UsernameRegex(a.username) ==>
              e == Some("Username can only contain letters, numbers, and underscores")
    ensures e.None? <==> EmailRegex(a.email) && |a.password| >= 6 && 3 <= |a.username| <= 30 && UsernameRegex(a.username)
  {
    IsEmailIffRegex(a.email);
    UsernameRegexOnTrimmed(a.username);
    if !IsEmail(a.email) then Some("Invalid email format")
    else if |a.password| < 6 then Some("Password must be at least 6 characters long")
    else if |a.username| < 3 || |a.username| > 30 then Some("Username must be between 3 and 30 characters")
    else if !AllWord(a.username) then Some("Username can only contain letters, numbers, and underscores")
    else None
  }

  /** The account a user row clashes with on registration. */
  predicate Clashes(u: User, email: string, username: string) {
    u.email == email || u.username == username
  }

  /** The duplicate check: the first stored user whose email or username is
      taken decides the message, "Email already registered" if that user has
      the email and "Username already taken" otherwise. */
  function DuplicateError(users: seq<User>, email: string, username: string): (e: Option<string>)
    ensures e.None? <==> forall u :: u in users ==> !Clashes(u, email, username)
    ensures e.Some? ==> exists k :: 0 <= k < |users| && Clashes(users[k], email, username)
                          && (forall j :: 0 <= j < k ==> !Clashes(users[j], email, username))
                          && e.value == (if users[k].email == email then "Email already registered"
                                         else "Username already taken")
  {
    match FirstIndex(users, (u: User) => Clashes(u, email, username))
    case None => None
    case Some(k) =>
      Some(if users[k].email == email then "Email already registered" else "Username already taken")
  }

  /** When no stored user has the email, a clash is always reported as a taken
      username; when one does, the email is reported unless an earlier row
      clashes on its username alone. */
  lemma DuplicatePriority(users: seq<User>, email: string, username: string)
    ensures (forall u :: u in users ==> u.email != email) && DuplicateError(users, email, username).Some? ==>
              DuplicateError(users, email, username) == Some("Username already taken")
    ensures (exists u :: u in users && u.email == email) && (forall u :: u in users ==> u.username != username) ==>
              DuplicateError(users, email, username) == Some("Email already registered")
  {
  }

  /** The email clash does not always win: a database where an earlier user
      holds the requested username and a later one the requested email
      answers "Username already taken". */
  lemma EmailClashCanBeReportedAsUsername()
    ensures var alice := User(1, "a@x.io", "bob", "Alice", None, None, "local", None, 1, None, 0, None, false);
            var carol := User(2, "c@x.io", "carol", "Carol", None, None, "local", None, 1, None, 0, None, false);
            DuplicateError([alice, carol], "c@x.io", "bob") == Some("Username already taken")
  {
    var alice := User(1, "a@x.io", "bob", "Alice", None, None, "local", None, 1, None, 0, None, false);
    var carol := User(2, "c@x.io", "carol", "Carol", None, None, "local", None, 1, None, 0, None, false);
    assert Clashes(alice, "c@x.io", "bob");
    assert [alice, carol][0] == alice;
  }

  /** The row `register` inserts; `initialKeyVersion` is the User model's
      default for `key_version`. */
  function NewLocalUser(id: int, a: Account, passwordHash: string, initialKeyVersion: int, now: Time): (u: User)
    ensures u.id == id && u.email == a.email && u.username == a.username
    ensures u.displayName == a.displayName && u.name == Some(a.displayName)
    ensures u.password == Some(passwordHash) && u.provider == "local"
    ensures u.publicKey.None? && u.createdAt == now && !u.isOnline
  {
    User(id, a.email, a.username, a.displayName, Some(a.displayName), Some(passwordHash), "local",
         None, initialKeyVersion, None, now, None, false)
  }

  /** The checks and the insert that follow normalisation: validation, the
      duplicate check, then the new row and the session binding. */
  function Enroll(db: Db, a: Account, session: Session,
                  hash: string -> string, initialKeyVersion: int, now: Time)
    : (out: (Reply<Registered>, Db, Session))
    requires a.email == [] || !IsSpace(a.email[|a.email| - 1])
    requires a.username == [] || !IsSpace(a.username[|a.username| - 1])
    ensures out.0.Failure? ==> out.1 == db && out.2 == session
    ensures AccountError(a).Some? ==> out.0 == Failure(400, AccountError(a).value)
    ensures AccountError(a).None? && DuplicateError(db.users, a.email, a.username).Some? ==>
              out.0 == Failure(409, DuplicateError(db.users, a.email, a.username).value)
    ensures out.0.Success? <==>
              AccountError(a).None? && forall u :: u in db.users ==> !Clashes(u, a.email, a.username)
    ensures out.0.Failure? && out.0.code == 409 <==>
              AccountError(a).None? && exists u :: u in db.users && Clashes(u, a.email, a.username)
    ensures out.0.Success? ==>
              && EmailRegex(a.email) && |a.password| >= 6 && 3 <= |a.username| <= 30 && UsernameRegex(a.username)
              && (forall u :: u in db.users ==> u.email != a.email && u.username != a.username)
              && out.0 == Success(201, Registered(db.nextUserId, a.email, a.username, a.displayName))
              && out.1 == db.(users := db.users + [NewLocalUser(db.nextUserId, a, hash(a.password), initialKeyVersion, now)],
                              nextUserId := db.nextUserId + 1)
              && out.2 == Session(Some(db.nextUserId), true)
  {
    match AccountError(a)
    case Some(msg) => (Failure(400, msg), db, session)
    case None =>
      match DuplicateError(db.users, a.email, a.username)
      case Some(msg) => (Failure(409, msg), db, session)
      case None =>
        var user := NewLocalUser(db.nextUserId, a, hash(a.password), initialKeyVersion, now);
        (Success(201, Registered(user.id, user.email, user.username, user.displayName)),
         db.(users := db.users + [user], nextUserId := db.nextUserId + 1),
         Session(Some(user.id), true))
  }

  /** The `register` route: the four required fields in order, normalisation,
      validation in order, the duplicate check, then the insert. On success
      the new user gets the next id and the session is bound to it; on every
      failure neither the database nor the session changes. */
  function Register(db: Db, body: Option<RegisterBody>, session: Session,
                    hash: string -> string, initialKeyVersion: int, now: Time)
    : (out: (Reply<Registered>, Db, Session))
    ensures out.0.Failure? ==> out.1 == db && out.2 == session
    ensures body.None? ==> out.0 == Failure(500, "Registration failed: " + NoBodyError)
    ensures body.Some? && MissingField(body.value).Some? ==>
              out.0 == Failure(400, MissingField(body.value).value + " is required")
    ensures body.Some? && MissingField(body.value).None? ==>
              out == Enroll(db, Normalized(body.value), session, hash, initialKeyVersion, now)
  {
    if body.None? then (Failure(500, "Registration failed: " + NoBodyError), db, session)
    else
      match MissingField(body.value)
      case Some(f) => (Failure(400, f + " is required"), db, session)
      case None => Enroll(db, Normalized(body.value), session, hash, initialKeyVersion, now)
  }

  /** A registration with all four fields is refused, in terms of the
      normalised account, with the first failing validation as 400, and with
      409 exactly when the account is valid and clashes with a stored user. */
  lemma RegisterRejects(db: Db, body: RegisterBody, session: Session,
                        hash: string -> string, initialKeyVersion: int, now: Time)
    requires MissingField(body).None?
    ensures var out := Register(db, Some(body), session, hash, initialKeyVersion, now);
            var a := Normalized(body);
            && (AccountError(a).Some? ==> out.0 == Failure(400, AccountError(a).value))
            && (out.0.Failure? && out.0.code == 409 <==>
                  AccountError(a).None? && exists u :: u in db.users && Clashes(u, a.email, a.username))
  {
    var a := Normalized(body);
    assert Register(db, Some(body), session, hash, initialKeyVersion, now)
           == Enroll(db, a, session, hash, initialKeyVersion, now);
  }

  /** A successful registration had a valid account that clashes with no
      stored user; it inserts the new local user under the next id and binds
      the session to it. */
  lemma RegisterSucceeds(db: Db, body: RegisterBody, session: Session,
                         hash: string -> string, initialKeyVersion: int, now: Time)
    requires Register(db, Some(body), session, hash, initialKeyVersion, now).0.Success?
    ensures var out := Register(db, Some(body), session, hash, initialKeyVersion, now);
            var a := Normalized(body);
            && MissingField(body).None?
            && EmailRegex(a.email) && |a.password| >= 6 && 3 <= |a.username| <= 30 && UsernameRegex(a.username)
            && (forall u :: u in db.users ==> u.email != a.email && u.username != a.username)
            && out.0 == Success(201, Registered(db.nextUserId, a.email, a.username, a.displayName))
            && out.1 == db.(users := db.users + [NewLocalUser(db.nextUserId, a, hash(a.password), initialKeyVersion, now)],
                            nextUserId := db.nextUserId + 1)
            && out.2 == Session(Some(db.nextUserId), true)
  {
    assert MissingField(body).None?;
    var a := Normalized(body);
    assert Register(db, Some(body), session, hash, initialKeyVersion, now)
           == Enroll(db, a, session, hash, initialKeyVersion, now);
  }

  // ---------------------------------------------------------------------------
  // login

  datatype LoginBody = LoginBody(email: Field<string>, password: Field<string>)

  datatype LoggedIn = LoggedIn(userId: int, email: string, username: string,
                               displayName: string, profilePicture: Option<string>)

  /** The one answer for an unknown account, an account without a password
      and a wrong password alike. */
  const InvalidCredentials: string := "Invalid email or password"

  /** The login identifier may name a user by email or by username. */
  predicate Identifies(u: User, ident: string) {
    u.email == ident || u.username == ident
  }

  /** `u` is the first stored user the identifier names, it has a password,
      and `check` accepts the password against it. */
  ghost predicate Authenticates(users: seq<User>, k: int, ident: string, password: string,
                                check: (string, string) -> bool) {
    && 0 <= k < |users|
    && Identifies(users[k], ident)
    && (forall j :: 0 <= j < k ==> !Identifies(users[j], ident))
    && TruthyStr(users[k].password)
    && check(users[k].password.value, password)
  }

  /** The `login` route. `check` is `check_password_hash(hash, password)`. The
      identifier is normalised like a registered email and matched against
      email or username; the first matching user must have a password that
      `check` accepts. Success marks that user online, seen at `now`, and binds
      the session to it. Every credential failure gives the same 401 answer and
      changes nothing. */
  function Login(db: Db, body: Option<LoginBody>, session: Session,
                 check: (string, string) -> bool, now: Time)
    : (out: (Reply<LoggedIn>, Db, Session))
    ensures out.0.Failure? ==> out.1 == db && out.2 == session
    ensures body.None? ==> out.0 == Failure(500, "Login failed. Please try again.")
    ensures body.Some? && !(TruthyStr(body.value.email.Get()) && TruthyStr(body.value.password.Get())) ==>
              out.0 == Failure(400, "Email and password are required")
    ensures out.0.Failure? && out.0.code == 401 ==> out.0.message == InvalidCredentials
    ensures body.Some? && TruthyStr(body.value.email.Get()) && TruthyStr(body.value.password.Get())
            && !(exists k :: Authenticates(db.users, k, Normalize(body.value.email.value),
                                           body.value.password.value, check)) ==>
              out.0 == Failure(401, InvalidCredentials)
    ensures out.0.Success? <==>
              && body.Some? && TruthyStr(body.value.email.Get()) && TruthyStr(body.value.password.Get())
              && exists k :: Authenticates(db.users, k, Normalize(body.value.email.value),
                                           body.value.password.value, check)
    ensures out.0.Success? ==>
              var k :| Authenticates(db.users, k, Normalize(body.value.email.value),
                                     body.value.password.value, check);
              var u := db.users[k];
              && out.0 == Success(200, LoggedIn(u.id, u.email, u.username, u.displayName, u.profilePicture))
              && out.1 == db.(users := db.users[k := u.(lastSeen := Some(now), isOnline := true)])
              && out.2 == Session(Some(u.id), true)
  {
    if body.None? then (Failure(500, "Login failed. Please try again."), db, session)
    else if !TruthyStr(body.value.email.Get()) || !TruthyStr(body.value.password.Get()) then
      (Failure(400, "Email and password are required"), db, session)
    else
      var ident := Normalize(body.value.email.value);
      var password := body.value.password.value;
      match FirstIndex(db.users, (u: User) => Identifies(u, ident))
      case None => (Failure(401, InvalidCredentials), db, session)
      case Some(k) =>
        var u := db.users[k];
        if !TruthyStr(u.password) || !check(u.password.value, password) then
          (Failure(401, InvalidCredentials), db, session)
        else
          assert Authenticates(db.users, k, ident, password, check);
          (Success(200, LoggedIn(u.id, u.email, u.username, u.displayName, u.profilePicture)),
           db.(users := db.users[k := u.(lastSeen := Some(now), isOnline := true)]),
           Session(Some(u.id), true))
  }

  // ---------------------------------------------------------------------------
  // properties across routes

  /** An account just registered can log in with the email or the username
      it registered with, as sent (normalisation makes them match what was
      stored), and the session then belongs to it. This needs the hash to be
      non-empty and accepted by `check` for its own password, and no older
      account whose username equals the new email or whose email equals the
      new username (such an account would be found first). */
  lemma RegisterThenLogin(db: Db, b: RegisterBody, session: Session, hash: string -> string,
                          check: (string, string) -> bool, initialKeyVersion: int,
                          now: Time, later: Time, byUsername: bool)
    requires forall p :: hash(p) != "" && check(hash(p), p)
    requires Register(db, Some(b), session, hash, initialKeyVersion, now).0.Success?
    requires forall u :: u in db.users ==>
               u.username != Normalize(b.email.value) && u.email != Normalize(b.username.value)
    ensures var reg := Register(db, Some(b), session, hash, initialKeyVersion, now);
            var login := LoginBody(if byUsername then b.username else b.email, b.password);
            var res := Login(reg.1, Some(login), reg.2, check, later);
            && res.0.Success?
            && res.0.data.userId == reg.0.data.userId
            && res.2 == Session(Some(reg.0.data.userId), true)
  {
    var reg := Register(db, Some(b), session, hash, initialKeyVersion, now);
    var a := Normalized(b);
    var created := NewLocalUser(db.nextUserId, a, hash(a.password), initialKeyVersion, now);
    var users := reg.1.users;
    assert users == db.users + [created];
    var login := LoginBody(if byUsername then b.username else b.email, b.password);
    var ident := Normalize(login.email.value);
    var n := |db.users|;
    assert users[n] == created;
    assert Identifies(created, ident);
    forall j | 0 <= j < n ensures !Identifies(users[j], ident) {
      assert users[j] == db.users[j];
      assert db.users[j] in db.users;
    }
    assert Authenticates(users, n, ident, login.password.value, check);
  }

  /** Registration keeps the user table well formed. */
  lemma RegisterKeepsWellFormed(db: Db, body: Option<RegisterBody>, session: Session,
                                hash: string -> string, initialKeyVersion: int, now: Time)
    requires WellFormed(db)
    ensures WellFormed(Register(db, body, session, hash, initialKeyVersion, now).1)
  {
    var out := Register(db, body, session, hash, initialKeyVersion, now);
    if out.0.Success? {
      var a := Normalized(body.value);
      AddUserKeepsWellFormed(db, NewLocalUser(db.nextUserId, a, hash(a.password), initialKeyVersion, now));
    }
  }

  /** Logging in keeps the user table well formed. */
  lemma LoginKeepsWellFormed(db: Db, body: Option<LoginBody>, session: Session,
                             check: (string, string) -> bool, now: Time)
    requires WellFormed(db)
    ensures WellFormed(Login(db, body, session, check, now).1)
  {
  }
}
