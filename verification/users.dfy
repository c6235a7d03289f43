/** The public-key directory and user search of `routes/user_routes.py`, the
    server half of the key exchange. `validKey` stands for the format check
    `KeyManagementService.validate_public_key`, which is not part of this
    model. Each route runs behind `require_auth` and then refuses an empty
    `request.user`. */
module UserRoutes {
  import opened Common
  import opened Seqs
  import opened Text
  import opened Database
  import opened AuthRoutes

  const AuthenticationRequired: string := "Authentication required"

  /** `require_auth` followed by the route's own `if not request.user` check:
      the caller's claims, or the 401 message. */
  function Caller(header: Option<string>, verify: string -> Option<Claims>): (r: Auth)
    ensures r.Authenticated? ==> |r.user| > 0
    ensures r.Unauthorized? ==> r.message in {"No token provided", "Invalid token", AuthenticationRequired}
    ensures RequireAuth(header, verify).Unauthorized? ==> r == RequireAuth(header, verify)
    ensures RequireAuth(header, verify).Authenticated? && |RequireAuth(header, verify).user| > 0 ==>
              r == RequireAuth(header, verify)
    ensures RequireAuth(header, verify).Authenticated? && |RequireAuth(header, verify).user| == 0 ==>
              r == Unauthorized(AuthenticationRequired)
  {
    match RequireAuth(header, verify)
    case Unauthorized(m) => Unauthorized(m)
    case Authenticated(c) => if |c| == 0 then Unauthorized(AuthenticationRequired) else Authenticated(c)
  }

  // ---------------------------------------------------------------------------
  // GET /users/<id>/public-key

  datatype PublicKeyInfo = PublicKeyInfo(userId: int, publicKey: string, keyVersion: int, createdAt: Time)

  /** The key lookup: 401 for an unauthenticated caller, 404 for an unknown
      user or one without a key (null or empty), 500 when the stored key fails
      the format check, otherwise the stored key and its version. The route
      only reads. */
  function GetPublicKey(db: Db, header: Option<string>, verify: string -> Option<Claims>,
                        validKey: string -> bool, userId: int): (r: Reply<PublicKeyInfo>)
    ensures Caller(header, verify).Unauthorized? ==> r == Failure(401, Caller(header, verify).message)
    ensures Caller(header, verify).Authenticated? ==>
              && (UserIndex(db, userId).None? ==> r == Failure(404, "User not found"))
              && (UserIndex(db, userId).Some? && !TruthyStr(db.users[UserIndex(db, userId).value].publicKey) ==>
                    r == Failure(404, "No public key available for this user"))
    ensures r.Failure? && r.code == 500 ==> r.message == "Invalid public key format"
    ensures Caller(header, verify).Authenticated? && UserIndex(db, userId).Some? ==>
              var u := db.users[UserIndex(db, userId).value];
              TruthyStr(u.publicKey) && !validKey(u.publicKey.value) ==> r == Failure(500, "Invalid public key format")
    ensures r.Success? <==>
              && Caller(header, verify).Authenticated?
              && UserIndex(db, userId).Some?
              && var u := db.users[UserIndex(db, userId).value];
                 TruthyStr(u.publicKey) && validKey(u.publicKey.value)
    ensures r.Success? ==>
              && r.code == 200
              && exists u :: u in db.users && u.id == userId && u.publicKey == Some(r.data.publicKey)
                             && r.data == PublicKeyInfo(u.id, u.publicKey.value, u.keyVersion, u.createdAt)
  {
    match Caller(header, verify)
    case Unauthorized(m) => Failure(401, m)
    case Authenticated(_) =>
      match UserIndex(db, userId)
      case None => Failure(404, "User not found")
      case Some(k) =>
        var u := db.users[k];
        if !TruthyStr(u.publicKey) then Failure(404, "No public key available for this user")
        else if !validKey(u.publicKey.value) then Failure(500, "Invalid public key format")
        else Success(200, PublicKeyInfo(u.id, u.publicKey.value, u.keyVersion, u.createdAt))
  }

  // ---------------------------------------------------------------------------
  // POST /users/<id>/public-key

  datatype KeyUpdated = KeyUpdated(userId: int, keyVersion: int)

  /** The key upload. `body` is the request's `public_key` entry, None when
      there is no JSON body or no such key. The checks run in the order
      authentication, body, key format, user: a malformed key is refused with
      400 even for an unknown user. On success the stored key is replaced and
      `key_version` goes up by exactly one; every refusal changes nothing. */
  function UpdatePublicKey(db: Db, header: Option<string>, verify: string -> Option<Claims>,
                           validKey: string -> bool, userId: int, body: Option<string>)
    : (out: (Reply<KeyUpdated>, Db))
    ensures out.0.Failure? ==> out.1 == db
    ensures Caller(header, verify).Unauthorized? ==> out.0 == Failure(401, Caller(header, verify).message)
    ensures Caller(header, verify).Authenticated? && body.None? ==> out.0 == Failure(400, "Public key is required")
    ensures Caller(header, verify).Authenticated? && body.Some? && !validKey(body.value) ==>
              out.0 == Failure(400, "Invalid public key format")
    ensures Caller(header, verify).Authenticated? && body.Some? && validKey(body.value) && UserIndex(db, userId).None? ==>
              out.0 == Failure(404, "User not found")
    ensures out.0.Success? <==>
              Caller(header, verify).Authenticated? && body.Some? && validKey(body.value)
              && exists u :: u in db.users && u.id == userId
    ensures out.0.Success? ==>
              var k := UserIndex(db, userId).value;
              var u := db.users[k];
              && out.0 == Success(200, KeyUpdated(userId, u.keyVersion + 1))
              && out.1 == db.(users := db.users[k := u.(publicKey := Some(body.value), keyVersion := u.keyVersion + 1)])
  {
    match Caller(header, verify)
    case Unauthorized(m) => (Failure(401, m), db)
    case Authenticated(_) =>
      match body
      case None => (Failure(400, "Public key is required"), db)
      case Some(key) =>
        if !validKey(key) then (Failure(400, "Invalid public key format"), db)
        else
          match UserIndex(db, userId)
          case None => (Failure(404, "User not found"), db)
          case Some(k) =>
            var u := db.users[k];
            var u' := u.(publicKey := Some(key), keyVersion := u.keyVersion + 1);
            (Success(200, KeyUpdated(u.id, u'.keyVersion)), db.(users := db.users[k := u']))
  }

  /** After a successful upload, reading the key back returns the uploaded key
      with the version one above the previous one. */
  lemma UploadThenGet(db: Db, header: Option<string>, verify: string -> Option<Claims>,
                      validKey: string -> bool, userId: int, key: string)
    requires WellFormed(db)
    requires key != ""
    requires UpdatePublicKey(db, header, verify, validKey, userId, Some(key)).0.Success?
    ensures var before := db.users[UserIndex(db, userId).value];
            var after := UpdatePublicKey(db, header, verify, validKey, userId, Some(key)).1;
            GetPublicKey(after, header, verify, validKey, userId)
              == Success(200, PublicKeyInfo(userId, key, before.keyVersion + 1, before.createdAt))
  {
    var k := UserIndex(db, userId).value;
    var before := db.users[k];
    var after := UpdatePublicKey(db, header, verify, validKey, userId, Some(key)).1;
    var updated := before.(publicKey := Some(key), keyVersion := before.keyVersion + 1);
    assert after.users == db.users[k := updated];
    assert after.users[k] == updated;
    forall j | 0 <= j < |after.users| && j != k ensures after.users[j].id != userId {
      assert after.users[j] == db.users[j];
    }
    assert UserIndex(after, userId) == Some(k);
  }

  /** A key upload keeps the user table well formed: no id changes. */
  lemma UpdatePublicKeyKeepsWellFormed(db: Db, header: Option<string>, verify: string -> Option<Claims>,
                                       validKey: string -> bool, userId: int, body: Option<string>)
    requires WellFormed(db)
    ensures WellFormed(UpdatePublicKey(db, header, verify, validKey, userId, body).1)
  {
  }

  // ---------------------------------------------------------------------------
  // GET /users/search

  /** SQL `LIKE` as SQLite evaluates it without an escape character: `%`
      matches any run of characters, `_` any one character, and every other
      pattern character itself. */
  predicate Like(s: string, p: string)
    decreases |s| + |p|
  {
    if p == [] then s == []
    else if p[0] == '%' then Like(s, p[1..]) || (s != [] && Like(s[1..], p))
    else s != [] && (p[0] == '_' || p[0] == s[0]) && Like(s[1..], p[1..])
  }

  /** `column.ilike('%' + query + '%')`: SQLite lowercases both sides. */
  predicate ILikeContains(column: string, query: string) {
    Like(Lower(column), ['%'] + Lower(query) + ['%'])
  }

  datatype SearchHit = SearchHit(id: int, username: string, email: string,
                                 profilePicture: Option<string>, hasPublicKey: bool)

  const SearchLimit: nat := 10

  /** A user the search query names through its username or its email. */
  predicate SearchMatches(u: User, query: string) {
    ILikeContains(u.username, query) || ILikeContains(u.email, query)
  }

  /** One search result: the user's public fields, and whether its key is
      non-null (an empty key still counts as present here, unlike in the key
      lookup). */
  function ToHit(u: User): (h: SearchHit)
    ensures h.id == u.id && h.username == u.username && h.email == u.email
    ensures h.profilePicture == u.profilePicture
    ensures h.hasPublicKey <==> u.publicKey != None
  {
    SearchHit(u.id, u.username, u.email, u.profilePicture, u.publicKey.Some?)
  }

  /** The user search. A missing, empty or blank query is refused with 400.
      Otherwise the answer lists, in storage order, the first ten users whose
      username or email contains the stripped query ignoring case; each entry
      says whether the user's key is non-null. */
  function SearchUsers(db: Db, header: Option<string>, verify: string -> Option<Claims>,
                       q: Option<string>): (r: Reply<seq<SearchHit>>)
    ensures Caller(header, verify).Unauthorized? ==> r == Failure(401, Caller(header, verify).message)
    ensures Caller(header, verify).Authenticated? && Strip(q.GetOr("")) == "" ==>
              r == Failure(400, "Search query is required")
    ensures r.Success? ==> Strip(q.GetOr("")) != "" && r.code == 200
    ensures Caller(header, verify).Authenticated? && Strip(q.GetOr("")) != "" ==> r.Success?
    ensures r.Success? ==> |r.data| <= SearchLimit
    ensures r.Success? ==>
              forall h :: h in r.data ==>
                exists u :: u in db.users && SearchMatches(u, Strip(q.value)) && h == ToHit(u)
    ensures r.Success? ==>
              var matching := Filter(db.users, (u: User) => SearchMatches(u, Strip(q.value)));
              && |r.data| == (if |matching| < SearchLimit then |matching| else SearchLimit)
              && forall i :: 0 <= i < |r.data| ==> r.data[i] == ToHit(matching[i])
  {
    match Caller(header, verify)
    case Unauthorized(m) => Failure(401, m)
    case Authenticated(_) =>
      var query := Strip(q.GetOr(""));
      if query == "" then Failure(400, "Search query is required")
      else
        var matching := Filter(db.users, (u: User) => SearchMatches(u, query));
        var first := Take(matching, SearchLimit);
        var hits := Map(first, ToHit);
        assert forall i :: 0 <= i < |hits| ==> first[i] == matching[i] && first[i] in matching;
        Success(200, hits)
  }

  // ---------------------------------------------------------------------------
  // LIKE without wildcards is substring search

  predicate NoWildcards(q: string) {
    forall k :: 0 <= k < |q| ==> q[k] != '%' && q[k] != '_'
  }

  lemma {:induction false} PercentMatchesAll(s: string)
    ensures Like(s, "%")
    decreases |s|
  {
    if s != [] {
      PercentMatchesAll(s[1..]);
    }
  }

  /** `q%` matches exactly the strings that start with `q`. */
  lemma {:induction false} LikePrefix(t: string, q: string)
    requires NoWildcards(q)
    ensures Like(t, q + "%") <==> IsPrefix(q, t)
    decreases |q|
  {
    if q == [] {
      PercentMatchesAll(t);
      assert q + "%" == "%";
    } else {
      assert (q + "%")[1..] == q[1..] + "%";
      if t != [] {
        LikePrefix(t[1..], q[1..]);
        if IsPrefix(q, t) {
          assert t[1..][..|q| - 1] == t[..|q|][1..];
        }
        if IsPrefix(q[1..], t[1..]) && q[0] == t[0] {
          assert t[..|q|] == [t[0]] + t[1..][..|q| - 1];
        }
      }
    }
  }

  /** `%r` matches exactly the strings with a suffix that `r` matches. */
  lemma {:induction false} LikeLeadingPercent(s: string, r: string)
    ensures Like(s, "%" + r) <==> exists i :: 0 <= i <= |s| && Like(s[i..], r)
    decreases |s|
  {
    var p := "%" + r;
    assert p[0] == '%' && p[1..] == r;
    assert s[0..] == s;
    if s != [] {
      LikeLeadingPercent(s[1..], r);
      if Like(s[1..], p) {
        var i :| 0 <= i <= |s[1..]| && Like(s[1..][i..], r);
        assert s[1..][i..] == s[i + 1..];
        assert Like(s[i + 1..], r);
      }
      if exists i :: 0 <= i <= |s| && Like(s[i..], r) {
        var i :| 0 <= i <= |s| && Like(s[i..], r);
        if i > 0 {
          assert s[1..][i - 1..] == s[i..];
          assert Like(s[1..][i - 1..], r);
          assert Like(s[1..], p);
        }
      }
    }
  }

  /** For a query without `%` or `_`, LIKE '%query%' is plain substring
      search. */
  lemma LikeIsContains(s: string, q: string)
    requires NoWildcards(q)
    ensures Like(s, ['%'] + q + ['%']) <==> Contains(s, q)
  {
    assert ['%'] + q + ['%'] == "%" + (q + "%");
    LikeLeadingPercent(s, q + "%");
    forall i | 0 <= i <= |s| ensures Like(s[i..], q + "%") <==> IsPrefix(q, s[i..]) {
      LikePrefix(s[i..], q);
    }
  }

  /** For a query without `%` or `_`, the search names exactly the users
      whose lowercased username or email contains the lowercased query. */
  lemma SearchIsSubstring(u: User, query: string)
    requires NoWildcards(query)
    ensures SearchMatches(u, query) <==>
              Contains(Lower(u.username), Lower(query)) || Contains(Lower(u.email), Lower(query))
  {
    var lq := Lower(query);
    assert NoWildcards(lq) by {
      forall k | 0 <= k < |lq| ensures lq[k] != '%' && lq[k] != '_' {
        assert lq[k] == LowerChar(query[k]);
      }
    }
    LikeIsContains(Lower(u.username), lq);
    LikeIsContains(Lower(u.email), lq);
  }

  /** The search and the key lookup disagree on an empty stored key: the
      search reports the user as having a key, the lookup answers 404. */
  lemma EmptyKeyListedButNotServed(db: Db, header: Option<string>, verify: string -> Option<Claims>,
                                   validKey: string -> bool, userId: int)
    requires Caller(header, verify).Authenticated?
    requires UserIndex(db, userId).Some? && db.users[UserIndex(db, userId).value].publicKey == Some("")
    ensures ToHit(db.users[UserIndex(db, userId).value]).hasPublicKey
    ensures GetPublicKey(db, header, verify, validKey, userId) == Failure(404, "No public key available for this user")
  {
  }
}
