/**
  The passwordless sign-in core of the auth controller: a `users` table keyed by
  email, an `otps` table of one-time codes with serial ids, the handlers that
  issue codes (signup, signin, request-otp, resend-otp), the global sweep of
  expired codes, and verify-signin, which consumes the newest code of a user and
  mints a session token.  Times are milliseconds; every handler reads the clock
  once, as `now`.
 */
module Auth {
  import opened Table
  import opened OtpCode

  /** A code lives five minutes; a session token one hour. */
  const OtpLifetime: int := 5 * 60000
  const TokenLifetime: int := 60 * 60000

  datatype Option<T> = None | Some(value: T)

  /** `name` and `dob` are absent for users provisioned by request-otp. */
  datatype User = User(id: nat, name: Option<string>, dob: Option<int>, email: string)

  datatype OtpRecord = OtpRecord(id: nat, userId: nat, code: string, expiresAt: int)

  /** A code handed to the mailer for delivery. */
  datatype Mail = Mail(to: string, code: string)

  /** The signed token, abstracted to its claims and its validity window. */
  datatype Claims = Claims(id: nat, email: string)
  datatype Token = Token(claims: Claims, issuedAt: int, expiresAt: int)
  datatype Session = Session(token: Token, user: User)

  datatype AuthError =
    | MissingFields   // 400
    | InvalidDob      // 400
    | AlreadyExists   // 400
    | UserNotFound    // 404
    | NoOtpFound      // 400
    | OtpExpired      // 400
    | InvalidOtp      // 400

  datatype Result<T> = Ok(value: T) | Err(error: AuthError)

  /** The user and the code row a successful verification consumes. */
  datatype Match = Match(user: User, record: OtpRecord)

  /** The status each refusal is answered with: 404 for an unknown user, 400 for every other refusal. */
  function HttpStatus(e: AuthError): (s: int)
    ensures s == 400 || s == 404
    ensures s == 404 <==> e == UserNotFound
  {
    if e == UserNotFound then 404 else 400
  }

  function UserId(u: User): int { u.id }
  function OtpId(o: OtpRecord): int { o.id }

  /** Row filters behind the handlers' `delete` calls, as "the rows that stay". */
  function Unexpired(now: int): OtpRecord -> bool
  {
    (o: OtpRecord) => !(o.expiresAt < now)
  }

  function NotOwnedBy(uid: nat): OtpRecord -> bool
  {
    (o: OtpRecord) => o.userId != uid
  }

  function NotId(id: nat): OtpRecord -> bool
  {
    (o: OtpRecord) => o.id != id
  }

  ghost predicate UniqueEmails(users: seq<User>)
  {
    forall i, j :: 0 <= i < j < |users| ==> users[i].email != users[j].email
  }

  /** `users.select().eq("email", email)[0]`: the first user with that email. */
  function FindUser(users: seq<User>, email: string): (r: Option<User>)
    ensures r.None? <==> forall i :: 0 <= i < |users| ==> users[i].email != email
    ensures r.Some? ==> r.value in users && r.value.email == email
    decreases |users|
  {
    if users == [] then None
    else if users[0].email == email then Some(users[0])
    else FindUser(users[1..], email)
  }

  /** `otps.select().eq("user_id", uid).order("id", desc).limit(1)`: the user's row with the highest id. */
  function LatestOtp(otps: seq<OtpRecord>, uid: nat): (r: Option<OtpRecord>)
    ensures r.None? <==> forall i :: 0 <= i < |otps| ==> otps[i].userId != uid
    ensures r.Some? ==> r.value in otps && r.value.userId == uid
    ensures r.Some? ==> forall i :: 0 <= i < |otps| && otps[i].userId == uid ==> otps[i].id <= r.value.id
    decreases |otps|
  {
    if otps == [] then None
    else
      var rest := LatestOtp(otps[1..], uid);
      if otps[0].userId != uid then rest
      else if rest.Some? && rest.value.id > otps[0].id then rest
      else Some(otps[0])
  }

  /** The row every issuing handler inserts. */
  function NewOtp(id: nat, uid: nat, offset: nat, now: int): (r: OtpRecord)
    requires offset < OtpSpan
    ensures r.id == id && r.userId == uid
    ensures |r.code| == 6 && AllDigits(r.code) && r.code[0] != '0' && DecimalValue(r.code) == OtpBase + offset
    ensures now < r.expiresAt && r.expiresAt - now == 300000
  {
    OtpRecord(id, uid, GenerateOtp(offset), now + OtpLifetime)
  }

  /** The `otps` table after the sweep at `now` and the insertion of the new row. */
  function Reissued(otps: seq<OtpRecord>, id: nat, uid: nat, offset: nat, now: int): (r: seq<OtpRecord>)
    requires offset < OtpSpan
    ensures 1 <= |r| <= |otps| + 1 && r[|r| - 1] == NewOtp(id, uid, offset, now)
    ensures forall o :: o in r <==> (o in otps && o.expiresAt >= now) || o == NewOtp(id, uid, offset, now)
    ensures Ascending(otps, OtpId) && (forall o :: o in otps ==> o.id < id) ==>
      Ascending(r, OtpId) && LatestOtp(r, uid) == Some(NewOtp(id, uid, offset, now))
  {
    var kept := Where(otps, Unexpired(now));
    var rec := NewOtp(id, uid, offset, now);
    ReissuedAscending(otps, kept, rec, now);
    kept + [rec]
  }

  /** The sweep keeps the serial order, and the row appended under a fresh serial is the newest. */
  lemma ReissuedAscending(otps: seq<OtpRecord>, kept: seq<OtpRecord>, rec: OtpRecord, now: int)
    requires kept == Where(otps, Unexpired(now))
    ensures Ascending(otps, OtpId) && (forall o :: o in otps ==> o.id < rec.id) ==>
      Ascending(kept + [rec], OtpId) && LatestOtp(kept + [rec], rec.userId) == Some(rec)
  {
    if Ascending(otps, OtpId) && (forall o :: o in otps ==> o.id < rec.id) {
      WhereAscending(otps, Unexpired(now), OtpId);
      AppendAscending(kept, rec);
      LastIsLatest(kept + [rec]);
    }
  }

  /** In an ascending table the last row is its owner's newest row. */
  lemma LastIsLatest(s: seq<OtpRecord>)
    requires s != [] && Ascending(s, OtpId)
    ensures LatestOtp(s, s[|s| - 1].userId) == Some(s[|s| - 1])
  {
    var last := |s| - 1;
    assert forall k :: 0 <= k < last ==> s[k].id < s[last].id;
    var x := LatestOtp(s, s[last].userId).value;
    assert x.id >= s[last].id;
    var j :| 0 <= j < |s| && s[j] == x;
  }

  /** jwt.sign({id, email}, secret, {expiresIn: "1h"}), without the signature. */
  function SignToken(user: User, now: int): (t: Token)
    ensures t.claims.id == user.id && t.claims.email == user.email
    ensures t.issuedAt == now && t.expiresAt - t.issuedAt == 3600000
  {
    Token(Claims(user.id, user.email), now, now + TokenLifetime)
  }

  /**
    The decision verify-signin takes, check by check in the handler's order:
    missing fields, unknown user, no code row, newest row expired (inclusive
    at `now`), code not identical, and otherwise success on that newest row.
   */
  function Verdict(users: seq<User>, otps: seq<OtpRecord>, email: string, otp: string, now: int): (r: Result<Match>)
    ensures r == Err(MissingFields) <==> email == "" || otp == ""
    ensures r == Err(UserNotFound) <==> email != "" && otp != "" && FindUser(users, email).None?
    ensures r.Ok? ==>
      r.value.user in users && r.value.user.email == email &&
      r.value.record in otps && r.value.record.userId == r.value.user.id &&
      r.value.record.code == otp && now < r.value.record.expiresAt
  {
    if email == "" || otp == "" then Err(MissingFields)
    else match FindUser(users, email)
      case None => Err(UserNotFound)
      case Some(user) =>
        match LatestOtp(otps, user.id)
        case None => Err(NoOtpFound)
        case Some(stored) =>
          if stored.expiresAt <= now then Err(OtpExpired)
          else if stored.code != otp then Err(InvalidOtp)
          else Ok(Match(user, stored))
  }

  /** The row `rec` is the newest code row of user `uid`. */
  ghost predicate IsNewest(otps: seq<OtpRecord>, uid: nat, rec: OtpRecord)
  {
    rec in otps && rec.userId == uid &&
    forall o :: o in otps && o.userId == uid ==> o.id <= rec.id
  }

  /**
    Verification succeeds exactly when the email and code are given, the
    email belongs to a user, and the submitted code equals the code of that
    user's newest row, which has not yet reached its expiry time.
   */
  lemma VerdictOkIff(users: seq<User>, otps: seq<OtpRecord>, email: string, otp: string, now: int)
    requires Ascending(otps, OtpId)
    ensures Verdict(users, otps, email, otp, now).Ok? <==>
      email != "" && otp != "" && FindUser(users, email).Some? &&
      exists rec :: IsNewest(otps, FindUser(users, email).value.id, rec) && now < rec.expiresAt && rec.code == otp
    ensures Verdict(users, otps, email, otp, now).Ok? ==>
      var m := Verdict(users, otps, email, otp, now).value;
      m.user == FindUser(users, email).value && IsNewest(otps, m.user.id, m.record)
  {
    if email != "" && otp != "" && FindUser(users, email).Some? {
      var uid := FindUser(users, email).value.id;
      var latest := LatestOtp(otps, uid);
      if latest.Some? {
        assert IsNewest(otps, uid, latest.value);
        forall rec | IsNewest(otps, uid, rec) ensures rec == latest.value {
          var i :| 0 <= i < |otps| && otps[i] == rec;
          SameIdSameRow(otps, rec, latest.value);
        }
      }
    }
  }

  /**
    The three refusals after the user is found, in the handler's order: no
    row at all, then a newest row that has reached its expiry time, then a
    newest row that is alive but holds a different code.
   */
  lemma VerdictRefusalKinds(users: seq<User>, otps: seq<OtpRecord>, email: string, otp: string, now: int)
    requires Ascending(otps, OtpId)
    ensures Verdict(users, otps, email, otp, now) == Err(NoOtpFound) <==>
      email != "" && otp != "" && FindUser(users, email).Some? &&
      forall o :: o in otps ==> o.userId != FindUser(users, email).value.id
    ensures Verdict(users, otps, email, otp, now) == Err(OtpExpired) <==>
      email != "" && otp != "" && FindUser(users, email).Some? &&
      exists rec :: IsNewest(otps, FindUser(users, email).value.id, rec) && rec.expiresAt <= now
    ensures Verdict(users, otps, email, otp, now) == Err(InvalidOtp) <==>
      email != "" && otp != "" && FindUser(users, email).Some? &&
      exists rec :: IsNewest(otps, FindUser(users, email).value.id, rec) && now < rec.expiresAt && rec.code != otp
  {
    if email != "" && otp != "" && FindUser(users, email).Some? {
      var uid := FindUser(users, email).value.id;
      var latest := LatestOtp(otps, uid);
      if latest.Some? {
        assert IsNewest(otps, uid, latest.value);
        forall rec | IsNewest(otps, uid, rec) ensures rec == latest.value {
          var i :| 0 <= i < |otps| && otps[i] == rec;
          SameIdSameRow(otps, rec, latest.value);
        }
      } else {
        forall o | o in otps ensures o.userId != uid {
          var i :| 0 <= i < |otps| && otps[i] == o;
        }
      }
    }
  }

  /**
    Only the newest row counts: a code of an older row of the same user,
    different from the newest row's code, never verifies, however long it
    has left to live.
   */
  lemma OlderCodeNeverVerifies(users: seq<User>, otps: seq<OtpRecord>, email: string, now: int, older: OtpRecord, newer: OtpRecord)
    requires FindUser(users, email).Some?
    requires Ascending(otps, OtpId)
    requires older in otps && older.userId == FindUser(users, email).value.id
    requires IsNewest(otps, older.userId, newer)
    requires older.id < newer.id && older.code != newer.code
    ensures Verdict(users, otps, email, older.code, now).Err?
  {
  }

  /**
    A row whose expiry time is exactly `now` is already expired for
    verification (`expires_at <= now`) yet survives the sweep at `now`
    (which deletes only `expires_at < now`).
   */
  lemma ExpiryBoundary(users: seq<User>, otps: seq<OtpRecord>, email: string, otp: string, now: int)
    requires email != "" && otp != "" && FindUser(users, email).Some?
    requires LatestOtp(otps, FindUser(users, email).value.id).Some?
    requires LatestOtp(otps, FindUser(users, email).value.id).value.expiresAt == now
    ensures Verdict(users, otps, email, otp, now) == Err(OtpExpired)
    ensures LatestOtp(otps, FindUser(users, email).value.id).value in Where(otps, Unexpired(now))
  {
  }

  /**
    A consumed row is gone: once it is deleted by id, no later verification,
    with any email and code at any time, can match it again.
   */
  lemma ConsumedRowNeverVerifiesAgain(users: seq<User>, otps: seq<OtpRecord>, email: string, otp: string, now: int,
                                      email2: string, otp2: string, later: int)
    requires Verdict(users, otps, email, otp, now).Ok?
    ensures var consumed := Verdict(users, otps, email, otp, now).value.record;
      var rest := Where(otps, NotId(consumed.id));
      consumed !in rest &&
      (Verdict(users, rest, email2, otp2, later).Ok? ==> Verdict(users, rest, email2, otp2, later).value.record != consumed)
  {
  }

  /**
    Single use: when the consumed row was the user's only row, submitting
    the code again reports that no code exists.
   */
  lemma RepeatAfterLastRowFindsNone(users: seq<User>, otps: seq<OtpRecord>, email: string, otp: string, now: int,
                                    otp2: string, later: int)
    requires Verdict(users, otps, email, otp, now).Ok?
    requires var m := Verdict(users, otps, email, otp, now).value;
      forall o :: o in otps && o.userId == m.user.id ==> o == m.record
    requires otp2 != ""
    ensures var m := Verdict(users, otps, email, otp, now).value;
      Verdict(users, Where(otps, NotId(m.record.id)), email, otp2, later) == Err(NoOtpFound)
  {
  }

  /**
    Single use is per row, not per user: once the newest row is consumed,
    the user's next newest row is the one verification reads, and its code
    verifies while that row lives.
   */
  lemma NextRowVerifiesAfterConsumption(users: seq<User>, otps: seq<OtpRecord>, email: string, otp: string, now: int,
                                        older: OtpRecord, later: int)
    requires Ascending(otps, OtpId)
    requires Verdict(users, otps, email, otp, now).Ok?
    requires var m := Verdict(users, otps, email, otp, now).value;
      older in otps && older.userId == m.user.id && older != m.record &&
      forall o :: o in otps && o.userId == m.user.id && o != m.record ==> o.id <= older.id
    requires older.code != "" && later < older.expiresAt
    ensures var m := Verdict(users, otps, email, otp, now).value;
      Verdict(users, Where(otps, NotId(m.record.id)), email, older.code, later) == Ok(Match(m.user, older))
  {
    var m := Verdict(users, otps, email, otp, now).value;
    assert FindUser(users, email) == Some(m.user);
    var rest := Where(otps, NotId(m.record.id));
    SameIdSameRow(otps, older, m.record);
    assert older in rest;
    WhereAscending(otps, NotId(m.record.id), OtpId);
    var i :| 0 <= i < |rest| && rest[i] == older;
    var latest := LatestOtp(rest, m.user.id);
    assert latest.Some? && latest.value.id >= older.id;
    var x := latest.value;
    assert x in otps && x.id != m.record.id;
    SameIdSameRow(rest, x, older);
    VerdictOfLatest(users, rest, email, older.code, later, m.user, older);
  }

  /** The success case of the decision, read forwards. */
  lemma VerdictOfLatest(users: seq<User>, otps: seq<OtpRecord>, email: string, otp: string, now: int,
                        user: User, rec: OtpRecord)
    requires email != "" && otp != "" && FindUser(users, email) == Some(user)
    requires LatestOtp(otps, user.id) == Some(rec) && now < rec.expiresAt && rec.code == otp
    ensures Verdict(users, otps, email, otp, now) == Ok(Match(user, rec))
  {
  }

  /** Serial ids are unique: in an ascending table, two rows with the same id are the same row. */
  lemma SameIdSameRow(s: seq<OtpRecord>, a: OtpRecord, b: OtpRecord)
    requires Ascending(s, OtpId) && a in s && b in s
    ensures a.id == b.id <==> a == b
  {
    var i :| 0 <= i < |s| && s[i] == a;
    var j :| 0 <= j < |s| && s[j] == b;
    if i < j {
      assert s[i].id < s[j].id;
    } else if j < i {
      assert s[j].id < s[i].id;
    }
  }

  /**
    A refusal is a 404 exactly when the email and code are given but no user
    has that email; every other refusal is a 400.
   */
  lemma VerdictStatus(users: seq<User>, otps: seq<OtpRecord>, email: string, otp: string, now: int)
    ensures Verdict(users, otps, email, otp, now).Err? ==>
      (HttpStatus(Verdict(users, otps, email, otp, now).error) == 404 <==>
       email != "" && otp != "" && FindUser(users, email).None?)
  {
  }

  /**
    After a resend, the new row is the user's only row, so the only code that
    can verify for that user is the new one.
   */
  lemma OnlyNewCodeVerifies(users: seq<User>, otps: seq<OtpRecord>, email: string, otp: string, now: int, newest: OtpRecord)
    requires FindUser(users, email).Some?
    requires newest in otps && newest.userId == FindUser(users, email).value.id
    requires forall o :: o in otps && o.userId == newest.userId ==> o == newest
    ensures Verdict(users, otps, email, otp, now).Ok? ==>
      otp == newest.code && Verdict(users, otps, email, otp, now).value.record == newest
  {
  }

  /**
    The two tables.  `nextUserId` and `nextOtpId` play the store's serial
    columns; `outbox` records each code handed to the mailer.
   */
  class AuthStore {
    var users: seq<User>
    var otps: seq<OtpRecord>
    var nextUserId: nat
    var nextOtpId: nat
    var outbox: seq<Mail>

    /** Serial ids increase along each table and stay below the next serial; emails are unique. */
    ghost predicate Valid()
      reads this
    {
      Ascending(users, UserId) && (forall u :: u in users ==> u.id < nextUserId) && UniqueEmails(users) &&
      Ascending(otps, OtpId) && (forall o :: o in otps ==> o.id < nextOtpId)
    }

    constructor ()
      ensures Valid()
      ensures users == [] && otps == [] && outbox == []
      ensures nextUserId == 0 && nextOtpId == 0
    {
      users, otps := [], [];
      nextUserId, nextOtpId := 0, 0;
      outbox := [];
    }

    /** cleanupExpiredOTPs: delete every code row, of any user, with `expires_at < now`. */
    method CleanupExpiredOtps(now: int)
      requires Valid()
      modifies this
      ensures Valid()
      ensures otps == Where(old(otps), Unexpired(now))
      ensures forall o :: o in otps <==> o in old(otps) && o.expiresAt >= now
      ensures users == old(users) && outbox == old(outbox)
      ensures nextUserId == old(nextUserId) && nextOtpId == old(nextOtpId)
    {
      WhereAscending(otps, Unexpired(now), OtpId);
      otps := Where(otps, Unexpired(now));
    }

    /** The issuance tail shared by the four issuing handlers: sweep, generate, insert, mail. */
    method IssueOtp(uid: nat, email: string, offset: nat, now: int)
      requires Valid() && offset < OtpSpan
      modifies this
      ensures Valid()
      ensures otps == Reissued(old(otps), old(nextOtpId), uid, offset, now)
      ensures outbox == old(outbox) + [Mail(email, GenerateOtp(offset))]
      ensures users == old(users) && nextUserId == old(nextUserId) && nextOtpId == old(nextOtpId) + 1
    {
      CleanupExpiredOtps(now);
      var code := GenerateOtp(offset);
      var rec := OtpRecord(nextOtpId, uid, code, now + OtpLifetime);
      AppendAscending(otps, rec);
      otps := otps + [rec];
      nextOtpId := nextOtpId + 1;
      outbox := outbox + [Mail(email, code)];
    }

    /**
      signup: name, dob and email are required and dob must parse (`dobDate`
      is the parsed date, None when it does not); an existing email is
      refused; otherwise a new user and a code for it are created.
     */
    method Signup(name: string, dob: string, dobDate: Option<int>, email: string, offset: nat, now: int)
      returns (res: Result<User>)
      requires Valid() && offset < OtpSpan
      modifies this
      ensures Valid()
      ensures name == "" || dob == "" || email == "" ==> res == Err(MissingFields)
      ensures name != "" && dob != "" && email != "" && dobDate.None? ==> res == Err(InvalidDob)
      ensures name != "" && dob != "" && email != "" && dobDate.Some? && FindUser(old(users), email).Some? ==>
        res == Err(AlreadyExists)
      ensures res.Ok? <==>
        name != "" && dob != "" && email != "" && dobDate.Some? && FindUser(old(users), email).None?
      ensures res.Err? ==> HttpStatus(res.error) == 400
      ensures res.Err? ==> (users == old(users) && otps == old(otps) && outbox == old(outbox) &&
                            nextUserId == old(nextUserId) && nextOtpId == old(nextOtpId))
      ensures res.Ok? ==> (
        res.value == User(old(nextUserId), Some(name), dobDate, email) &&
        users == old(users) + [res.value] && nextUserId == old(nextUserId) + 1 &&
        otps == Reissued(old(otps), old(nextOtpId), res.value.id, offset, now) && nextOtpId == old(nextOtpId) + 1 &&
        outbox == old(outbox) + [Mail(email, GenerateOtp(offset))])
    {
      if name == "" || dob == "" || email == "" {
        return Err(MissingFields);
      }
      if dobDate.None? {
        return Err(InvalidDob);
      }
      if FindUser(users, email).Some? {
        return Err(AlreadyExists);
      }
      var user := User(nextUserId, Some(name), dobDate, email);
      InsertUser(user);
      IssueOtp(user.id, email, offset, now);
      res := Ok(user);
    }

    /** signin: the email is required and must belong to a user, who is sent a new code. */
    method Signin(email: string, offset: nat, now: int) returns (res: Result<()>)
      requires Valid() && offset < OtpSpan
      modifies this
      ensures Valid()
      ensures email == "" ==> res == Err(MissingFields)
      ensures email != "" && FindUser(old(users), email).None? ==> res == Err(UserNotFound)
      ensures res.Ok? <==> email != "" && FindUser(old(users), email).Some?
      ensures res.Err? ==> otps == old(otps) && outbox == old(outbox) && nextOtpId == old(nextOtpId)
      ensures res.Err? ==> HttpStatus(res.error) == (if email == "" then 400 else 404)
      ensures res.Ok? ==> (
        otps == Reissued(old(otps), old(nextOtpId), FindUser(old(users), email).value.id, offset, now) &&
        nextOtpId == old(nextOtpId) + 1 && outbox == old(outbox) + [Mail(email, GenerateOtp(offset))])
      ensures users == old(users) && nextUserId == old(nextUserId)
    {
      if email == "" {
        return Err(MissingFields);
      }
      var found := FindUser(users, email);
      if found.None? {
        return Err(UserNotFound);
      }
      IssueOtp(found.value.id, email, offset, now);
      res := Ok(());
    }

    /**
      verifySignin: on success exactly the consumed row is deleted and a token
      for the user is returned; on every failure the tables are untouched.
     */
    method VerifySignin(email: string, otp: string, now: int) returns (res: Result<Session>)
      requires Valid()
      modifies this
      ensures Valid()
      ensures users == old(users) && outbox == old(outbox)
      ensures nextUserId == old(nextUserId) && nextOtpId == old(nextOtpId)
      ensures Verdict(old(users), old(otps), email, otp, now).Err? ==>
        res == Err(Verdict(old(users), old(otps), email, otp, now).error) && otps == old(otps)
      ensures res.Err? ==> (HttpStatus(res.error) == 404 <==> email != "" && otp != "" && FindUser(old(users), email).None?)
      ensures Verdict(old(users), old(otps), email, otp, now).Ok? ==>
        var m := Verdict(old(users), old(otps), email, otp, now).value;
        res == Ok(Session(SignToken(m.user, now), m.user)) &&
        res.value.token.claims == Claims(m.user.id, m.user.email) &&
        res.value.token.expiresAt == now + TokenLifetime &&
        otps == Where(old(otps), NotId(m.record.id)) && RemovedOne(old(otps), otps, m.record)
    {
      if email == "" || otp == "" {
        return Err(MissingFields);
      }
      var found := FindUser(users, email);
      if found.None? {
        return Err(UserNotFound);
      }
      var user := found.value;
      var latest := LatestOtp(otps, user.id);
      if latest.None? {
        return Err(NoOtpFound);
      }
      var stored := latest.value;
      if stored.expiresAt <= now {
        return Err(OtpExpired);
      }
      if stored.code != otp {
        return Err(InvalidOtp);
      }
      DeleteById(stored);
      res := Ok(Session(SignToken(user, now), user));
    }

    /**
      requestOTP: no field check; the user with that email is reused, or an
      email-only user is inserted first; then a code is issued.
     */
    method RequestOtp(email: string, offset: nat, now: int)
      requires Valid() && offset < OtpSpan
      modifies this
      ensures Valid()
      ensures FindUser(old(users), email).Some? ==>
        users == old(users) && nextUserId == old(nextUserId) &&
        otps == Reissued(old(otps), old(nextOtpId), FindUser(old(users), email).value.id, offset, now)
      ensures FindUser(old(users), email).None? ==>
        users == old(users) + [User(old(nextUserId), None, None, email)] && nextUserId == old(nextUserId) + 1 &&
        otps == Reissued(old(otps), old(nextOtpId), old(nextUserId), offset, now)
      ensures FindUser(users, email).Some?
      ensures nextOtpId == old(nextOtpId) + 1 && outbox == old(outbox) + [Mail(email, GenerateOtp(offset))]
    {
      var found := FindUser(users, email);
      var user: User;
      if found.Some? {
        user := found.value;
      } else {
        user := User(nextUserId, None, None, email);
        InsertUser(user);
      }
      IssueOtp(user.id, email, offset, now);
      assert users[|users| - 1].email == email || found.Some?;
    }

    /**
      resendOTP: the email is required and must belong to a user; every code
      row of that user is deleted, the sweep runs, and one new row is inserted,
      which is then the user's only row.
     */
    method ResendOtp(email: string, offset: nat, now: int) returns (res: Result<()>)
      requires Valid() && offset < OtpSpan
      modifies this
      ensures Valid()
      ensures email == "" ==> res == Err(MissingFields)
      ensures email != "" && FindUser(old(users), email).None? ==> res == Err(UserNotFound)
      ensures res.Ok? <==> email != "" && FindUser(old(users), email).Some?
      ensures res.Err? ==> otps == old(otps) && outbox == old(outbox) && nextOtpId == old(nextOtpId)
      ensures res.Err? ==> HttpStatus(res.error) == (if email == "" then 400 else 404)
      ensures res.Ok? ==>
        var uid := FindUser(old(users), email).value.id;
        var rec := NewOtp(old(nextOtpId), uid, offset, now);
        otps == Reissued(Where(old(otps), NotOwnedBy(uid)), old(nextOtpId), uid, offset, now) &&
        rec in otps && (forall o :: o in otps && o.userId == uid ==> o == rec) &&
        LatestOtp(otps, uid) == Some(rec) &&
        nextOtpId == old(nextOtpId) + 1 && outbox == old(outbox) + [Mail(email, GenerateOtp(offset))]
      ensures users == old(users) && nextUserId == old(nextUserId)
    {
      if email == "" {
        return Err(MissingFields);
      }
      var found := FindUser(users, email);
      if found.None? {
        return Err(UserNotFound);
      }
      var uid := found.value.id;
      WhereAscending(otps, NotOwnedBy(uid), OtpId);
      otps := Where(otps, NotOwnedBy(uid));
      ghost var cleared := otps;
      IssueOtp(uid, email, offset, now);
      var rec := NewOtp(old(nextOtpId), uid, offset, now);
      assert otps == Where(cleared, Unexpired(now)) + [rec];
      forall o | o in otps && o.userId == uid ensures o == rec {
      }
      res := Ok(());
    }

    /** Insert a user whose email is not yet taken, under the next serial. */
    method InsertUser(user: User)
      requires Valid() && user.id == nextUserId
      requires forall i :: 0 <= i < |users| ==> users[i].email != user.email
      modifies this
      ensures Valid()
      ensures users == old(users) + [user] && nextUserId == old(nextUserId) + 1
      ensures otps == old(otps) && outbox == old(outbox) && nextOtpId == old(nextOtpId)
    {
      users := users + [user];
      nextUserId := nextUserId + 1;
    }

    /** `otps.delete().eq("id", rec.id)` for a row that is in the table. */
    method DeleteById(rec: OtpRecord)
      requires Valid() && rec in otps
      modifies this
      ensures Valid()
      ensures otps == Where(old(otps), NotId(rec.id)) && RemovedOne(old(otps), otps, rec)
      ensures users == old(users) && outbox == old(outbox)
      ensures nextUserId == old(nextUserId) && nextOtpId == old(nextOtpId)
    {
      var k :| 0 <= k < |otps| && otps[k] == rec;
      forall i | 0 <= i < |otps| && i != k ensures NotId(rec.id)(otps[i]) {
        if i < k {
          assert otps[i].id < otps[k].id;
        } else {
          assert otps[k].id < otps[i].id;
        }
      }
      WhereRemovesOnly(otps, NotId(rec.id), k);
      WhereAscending(otps, NotId(rec.id), OtpId);
      otps := Where(otps, NotId(rec.id));
    }
  }

  /** Appending a row with an id above every present id keeps the table ascending. */
  lemma AppendAscending(otps: seq<OtpRecord>, rec: OtpRecord)
    requires Ascending(otps, OtpId)
    requires forall o :: o in otps ==> o.id < rec.id
    ensures Ascending(otps + [rec], OtpId)
  {
  }

  /** With the resent row as the user's newest, the earlier draw's code is refused and the new one accepted. */
  lemma VerdictAfterResend(users: seq<User>, otps: seq<OtpRecord>, email: string, first: nat, second: nat, now: int,
                           user: User, rec: OtpRecord)
    requires first < OtpSpan && second < OtpSpan && first != second
    requires email != "" && FindUser(users, email) == Some(user)
    requires LatestOtp(otps, user.id) == Some(rec) && now < rec.expiresAt && rec.code == GenerateOtp(second)
    ensures Verdict(users, otps, email, GenerateOtp(first), now) == Err(InvalidOtp)
    ensures Verdict(users, otps, email, GenerateOtp(second), now) == Ok(Match(user, rec))
  {
    GenerateOtpInjective(first, second);
    VerdictOfLatest(users, otps, email, GenerateOtp(second), now, user, rec);
  }

  /**
    Single use, end to end: a code requested at `t0` verifies a minute
    later and yields a one-hour token for the email; the same code submitted
    again reports that no code exists.
   */
  method SingleUseScenario(email: string, offset: nat, t0: int) returns (first: Result<Session>, second: Result<Session>)
    requires email != "" && offset < OtpSpan
    ensures first.Ok? && first.value.token.claims.email == email
    ensures first.value.token.expiresAt == t0 + 60000 + TokenLifetime
    ensures second == Err(NoOtpFound)
  {
    var store := new AuthStore();
    store.RequestOtp(email, offset, t0);
    var code := GenerateOtp(offset);
    var rec := NewOtp(0, 0, offset, t0);
    assert store.users == [User(0, None, None, email)];
    assert store.otps == [rec];
    assert LatestOtp(store.otps, 0) == Some(rec);
    first := store.VerifySignin(email, code, t0 + 60000);
    assert first.Ok?;
    assert store.otps == [];
    second := store.VerifySignin(email, code, t0 + 60000);
  }

  /**
    Expiry, end to end: at exactly five minutes the code is refused as
    expired, the failed attempt deletes nothing, and the sweep at that same
    moment keeps the row.
   */
  method ExpiryScenario(email: string, offset: nat, t0: int) returns (verdict: Result<Session>, rowsLeft: nat)
    requires email != "" && offset < OtpSpan
    ensures verdict == Err(OtpExpired)
    ensures rowsLeft == 1
  {
    var store := new AuthStore();
    store.RequestOtp(email, offset, t0);
    var rec := NewOtp(0, 0, offset, t0);
    assert store.users == [User(0, None, None, email)];
    assert store.otps == [rec];
    assert LatestOtp(store.otps, 0) == Some(rec);
    verdict := store.VerifySignin(email, GenerateOtp(offset), t0 + OtpLifetime);
    assert store.otps == [rec];
    store.CleanupExpiredOtps(t0 + OtpLifetime);
    rowsLeft := |store.otps|;
  }

  /**
    Resend, end to end: after a resend with a different draw, the earlier
    code is refused although it has not expired, and the new one verifies.
   */
  method ResendScenario(email: string, first: nat, second: nat, t0: int, t1: int)
    returns (oldCode: Result<Session>, newCode: Result<Session>)
    requires email != "" && first < OtpSpan && second < OtpSpan && first != second
    requires t0 <= t1 < t0 + OtpLifetime
    ensures oldCode == Err(InvalidOtp)
    ensures newCode.Ok?
  {
    var store := new AuthStore();
    store.RequestOtp(email, first, t0);
    assert store.users == [User(0, None, None, email)];
    var resent := store.ResendOtp(email, second, t1);
    assert resent.Ok?;
    var user, rec := User(0, None, None, email), NewOtp(1, 0, second, t1);
    assert FindUser(store.users, email) == Some(user);
    assert LatestOtp(store.otps, 0) == Some(rec);
    VerdictAfterResend(store.users, store.otps, email, first, second, t1, user, rec);
    oldCode := store.VerifySignin(email, GenerateOtp(first), t1);
    newCode := store.VerifySignin(email, GenerateOtp(second), t1);
  }
}
