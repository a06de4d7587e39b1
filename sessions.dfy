/** internal/repository/sessions.go: the session store over Redis. A session is
    a hash at "sessions:" + token holding its owner, with the session's expiry
    as the key's expiry, and each user has a sorted set at
    "userSessions:" + id listing the tokens of their sessions.

    SessionsRepository models the code as written. The functions ending in
    Fixed model what the repository's own tests expect of it; the lemmas
    below set the two side by side. */
module Sessions {
  import opened Common
  import opened Decimal
  import opened Redis
  import opened InternalDomainSessions
  import opened Repository

  /** getSessionKey: "sessions:%s". */
  function SessionKey(token: string): string
  {
    "sessions:" + token
  }

  /** getUserSessionsKey: "userSessions:%d". */
  function UserSessionsKey(userId: int): string
  {
    "userSessions:" + FormatInt(userId)
  }

  /** Distinct tokens have distinct records. */
  lemma SessionKeyInjective(a: string, b: string)
    ensures SessionKey(a) == SessionKey(b) ==> a == b
  {
    assert SessionKey(a)[9..] == a && SessionKey(b)[9..] == b;
  }

  /** Distinct users have distinct indexes. */
  lemma UserSessionsKeyInjective(a: int, b: int)
    ensures UserSessionsKey(a) == UserSessionsKey(b) ==> a == b
  {
    assert UserSessionsKey(a)[13..] == FormatInt(a) && UserSessionsKey(b)[13..] == FormatInt(b);
    FormatIntInjective(a, b);
  }

  /** A record key is never an index key. */
  lemma KeysDiffer(token: string, userId: int)
    ensures SessionKey(token) != UserSessionsKey(userId)
  {
    assert SessionKey(token)[0] == 's' && UserSessionsKey(userId)[0] == 'u';
  }

  // ---- Create ----

  /** What Create queues: the token into the user's index (score 0), the
      owner under field "id", and the session's expiry in Unix seconds. */
  function CreateCommands(s: Session): seq<Command>
  {
    [ ZAdd(UserSessionsKey(s.UserId), s.RefreshToken),
      HSet(SessionKey(s.RefreshToken), "id", FormatInt(s.UserId)),
      ExpireAt(SessionKey(s.RefreshToken), Unix(s.ExpiresAt)) ]
  }

  /** The same batch with the owner under "userId", the field Get reads. */
  function CreateFixedCommands(s: Session): seq<Command>
  {
    [ ZAdd(UserSessionsKey(s.UserId), s.RefreshToken),
      HSet(SessionKey(s.RefreshToken), "userId", FormatInt(s.UserId)),
      ExpireAt(SessionKey(s.RefreshToken), Unix(s.ExpiresAt)) ]
  }

  // ---- Get ----

  /** bindSession: the owner is the "userId" field read by strconv.Atoi. */
  function BindSession(fields: map<string, string>): (r: Option<int>)
    ensures r.Some? ==> "userId" in fields && Atoi(fields["userId"]) == r
    ensures "userId" !in fields ==> r.None?
  {
    if "userId" in fields then Atoi(fields["userId"]) else None
  }

  /** The owner as the fixed Create writes it is read back. */
  lemma BindSessionRoundTrip(fields: map<string, string>, userId: int)
    requires MinInt64 <= userId <= MaxInt64
    ensures BindSession(fields["userId" := FormatInt(userId)]) == Some(userId)
  {
    AtoiFormatInt(userId);
  }

  /** Get as written: a failed HGETALL is internal; a record without a
      numeric "userId" field is expired or invalid; the TTL is read on the
      bare token, and its failure also counts as expired or invalid; the
      expiry returned is now plus that TTL. */
  function GetOutcome(ks: Keyspace, token: string, now: Time, faults: set<Command>): (r: Result<Session, RepoError>)
    ensures r.Ok? ==> r.value.RefreshToken == token
    ensures r.Err? ==> r.error in {ErrInternal, ErrSessionExpiredOrInvalid}
  {
    match ReadHGetAll(ks, SessionKey(token), now, faults)
    case None => Err(ErrInternal)
    case Some(fields) =>
      match BindSession(fields)
      case None => Err(ErrSessionExpiredOrInvalid)
      case Some(userId) =>
        match ReadTTL(ks, token, now, faults)
        case None => Err(ErrSessionExpiredOrInvalid)
        case Some(ttl) => Ok(Session(userId, token, AddSeconds(now, ttl)))
  }

  /** Get as the tests expect it: the TTL of the record key, and a failed TTL
      is internal. */
  function GetOutcomeFixed(ks: Keyspace, token: string, now: Time, faults: set<Command>): (r: Result<Session, RepoError>)
    ensures r.Ok? ==> r.value.RefreshToken == token
    ensures r.Err? ==> r.error in {ErrInternal, ErrSessionExpiredOrInvalid}
  {
    match ReadHGetAll(ks, SessionKey(token), now, faults)
    case None => Err(ErrInternal)
    case Some(fields) =>
      match BindSession(fields)
      case None => Err(ErrSessionExpiredOrInvalid)
      case Some(userId) =>
        match ReadTTL(ks, SessionKey(token), now, faults)
        case None => Err(ErrInternal)
        case Some(ttl) => Ok(Session(userId, token, AddSeconds(now, ttl)))
  }

  /** How Get as written classifies its failures: a failed HGETALL is
      ErrInternal; a missing or non-numeric "userId", or a failed TTL of the
      bare token, is ErrSessionExpiredOrInvalid; a success carries the owner
      read from "userId" and expires the TTL's seconds after now. */
  lemma GetClassification(ks: Keyspace, token: string, now: Time, faults: set<Command>)
    ensures var h := ReadHGetAll(ks, SessionKey(token), now, faults);
            var ttl := ReadTTL(ks, token, now, faults);
            var r := GetOutcome(ks, token, now, faults);
            (r == Err(ErrInternal) <==> h.None?)
            && (r == Err(ErrSessionExpiredOrInvalid) <==>
                  h.Some? && ("userId" !in h.value || Atoi(h.value["userId"]).None? || ttl.None?))
            && (r.Ok? <==> h.Some? && "userId" in h.value && Atoi(h.value["userId"]).Some? && ttl.Some?)
            && (r.Ok? ==> r.value == Session(Atoi(h.value["userId"]).value, token, AddSeconds(now, ttl.value)))
  {
  }

  /** The same for the corrected Get, where a failed TTL of the record key is
      ErrInternal. */
  lemma GetFixedClassification(ks: Keyspace, token: string, now: Time, faults: set<Command>)
    ensures var h := ReadHGetAll(ks, SessionKey(token), now, faults);
            var ttl := ReadTTL(ks, SessionKey(token), now, faults);
            var r := GetOutcomeFixed(ks, token, now, faults);
            (r == Err(ErrInternal) <==>
               h.None? || ("userId" in h.value && Atoi(h.value["userId"]).Some? && ttl.None?))
            && (r == Err(ErrSessionExpiredOrInvalid) <==>
                  h.Some? && ("userId" !in h.value || Atoi(h.value["userId"]).None?))
            && (r.Ok? <==> h.Some? && "userId" in h.value && Atoi(h.value["userId"]).Some? && ttl.Some?)
            && (r.Ok? ==> r.value == Session(Atoi(h.value["userId"]).value, token, AddSeconds(now, ttl.value)))
  {
  }

  /** Where the two TTL reads agree, the two versions of Get differ exactly
      on a failed TTL, which the written one reports as expired or invalid
      and the corrected one as internal. */
  lemma GetVersionsDiffer(ks: Keyspace, token: string, now: Time, faults: set<Command>)
    requires ReadTTL(ks, token, now, faults) == ReadTTL(ks, SessionKey(token), now, faults)
    ensures var h := ReadHGetAll(ks, SessionKey(token), now, faults);
            (GetOutcome(ks, token, now, faults) != GetOutcomeFixed(ks, token, now, faults) <==>
               h.Some? && BindSession(h.value).Some? && ReadTTL(ks, token, now, faults).None?)
    ensures GetOutcome(ks, token, now, faults) != GetOutcomeFixed(ks, token, now, faults) ==>
              GetOutcome(ks, token, now, faults) == Err(ErrSessionExpiredOrInvalid)
              && GetOutcomeFixed(ks, token, now, faults) == Err(ErrInternal)
  {
  }

  // ---- Delete ----

  /** What Delete queues: ZREM of the prefixed record key from the index, then
      DEL of the whole index. */
  function DeleteCommands(userId: int, token: string): seq<Command>
  {
    [ ZRem(UserSessionsKey(userId), SessionKey(token)), Del([UserSessionsKey(userId)]) ]
  }

  /** The tested batch: ZREM of the token from the index, DEL of the record. */
  function DeleteFixedCommands(userId: int, token: string): seq<Command>
  {
    [ ZRem(UserSessionsKey(userId), token), Del([SessionKey(token)]) ]
  }

  // ---- GetCnt ----

  /** GetCnt as written: ZCARD is sent but its value is dropped, so the count
      is the zero value of cnt. */
  function GetCntOutcome(ks: Keyspace, userId: int, now: Time, faults: set<Command>): (r: Result<nat, RepoError>)
    ensures r.Ok? ==> r.value == 0
    ensures r.Err? <==> ReadZCard(ks, UserSessionsKey(userId), now, faults).None?
    ensures r.Err? ==> r.error == ErrInternal
  {
    match ReadZCard(ks, UserSessionsKey(userId), now, faults)
    case None => Err(ErrInternal)
    case Some(_) => Ok(0)
  }

  /** GetCnt as tested: the number of tokens in the index. */
  function GetCntFixed(ks: Keyspace, userId: int, now: Time, faults: set<Command>): (r: Result<nat, RepoError>)
    ensures r.Ok? ==> r.value == |Members(ks, UserSessionsKey(userId), now)|
    ensures r.Err? <==> ReadZCard(ks, UserSessionsKey(userId), now, faults).None?
    ensures r.Err? ==> r.error == ErrInternal
  {
    match ReadZCard(ks, UserSessionsKey(userId), now, faults)
    case None => Err(ErrInternal)
    case Some(n) => Ok(n)
  }

  // ---- GetAll ----

  type Listing = (Result<seq<Session>, RepoError>, Keyspace)

  /** One more session in front of a listing that succeeded. */
  function Prepend(s: Session, r: Listing): Listing
  {
    match r.0
    case Ok(ss) => (Ok([s] + ss), r.1)
    case Err(_) => r
  }

  /** The loop of GetAll over the tokens, in order: a session Get resolves is
      kept; one it reports expired or invalid has its record deleted (the
      index entry stays) and is skipped; any other error, or a failed delete,
      ends the listing with ErrInternal. `fixed` picks the Get the loop calls. */
  function CollectSessions(ks: Keyspace, tokens: seq<string>, now: Time, faults: set<Command>, fixed: bool): (r: Listing)
    ensures r.0.Ok? ==> |r.0.value| <= |tokens|
    ensures r.0.Err? ==> r.0.error == ErrInternal
    decreases |tokens|
  {
    if |tokens| == 0 then (Ok([]), ks)
    else
      var got := if fixed then GetOutcomeFixed(ks, tokens[0], now, faults) else GetOutcome(ks, tokens[0], now, faults);
      match got
      case Ok(s) => Prepend(s, CollectSessions(ks, tokens[1..], now, faults, fixed))
      case Err(e) =>
        if e != ErrSessionExpiredOrInvalid then (Err(ErrInternal), ks)
        else
          var del := Step(ks, Del([SessionKey(tokens[0])]), now, faults);
          if !del.0 then (Err(ErrInternal), ks)
          else CollectSessions(del.1, tokens[1..], now, faults, fixed)
  }

  /** GetAll as written: the count GetCnt returns bounds ZRANGE 0 cnt. */
  function GetAllOutcome(ks: Keyspace, userId: int, now: Time, faults: set<Command>): Listing
  {
    match GetCntOutcome(ks, userId, now, faults)
    case Err(_) => (Err(ErrInternal), ks)
    case Ok(cnt) =>
      match ReadZRange(ks, UserSessionsKey(userId), 0, cnt, now, faults)
      case None => (Err(ErrInternal), ks)
      case Some(tokens) => CollectSessions(ks, tokens, now, faults, false)
  }

  /** GetAll over the tested GetCnt and Get. */
  function GetAllFixed(ks: Keyspace, userId: int, now: Time, faults: set<Command>): Listing
  {
    match GetCntFixed(ks, userId, now, faults)
    case Err(_) => (Err(ErrInternal), ks)
    case Ok(cnt) =>
      match ReadZRange(ks, UserSessionsKey(userId), 0, cnt, now, faults)
      case None => (Err(ErrInternal), ks)
      case Some(tokens) => CollectSessions(ks, tokens, now, faults, true)
  }

  // ---- DeleteAll ----

  function SessionKeys(sessions: seq<Session>): (keys: seq<string>)
    ensures |keys| == |sessions|
    ensures forall i :: 0 <= i < |sessions| ==> keys[i] == SessionKey(sessions[i].RefreshToken)
  {
    if |sessions| == 0 then [] else [SessionKey(sessions[0].RefreshToken)] + SessionKeys(sessions[1..])
  }

  /** DeleteAll as the tests expect it: after listing, one batch that deletes
      the index and the records of the listed sessions, and is executed. A DEL
      needs at least one key, so the second command is only sent when there
      are records to delete. */
  function DeleteAllFixed(ks: Keyspace, userId: int, now: Time, faults: set<Command>): (Option<RepoError>, Keyspace)
  {
    var listing := GetAllFixed(ks, userId, now, faults);
    var sessions := if listing.0.Ok? then listing.0.value else [];
    var keys := SessionKeys(sessions);
    var cmds := if |keys| == 0 then [Del([UserSessionsKey(userId)])]
                else [Del([UserSessionsKey(userId)]), Del(keys)];
    var batch := ExecBatch(listing.1, cmds, now, faults);
    (if batch.0 then None else Some(ErrInternal), batch.1)
  }

  /** SessionsRepository over a Redis connection: the code as written. The
      error returned on each path is the repository's; what the store holds
      afterwards is the connection's keyspace. */
  class SessionsRepository {
    const rdb: Client

    constructor (rdb: Client)
      ensures this.rdb == rdb
    {
      this.rdb := rdb;
    }

    /** Queues the three commands of CreateCommands on a plain pipeline and
        executes it; a failed Exec discards the pipeline and reports
        ErrInternal. Queueing on a plain go-redis pipeline reports no error,
        so the error checks between the queued commands never fire. */
    method Create(session: Session, now: Time, faults: set<Command>) returns (err: Option<RepoError>)
      modifies rdb
      ensures var batch := ExecBatch(old(rdb.ks), CreateCommands(session), now, faults);
              rdb.ks == batch.1 && err == (if batch.0 then None else Some(ErrInternal))
    {
      var pipe := new Pipeline(rdb);
      var sessionKey := SessionKey(session.RefreshToken);
      var userSessionsKey := UserSessionsKey(session.UserId);
      pipe.Queue(ZAdd(userSessionsKey, session.RefreshToken));
      pipe.Queue(HSet(sessionKey, "id", FormatInt(session.UserId)));
      pipe.Queue(ExpireAt(sessionKey, Unix(session.ExpiresAt)));
      var ok := pipe.Exec(now, faults);
      if !ok {
        pipe.Discard();
        return Some(ErrInternal);
      }
      return None;
    }

    method Get(refreshToken: string, now: Time, faults: set<Command>) returns (r: Result<Session, RepoError>)
      ensures r == GetOutcome(rdb.ks, refreshToken, now, faults)
    {
      var sessionKey := SessionKey(refreshToken);
      var res := rdb.HGetAll(sessionKey, now, faults);
      if res.None? {
        return Err(ErrInternal);
      }
      var userId := BindSession(res.value);
      if userId.None? {
        return Err(ErrSessionExpiredOrInvalid);
      }
      var ttl := rdb.TTL(refreshToken, now, faults);
      if ttl.None? {
        return Err(ErrSessionExpiredOrInvalid);
      }
      return Ok(Session(userId.value, refreshToken, AddSeconds(now, ttl.value)));
    }

    /** Queues the two commands of DeleteCommands and executes them. */
    method Delete(userId: int, refreshToken: string, now: Time, faults: set<Command>) returns (err: Option<RepoError>)
      modifies rdb
      ensures var batch := ExecBatch(old(rdb.ks), DeleteCommands(userId, refreshToken), now, faults);
              rdb.ks == batch.1 && err == (if batch.0 then None else Some(ErrInternal))
    {
      var pipe := new Pipeline(rdb);
      var userSessionsKey := UserSessionsKey(userId);
      var sessionKey := SessionKey(refreshToken);
      pipe.Queue(ZRem(userSessionsKey, sessionKey));
      pipe.Queue(Del([userSessionsKey]));
      var ok := pipe.Exec(now, faults);
      if !ok {
        return Some(ErrInternal);
      }
      return None;
    }

    method GetCnt(userId: int, now: Time, faults: set<Command>) returns (r: Result<nat, RepoError>)
      ensures r == GetCntOutcome(rdb.ks, userId, now, faults)
    {
      var cnt := 0;
      var card := rdb.ZCard(UserSessionsKey(userId), now, faults);
      if card.None? {
        return Err(ErrInternal);
      }
      return Ok(cnt);
    }

    method GetAll(userId: int, now: Time, faults: set<Command>) returns (r: Result<seq<Session>, RepoError>)
      modifies rdb
      ensures (r, rdb.ks) == GetAllOutcome(old(rdb.ks), userId, now, faults)
    {
      var cnt := GetCnt(userId, now, faults);
      if cnt.Err? {
        return Err(ErrInternal);
      }
      var userSessionsKey := UserSessionsKey(userId);
      var found := rdb.ZRange(userSessionsKey, 0, cnt.value, now, faults);
      if found.None? {
        return Err(ErrInternal);
      }
      var refreshTokens := found.value;
      var sessionKeys := new string[|refreshTokens|];
      for i := 0 to sessionKeys.Length
        modifies sessionKeys
        invariant forall j :: 0 <= j < i ==> sessionKeys[j] == SessionKey(refreshTokens[j])
      {
        sessionKeys[i] := SessionKey(refreshTokens[i]);
      }
      ghost var start := rdb.ks;
      var sessions: seq<Session> := [];
      assert refreshTokens[0..] == refreshTokens;
      AppendNothing(CollectSessions(start, refreshTokens, now, faults, false));
      var i := 0;
      while i < sessionKeys.Length
        modifies rdb
        invariant 0 <= i <= sessionKeys.Length
        invariant CollectSessions(start, refreshTokens, now, faults, false)
                  == Append(sessions, CollectSessions(rdb.ks, refreshTokens[i..], now, faults, false))
      {
        assert refreshTokens[i..][0] == refreshTokens[i] && refreshTokens[i..][1..] == refreshTokens[i + 1..];
        var session := Get(refreshTokens[i], now, faults);
        if session.Err? {
          if session.error == ErrSessionExpiredOrInvalid {
            var deleted := rdb.Do(Del([sessionKeys[i]]), now, faults);
            if !deleted {
              return Err(ErrInternal);
            }
          } else {
            return Err(ErrInternal);
          }
        } else {
          AppendPrepend(sessions, session.value, CollectSessions(rdb.ks, refreshTokens[i + 1..], now, faults, false));
          sessions := sessions + [session.value];
        }
        i := i + 1;
      }
      assert refreshTokens[i..] == [] && sessions + [] == sessions;
      return Ok(sessions);
    }

    /** Lists the sessions (only to log a failure), queues DEL of the index and
        DEL of the listed records on a pipeline, and returns; the pipeline is
        never executed, so only the deletes inside GetAll reach the store. */
    method DeleteAll(userId: int, now: Time, faults: set<Command>) returns (err: Option<RepoError>)
      modifies rdb
      ensures rdb.ks == GetAllOutcome(old(rdb.ks), userId, now, faults).1
      ensures err == None
    {
      var pipe := new Pipeline(rdb);
      var userSessionsKey := UserSessionsKey(userId);
      var listed := GetAll(userId, now, faults);
      var sessions := if listed.Ok? then listed.value else [];
      pipe.Queue(Del([userSessionsKey]));
      var sessionsKeys := new string[|sessions|];
      for i := 0 to sessionsKeys.Length
        modifies sessionsKeys
        invariant forall j :: 0 <= j < i ==> sessionsKeys[j] == SessionKey(sessions[j].RefreshToken)
      {
        sessionsKeys[i] := SessionKey(sessions[i].RefreshToken);
      }
      pipe.Queue(Del(sessionsKeys[..]));
      return None;
    }
  }

  /** The sessions gathered so far in front of a listing of the rest. */
  function Append(acc: seq<Session>, r: Listing): Listing
  {
    match r.0
    case Ok(ss) => (Ok(acc + ss), r.1)
    case Err(_) => r
  }

  lemma AppendNothing(r: Listing)
    ensures Append([], r) == r
  {
    if r.0.Ok? {
      assert [] + r.0.value == r.0.value;
    }
  }

  lemma AppendPrepend(acc: seq<Session>, s: Session, r: Listing)
    ensures Append(acc, Prepend(s, r)) == Append(acc + [s], r)
  {
    if r.0.Ok? {
      assert acc + ([s] + r.0.value) == acc + [s] + r.0.value;
    }
  }
  // ---- properties of the session store ----

  /** As written, a session that Create stores cannot be read back: Create
      writes the owner under "id" and Get looks for "userId", so a new record
      reads as expired or invalid, whether or not the batch went through. */
  lemma CreatedSessionReadsAsInvalid(ks: Keyspace, s: Session, now: Time, faults: set<Command>)
    requires !Live(ks, SessionKey(s.RefreshToken), now)
    ensures var after := ExecBatch(ks, CreateCommands(s), now, faults).1;
            GetOutcome(after, s.RefreshToken, now, faults).Err?
    ensures var after := ExecBatch(ks, CreateCommands(s), now, faults).1;
            HGetAll(SessionKey(s.RefreshToken)) !in faults ==>
              GetOutcome(after, s.RefreshToken, now, faults) == Err(ErrSessionExpiredOrInvalid)
  {
    var sk, uk := SessionKey(s.RefreshToken), UserSessionsKey(s.UserId);
    var c := CreateCommands(s);
    KeysDiffer(s.RefreshToken, s.UserId);
    ExecThree(ks, c[0], c[1], c[2], now, faults);
    var s1 := Step(ks, c[0], now, faults);
    var s2 := Step(s1.1, c[1], now, faults);
    var s3 := Step(s2.1, c[2], now, faults);
    StepFrame(ks, c[0], now, faults, sk);
    var owner := map["id" := FormatInt(s.UserId)];
    assert Current(s2.1, sk, now) == None || Current(s2.1, sk, now) == Some(Hash(owner));
    assert Current(s3.1, sk, now) == None || Current(s3.1, sk, now) == Some(Hash(owner));
    assert HGetAllReply(s3.1, sk, now) == Some(map[]) || HGetAllReply(s3.1, sk, now) == Some(owner);
  }

  /** With the owner under "userId" and the TTL read on the record, Get reads
      back what Create stored: the owner, the token, and the expiry to the
      second (Get rebuilds it from the current time, so the nanoseconds are
      those of now). The token is also in its owner's index. */
  lemma CreateThenGetFixed(ks: Keyspace, s: Session, now: Time, faults: set<Command>)
    requires MinInt64 <= s.UserId <= MaxInt64
    requires Unix(s.ExpiresAt) > Unix(now)
    requires ExecBatch(ks, CreateFixedCommands(s), now, faults).0
    requires HGetAll(SessionKey(s.RefreshToken)) !in faults && TTL(SessionKey(s.RefreshToken)) !in faults
    ensures var after := ExecBatch(ks, CreateFixedCommands(s), now, faults).1;
            var got := GetOutcomeFixed(after, s.RefreshToken, now, faults);
            got.Ok? && got.value.UserId == s.UserId && got.value.RefreshToken == s.RefreshToken
            && Key(got.value) == Key(s)
    ensures var after := ExecBatch(ks, CreateFixedCommands(s), now, faults).1;
            s.RefreshToken in Members(after, UserSessionsKey(s.UserId), now)
  {
    var sk, uk := SessionKey(s.RefreshToken), UserSessionsKey(s.UserId);
    var c := CreateFixedCommands(s);
    KeysDiffer(s.RefreshToken, s.UserId);
    ExecThree(ks, c[0], c[1], c[2], now, faults);
    var s1 := Step(ks, c[0], now, faults);
    var s2 := Step(s1.1, c[1], now, faults);
    var s3 := Step(s2.1, c[2], now, faults);
    assert Current(s1.1, uk, now).Some? && s.RefreshToken in Members(s1.1, uk, now);
    StepFrame(s1.1, c[1], now, faults, uk);
    StepFrame(s2.1, c[2], now, faults, uk);
    var fields := s2.1.data[sk].fields;
    assert Live(s2.1, sk, now) && s2.1.data[sk] == Hash(fields) && fields["userId"] == FormatInt(s.UserId);
    assert fields == fields["userId" := FormatInt(s.UserId)];
    BindSessionRoundTrip(fields, s.UserId);
    assert Live(s3.1, sk, now) && s3.1.data[sk] == Hash(fields) && s3.1.expireAt[sk] == Unix(s.ExpiresAt);
  }

  /** As written, Get asks for the TTL of the bare token, which names no key:
      Redis answers -2, so even a session stored correctly comes back as
      having expired two seconds ago. */
  lemma CreateFixedThenGetExpired(ks: Keyspace, s: Session, now: Time, faults: set<Command>)
    requires MinInt64 <= s.UserId <= MaxInt64
    requires Unix(s.ExpiresAt) > Unix(now)
    requires !Live(ks, s.RefreshToken, now) && s.RefreshToken != UserSessionsKey(s.UserId)
    requires ExecBatch(ks, CreateFixedCommands(s), now, faults).0
    requires HGetAll(SessionKey(s.RefreshToken)) !in faults && TTL(s.RefreshToken) !in faults
    ensures var after := ExecBatch(ks, CreateFixedCommands(s), now, faults).1;
            var got := GetOutcome(after, s.RefreshToken, now, faults);
            got.Ok? && got.value.UserId == s.UserId && Unix(got.value.ExpiresAt) == Unix(now) - 2
  {
    var sk := SessionKey(s.RefreshToken);
    var c := CreateFixedCommands(s);
    ExecThree(ks, c[0], c[1], c[2], now, faults);
    var s1 := Step(ks, c[0], now, faults);
    var s2 := Step(s1.1, c[1], now, faults);
    var s3 := Step(s2.1, c[2], now, faults);
    assert |sk| > |s.RefreshToken|;
    ExecFrame(ks, c, now, faults, s.RefreshToken);
    var fields := s2.1.data[sk].fields;
    assert Live(s2.1, sk, now) && s2.1.data[sk] == Hash(fields) && fields["userId"] == FormatInt(s.UserId);
    assert fields == fields["userId" := FormatInt(s.UserId)];
    BindSessionRoundTrip(fields, s.UserId);
    assert Live(s3.1, sk, now) && s3.1.data[sk] == Hash(fields);
  }

  /** Create runs its commands one by one: when the expiry is refused after
      the other two went through, Create reports ErrInternal but leaves the
      record in place with no expiry at all. */
  lemma CreateLeavesRecordWithoutExpiry(ks: Keyspace, s: Session, now: Time, faults: set<Command>)
    requires !Live(ks, SessionKey(s.RefreshToken), now) && !Live(ks, UserSessionsKey(s.UserId), now)
    requires ZAdd(UserSessionsKey(s.UserId), s.RefreshToken) !in faults
    requires HSet(SessionKey(s.RefreshToken), "id", FormatInt(s.UserId)) !in faults
    requires ExpireAt(SessionKey(s.RefreshToken), Unix(s.ExpiresAt)) in faults
    ensures var batch := ExecBatch(ks, CreateCommands(s), now, faults);
            !batch.0 && Live(batch.1, SessionKey(s.RefreshToken), now)
            && SessionKey(s.RefreshToken) !in batch.1.expireAt
  {
    var sk := SessionKey(s.RefreshToken);
    var c := CreateCommands(s);
    KeysDiffer(s.RefreshToken, s.UserId);
    ExecThree(ks, c[0], c[1], c[2], now, faults);
    StepFrame(ks, c[0], now, faults, sk);
  }

  /** As written, Delete leaves the session's record alone (it removes the
      prefixed key, which the index does not hold, and then deletes the index
      itself): nothing but the user's index changes, and that index is gone. */
  lemma DeleteDropsIndexKeepsRecord(ks: Keyspace, userId: int, token: string, now: Time, faults: set<Command>)
    ensures var after := ExecBatch(ks, DeleteCommands(userId, token), now, faults).1;
            forall key :: key != UserSessionsKey(userId) ==> Current(after, key, now) == Current(ks, key, now)
    ensures var after := ExecBatch(ks, DeleteCommands(userId, token), now, faults).1;
            Del([UserSessionsKey(userId)]) !in faults ==> !Live(after, UserSessionsKey(userId), now)
  {
    var uk := UserSessionsKey(userId);
    var c := DeleteCommands(userId, token);
    ExecTwo(ks, c[0], c[1], now, faults);
    forall key | key != uk
      ensures Current(ExecBatch(ks, c, now, faults).1, key, now) == Current(ks, key, now)
    {
      ExecFrame(ks, c, now, faults, key);
    }
    DelRemovesExactly(Step(ks, c[0], now, faults).1, [uk], now, uk);
  }

  /** The tested Delete: on success the record is gone and the token is out
      of the index, every other token staying. */
  lemma DeleteFixedRemovesSession(ks: Keyspace, userId: int, token: string, now: Time, faults: set<Command>)
    ensures var batch := ExecBatch(ks, DeleteFixedCommands(userId, token), now, faults);
            batch.0 ==> !Live(batch.1, SessionKey(token), now)
    ensures var batch := ExecBatch(ks, DeleteFixedCommands(userId, token), now, faults);
            batch.0 ==> forall x :: x in Members(batch.1, UserSessionsKey(userId), now)
                                    <==> x in Members(ks, UserSessionsKey(userId), now) && x != token
  {
    var uk, sk := UserSessionsKey(userId), SessionKey(token);
    var c := DeleteFixedCommands(userId, token);
    KeysDiffer(token, userId);
    ExecTwo(ks, c[0], c[1], now, faults);
    var s1 := Step(ks, c[0], now, faults);
    DelRemovesExactly(s1.1, [sk], now, sk);
    DelRemovesExactly(s1.1, [sk], now, uk);
    if s1.0 {
      assert forall x :: x in Members(s1.1, uk, now) <==> x in Members(ks, uk, now) && x != token;
    }
  }

  /** Tokens of the sessions of a listing, in order. */
  function TokensOf(ss: seq<Session>): (r: seq<string>)
    ensures |r| == |ss| && forall i :: 0 <= i < |ss| ==> r[i] == ss[i].RefreshToken
  {
    if |ss| == 0 then [] else [ss[0].RefreshToken] + TokensOf(ss[1..])
  }

  /** Every session listed comes from the tokens given. */
  lemma {:induction false} CollectFromTokens(ks: Keyspace, tokens: seq<string>, now: Time, faults: set<Command>, fixed: bool)
    ensures var r := CollectSessions(ks, tokens, now, faults, fixed);
            r.0.Ok? ==> forall s :: s in r.0.value ==> s.RefreshToken in tokens
    decreases |tokens|
  {
    if |tokens| > 0 {
      var got := if fixed then GetOutcomeFixed(ks, tokens[0], now, faults) else GetOutcome(ks, tokens[0], now, faults);
      assert forall x :: x in tokens[1..] ==> x in tokens;
      if got.Ok? {
        assert got.value.RefreshToken == tokens[0];
        CollectFromTokens(ks, tokens[1..], now, faults, fixed);
      } else if got.error == ErrSessionExpiredOrInvalid {
        var del := Step(ks, Del([SessionKey(tokens[0])]), now, faults);
        if del.0 {
          CollectFromTokens(del.1, tokens[1..], now, faults, fixed);
        }
      }
    }
  }

  /** As written, GetAll lists at most one session: GetCnt answers 0, and
      ZRANGE 0 0 is the first token of the index. */
  lemma GetAllAtMostOne(ks: Keyspace, userId: int, now: Time, faults: set<Command>)
    ensures var r := GetAllOutcome(ks, userId, now, faults).0;
            r.Ok? ==> |r.value| <= 1
    ensures var r := GetAllOutcome(ks, userId, now, faults).0;
            var ms := Members(ks, UserSessionsKey(userId), now);
            r.Ok? && |r.value| == 1 ==> |ms| > 0 && r.value[0].RefreshToken == ms[0]
  {
    var uk := UserSessionsKey(userId);
    if GetCntOutcome(ks, userId, now, faults).Ok? && ReadZRange(ks, uk, 0, 0, now, faults).Some? {
      ZRangeFromStart(ks, uk, 0, now, faults);
      CollectFromTokens(ks, ReadZRange(ks, uk, 0, 0, now, faults).value, now, faults, false);
    }
  }

  /** When every token resolves, the loop lists them all, in order, and
      deletes nothing. */
  lemma {:induction false} CollectAllResolve(ks: Keyspace, tokens: seq<string>, now: Time, faults: set<Command>)
    requires forall i :: 0 <= i < |tokens| ==> GetOutcomeFixed(ks, tokens[i], now, faults).Ok?
    ensures var r := CollectSessions(ks, tokens, now, faults, true);
            r.0.Ok? && TokensOf(r.0.value) == tokens && r.1 == ks
    decreases |tokens|
  {
    if |tokens| > 0 {
      var s := GetOutcomeFixed(ks, tokens[0], now, faults).value;
      CollectAllResolve(ks, tokens[1..], now, faults);
      var rest := CollectSessions(ks, tokens[1..], now, faults, true);
      assert TokensOf([s] + rest.0.value)[1..] == TokensOf(rest.0.value) by {
        assert ([s] + rest.0.value)[1..] == rest.0.value;
      }
      assert tokens == [tokens[0]] + tokens[1..];
    }
  }

  /** With the tested GetCnt and Get, GetAll lists every session of the index,
      in index order, when each of them resolves, and leaves the store as it
      was. */
  lemma GetAllFixedReturnsEverySession(ks: Keyspace, userId: int, now: Time, faults: set<Command>)
    requires ZCardReply(ks, UserSessionsKey(userId), now).Some? && ZCard(UserSessionsKey(userId)) !in faults
    requires ZRange(UserSessionsKey(userId), 0, |Members(ks, UserSessionsKey(userId), now)|) !in faults
    requires var ms := Members(ks, UserSessionsKey(userId), now);
             forall i :: 0 <= i < |ms| ==> GetOutcomeFixed(ks, ms[i], now, faults).Ok?
    ensures var r := GetAllFixed(ks, userId, now, faults);
            r.0.Ok? && TokensOf(r.0.value) == Members(ks, UserSessionsKey(userId), now) && r.1 == ks
  {
    var uk := UserSessionsKey(userId);
    var ms := Members(ks, uk, now);
    assert GetCntFixed(ks, userId, now, faults) == Ok(|ms|);
    ZRangeFromStart(ks, uk, |ms|, now, faults);
    CollectAllResolve(ks, ms, now, faults);
  }

  /** The loop deletes only records of the tokens it is given. */
  lemma {:induction false} CollectFrame(ks: Keyspace, tokens: seq<string>, now: Time, faults: set<Command>, fixed: bool, key: string)
    requires forall i :: 0 <= i < |tokens| ==> SessionKey(tokens[i]) != key
    ensures Current(CollectSessions(ks, tokens, now, faults, fixed).1, key, now) == Current(ks, key, now)
    decreases |tokens|
  {
    if |tokens| > 0 {
      var del := Step(ks, Del([SessionKey(tokens[0])]), now, faults);
      StepFrame(ks, Del([SessionKey(tokens[0])]), now, faults, key);
      CollectFrame(ks, tokens[1..], now, faults, fixed, key);
      CollectFrame(del.1, tokens[1..], now, faults, fixed, key);
    }
  }

  /** As written, DeleteAll never executes its pipeline: the user's index is
      exactly as before, so every token in it stays listed. */
  lemma DeleteAllKeepsIndex(ks: Keyspace, userId: int, now: Time, faults: set<Command>)
    ensures var after := GetAllOutcome(ks, userId, now, faults).1;
            Current(after, UserSessionsKey(userId), now) == Current(ks, UserSessionsKey(userId), now)
  {
    var uk := UserSessionsKey(userId);
    if GetCntOutcome(ks, userId, now, faults).Ok? && ReadZRange(ks, uk, 0, 0, now, faults).Some? {
      var tokens := ReadZRange(ks, uk, 0, 0, now, faults).value;
      forall i | 0 <= i < |tokens| ensures SessionKey(tokens[i]) != uk {
        KeysDiffer(tokens[i], userId);
      }
      CollectFrame(ks, tokens, now, faults, false, uk);
    }
  }

  /** The tested DeleteAll: on success the index and the record of every
      session it listed are gone. */
  lemma DeleteAllFixedClears(ks: Keyspace, userId: int, now: Time, faults: set<Command>)
    ensures var r := DeleteAllFixed(ks, userId, now, faults);
            r.0.None? ==> !Live(r.1, UserSessionsKey(userId), now)
    ensures var r := DeleteAllFixed(ks, userId, now, faults);
            var listing := GetAllFixed(ks, userId, now, faults).0;
            r.0.None? && listing.Ok? ==>
              forall k :: 0 <= k < |listing.value| ==> !Live(r.1, SessionKey(listing.value[k].RefreshToken), now)
  {
    var uk := UserSessionsKey(userId);
    var listing := GetAllFixed(ks, userId, now, faults);
    var sessions := if listing.0.Ok? then listing.0.value else [];
    var keys := SessionKeys(sessions);
    var s1 := Step(listing.1, Del([uk]), now, faults);
    DelRemovesExactly(listing.1, [uk], now, uk);
    if |keys| == 0 {
      ExecBatch1(listing.1, Del([uk]), now, faults);
    } else {
      ExecTwo(listing.1, Del([uk]), Del(keys), now, faults);
      if s1.0 {
        DelClears(s1.1, keys, now, faults, uk);
      }
    }
  }

  /** A DEL that goes through leaves none of its keys, and no key that was
      already gone. */
  lemma DelClears(ks: Keyspace, keys: seq<string>, now: Time, faults: set<Command>, gone: string)
    requires |keys| > 0 && !Live(ks, gone, now)
    ensures var s := Step(ks, Del(keys), now, faults);
            s.0 ==> !Live(s.1, gone, now) && forall k :: 0 <= k < |keys| ==> !Live(s.1, keys[k], now)
  {
    DelRemovesExactly(ks, keys, now, gone);
  }

  /** With every session resolving, the tested DeleteAll, on success, ends
      every session the user had. */
  lemma DeleteAllFixedEndsEverySession(ks: Keyspace, userId: int, now: Time, faults: set<Command>)
    requires ZCardReply(ks, UserSessionsKey(userId), now).Some? && ZCard(UserSessionsKey(userId)) !in faults
    requires ZRange(UserSessionsKey(userId), 0, |Members(ks, UserSessionsKey(userId), now)|) !in faults
    requires var ms := Members(ks, UserSessionsKey(userId), now);
             forall i :: 0 <= i < |ms| ==> GetOutcomeFixed(ks, ms[i], now, faults).Ok?
    requires DeleteAllFixed(ks, userId, now, faults).0.None?
    ensures var after := DeleteAllFixed(ks, userId, now, faults).1;
            var ms := Members(ks, UserSessionsKey(userId), now);
            !Live(after, UserSessionsKey(userId), now)
            && forall i :: 0 <= i < |ms| ==> !Live(after, SessionKey(ms[i]), now)
  {
    GetAllFixedReturnsEverySession(ks, userId, now, faults);
    DeleteAllFixedClears(ks, userId, now, faults);
    var listing := GetAllFixed(ks, userId, now, faults).0.value;
    assert forall i :: 0 <= i < |listing| ==> TokensOf(listing)[i] == listing[i].RefreshToken;
  }
}
