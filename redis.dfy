/** An in-memory model of the part of Redis the session repository uses:
    hashes, sorted sets whose members all have score 0, per-key expiry in whole
    seconds, and go-redis's non-transactional pipeline. */
module Redis {
  import opened Common

  datatype Value =
    | Hash(fields: map<string, string>)
    /** Members in Redis order. Every member the repository adds has score 0,
        so that order is the lexicographic order of the members. */
    | ZSet(members: seq<string>)

  /** The keyspace: a value per key and, for some keys, the Unix second at
      which the key expires. A key whose expiry is not after the current
      second is gone (Redis expires keys lazily, which reads the same). */
  datatype Keyspace = Keyspace(data: map<string, Value>, expireAt: map<string, int>)

  datatype Command =
    | ZAdd(key: string, member: string)            // ZADD key 0 member
    | ZRem(key: string, member: string)
    | HSet(key: string, field: string, value: string)
    | ExpireAt(key: string, at: int)
    | Del(keys: seq<string>)
    | HGetAll(key: string)
    | TTL(key: string)
    | ZCard(key: string)
    | ZRange(key: string, start: nat, stop: nat)

  const Empty: Keyspace := Keyspace(map[], map[])

  // ---- lexicographic order of members (byte order for UTF-8 strings) ----

  predicate Less(a: string, b: string)
    decreases |a|
  {
    |b| > 0 && (|a| == 0 || a[0] < b[0] || (a[0] == b[0] && Less(a[1..], b[1..])))
  }

  lemma LessIrreflexive(a: string)
    ensures !Less(a, a)
  {
  }

  lemma LessTrichotomy(a: string, b: string)
    ensures a == b || Less(a, b) || Less(b, a)
  {
    if |a| > 0 && |b| > 0 && a[0] == b[0] {
      LessTrichotomy(a[1..], b[1..]);
      if a[1..] == b[1..] {
        assert a == [a[0]] + a[1..] && b == [b[0]] + b[1..];
      }
    }
  }

  lemma LessTransitive(a: string, b: string, c: string)
    requires Less(a, b) && Less(b, c)
    ensures Less(a, c)
  {
    if |a| > 0 && a[0] == b[0] && b[0] == c[0] {
      LessTransitive(a[1..], b[1..], c[1..]);
    }
  }

  /** Strictly increasing: the members of a sorted set in Redis order. */
  ghost predicate Sorted(ms: seq<string>)
  {
    forall i, j :: 0 <= i < j < |ms| ==> Less(ms[i], ms[j])
  }

  /** ZADD of a new member puts it at its place; an existing member stays. */
  function Insert(ms: seq<string>, m: string): (r: seq<string>)
    ensures forall x :: x in r <==> x == m || x in ms
    ensures |r| > 0 && (r[0] == m || (|ms| > 0 && r[0] == ms[0]))
  {
    if |ms| == 0 then [m]
    else if ms[0] == m then ms
    else if Less(m, ms[0]) then [m] + ms
    else [ms[0]] + Insert(ms[1..], m)
  }

  function Remove(ms: seq<string>, m: string): (r: seq<string>)
    ensures forall x :: x in r <==> x in ms && x != m
    ensures |r| <= |ms|
  {
    if |ms| == 0 then []
    else if ms[0] == m then Remove(ms[1..], m)
    else [ms[0]] + Remove(ms[1..], m)
  }

  /** Insertion keeps a sorted set sorted. */
  lemma {:induction false} InsertSorted(ms: seq<string>, m: string)
    requires Sorted(ms)
    ensures Sorted(Insert(ms, m))
    decreases |ms|
  {
    if |ms| > 0 && ms[0] != m && !Less(m, ms[0]) {
      LessTrichotomy(m, ms[0]);
      InsertSorted(ms[1..], m);
      var r := Insert(ms, m);
      var tail := Insert(ms[1..], m);
      assert r == [ms[0]] + tail;
      forall i, j | 0 <= i < j < |r| ensures Less(r[i], r[j]) {
        if i == 0 {
          assert r[j] in tail;
          assert r[j] == m || r[j] in ms[1..];
        }
      }
    } else if |ms| > 0 && ms[0] != m {
      var r := Insert(ms, m);
      forall i, j | 0 <= i < j < |r| ensures Less(r[i], r[j]) {
        if i == 0 && j > 1 {
          LessTransitive(m, ms[0], ms[j - 1]);
        }
      }
    }
  }

  /** Removal keeps a sorted set sorted. */
  lemma {:induction false} RemoveSorted(ms: seq<string>, m: string)
    requires Sorted(ms)
    ensures Sorted(Remove(ms, m))
    decreases |ms|
  {
    if |ms| > 0 {
      RemoveSorted(ms[1..], m);
      if ms[0] != m {
        var r := Remove(ms, m);
        var tail := Remove(ms[1..], m);
        assert r == [ms[0]] + tail;
        forall i, j | 0 <= i < j < |r| ensures Less(r[i], r[j]) {
          if i == 0 {
            assert r[j] in tail;
            assert r[j] in ms[1..];
          }
        }
      }
    }
  }

  // ---- reading the keyspace ----

  predicate Live(ks: Keyspace, key: string, now: Time)
  {
    key in ks.data && (key !in ks.expireAt || ks.expireAt[key] > Unix(now))
  }

  function Current(ks: Keyspace, key: string, now: Time): (v: Option<Value>)
    ensures v.Some? <==> Live(ks, key, now)
  {
    if Live(ks, key, now) then Some(ks.data[key]) else None
  }

  /** HGETALL: the fields of a hash, an empty map for a missing key, None
      (WRONGTYPE) for a sorted set. */
  function HGetAllReply(ks: Keyspace, key: string, now: Time): Option<map<string, string>>
  {
    match Current(ks, key, now)
    case None => Some(map[])
    case Some(Hash(fs)) => Some(fs)
    case Some(ZSet(_)) => None
  }

  /** TTL in seconds: -2 for a missing key, -1 for a key without expiry. */
  function TTLReply(ks: Keyspace, key: string, now: Time): (t: int)
    ensures t >= -2
  {
    if !Live(ks, key, now) then -2
    else if key !in ks.expireAt then -1
    else ks.expireAt[key] - Unix(now)
  }

  /** ZCARD: 0 for a missing key, None (WRONGTYPE) for a hash. */
  function ZCardReply(ks: Keyspace, key: string, now: Time): Option<nat>
  {
    match Current(ks, key, now)
    case None => Some(0)
    case Some(ZSet(ms)) => Some(|ms|)
    case Some(Hash(_)) => None
  }

  /** ZRANGE key start stop with non-negative indices, both ends included. */
  function ZRangeReply(ks: Keyspace, key: string, start: nat, stop: nat, now: Time): (r: Option<seq<string>>)
  {
    match Current(ks, key, now)
    case None => Some([])
    case Some(ZSet(ms)) =>
      var hi := if stop + 1 < |ms| then stop + 1 else |ms|;
      Some(if start < hi then ms[start..hi] else [])
    case Some(Hash(_)) => None
  }

  /** The members of the sorted set at key; none for a missing key or a hash. */
  function Members(ks: Keyspace, key: string, now: Time): seq<string>
  {
    match Current(ks, key, now)
    case Some(ZSet(ms)) => ms
    case _ => []
  }

  // ---- what the client's reading calls return ----

  /** client.HGetAll(key).Result(): None when the command fails. */
  function ReadHGetAll(ks: Keyspace, key: string, now: Time, faults: set<Command>): Option<map<string, string>>
  {
    if HGetAll(key) in faults then None else HGetAllReply(ks, key, now)
  }

  /** client.TTL(key).Result() in seconds: None when the command fails. */
  function ReadTTL(ks: Keyspace, key: string, now: Time, faults: set<Command>): Option<int>
  {
    if TTL(key) in faults then None else Some(TTLReply(ks, key, now))
  }

  function ReadZCard(ks: Keyspace, key: string, now: Time, faults: set<Command>): Option<nat>
  {
    if ZCard(key) in faults then None else ZCardReply(ks, key, now)
  }

  function ReadZRange(ks: Keyspace, key: string, start: nat, stop: nat, now: Time, faults: set<Command>): Option<seq<string>>
  {
    if ZRange(key, start, stop) in faults then None else ZRangeReply(ks, key, start, stop, now)
  }

  /** ZRANGE key 0 stop, when it succeeds, gives the first stop + 1 members
      (all of them when there are fewer). */
  lemma ZRangeFromStart(ks: Keyspace, key: string, stop: nat, now: Time, faults: set<Command>)
    requires ReadZRange(ks, key, 0, stop, now, faults).Some?
    ensures var ms := Members(ks, key, now);
            ReadZRange(ks, key, 0, stop, now, faults).value
            == if stop + 1 < |ms| then ms[..stop + 1] else ms
  {
  }

  // ---- changing the keyspace ----

  /** The keyspace after one command, or None when Redis rejects the command
      (WRONGTYPE, or DEL without keys). Reading commands change nothing. */
  function Apply(ks: Keyspace, cmd: Command, now: Time): Option<Keyspace>
  {
    match cmd
    case ZAdd(key, m) =>
      (match Current(ks, key, now)
       case Some(Hash(_)) => None
       case Some(ZSet(ms)) => Some(ks.(data := ks.data[key := ZSet(Insert(ms, m))]))
       case None => Some(Keyspace(ks.data[key := ZSet([m])], ks.expireAt - {key})))
    case ZRem(key, m) =>
      (match Current(ks, key, now)
       case Some(Hash(_)) => None
       case Some(ZSet(ms)) =>
         var rest := Remove(ms, m);
         if rest == [] then Some(Keyspace(ks.data - {key}, ks.expireAt - {key}))
         else Some(ks.(data := ks.data[key := ZSet(rest)]))
       case None => Some(ks))
    case HSet(key, f, v) =>
      (match Current(ks, key, now)
       case Some(ZSet(_)) => None
       case Some(Hash(fs)) => Some(ks.(data := ks.data[key := Hash(fs[f := v])]))
       case None => Some(Keyspace(ks.data[key := Hash(map[f := v])], ks.expireAt - {key})))
    case ExpireAt(key, at) =>
      if !Live(ks, key, now) then Some(ks)
      else if at <= Unix(now) then Some(Keyspace(ks.data - {key}, ks.expireAt - {key}))
      else Some(ks.(expireAt := ks.expireAt[key := at]))
    case Del(keys) =>
      if |keys| == 0 then None
      else Some(Keyspace(ks.data - (set k | k in keys), ks.expireAt - (set k | k in keys)))
    case HGetAll(_) => Some(ks)
    case TTL(_) => Some(ks)
    case ZCard(_) => Some(ks)
    case ZRange(_, _, _) => Some(ks)
  }

  /** One command sent to the server: it fails when the server refuses it
      (`faults` holds the commands that meet a network or server error) or
      rejects it; a failed command changes nothing. */
  function Step(ks: Keyspace, cmd: Command, now: Time, faults: set<Command>): (r: (bool, Keyspace))
    ensures r.0 <==> cmd !in faults && Apply(ks, cmd, now).Some?
    ensures r.1 == if r.0 then Apply(ks, cmd, now).value else ks
  {
    if cmd in faults then (false, ks)
    else match Apply(ks, cmd, now)
      case None => (false, ks)
      case Some(ks') => (true, ks')
  }

  /** A plain pipeline's Exec: every queued command runs on its own, in order;
      the batch reports success only when every command succeeded. Commands
      that succeed stay applied even when others fail. */
  function ExecBatch(ks: Keyspace, cmds: seq<Command>, now: Time, faults: set<Command>): (r: (bool, Keyspace))
    ensures cmds == [] ==> r == (true, ks)
    decreases |cmds|
  {
    if |cmds| == 0 then (true, ks)
    else
      var first := Step(ks, cmds[0], now, faults);
      var rest := ExecBatch(first.1, cmds[1..], now, faults);
      (first.0 && rest.0, rest.1)
  }

  /** A DEL removes exactly the listed keys. */
  lemma DelRemovesExactly(ks: Keyspace, keys: seq<string>, now: Time, key: string)
    requires |keys| > 0
    ensures Apply(ks, Del(keys), now).Some?
    ensures key in keys ==> !Live(Apply(ks, Del(keys), now).value, key, now)
    ensures key !in keys ==> Current(Apply(ks, Del(keys), now).value, key, now) == Current(ks, key, now)
  {
  }

  /** The keys a command may change. */
  function Touches(cmd: Command): set<string>
  {
    match cmd
    case ZAdd(key, _) => {key}
    case ZRem(key, _) => {key}
    case HSet(key, _, _) => {key}
    case ExpireAt(key, _) => {key}
    case Del(keys) => set k | k in keys
    case _ => {}
  }

  /** A command changes only the keys it names. */
  lemma StepFrame(ks: Keyspace, cmd: Command, now: Time, faults: set<Command>, key: string)
    requires key !in Touches(cmd)
    ensures Current(Step(ks, cmd, now, faults).1, key, now) == Current(ks, key, now)
  {
  }

  /** A batch changes only the keys its commands name. */
  lemma {:induction false} ExecFrame(ks: Keyspace, cmds: seq<Command>, now: Time, faults: set<Command>, key: string)
    requires forall i :: 0 <= i < |cmds| ==> key !in Touches(cmds[i])
    ensures Current(ExecBatch(ks, cmds, now, faults).1, key, now) == Current(ks, key, now)
    decreases |cmds|
  {
    if |cmds| > 0 {
      StepFrame(ks, cmds[0], now, faults, key);
      ExecFrame(Step(ks, cmds[0], now, faults).1, cmds[1..], now, faults, key);
    }
  }

  /** A batch of one command is that step. */
  lemma ExecBatch1(ks: Keyspace, a: Command, now: Time, faults: set<Command>)
    ensures ExecBatch(ks, [a], now, faults) == Step(ks, a, now, faults)
  {
    assert [a][1..] == [];
  }

  /** A batch of two commands is the two steps in turn. */
  lemma ExecTwo(ks: Keyspace, a: Command, b: Command, now: Time, faults: set<Command>)
    ensures var s1 := Step(ks, a, now, faults);
            var s2 := Step(s1.1, b, now, faults);
            ExecBatch(ks, [a, b], now, faults) == (s1.0 && s2.0, s2.1)
  {
    assert [a, b][1..] == [b];
    ExecBatch1(Step(ks, a, now, faults).1, b, now, faults);
  }

  /** A batch of three commands is the three steps in turn. */
  lemma ExecThree(ks: Keyspace, a: Command, b: Command, c: Command, now: Time, faults: set<Command>)
    ensures var s1 := Step(ks, a, now, faults);
            var s2 := Step(s1.1, b, now, faults);
            var s3 := Step(s2.1, c, now, faults);
            ExecBatch(ks, [a, b, c], now, faults) == (s1.0 && s2.0 && s3.0, s3.1)
  {
    assert [a, b, c][1..] == [b, c];
    ExecTwo(Step(ks, a, now, faults).1, b, c, now, faults);
  }

  /** The connection to the server. */
  class Client {
    var ks: Keyspace

    constructor (initial: Keyspace)
      ensures ks == initial
    {
      ks := initial;
    }

    method HGetAll(key: string, now: Time, faults: set<Command>) returns (r: Option<map<string, string>>)
      ensures r == ReadHGetAll(ks, key, now, faults)
    {
      r := ReadHGetAll(ks, key, now, faults);
    }

    method TTL(key: string, now: Time, faults: set<Command>) returns (r: Option<int>)
      ensures r == ReadTTL(ks, key, now, faults)
    {
      r := ReadTTL(ks, key, now, faults);
    }

    method ZCard(key: string, now: Time, faults: set<Command>) returns (r: Option<nat>)
      ensures r == ReadZCard(ks, key, now, faults)
    {
      r := ReadZCard(ks, key, now, faults);
    }

    method ZRange(key: string, start: nat, stop: nat, now: Time, faults: set<Command>) returns (r: Option<seq<string>>)
      ensures r == ReadZRange(ks, key, start, stop, now, faults)
    {
      r := ReadZRange(ks, key, start, stop, now, faults);
    }

    /** Sends one command outside any pipeline. */
    method Do(cmd: Command, now: Time, faults: set<Command>) returns (ok: bool)
      modifies this
      ensures (ok, ks) == Step(old(ks), cmd, now, faults)
    {
      var r := Step(ks, cmd, now, faults);
      ok := r.0;
      ks := r.1;
    }
  }

  /** go-redis's Pipeline: commands are buffered; queueing reports no error
      (a queued command has no result before Exec); Exec sends the buffer and
      empties it; Discard drops the buffer. */
  class Pipeline {
    var queued: seq<Command>
    const client: Client

    constructor (client: Client)
      ensures this.client == client && queued == []
    {
      this.client := client;
      queued := [];
    }

    method Queue(cmd: Command)
      modifies this
      ensures queued == old(queued) + [cmd]
    {
      queued := queued + [cmd];
    }

    method Discard()
      modifies this
      ensures queued == []
    {
      queued := [];
    }

    method Exec(now: Time, faults: set<Command>) returns (ok: bool)
      modifies this, client
      ensures (ok, client.ks) == ExecBatch(old(client.ks), old(queued), now, faults)
      ensures queued == []
    {
      var cmds := queued;
      ghost var start := client.ks;
      ok := true;
      var i := 0;
      while i < |cmds|
        invariant 0 <= i <= |cmds|
        invariant ExecBatch(start, cmds, now, faults).1 == ExecBatch(client.ks, cmds[i..], now, faults).1
        invariant ExecBatch(start, cmds, now, faults).0 == (ok && ExecBatch(client.ks, cmds[i..], now, faults).0)
      {
        assert cmds[i..][1..] == cmds[i + 1..];
        var stepOk := client.Do(cmds[i], now, faults);
        ok := ok && stepOk;
        i := i + 1;
      }
      queued := [];
    }
  }
}
