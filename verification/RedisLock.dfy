/** Leased locks on a Redis server: atomic commands and scripts, any number of lockers, one clock. */
module RedisLock {
  import opened Optional

  datatype Entry = Entry(value: string, deadline: Option<nat>)

  /** The keys of the server and its clock in milliseconds. */
  datatype Server = Server(entries: map<string, Entry>, now: nat)

  datatype Reply = OK | NO

  /** Commands in the order the server runs them; Elapse lets time pass. A lifetime of zero means none for
      SetNX, and at once for Renew. */
  datatype Call =
    | SetNX(key: string, version: string, ttl: nat)
    | Release(key: string, version: string)
    | Renew(key: string, version: string, ttl: nat)
    | Elapse(ms: nat)

  predicate Live(s: Server, key: string) {
    key in s.entries && (s.entries[key].deadline.None? || s.now <= s.entries[key].deadline.value)
  }

  /** GET inside a script: false when there is no live key. */
  function Get(s: Server, key: string): Option<string> {
    if Live(s, key) then Some(s.entries[key].value) else None
  }

  function Apply(s: Server, call: Call): (Server, Reply) {
    match call
    case SetNX(key, version, ttl) =>
      if Live(s, key) then (s, NO)
      else (s.(entries := s.entries[key := Entry(version, if ttl == 0 then None else Some(s.now + ttl))]), OK)
    case Release(key, version) =>
      var val := Get(s, key);
      if val == Some("") then (s, OK)
      else if val != Some(version) then (s, NO)
      else (s.(entries := s.entries - {key}), OK)
    case Renew(key, version, ttl) =>
      var val := Get(s, key);
      if val == Some("") then (s, NO)
      else if val != Some(version) then (s, NO)
      else if ttl == 0 then (s.(entries := s.entries - {key}), OK)
      else (s.(entries := s.entries[key := Entry(version, Some(s.now + ttl))]), OK)
    case Elapse(ms) => (s.(now := s.now + ms), OK)
  }

  function Exec(s: Server, trace: seq<Call>): Server {
    if trace == [] then s else Apply(Exec(s, trace[..|trace| - 1]), trace[|trace| - 1]).0
  }

  // ---- who holds a lock, told by the replies alone

  /** The version that holds a key, and the last millisecond of its lease. */
  datatype Lease = Lease(version: string, until: Option<nat>)

  /** The lease after a run: it starts with a successful acquire, is moved by the holder's successful renewals,
      and ends with the holder's successful release. */
  ghost function LeaseOf(s: Server, trace: seq<Call>, key: string): Option<Lease> {
    if trace == [] then None else
      var n := |trace| - 1;
      var before := LeaseOf(s, trace[..n], key);
      var (state, call) := (Exec(s, trace[..n]), trace[n]);
      NextLease(before, state.now, call, Apply(state, call).1, key)
  }

  ghost function NextLease(before: Option<Lease>, now: nat, call: Call, reply: Reply, key: string): Option<Lease> {
    match call
    case SetNX(k, version, ttl) =>
      if k == key && reply == OK then Some(Lease(version, if ttl == 0 then None else Some(now + ttl))) else before
    case Release(k, version) =>
      if k == key && reply == OK && before.Some? && before.value.version == version then None else before
    case Renew(k, version, ttl) =>
      if k == key && reply == OK && before.Some? && before.value.version == version then
        if ttl == 0 then None else Some(Lease(version, Some(now + ttl)))
      else before
    case Elapse(_) => before
  }

  predicate Running(lease: Lease, now: nat) {
    lease.until.None? || now <= lease.until.value
  }

  /** A running lease is what the server stores. */
  ghost predicate Holds(s: Server, lease: Option<Lease>, key: string) {
    lease.Some? && lease.value.version != "" && Running(lease.value, s.now) ==>
      key in s.entries && s.entries[key] == Entry(lease.value.version, lease.value.until)
  }

  lemma HoldsStep(s: Server, lease: Option<Lease>, key: string, call: Call)
    requires Holds(s, lease, key)
    ensures var (s', reply) := Apply(s, call);
            Holds(s', NextLease(lease, s.now, call, reply, key), key)
  {
  }

  /** Over every run, from every initial state: until its own release or the end of its lease, the stored value
      is the holder's version, with exactly the lease's deadline. */
  lemma {:induction false} HolderIsStored(s: Server, trace: seq<Call>, key: string)
    ensures Holds(Exec(s, trace), LeaseOf(s, trace, key), key)
  {
    if trace != [] {
      var n := |trace| - 1;
      HolderIsStored(s, trace[..n], key);
      HoldsStep(Exec(s, trace[..n]), LeaseOf(s, trace[..n], key), key, trace[n]);
    }
  }

  /** Mutual exclusion: while somebody's lease runs, nobody acquires the key, a stale owner's renewal or release
      changes nothing, and the holder's own ones succeed. */
  lemma MutualExclusion(s: Server, trace: seq<Call>, key: string, other: string, ttl: nat)
    requires var lease := LeaseOf(s, trace, key);
             lease.Some? && lease.value.version != "" && Running(lease.value, Exec(s, trace).now)
    ensures var (now, holder) := (Exec(s, trace), LeaseOf(s, trace, key).value.version);
            && Apply(now, SetNX(key, other, ttl)) == (now, NO)
            && (other != holder ==> Apply(now, Release(key, other)) == (now, NO))
            && (other != holder ==> Apply(now, Renew(key, other, ttl)) == (now, NO))
            && Apply(now, Release(key, holder)).1 == OK && !Live(Apply(now, Release(key, holder)).0, key)
            && Apply(now, Renew(key, holder, ttl)).1 == OK
  {
    HolderIsStored(s, trace, key);
  }

  /** So a successful acquire always comes after the release or the end of the previous lease. */
  lemma AcquiredOnlyWhenFree(s: Server, trace: seq<Call>, key: string, version: string, ttl: nat)
    requires Apply(Exec(s, trace), SetNX(key, version, ttl)).1 == OK
    ensures var lease := LeaseOf(s, trace, key);
            lease.None? || lease.value.version == "" || !Running(lease.value, Exec(s, trace).now)
  {
    HolderIsStored(s, trace, key);
  }

  /** The lease a duration in nanoseconds buys when acquiring: whole milliseconds, at least one. */
  function SetTTL(d: int): nat {
    if d <= 0 then 0 else if d < 1_000_000 then 1 else d / 1_000_000
  }

  /** Renewing truncates to whole milliseconds. */
  function RenewTTL(d: nat): nat {
    d / 1_000_000
  }

  /** The key holds the version for d nanoseconds in whole milliseconds: not at all limited for d <= 0, and one
      millisecond at least. */
  ghost predicate Granted(s: Server, key: string, version: string, d: int) {
    && key in s.entries && s.entries[key].value == version
    && var until := s.entries[key].deadline;
       if d <= 0 then until.None? else
         && until.Some? && until.value >= s.now
         && var l := until.value - s.now;
            if d < 1_000_000 then l == 1 else l * 1_000_000 <= d < (l + 1) * 1_000_000
  }

  /** A timer is due after half of d nanoseconds, in whole milliseconds. */
  ghost predicate Halfway(timer: Option<nat>, now: nat, d: nat) {
    && timer.Some? && timer.value >= now
    && var h := timer.value - now;
       2 * h * 1_000_000 <= d < 2 * (h + 1) * 1_000_000
  }

  /** Renewing gives the same lease as acquiring exactly from one millisecond up; below, it gives the key away. */
  lemma RenewalMatchesAcquire(d: nat)
    requires d > 0
    ensures RenewTTL(d) == SetTTL(d) <==> d >= 1_000_000
    ensures d < 1_000_000 ==> RenewTTL(d) == 0
  {
  }

  lemma ExecUnfold(s: Server, trace: seq<Call>, call: Call)
    ensures Exec(s, trace + [call]) == Apply(Exec(s, trace), call).0
  {
    assert (trace + [call])[..|trace|] == trace;
  }

  // ---- the client

  datatype AcquireResult = Acquired | DeadlineExceeded | StillWaiting

  class Client {
    var server: Server
    /** Everything the server has run since the client was made. */
    ghost var start: Server
    ghost var trace: seq<Call>

    ghost predicate Valid()
      reads this
    {
      server == Exec(start, trace)
    }

    constructor (s: Server)
      ensures Valid() && server == s && trace == []
    {
      server, start, trace := s, s, [];
    }

    method Send(call: Call) returns (reply: Reply)
      requires Valid()
      modifies this`server, this`trace
      ensures Valid() && trace == old(trace) + [call]
      ensures (server, reply) == Apply(old(server), call)
    {
      var (s, r) := Apply(server, call);
      server, reply := s, r;
      trace := trace + [call];
      ExecUnfold(start, old(trace), call);
    }

    /** What everybody else does meanwhile. */
    method Others(calls: seq<Call>)
      requires Valid()
      modifies this`server, this`trace
      ensures Valid() && trace == old(trace) + calls
    {
      for i := 0 to |calls|
        invariant Valid() && trace == old(trace) + calls[..i]
      {
        var _ := Send(calls[i]);
        assert calls[..i + 1] == calls[..i] + [calls[i]];
      }
      assert calls[..|calls|] == calls;
    }

    /** One command, which succeeds exactly when no live key exists. */
    method Attempt(key: string, version: string, ttl: nat) returns (ok: bool)
      requires Valid()
      modifies this`server, this`trace
      ensures Valid() && trace == old(trace) + [SetNX(key, version, ttl)] && ok == !Live(old(server), key)
      ensures ok ==> LeaseOf(start, trace, key) == Some(NewLease(version, ttl, server.now))
      ensures ok ==> server == Stored(old(server), key, version, ttl)
      ensures !ok ==> server == old(server) && LeaseOf(start, trace, key) == old(LeaseOf(start, trace, key))
    {
      hide LeaseOf;
      LeaseUnfold(start, trace, SetNX(key, version, ttl), key);
      var reply := Send(SetNX(key, version, ttl));
      return reply == OK;
    }

    /** Tries until it succeeds or the retries are used up; sleeps gives what others do during each pause, and
        the loop is followed only as long as they last. A limit of m > 0 allows m + 2 attempts, not m. */
    method Acquire(key: string, version: string, ttl: nat, maxRetries: int, sleeps: seq<seq<Call>>)
      returns (r: AcquireResult, attempts: nat)
      requires Valid()
      modifies this`server, this`trace
      ensures Valid() && trace == old(trace) + Sent(SetNX(key, version, ttl), sleeps, r, attempts)
      ensures Tried(old(server), SetNX(key, version, ttl), sleeps, maxRetries, r, attempts)
      ensures r == Acquired ==> LeaseOf(start, trace, key) == Some(NewLease(version, ttl, server.now))
      ensures r == Acquired ==> key in server.entries && server.entries[key] == NewEntry(version, ttl, server.now)
    {
      hide LeaseOf, Exec, Live, Rounds, Taken;
      var retries := 0;
      attempts := 0;
      ghost var call := SetNX(key, version, ttl);
      RoundsStart(server, call, sleeps);
      while attempts < |sleeps|
        invariant Valid() && attempts <= |sleeps| && trace == old(trace) + Rounds(call, sleeps, attempts)
        invariant forall i :: 0 <= i < attempts ==> Taken(old(server), call, sleeps, i)
        invariant server == Exec(old(server), Rounds(call, sleeps, attempts))
        invariant retries == if maxRetries > 0 then attempts else 0
        invariant maxRetries > 0 ==> attempts <= maxRetries + 1
      {
        RoundsNext(old(server), call, sleeps, attempts);
        var ok := Attempt(key, version, ttl);
        assert trace == old(trace) + (Rounds(call, sleeps, attempts) + [call]);
        if ok {
          return Acquired, attempts + 1;
        }
        if maxRetries > 0 {
          if retries > maxRetries {
            return DeadlineExceeded, attempts + 1;
          }
          retries := retries + 1;
        }
        Others(sleeps[attempts]);
        assert trace == old(trace) + (Rounds(call, sleeps, attempts) + [call] + sleeps[attempts]);
        ExecAppend(start, old(trace), Rounds(call, sleeps, attempts + 1));
        attempts := attempts + 1;
      }
      return StillWaiting, attempts;
    }
  }

  /** The first k attempts, each with the pause after it. */
  ghost function Rounds(call: Call, sleeps: seq<seq<Call>>, k: nat): seq<Call>
    requires k <= |sleeps|
  {
    if k == 0 then [] else Rounds(call, sleeps, k - 1) + [call] + sleeps[k - 1]
  }

  /** Everything the server is sent: no pause follows an attempt that decides. */
  ghost function Sent(call: Call, sleeps: seq<seq<Call>>, r: AcquireResult, attempts: nat): seq<Call> {
    if attempts > |sleeps| then []
    else if r == StillWaiting || attempts == 0 then Rounds(call, sleeps, attempts)
    else Rounds(call, sleeps, attempts - 1) + [call]
  }

  /** Attempt i finds the key taken. */
  ghost predicate Taken(s: Server, call: Call, sleeps: seq<seq<Call>>, i: nat)
    requires call.SetNX? && i <= |sleeps|
  {
    Live(Exec(s, Rounds(call, sleeps, i)), call.key)
  }

  /** The outcome: the first attempt that finds the key free acquires it. If none does, a limit of m ends it after m + 2
      attempts, and otherwise it goes on. */
  ghost predicate Tried(s: Server, call: Call, sleeps: seq<seq<Call>>, maxRetries: int, r: AcquireResult, attempts: nat)
    requires call.SetNX?
  {
    && attempts <= |sleeps| && (maxRetries > 0 ==> attempts <= maxRetries + 2)
    && (forall i :: 0 <= i < attempts - 1 ==> Taken(s, call, sleeps, i))
    && (attempts > 0 ==> (r == Acquired <==> !Taken(s, call, sleeps, attempts - 1)))
    && (r == Acquired ==> attempts > 0)
    && (r == DeadlineExceeded ==> maxRetries > 0 && attempts == maxRetries + 2)
    && (r == StillWaiting ==> attempts == |sleeps| && (maxRetries > 0 ==> attempts <= maxRetries + 1))
  }

  lemma RoundsNext(s: Server, call: Call, sleeps: seq<seq<Call>>, k: nat)
    requires call.SetNX? && k < |sleeps|
    ensures Rounds(call, sleeps, k + 1) == Rounds(call, sleeps, k) + [call] + sleeps[k]
    ensures Taken(s, call, sleeps, k) <==> Live(Exec(s, Rounds(call, sleeps, k)), call.key)
  {
  }

  lemma RoundsStart(s: Server, call: Call, sleeps: seq<seq<Call>>)
    ensures Rounds(call, sleeps, 0) == [] && Exec(s, []) == s
  {
  }

  lemma {:induction false} ExecAppend(s: Server, trace: seq<Call>, calls: seq<Call>)
    ensures Exec(s, trace + calls) == Exec(Exec(s, trace), calls)
  {
    if calls == [] {
      assert trace + calls == trace;
    } else {
      hide *;
      var n := |calls| - 1;
      ExecAppend(s, trace, calls[..n]);
      assert trace + calls == (trace + calls[..n]) + [calls[n]] && calls == calls[..n] + [calls[n]];
      ExecUnfold(s, trace + calls[..n], calls[n]);
      ExecUnfold(Exec(s, trace), calls[..n], calls[n]);
    }
  }

  /** A key without a deadline that nobody touches: m + 2 attempts go out, all in vain. */
  method OneTooMany(c: Client, key: string, version: string, ttl: nat, maxRetries: nat) returns (r: AcquireResult, attempts: nat)
    requires c.Valid() && maxRetries > 0 && key in c.server.entries && c.server.entries[key].deadline.None?
    modifies c`server, c`trace
    ensures c.Valid() && r == DeadlineExceeded && attempts == maxRetries + 2
    ensures c.trace == old(c.trace) + Repeated(SetNX(key, version, ttl), maxRetries + 2) && c.server == old(c.server)
  {
    hide Exec;
    ghost var s, call, calls := c.server, SetNX(key, version, ttl), Repeated(SetNX(key, version, ttl), maxRetries + 2);
    var sleeps := seq(maxRetries + 2, _ => []);
    forall i | 0 <= i <= |sleeps| ensures Taken(s, call, sleeps, i) {
      AllInVain(s, call, sleeps, i);
    }
    r, attempts := c.Acquire(key, version, ttl, maxRetries, sleeps);
    AllInVain(s, call, sleeps, maxRetries + 1);
    assert calls == Repeated(call, maxRetries + 1) + [call];
    ExecUnfold(s, Repeated(call, maxRetries + 1), call);
    ExecAppend(c.start, old(c.trace), calls);
  }

  function Repeated(call: Call, k: nat): (calls: seq<Call>)
    ensures |calls| == k
  {
    seq(k, _ => call)
  }

  lemma {:induction false} AllInVain(s: Server, call: Call, sleeps: seq<seq<Call>>, k: nat)
    requires call.SetNX? && call.key in s.entries && s.entries[call.key].deadline.None?
    requires k <= |sleeps| && forall i :: 0 <= i < |sleeps| ==> sleeps[i] == []
    ensures Rounds(call, sleeps, k) == Repeated(call, k) && Exec(s, Rounds(call, sleeps, k)) == s
    ensures Taken(s, call, sleeps, k)
  {
    if k > 0 {
      AllInVain(s, call, sleeps, k - 1);
      ExecUnfold(s, Rounds(call, sleeps, k - 1), call);
      assert Rounds(call, sleeps, k) == Rounds(call, sleeps, k - 1) + [call];
    }
  }

  function NewEntry(version: string, ttl: nat, now: nat): Entry {
    Entry(version, if ttl == 0 then None else Some(now + ttl))
  }

  function Stored(s: Server, key: string, version: string, ttl: nat): Server {
    s.(entries := s.entries[key := NewEntry(version, ttl, s.now)])
  }

  ghost function NewLease(version: string, ttl: nat, now: nat): Lease {
    Lease(version, if ttl == 0 then None else Some(now + ttl))
  }

  lemma LeaseUnfold(s: Server, trace: seq<Call>, call: Call, key: string)
    ensures var (state, reply) := Apply(Exec(s, trace), call);
            && Exec(s, trace + [call]) == state
            && LeaseOf(s, trace + [call], key) == NextLease(LeaseOf(s, trace, key), Exec(s, trace).now, call, reply, key)
  {
    assert (trace + [call])[..|trace|] == trace;
  }

  /** Whether a call speaks for this version about this key. */
  predicate Speaks(call: Call, key: string, version: string) {
    match call
    case SetNX(k, v, _) => k == key && v == version
    case Release(k, v) => k == key && v == version
    case Renew(k, v, _) => k == key && v == version
    case Elapse(_) => false
  }

  /** Nothing others do shortens, moves or takes over a lease that is still running when they are done. */
  lemma {:induction false} LeaseSurvives(s: Server, trace: seq<Call>, calls: seq<Call>, key: string)
    requires var lease := LeaseOf(s, trace, key);
             && lease.Some? && lease.value.version != "" && Running(lease.value, Exec(s, trace + calls).now)
             && forall i :: 0 <= i < |calls| ==> !Speaks(calls[i], key, lease.value.version)
    ensures LeaseOf(s, trace + calls, key) == LeaseOf(s, trace, key)
  {
    if calls == [] {
      assert trace + calls == trace;
    } else {
      hide *;
      var n := |calls| - 1;
      var t := trace + calls[..n];
      assert trace + calls == t + [calls[n]];
      ExecUnfold(s, t, calls[n]);
      StillRunning(Exec(s, t), LeaseOf(s, trace, key).value, calls[n]);
      LeaseSurvives(s, trace, calls[..n], key);
      MutualExclusionStep(s, t, key, calls[n]);
    }
  }

  /** A lease that runs after a call ran before it. */
  lemma StillRunning(s: Server, lease: Lease, call: Call)
    requires Running(lease, Apply(s, call).0.now)
    ensures Running(lease, s.now)
  {
  }

  lemma MutualExclusionStep(s: Server, trace: seq<Call>, key: string, call: Call)
    requires var lease := LeaseOf(s, trace, key);
             lease.Some? && lease.value.version != "" && Running(lease.value, Exec(s, trace).now)
             && !Speaks(call, key, lease.value.version)
    ensures LeaseOf(s, trace + [call], key) == LeaseOf(s, trace, key)
  {
    hide LeaseOf, Exec;
    HolderIsStored(s, trace, key);
    LeaseUnfold(s, trace, call, key);
  }

  /** The key keeps its value until a new deadline; a lifetime of zero ends it at once. */
  function Renewed(s: Server, key: string, version: string, ttl: nat): Server {
    if ttl == 0 then Server(s.entries - {key}, s.now)
    else Server(s.entries[key := Entry(version, Some(s.now + ttl))], s.now)
  }

  /** What one renewal does, given what the server stores while a lease runs. */
  lemma RenewStep(s: Server, lease: Option<Lease>, key: string, version: string, d: nat)
    requires Holds(s, lease, key) && version != ""
    ensures var (s', reply) := Apply(s, Renew(key, version, RenewTTL(d)));
            var lease' := NextLease(lease, s.now, Renew(key, version, RenewTTL(d)), reply, key);
            var running := lease.Some? && lease.value.version != "" && Running(lease.value, s.now);
            && (reply == OK <==> Get(s, key) == Some(version)) && s'.now == s.now
            && s' == (if reply == OK then Renewed(s, key, version, RenewTTL(d)) else s)
            && (reply == OK && d >= 1_000_000 ==> Granted(s', key, version, d))
            && (reply == OK && d < 1_000_000 ==> key !in s'.entries)
            && (reply != OK ==> lease' == lease)
            && (running ==> (reply == OK <==> lease.value.version == version))
            && (running && reply == OK && d >= 1_000_000 ==> lease' == Some(Lease(version, Some(s.now + RenewTTL(d)))))
  {
  }

  ghost predicate InTime(lease: Option<Lease>, version: string, timer: nat) {
    && lease.Some? && lease.value.version == version
    && (lease.value.until.Some? ==> timer <= lease.value.until.value)
  }

  // ---- the locker and its renewal timer

  class Locker {
    const client: Client
    const key: string
    const version: string
    /** The configured lease in nanoseconds. */
    const expiration: nat
    /** When the renewal is due. */
    var timer: Option<nat>

    /** An armed timer is due before the lease it renews ends. */
    ghost predicate Armed()
      reads this, client
    {
      timer.Some? ==> InTime(LeaseOf(client.start, client.trace, key), version, timer.value)
    }

    constructor (client: Client, key: string, version: string, expiration: nat)
      ensures this.client == client && this.key == key && this.version == version && this.expiration == expiration
      ensures timer == None
    {
      this.client, this.key, this.version, this.expiration, timer := client, key, version, expiration, None;
    }

    /** Half a lease, in whole milliseconds. */
    function Half(): nat {
      expiration / 2_000_000
    }

    /** Tries as the client does, and arms the renewal on success. */
    method Acquire(maxRetries: int, sleeps: seq<seq<Call>>) returns (r: AcquireResult, attempts: nat)
      requires client.Valid() && expiration > 0
      modifies this`timer, client`server, client`trace
      ensures client.Valid()
      ensures client.trace == old(client.trace) + Sent(SetNX(key, version, SetTTL(expiration)), sleeps, r, attempts)
      ensures Tried(old(client.server), SetNX(key, version, SetTTL(expiration)), sleeps, maxRetries, r, attempts)
      ensures r == Acquired ==> Armed() && Halfway(timer, client.server.now, expiration)
      ensures r == Acquired ==> Granted(client.server, key, version, expiration)
      ensures r != Acquired ==> timer == old(timer)
    {
      r, attempts := client.Acquire(key, version, SetTTL(expiration), maxRetries, sleeps);
      if r == Acquired {
        timer := Some(client.server.now + Half());
      }
    }

    /** One attempt with a lease of its own, which no timer will renew. */
    method TryAcquire(lease: Option<int>) returns (ok: bool)
      requires client.Valid()
      modifies client`server, client`trace
      ensures client.Valid() && ok == !Live(old(client.server), key)
      ensures ok ==> LeaseOf(client.start, client.trace, key) ==
                       Some(NewLease(version, SetTTL(if lease.Some? then lease.value else expiration), client.server.now))
      ensures ok ==> Granted(client.server, key, version, if lease.Some? then lease.value else expiration)
      ensures !ok ==> client.server == old(client.server)
                      && LeaseOf(client.start, client.trace, key) == old(LeaseOf(client.start, client.trace, key))
    {
      ok := client.Attempt(key, version, SetTTL(if lease.Some? then lease.value else expiration));
    }

    /** The timer fires, in time or long after. The renewal succeeds exactly if the key still holds this version;
        then the timer is armed again, in time for the next renewal if the lease was still running. Otherwise,
        in particular once another locker has acquired the key, nothing changes and the timer stays off. */
    method Renewal() returns (ok: bool)
      requires client.Valid() && timer.Some? && version != ""
      modifies this`timer, client`server, client`trace
      ensures client.Valid() && ok == (old(Get(client.server, key)) == Some(version))
      ensures if ok then Halfway(timer, client.server.now, expiration) else timer == None
      ensures ok && expiration >= 1_000_000 ==> Granted(client.server, key, version, expiration)
      ensures ok && expiration < 1_000_000 ==> key !in client.server.entries
      ensures client.server == if ok then Renewed(old(client.server), key, version, RenewTTL(expiration)) else old(client.server)
      ensures var lease := old(LeaseOf(client.start, client.trace, key));
              var running := lease.Some? && lease.value.version != "" && Running(lease.value, old(client.server.now));
              && (!ok ==> LeaseOf(client.start, client.trace, key) == lease)
              && (running ==> ok == (lease.value.version == version))
              && (running && ok && expiration >= 1_000_000 ==>
                    && LeaseOf(client.start, client.trace, key) == Some(Lease(version, Some(client.server.now + RenewTTL(expiration))))
                    && Armed())
    {
      hide *;
      timer := None;
      ghost var lease := LeaseOf(client.start, client.trace, key);
      ValidMeans();
      HolderIsStored(client.start, client.trace, key);
      LeaseUnfold(client.start, client.trace, Renew(key, version, RenewTTL(expiration)), key);
      RenewStep(client.server, lease, key, version, expiration);
      var reply := client.Send(Renew(key, version, RenewTTL(expiration)));
      if reply != OK {
        return false;
      }
      timer := Some(client.server.now + Half());
      HalfInTime(client.server.now);
      ArmedMeans();
      return true;
    }

    lemma ValidMeans()
      ensures client.Valid() <==> client.server == Exec(client.start, client.trace)
    {
    }

    /** Half a lease is due in time. */
    lemma HalfInTime(now: nat)
      ensures Halfway(Some(now + Half()), now, expiration)
      ensures InTime(Some(Lease(version, Some(now + RenewTTL(expiration)))), version, now + Half())
    {
    }

    lemma ArmedMeans()
      ensures Armed() <==> (timer.Some? ==> InTime(LeaseOf(client.start, client.trace, key), version, timer.value))
    {
    }

    /** Stops the timer and gives the key back if this locker still holds it. */
    method Release() returns (ok: bool)
      requires client.Valid() && version != ""
      modifies this`timer, client`server, client`trace
      ensures client.Valid() && timer == None
      ensures var val := old(Get(client.server, key));
              && ok == (val == Some(version) || val == Some(""))
              && client.server == if val == Some(version) then Server(old(client.server).entries - {key}, old(client.server).now)
                                  else old(client.server)
    {
      timer := None;
      var reply := client.Send(Call.Release(key, version));
      return reply == OK;
    }
  }
}
