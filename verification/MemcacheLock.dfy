/** Leased locks on a memcached server, where renewing and releasing take two steps that others may come between. */
module MemcacheLock {
  import opened Optional

  /** A stored item; every store gives it a new cas number. */
  datatype Entry = Entry(value: string, cas: nat, deadline: Option<int>)

  /** What a get handed out: the item to be swapped, with the expiration the swap will set. */
  datatype Pending = Pending(key: string, value: string, cas: nat, expiration: int)

  /** Keys, the next cas number, the clock in seconds since 1970, and the swaps under way by any number of clients. */
  datatype Server = Server(entries: map<string, Entry>, nextCas: nat, now: nat, pending: map<nat, Pending>)

  datatype Reply = Done | Illegal | Miss | Conflict

  /** Swapping is Get followed by CompareAndSwap of the same client. */
  datatype Call =
    | Add(key: string, version: string, expiration: int)
    | Get(client: nat, key: string, version: string, expiration: int)
    | CompareAndSwap(client: nat)
    | Elapse(seconds: nat)

  const MONTH := 60 * 60 * 24 * 30

  /** Zero never expires, a negative time has expired, up to 30 days count from now, and more is a date. */
  function Deadline(now: nat, expiration: int): Option<int> {
    if expiration == 0 then None
    else if expiration < 0 then Some(now)
    else if expiration <= MONTH then Some(now + expiration)
    else Some(expiration)
  }

  predicate Live(s: Server, key: string) {
    key in s.entries && (s.entries[key].deadline.None? || s.now < s.entries[key].deadline.value)
  }

  function Apply(s: Server, call: Call): (Server, Reply) {
    match call
    case Add(key, version, expiration) =>
      if Live(s, key) then (s, Illegal) else (Store(s, key, version, expiration), Done)
    case Get(client, key, version, expiration) =>
      if !Live(s, key) || s.entries[key].value != version then (s.(pending := s.pending - {client}), Illegal)
      else (s.(pending := s.pending[client := Pending(key, s.entries[key].value, s.entries[key].cas, expiration)]), Done)
    case CompareAndSwap(client) =>
      if client !in s.pending then (s, Illegal) else
        var p := s.pending[client];
        var s' := s.(pending := s.pending - {client});
        if !Live(s, p.key) then (s', Miss)
        else if s.entries[p.key].cas != p.cas then (s', Conflict)
        else (Store(s', p.key, p.value, p.expiration), Done)
    case Elapse(seconds) => (s.(now := s.now + seconds), Done)
  }

  function Store(s: Server, key: string, value: string, expiration: int): Server {
    s.(entries := s.entries[key := Entry(value, s.nextCas, Deadline(s.now, expiration))], nextCas := s.nextCas + 1)
  }

  function Exec(s: Server, trace: seq<Call>): Server {
    if trace == [] then s else Apply(Exec(s, trace[..|trace| - 1]), trace[|trace| - 1]).0
  }

  // ---- cas numbers

  /** Numbers are never reused, so an item handed out with a key's current number has the key's current value. */
  ghost predicate Numbered(s: Server) {
    && (forall k :: k in s.entries ==> s.entries[k].cas < s.nextCas)
    && forall c :: c in s.pending ==> var p := s.pending[c];
         p.cas < s.nextCas && (p.key in s.entries && s.entries[p.key].cas == p.cas ==> s.entries[p.key].value == p.value)
  }

  lemma NumberedStep(s: Server, call: Call)
    requires Numbered(s)
    ensures Numbered(Apply(s, call).0)
  {
  }

  lemma {:induction false} StaysNumbered(s: Server, trace: seq<Call>)
    requires Numbered(s)
    ensures Numbered(Exec(s, trace))
  {
    if trace != [] {
      var n := |trace| - 1;
      StaysNumbered(s, trace[..n]);
      NumberedStep(Exec(s, trace[..n]), trace[n]);
    }
  }

  // ---- who holds a lock, told by the replies alone

  /** The version that holds a key, and when its lease ends. */
  datatype Lease = Lease(version: string, until: Option<int>)

  /** The lease after a run: it starts with a successful add and is moved by the holder's successful swaps, a release
      being a swap to a date in the past. */
  ghost function LeaseOf(s: Server, trace: seq<Call>, key: string): Option<Lease> {
    if trace == [] then None else
      var n := |trace| - 1;
      var state := Exec(s, trace[..n]);
      NextLease(LeaseOf(s, trace[..n], key), state, trace[n], Apply(state, trace[n]).1, key)
  }

  ghost function NextLease(before: Option<Lease>, state: Server, call: Call, reply: Reply, key: string): Option<Lease> {
    match call
    case Add(k, version, expiration) =>
      if k == key && reply == Done then Some(Lease(version, Deadline(state.now, expiration))) else before
    case CompareAndSwap(client) =>
      if client in state.pending && state.pending[client].key == key && reply == Done
         && before.Some? && before.value.version == state.pending[client].value then
        Some(Lease(before.value.version, Deadline(state.now, state.pending[client].expiration)))
      else before
    case _ => before
  }

  predicate Running(lease: Lease, now: nat) {
    lease.until.None? || now < lease.until.value
  }

  ghost predicate Holds(s: Server, lease: Option<Lease>, key: string) {
    lease.Some? && Running(lease.value, s.now) ==>
      key in s.entries && s.entries[key].value == lease.value.version && s.entries[key].deadline == lease.value.until
  }

  lemma HoldsStep(s: Server, lease: Option<Lease>, key: string, call: Call)
    requires Numbered(s) && Holds(s, lease, key)
    ensures var (s', reply) := Apply(s, call);
            Holds(s', NextLease(lease, s, call, reply, key), key)
  {
  }

  /** Over every interleaving, including steps between anybody's get and swap: while the holder's lease runs, the
      stored value is the holder's version, with exactly the lease's deadline. */
  lemma {:induction false} HolderIsStored(s: Server, trace: seq<Call>, key: string)
    requires Numbered(s)
    ensures Holds(Exec(s, trace), LeaseOf(s, trace, key), key)
  {
    if trace != [] {
      var n := |trace| - 1;
      HolderIsStored(s, trace[..n], key);
      StaysNumbered(s, trace[..n]);
      HoldsStep(Exec(s, trace[..n]), LeaseOf(s, trace[..n], key), key, trace[n]);
    }
  }

  /** Mutual exclusion: while somebody's lease runs, nobody adds the key, and neither a get nor a swap under way for
      another version, however old, changes any stored item. */
  lemma MutualExclusion(s: Server, trace: seq<Call>, key: string, other: string, expiration: int, client: nat)
    requires Numbered(s)
    requires var lease := LeaseOf(s, trace, key); lease.Some? && Running(lease.value, Exec(s, trace).now)
    ensures var (now, holder) := (Exec(s, trace), LeaseOf(s, trace, key).value.version);
            && Apply(now, Add(key, other, expiration)) == (now, Illegal)
            && (other != holder ==> Apply(now, Get(client, key, other, expiration)).1 == Illegal)
            && Apply(now, Get(client, key, other, expiration)).0.entries == now.entries
            && (client in now.pending && now.pending[client].key == key && now.pending[client].value != holder ==>
                  && Apply(now, CompareAndSwap(client)).1 == Conflict
                  && Apply(now, CompareAndSwap(client)).0.entries == now.entries)
  {
    HolderIsStored(s, trace, key);
    StaysNumbered(s, trace);
  }

  /** So a successful add always comes after the end of the previous lease. */
  lemma AddedOnlyWhenFree(s: Server, trace: seq<Call>, key: string, version: string, expiration: int)
    requires Numbered(s) && Apply(Exec(s, trace), Add(key, version, expiration)).1 == Done
    ensures var lease := LeaseOf(s, trace, key); lease.None? || !Running(lease.value, Exec(s, trace).now)
  {
    HolderIsStored(s, trace, key);
  }

  /** The holder's own swap goes through exactly when nothing was stored since its get. */
  lemma HolderSwaps(s: Server, trace: seq<Call>, key: string, client: nat)
    requires Numbered(s)
    requires var (lease, now) := (LeaseOf(s, trace, key), Exec(s, trace));
             && lease.Some? && Running(lease.value, now.now)
             && client in now.pending && now.pending[client].key == key
    ensures var now := Exec(s, trace);
            && key in now.entries
            && Apply(now, CompareAndSwap(client)).1 == if now.entries[key].cas == now.pending[client].cas then Done else Conflict
  {
    HolderIsStored(s, trace, key);
    StaysNumbered(s, trace);
  }

  /** So a locker's release can fail although it holds the lock: its own renewal came in between, and the lease runs on. */
  lemma RenewalDefeatsRelease(now: nat)
    requires now > 0
    ensures var s := Server(map[], 0, now, map[]);
            var state := Exec(s, [Add("key", "me", 3), Get(0, "key", "me", -1), Get(1, "key", "me", 3), CompareAndSwap(1)]);
            Apply(state, CompareAndSwap(0)).1 == Conflict && Live(Apply(state, CompareAndSwap(0)).0, "key")
  {
    var s := Server(map[], 0, now, map[]);
    ExecUnfold(s, [], Add("key", "me", 3));
    ExecUnfold(s, [Add("key", "me", 3)], Get(0, "key", "me", -1));
    assert [Add("key", "me", 3)] + [Get(0, "key", "me", -1)] == [Add("key", "me", 3), Get(0, "key", "me", -1)];
    ExecUnfold(s, [Add("key", "me", 3), Get(0, "key", "me", -1)], Get(1, "key", "me", 3));
    assert [Add("key", "me", 3), Get(0, "key", "me", -1)] + [Get(1, "key", "me", 3)]
        == [Add("key", "me", 3), Get(0, "key", "me", -1), Get(1, "key", "me", 3)];
    ExecUnfold(s, [Add("key", "me", 3), Get(0, "key", "me", -1), Get(1, "key", "me", 3)], CompareAndSwap(1));
    assert [Add("key", "me", 3), Get(0, "key", "me", -1), Get(1, "key", "me", 3)] + [CompareAndSwap(1)]
        == [Add("key", "me", 3), Get(0, "key", "me", -1), Get(1, "key", "me", 3), CompareAndSwap(1)];
  }

  // ---- expiration times

  const SECOND := 1_000_000_000

  /** A duration in nanoseconds as whole seconds in 32 bits, for durations below 2^31 seconds. */
  function Seconds(d: nat): nat {
    d / SECOND
  }

  /** The low 32 bits as a signed number. */
  function ToInt32(x: nat): int {
    var w := x % 0x1_0000_0000;
    if w >= 0x8000_0000 then w - 0x1_0000_0000 else w
  }

  /** An acquired lease lasts as long as configured, in whole seconds, exactly when that is at least one second and
      at most 30 days: a shorter one never ends, and a longer one, read as a date, has ended before it begins. */
  lemma LeaseLength(now: nat, d: nat)
    requires Seconds(d) <= now && Seconds(d) < 0x8000_0000
    ensures Deadline(now, Seconds(d)) == Some(now + Seconds(d)) <==> 1_000_000_000 <= d < 2_592_001 * 1_000_000_000
    ensures Seconds(d) * 1_000_000_000 <= d < (Seconds(d) + 1) * 1_000_000_000
    ensures d < 1_000_000_000 ==> Deadline(now, Seconds(d)) == None
    ensures d >= 2_592_001 * 1_000_000_000 ==> !Running(Lease("", Deadline(now, Seconds(d))), now)
  {
    SecondsAtLeast(d, 1);
    SecondsAtLeast(d, MONTH + 1);
  }

  lemma SecondsAtLeast(d: nat, n: nat)
    ensures Seconds(d) >= n <==> d >= n * SECOND
  {
  }

  /** The date a release sets, one year back, has passed from February 1971 to the year 2107. */
  lemma ReleaseExpires(now: nat, yearAgo: nat)
    requires MONTH < yearAgo < now && yearAgo < 0x1_0000_0000
    ensures var until := Deadline(now, ToInt32(yearAgo)); until.Some? && until.value <= now
  {
  }

  // ---- the client

  datatype AcquireResult = Acquired | DeadlineExceeded | StillWaiting

  class Client {
    var server: Server
    ghost var start: Server
    ghost var trace: seq<Call>

    ghost predicate Valid()
      reads this
    {
      server == Exec(start, trace) && Numbered(start)
    }

    constructor (s: Server)
      requires Numbered(s)
      ensures Valid() && server == s && trace == []
    {
      server, start, trace := s, s, [];
    }

    method Send(call: Call) returns (reply: Reply)
      requires Valid()
      modifies this`server, this`trace
      ensures Valid() && trace == old(trace) + [call]
      ensures (server, reply) == Apply(old(server), call)
    {
      var (s, r) := Apply(server, call);
      server, reply := s, r;
      trace := trace + [call];
      ExecUnfold(start, old(trace), call);
    }

    method Others(calls: seq<Call>)
      requires Valid()
      modifies this`server, this`trace
      ensures Valid() && trace == old(trace) + calls
    {
      for i := 0 to |calls|
        invariant Valid() && trace == old(trace) + calls[..i]
      {
        var _ := Send(calls[i]);
        assert calls[..i + 1] == calls[..i] + [calls[i]];
      }
      assert calls[..|calls|] == calls;
    }

    /** One command, which succeeds exactly when no live key exists. */
    method Attempt(key: string, version: string, expiration: int) returns (ok: bool)
      requires Valid()
      modifies this`server, this`trace
      ensures Valid() && trace == old(trace) + [Add(key, version, expiration)] && ok == !Live(old(server), key)
      ensures ok ==> LeaseOf(start, trace, key) == Some(Lease(version, Deadline(server.now, expiration)))
      ensures !ok ==> server == old(server) && LeaseOf(start, trace, key) == old(LeaseOf(start, trace, key))
    {
      hide LeaseOf;
      LeaseUnfold(start, trace, Add(key, version, expiration), key);
      var reply := Send(Add(key, version, expiration));
      return reply == Done;
    }

    /** As on Redis: a limit of m > 0 allows m + 2 attempts. */
    method Acquire(key: string, version: string, expiration: int, maxRetries: int, sleeps: seq<seq<Call>>)
      returns (r: AcquireResult, attempts: nat)
      requires Valid()
      modifies this`server, this`trace
      ensures Valid() && trace == old(trace) + Sent(Add(key, version, expiration), sleeps, r, attempts)
      ensures Tried(old(server), Add(key, version, expiration), sleeps, maxRetries, r, attempts)
      ensures r == Acquired ==> LeaseOf(start, trace, key) == Some(Lease(version, Deadline(server.now, expiration)))
    {
      hide LeaseOf, Exec, Live, Rounds, Taken;
      var retries := 0;
      attempts := 0;
      ghost var call := Add(key, version, expiration);
      RoundsStart(server, call, sleeps);
      while attempts < |sleeps|
        invariant Valid() && attempts <= |sleeps| && trace == old(trace) + Rounds(call, sleeps, attempts)
        invariant forall i :: 0 <= i < attempts ==> Taken(old(server), call, sleeps, i)
        invariant server == Exec(old(server), Rounds(call, sleeps, attempts))
        invariant retries == if maxRetries > 0 then attempts else 0
        invariant maxRetries > 0 ==> attempts <= maxRetries + 1
      {
        RoundsNext(old(server), call, sleeps, attempts);
        var ok := Attempt(key, version, expiration);
        assert trace == old(trace) + (Rounds(call, sleeps, attempts) + [call]);
        if ok {
          return Acquired, attempts + 1;
        }
        if maxRetries > 0 {
          if retries > maxRetries {
            return DeadlineExceeded, attempts + 1;
          }
          retries := retries + 1;
        }
        Others(sleeps[attempts]);
        assert trace == old(trace) + (Rounds(call, sleeps, attempts) + [call] + sleeps[attempts]);
        ExecAppend(start, old(trace), Rounds(call, sleeps, attempts + 1));
        attempts := attempts + 1;
      }
      return StillWaiting, attempts;
    }

    /** One attempt; a lease of its own is used only if it is positive. */
    method TryAcquire(key: string, version: string, configured: nat, own: Option<int>) returns (ok: bool)
      requires Valid()
      modifies this`server, this`trace
      ensures Valid() && ok == !Live(old(server), key)
      ensures ok ==>
                LeaseOf(start, trace, key) ==
                  Some(Lease(version, Deadline(server.now, Seconds(if own.Some? && own.value > 0 then own.value else configured))))
      ensures !ok ==> server == old(server) && LeaseOf(start, trace, key) == old(LeaseOf(start, trace, key))
    {
      ok := Attempt(key, version, Seconds(if own.Some? && own.value > 0 then own.value else configured));
    }

    /** Get, whatever others do, then swap. It succeeds exactly if the key held this version at the get and lives on,
        not stored again since; then this key's item, and no other, gets the new expiration, and the holder's lease,
        and nobody else's, moves there. Otherwise no stored item changes by it. */
    method Swap(client: nat, key: string, version: string, expiration: int, meanwhile: seq<Call>) returns (r: Reply)
      requires Valid()
      requires forall i :: 0 <= i < |meanwhile| ==> !Uses(meanwhile[i], client)
      modifies this`server, this`trace
      ensures Valid() && old(trace) <= trace
      ensures !Held(old(server), key, version) ==> r == Illegal && server.entries == old(server.entries)
      ensures Held(old(server), key, version) ==>
                var later := Exec(Apply(old(server), Get(client, key, version, expiration)).0, meanwhile);
                && server.now == later.now
                && r == (if !Live(later, key) then Miss
                         else if later.entries[key].cas != old(server).entries[key].cas then Conflict
                         else Done)
                && server.entries ==
                     if r == Done then later.entries[key := Entry(version, later.nextCas, Deadline(later.now, expiration))]
                     else later.entries
      ensures old(LeaseOf(start, trace, key)).Some? && old(LeaseOf(start, trace, key)).value.version != version
              && Running(old(LeaseOf(start, trace, key)).value, old(server.now)) ==>
                r == Illegal && server.entries == old(server.entries) && LeaseOf(start, trace, key) == old(LeaseOf(start, trace, key))
      ensures r == Done && LeaseOf(start, trace, key).Some? && Running(LeaseOf(start, trace, key).value, server.now) ==>
                LeaseOf(start, trace, key) == Some(Lease(version, Deadline(server.now, expiration)))
    {
      hide LeaseOf;
      LeaseUnfold(start, trace, Get(client, key, version, expiration), key);
      HolderIsStored(start, trace, key);
      r := Send(Get(client, key, version, expiration));
      if r != Done {
        return;
      }
      Others(meanwhile);
      PendingKept(start, old(trace) + [Get(client, key, version, expiration)], meanwhile, client);
      ExecAppend(start, old(trace) + [Get(client, key, version, expiration)], meanwhile);
      LeaseUnfold(start, trace, CompareAndSwap(client), key);
      r := Send(CompareAndSwap(client));
      HolderIsStored(start, trace, key);
    }
  }

  /** The first k attempts, each with the pause after it. */
  ghost function Rounds(call: Call, sleeps: seq<seq<Call>>, k: nat): seq<Call>
    requires k <= |sleeps|
  {
    if k == 0 then [] else Rounds(call, sleeps, k - 1) + [call] + sleeps[k - 1]
  }

  /** Everything the server is sent: no pause follows an attempt that decides. */
  ghost function Sent(call: Call, sleeps: seq<seq<Call>>, r: AcquireResult, attempts: nat): seq<Call> {
    if attempts > |sleeps| then []
    else if r == StillWaiting || attempts == 0 then Rounds(call, sleeps, attempts)
    else Rounds(call, sleeps, attempts - 1) + [call]
  }

  /** Attempt i finds the key taken. */
  ghost predicate Taken(s: Server, call: Call, sleeps: seq<seq<Call>>, i: nat)
    requires call.Add? && i <= |sleeps|
  {
    Live(Exec(s, Rounds(call, sleeps, i)), call.key)
  }

  /** The outcome: the first attempt that finds the key free acquires it. If none does, a limit of m ends it after m + 2
      attempts, and otherwise it goes on. */
  ghost predicate Tried(s: Server, call: Call, sleeps: seq<seq<Call>>, maxRetries: int, r: AcquireResult, attempts: nat)
    requires call.Add?
  {
    && attempts <= |sleeps| && (maxRetries > 0 ==> attempts <= maxRetries + 2)
    && (forall i :: 0 <= i < attempts - 1 ==> Taken(s, call, sleeps, i))
    && (attempts > 0 ==> (r == Acquired <==> !Taken(s, call, sleeps, attempts - 1)))
    && (r == Acquired ==> attempts > 0)
    && (r == DeadlineExceeded ==> maxRetries > 0 && attempts == maxRetries + 2)
    && (r == StillWaiting ==> attempts == |sleeps| && (maxRetries > 0 ==> attempts <= maxRetries + 1))
  }

  lemma RoundsNext(s: Server, call: Call, sleeps: seq<seq<Call>>, k: nat)
    requires call.Add? && k < |sleeps|
    ensures Rounds(call, sleeps, k + 1) == Rounds(call, sleeps, k) + [call] + sleeps[k]
    ensures Taken(s, call, sleeps, k) <==> Live(Exec(s, Rounds(call, sleeps, k)), call.key)
  {
  }

  lemma RoundsStart(s: Server, call: Call, sleeps: seq<seq<Call>>)
    ensures Rounds(call, sleeps, 0) == [] && Exec(s, []) == s
  {
  }

  /** A key without a deadline that nobody touches: m + 2 attempts go out, all in vain. */
  method OneTooMany(c: Client, key: string, version: string, expiration: int, maxRetries: nat) returns (r: AcquireResult, attempts: nat)
    requires c.Valid() && maxRetries > 0 && key in c.server.entries && c.server.entries[key].deadline.None?
    modifies c`server, c`trace
    ensures c.Valid() && r == DeadlineExceeded && attempts == maxRetries + 2
    ensures c.trace == old(c.trace) + Repeated(Add(key, version, expiration), maxRetries + 2) && c.server == old(c.server)
  {
    hide Exec;
    ghost var s, call, calls := c.server, Add(key, version, expiration), Repeated(Add(key, version, expiration), maxRetries + 2);
    var sleeps := seq(maxRetries + 2, _ => []);
    forall i | 0 <= i <= |sleeps| ensures Taken(s, call, sleeps, i) {
      AllInVain(s, call, sleeps, i);
    }
    r, attempts := c.Acquire(key, version, expiration, maxRetries, sleeps);
    AllInVain(s, call, sleeps, maxRetries + 1);
    assert calls == Repeated(call, maxRetries + 1) + [call];
    ExecUnfold(s, Repeated(call, maxRetries + 1), call);
    ExecAppend(c.start, old(c.trace), calls);
  }

  function Repeated(call: Call, k: nat): (calls: seq<Call>)
    ensures |calls| == k
  {
    seq(k, _ => call)
  }

  lemma {:induction false} AllInVain(s: Server, call: Call, sleeps: seq<seq<Call>>, k: nat)
    requires call.Add? && call.key in s.entries && s.entries[call.key].deadline.None?
    requires k <= |sleeps| && forall i :: 0 <= i < |sleeps| ==> sleeps[i] == []
    ensures Rounds(call, sleeps, k) == Repeated(call, k) && Exec(s, Rounds(call, sleeps, k)) == s
    ensures Taken(s, call, sleeps, k)
  {
    if k > 0 {
      AllInVain(s, call, sleeps, k - 1);
      ExecUnfold(s, Rounds(call, sleeps, k - 1), call);
      assert Rounds(call, sleeps, k) == Rounds(call, sleeps, k - 1) + [call];
    }
  }

  predicate Uses(call: Call, client: nat) {
    match call
    case Get(c, _, _, _) => c == client
    case CompareAndSwap(c) => c == client
    case _ => false
  }

  lemma {:induction false} PendingKept(s: Server, trace: seq<Call>, calls: seq<Call>, client: nat)
    requires client in Exec(s, trace).pending
    requires forall i :: 0 <= i < |calls| ==> !Uses(calls[i], client)
    ensures client in Exec(s, trace + calls).pending
    ensures Exec(s, trace + calls).pending[client] == Exec(s, trace).pending[client]
  {
    if calls == [] {
      assert trace + calls == trace;
    } else {
      hide *;
      var n := |calls| - 1;
      PendingKept(s, trace, calls[..n], client);
      assert trace + calls == (trace + calls[..n]) + [calls[n]];
      ExecUnfold(s, trace + calls[..n], calls[n]);
      PendingStep(Exec(s, trace + calls[..n]), calls[n], client);
    }
  }

  lemma PendingStep(s: Server, call: Call, client: nat)
    requires client in s.pending && !Uses(call, client)
    ensures client in Apply(s, call).0.pending && Apply(s, call).0.pending[client] == s.pending[client]
  {
  }

  /** Whether a get would hand out this version. */
  predicate Held(s: Server, key: string, version: string) {
    Live(s, key) && s.entries[key].value == version
  }

  lemma {:induction false} ExecAppend(s: Server, trace: seq<Call>, calls: seq<Call>)
    ensures Exec(s, trace + calls) == Exec(Exec(s, trace), calls)
  {
    if calls == [] {
      assert trace + calls == trace;
    } else {
      hide *;
      var n := |calls| - 1;
      ExecAppend(s, trace, calls[..n]);
      assert trace + calls == (trace + calls[..n]) + [calls[n]] && calls == calls[..n] + [calls[n]];
      ExecUnfold(s, trace + calls[..n], calls[n]);
      ExecUnfold(Exec(s, trace), calls[..n], calls[n]);
    }
  }

  lemma ExecUnfold(s: Server, trace: seq<Call>, call: Call)
    ensures Exec(s, trace + [call]) == Apply(Exec(s, trace), call).0
  {
    assert (trace + [call])[..|trace|] == trace;
  }

  lemma LeaseUnfold(s: Server, trace: seq<Call>, call: Call, key: string)
    ensures var (state, reply) := Apply(Exec(s, trace), call);
            && Exec(s, trace + [call]) == state
            && LeaseOf(s, trace + [call], key) == NextLease(LeaseOf(s, trace, key), Exec(s, trace), call, reply, key)
  {
    assert (trace + [call])[..|trace|] == trace;
  }
}
