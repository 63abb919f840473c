/** The node bindings a linker caches, and the wait and done calls it makes for its own instance. */
module NodeLink {
  import opened Optional

  datatype NodeBinding = NodeBinding(nid: string, metadata: map<string, string>)

  /** A user and the name of a kind of node. */
  datatype Place = Place(uid: int, name: string)

  type Sources = map<int, map<string, NodeBinding>>

  datatype LocateError = NoError | NotFoundLocator | NotFoundUserLocation | LocatorFailed

  /** What the shared locator answers: an error, or a binding whose empty instance means there is none. */
  datatype LocatorReply = Failure | Reply(binding: NodeBinding)

  datatype LocateEvent =
    | BindEvent(uid: int, name: string, nid: string, metadata: map<string, string>)
    | UnbindEvent(uid: int, name: string, nid: string)
    | OtherEvent

  // ---- the nested map read as a flat one

  ghost function Flat(s: Sources): (m: map<Place, NodeBinding>)
    ensures forall p: Place :: p in m <==> p.uid in s && p.name in s[p.uid]
    ensures forall p: Place :: p in m ==> m[p] == s[p.uid][p.name]
  {
    map uid, name | uid in s && name in s[uid] :: Place(uid, name) := s[uid][name]
  }

  /** The pairs bound to an instance. */
  ghost function BoundTo(m: map<Place, NodeBinding>, nid: string): set<Place> {
    set p | p in m && m[p].nid == nid
  }

  /** Only users with a binding are kept. */
  ghost predicate NoEmptyUser(s: Sources) {
    forall uid :: uid in s ==> s[uid] != map[]
  }

  lemma FlatUpdate(s: Sources, uid: int, name: string, b: NodeBinding)
    ensures var inner := if uid in s then s[uid][name := b] else map[name := b];
            Flat(s[uid := inner]) == Flat(s)[Place(uid, name) := b]
  {
    hide Flat;
    var inner := if uid in s then s[uid][name := b] else map[name := b];
    var x, y := Flat(s[uid := inner]), Flat(s)[Place(uid, name) := b];
    assert forall p: Place :: p in x <==> p in y;
    assert forall p: Place :: p in x ==> x[p] == y[p];
    assert x == y;
  }

  lemma FlatDelete(s: Sources, uid: int, name: string)
    requires uid in s && name in s[uid]
    ensures |s[uid]| == 1 ==> Flat(s - {uid}) == Flat(s) - {Place(uid, name)}
    ensures Flat(s[uid := s[uid] - {name}]) == Flat(s) - {Place(uid, name)}
    ensures |s[uid]| != 1 ==> s[uid] - {name} != map[]
  {
    hide Flat;
    FlatDeleteName(s, uid, name);
    if |s[uid]| == 1 {
      OnlyKey(s[uid], name);
      FlatDeleteUser(s, uid, name);
    } else {
      OtherKey(s[uid], name);
    }
  }

  lemma FlatDeleteName(s: Sources, uid: int, name: string)
    requires uid in s && name in s[uid]
    ensures Flat(s[uid := s[uid] - {name}]) == Flat(s) - {Place(uid, name)}
  {
    hide Flat;
    var x, y := Flat(s[uid := s[uid] - {name}]), Flat(s) - {Place(uid, name)};
    assert forall p: Place :: p in x <==> p in y;
    assert forall p: Place :: p in x ==> x[p] == y[p];
    assert x == y;
  }

  lemma FlatDeleteUser(s: Sources, uid: int, name: string)
    requires uid in s && name in s[uid] && forall k :: k in s[uid] ==> k == name
    ensures Flat(s - {uid}) == Flat(s) - {Place(uid, name)}
  {
    hide Flat;
    var x, y := Flat(s - {uid}), Flat(s) - {Place(uid, name)};
    assert forall p: Place :: p in x <==> p in y;
    assert forall p: Place :: p in x ==> x[p] == y[p];
    assert x == y;
  }

  lemma OnlyKey(m: map<string, NodeBinding>, name: string)
    requires name in m && |m| == 1
    ensures forall k :: k in m ==> k == name
  {
    forall k | k in m ensures k == name {
      if k != name {
        assert {k, name} <= m.Keys;
        Smaller({k, name}, m.Keys);
        assert false;
      }
    }
  }

  lemma Smaller<T>(a: set<T>, b: set<T>)
    requires a <= b
    ensures |a| <= |b|
  {
    if a != {} {
      var x :| x in a;
      Smaller(a - {x}, b - {x});
    }
  }

  lemma OtherKey(m: map<string, NodeBinding>, name: string)
    requires name in m && |m| != 1
    ensures m - {name} != map[]
  {
    if forall k :: k in m ==> k == name {
      Singleton(m, name);
      assert false;
    }
    var k :| k in m && k != name;
    assert k in m - {name};
  }

  lemma Singleton(m: map<string, NodeBinding>, name: string)
    requires name in m && forall k :: k in m ==> k == name
    ensures |m| == 1
  {
    assert m.Keys == {name};
  }

  /** How one update changes the number of pairs bound to an instance. */
  lemma BoundAfterStore(m: map<Place, NodeBinding>, p: Place, b: NodeBinding, nid: string)
    ensures |BoundTo(m[p := b], nid)| ==
            |BoundTo(m, nid)| + (if b.nid == nid then 1 else 0) - (if p in m && m[p].nid == nid then 1 else 0)
  {
    var before, after := BoundTo(m, nid), BoundTo(m[p := b], nid);
    assert after == if b.nid == nid then before + {p} else before - {p};
  }

  lemma BoundAfterDelete(m: map<Place, NodeBinding>, p: Place, nid: string)
    requires p in m
    ensures |BoundTo(m - {p}, nid)| == |BoundTo(m, nid)| - if m[p].nid == nid then 1 else 0
  {
    assert BoundTo(m - {p}, nid) == BoundTo(m, nid) - {p};
  }

  // ---- the linker

  class NodeLinker {
    const insID: string
    const hasLocator: bool
    var sources: Sources
    /** How often the wait and the done handler have been called. */
    var waits: nat
    var dones: nat

    /** Conservation: waits minus dones is the number of pairs bound to this instance. */
    ghost predicate Valid()
      reads this
    {
      && NoEmptyUser(sources)
      && waits - dones == |BoundTo(Flat(sources), insID)|
    }

    constructor (insID: string, hasLocator: bool)
      ensures Valid() && sources == map[] && waits == dones == 0
      ensures this.insID == insID && this.hasLocator == hasLocator
    {
      this.insID, this.hasLocator := insID, hasLocator;
      sources, waits, dones := map[], 0, 0;
      new;
      assert BoundTo(Flat(sources), insID) == {};
    }

    /** Stores a binding over whatever the user had under that name. Waits when it comes to this instance, and is done
        when it goes to another. */
    method StoreSource(uid: int, name: string, binding: NodeBinding)
      requires Valid()
      modifies this
      ensures Valid() && Flat(sources) == old(Flat(sources))[Place(uid, name) := binding]
      ensures var m, p := old(Flat(sources)), Place(uid, name);
              var held := p in m && m[p].nid == insID;
              && waits == old(waits) + (if binding.nid == insID && !held then 1 else 0)
              && dones == old(dones) + (if binding.nid != insID && held then 1 else 0)
    {
      FlatUpdate(sources, uid, name, binding);
      BoundAfterStore(Flat(sources), Place(uid, name), binding, insID);
      hide Flat, BoundTo;
      var wait, done := false, false;
      if uid in sources {
        if name in sources[uid] {
          var oldBinding := sources[uid][name];
          sources := sources[uid := sources[uid][name := binding]];
          if oldBinding.nid != binding.nid {
            if insID == oldBinding.nid {
              done := true;
            } else if insID == binding.nid {
              wait := true;
            }
          }
        } else {
          sources := sources[uid := sources[uid][name := binding]];
          wait := insID == binding.nid;
        }
      } else {
        sources := sources[uid := map[name := binding]];
        wait := insID == binding.nid;
      }
      Signal(wait, done);
    }

    /** Deletes a binding only if it still names the given instance. */
    method DeleteSource(uid: int, name: string, nid: string)
      requires Valid()
      modifies this
      ensures Valid()
      ensures var m, p := old(Flat(sources)), Place(uid, name);
              && Flat(sources) == (if p in m && m[p].nid == nid then m - {p} else m)
              && waits == old(waits)
              && dones == old(dones) + (if p in m && m[p].nid == nid && nid == insID then 1 else 0)
    {
      hide Flat, BoundTo;
      if uid !in sources {
        return;
      }
      if name !in sources[uid] {
        return;
      }
      var oldBinding := sources[uid][name];
      if oldBinding.nid != nid {
        return;
      }
      FlatDelete(sources, uid, name);
      BoundAfterDelete(Flat(sources), Place(uid, name), insID);
      if |sources[uid]| == 1 {
        sources := sources - {uid};
      } else {
        sources := sources[uid := sources[uid] - {name}];
      }
      Signal(false, oldBinding.nid == insID);
    }

    method Signal(wait: bool, done: bool)
      modifies this`waits, this`dones
      ensures waits == old(waits) + if wait then 1 else 0
      ensures dones == old(dones) + if done then 1 else 0
    {
      if wait {
        waits := waits + 1;
      }
      if done {
        dones := dones + 1;
      }
    }

    method LoadSource(uid: int, name: string) returns (r: Option<NodeBinding>)
      ensures r == if Place(uid, name) in Flat(sources) then Some(Flat(sources)[Place(uid, name)]) else None
    {
      if uid in sources {
        if name in sources[uid] {
          return Some(sources[uid][name]);
        }
      }
      return None;
    }

    /** The cached binding, or else what the locator says, which is then cached. */
    method LocateNodeBinding(uid: int, name: string, located: LocatorReply) returns (r: NodeBinding, err: LocateError)
      requires Valid()
      modifies this
      ensures Valid()
      ensures var m, p := old(Flat(sources)), Place(uid, name);
              if !hasLocator then err == NotFoundLocator && Flat(sources) == m
              else if p in m then err == NoError && r == m[p] && Flat(sources) == m
              else if located == Failure then err == LocatorFailed && Flat(sources) == m
              else if located.binding.nid == "" then err == NotFoundUserLocation && Flat(sources) == m
              else err == NoError && r == located.binding && Flat(sources) == m[p := located.binding]
    {
      var nowhere := NodeBinding("", map[]);
      if !hasLocator {
        return nowhere, NotFoundLocator;
      }
      var cached := LoadSource(uid, name);
      if cached.Some? {
        return cached.value, NoError;
      }
      if located == Failure {
        return nowhere, LocatorFailed;
      }
      if located.binding.nid == "" {
        return nowhere, NotFoundUserLocation;
      }
      StoreSource(uid, name, located.binding);
      return located.binding, NoError;
    }

    /** Whether a user is on a given node. */
    method AskNode(uid: int, name: string, nid: string, located: LocatorReply) returns (at: string, here: bool, err: LocateError)
      requires Valid()
      modifies this
      ensures Valid()
      ensures var m, p := old(Flat(sources)), Place(uid, name);
              if err == NoError then p in Flat(sources) && at == Flat(sources)[p].nid && (here <==> at == nid)
              else Flat(sources) == m && (p in m ==> !hasLocator)
    {
      var binding;
      binding, err := LocateNodeBinding(uid, name, located);
      if err != NoError {
        return "", false, err;
      }
      return binding.nid, binding.nid == nid, NoError;
    }

    /** Binding tells the locator first and caches only what it accepted. */
    method BindNode(uid: int, name: string, binding: NodeBinding, accepted: bool) returns (err: LocateError)
      requires Valid()
      modifies this
      ensures Valid() && (err == NoError <==> hasLocator && accepted)
      ensures Flat(sources) == if err == NoError then old(Flat(sources))[Place(uid, name) := binding] else old(Flat(sources))
    {
      if !hasLocator {
        return NotFoundLocator;
      }
      if !accepted {
        return LocatorFailed;
      }
      StoreSource(uid, name, binding);
      return NoError;
    }

    method UnbindNode(uid: int, name: string, nid: string, accepted: bool) returns (err: LocateError)
      requires Valid()
      modifies this
      ensures Valid() && (err == NoError <==> hasLocator && accepted)
      ensures var m, p := old(Flat(sources)), Place(uid, name);
              Flat(sources) == if err == NoError && p in m && m[p].nid == nid then m - {p} else m
    {
      if !hasLocator {
        return NotFoundLocator;
      }
      if !accepted {
        return LocatorFailed;
      }
      DeleteSource(uid, name, nid);
      return NoError;
    }

    /** Events of other linkers are applied in the order they arrive. */
    method OnEvents(events: seq<LocateEvent>)
      requires Valid()
      modifies this
      ensures Valid() && Flat(sources) == Replayed(old(Flat(sources)), events)
      ensures forall p, b :: (p in Flat(sources) && Flat(sources)[p] == b) <==> Remains(old(Flat(sources)), events, p, b)
    {
      RemainsExactly(Flat(sources), events);
      for i := 0 to |events|
        invariant Valid() && Flat(sources) == Replayed(old(Flat(sources)), events[..i])
      {
        hide Flat, Replayed, Valid;
        ReplayedStep(old(Flat(sources)), events, i);
        OnEvent(events[i]);
      }
      assert events[..|events|] == events;
    }

    method OnEvent(event: LocateEvent)
      requires Valid()
      modifies this
      ensures Valid() && Flat(sources) == AfterEvent(old(Flat(sources)), event)
    {
      hide Flat, Valid;
      match event {
        case BindEvent(uid, name, nid, metadata) => StoreSource(uid, name, NodeBinding(nid, metadata));
        case UnbindEvent(uid, name, nid) => DeleteSource(uid, name, nid);
        case OtherEvent =>
      }
    }
  }

  ghost function AfterEvent(m: map<Place, NodeBinding>, event: LocateEvent): map<Place, NodeBinding> {
    match event
    case BindEvent(uid, name, nid, metadata) => m[Place(uid, name) := NodeBinding(nid, metadata)]
    case UnbindEvent(uid, name, nid) =>
      if Place(uid, name) in m && m[Place(uid, name)].nid == nid then m - {Place(uid, name)} else m
    case OtherEvent => m
  }

  /** What a run of events leaves of the cached bindings. */
  ghost function Replayed(m: map<Place, NodeBinding>, events: seq<LocateEvent>): map<Place, NodeBinding> {
    if events == [] then m else AfterEvent(Replayed(m, events[..|events| - 1]), events[|events| - 1])
  }

  /** Whether an event takes away a binding of this pair to this node. */
  predicate Ends(event: LocateEvent, p: Place, nid: string) {
    match event
    case BindEvent(uid, name, _, _) => p == Place(uid, name)
    case UnbindEvent(uid, name, from) => p == Place(uid, name) && from == nid
    case OtherEvent => false
  }

  /** What is left is what was bound, at first or by some event, and ended by none after it. */
  ghost predicate Remains(m: map<Place, NodeBinding>, events: seq<LocateEvent>, p: Place, b: NodeBinding) {
    || (p in m && m[p] == b && forall j :: 0 <= j < |events| ==> !Ends(events[j], p, b.nid))
    || exists i :: && 0 <= i < |events| && events[i] == BindEvent(p.uid, p.name, b.nid, b.metadata)
                   && forall j :: i < j < |events| ==> !Ends(events[j], p, b.nid)
  }

  lemma {:induction false} RemainsExactly(m: map<Place, NodeBinding>, events: seq<LocateEvent>)
    ensures forall p, b :: (p in Replayed(m, events) && Replayed(m, events)[p] == b) <==> Remains(m, events, p, b)
  {
    if events != [] {
      var n := |events| - 1;
      RemainsExactly(m, events[..n]);
      forall p, b ensures (p in Replayed(m, events) && Replayed(m, events)[p] == b) <==> Remains(m, events, p, b) {
        RemainsStep(m, events, p, b);
      }
    }
  }

  lemma RemainsStep(m: map<Place, NodeBinding>, events: seq<LocateEvent>, p: Place, b: NodeBinding)
    requires events != []
    ensures var (n, last) := (|events| - 1, events[|events| - 1]);
            Remains(m, events, p, b) <==>
              last == BindEvent(p.uid, p.name, b.nid, b.metadata)
              || (Remains(m, events[..n], p, b) && !Ends(last, p, b.nid))
  {
    hide Ends;
    var n := |events| - 1;
    assert forall j :: 0 <= j < n ==> events[..n][j] == events[j];
  }

  lemma ReplayedStep(m: map<Place, NodeBinding>, events: seq<LocateEvent>, i: nat)
    requires i < |events|
    ensures Replayed(m, events[..i + 1]) == AfterEvent(Replayed(m, events[..i]), events[i])
  {
    assert events[..i + 1][..i] == events[..i];
  }

  /** An unbinding that arrives after the user has moved on does not remove the new binding. */
  lemma LateUnbind(m: map<Place, NodeBinding>, uid: int, name: string, from: string, to: NodeBinding)
    requires from != to.nid
    ensures Replayed(m, [BindEvent(uid, name, to.nid, to.metadata), UnbindEvent(uid, name, from)]) == m[Place(uid, name) := to]
  {
    var e := [BindEvent(uid, name, to.nid, to.metadata), UnbindEvent(uid, name, from)];
    assert e[..1] == [BindEvent(uid, name, to.nid, to.metadata)];
    assert e[..1][..0] == [];
    assert Replayed(m, e[..1]) == m[Place(uid, name) := to];
  }
}
