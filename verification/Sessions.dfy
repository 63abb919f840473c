/** The connections of a gateway, indexed by connection, by user and by channel. */
module Sessions {
  import opened Optional

  const CHANNEL_PREFIX := "__session_channel__:"

  datatype Kind = ByConn | ByUser | Unknown
  datatype Error = NoError | NotFoundSession | InvalidSessionKind

  function ChannelKey(channel: string): string {
    CHANNEL_PREFIX + channel
  }

  predicate IsChannelKey(key: string) {
    CHANNEL_PREFIX <= key
  }

  function ChannelOf(key: string): string
    requires IsChannelKey(key)
  {
    key[|CHANNEL_PREFIX|..]
  }

  lemma KeyBack(channel: string)
    ensures ChannelKey(channel) == "__session_channel__:" + channel
    ensures IsChannelKey(ChannelKey(channel)) && ChannelOf(ChannelKey(channel)) == channel
  {
  }

  class Conn {
    const id: int
    var uid: int
    /** The keys of the attributes set on the connection. */
    var attrs: set<string>

    constructor (id: int)
      ensures this.id == id && uid == 0 && attrs == {}
    {
      this.id, uid, attrs := id, 0, {};
    }
  }

  predicate Carries(attrs: set<string>, channel: string) {
    channel != "" && ChannelKey(channel) in attrs
  }

  predicate In(channels: map<string, set<Conn>>, channel: string, c: Conn) {
    channel in channels && c in channels[channel]
  }

  predicate Has(conns: map<int, Conn>, c: Conn) {
    c.id in conns && conns[c.id] == c
  }

  ghost predicate SameKeys<T>(m: map<int, T>, conns: map<int, Conn>) {
    forall id :: id in m <==> id in conns
  }

  /** Connections are filed under their own identifiers. */
  ghost predicate Filed(conns: map<int, Conn>) {
    forall id :: id in conns ==> conns[id].id == id
  }

  /** users is precisely the inverse of the non-zero uids of the registered connections. */
  ghost predicate Inverse(conns: map<int, Conn>, users: map<int, Conn>, uids: map<int, int>)
    requires SameKeys(uids, conns)
  {
    && (forall u :: u in users ==> u != 0 && Has(conns, users[u]) && uids[users[u].id] == u)
    && (forall id :: id in conns && uids[id] != 0 ==> uids[id] in users && users[uids[id]] == conns[id])
  }

  /** A connection is listed in a channel exactly when it is registered and carries the channel's attribute. */
  ghost predicate Listed(conns: map<int, Conn>, channels: map<string, set<Conn>>, attrs: map<int, set<string>>)
    requires SameKeys(attrs, conns)
  {
    && (forall ch, c :: ch in channels && c in channels[ch] ==> Has(conns, c) && Carries(attrs[c.id], ch))
    && (forall ch, id :: id in conns && Carries(attrs[id], ch) ==> In(channels, ch, conns[id]))
  }

  class Session {
    var conns: map<int, Conn>
    var users: map<int, Conn>
    var channels: map<string, set<Conn>>

    /** The uid of every registered connection. */
    ghost function Uids(): (m: map<int, int>)
      reads this`conns, conns.Values
      ensures SameKeys(m, conns) && forall id :: id in conns ==> m[id] == conns[id].uid
    {
      map id | id in conns :: conns[id].uid
    }

    ghost function Attrs(): (m: map<int, set<string>>)
      reads this`conns, conns.Values
      ensures SameKeys(m, conns) && forall id :: id in conns ==> m[id] == conns[id].attrs
    {
      map id | id in conns :: conns[id].attrs
    }

    ghost predicate UsersExact()
      reads this, conns.Values
    {
      Filed(conns) && Inverse(conns, users, Uids())
    }

    ghost predicate ChannelsExact()
      reads this, conns.Values
    {
      Listed(conns, channels, Attrs())
    }

    ghost predicate Valid()
      reads this, conns.Values
    {
      UsersExact() && ChannelsExact()
    }

    constructor ()
      ensures Valid() && conns == map[] && users == map[] && channels == map[]
    {
      conns, users, channels := map[], map[], map[];
    }

    method SetUid(conn: Conn, uid: int)
      requires Filed(conns) && Has(conns, conn)
      modifies conn
      ensures Uids() == old(Uids())[conn.id := uid] && Attrs() == old(Attrs()) && conn.uid == uid
    {
      assert forall id :: id in conns && id != conn.id ==> conns[id] != conn;
      conn.uid := uid;
    }

    method SetAttrs(conn: Conn, attrs: set<string>)
      requires Filed(conns) && Has(conns, conn)
      modifies conn
      ensures Attrs() == old(Attrs())[conn.id := attrs] && Uids() == old(Uids()) && conn.attrs == attrs
    {
      assert forall id :: id in conns && id != conn.id ==> conns[id] != conn;
      conn.attrs := attrs;
    }

    /** Registers a connection; a connection already bound to the same user loses the user. The channel index
        stays exact exactly when a newcomer carries no channel attribute. */
    method AddConn(conn: Conn)
      requires Valid()
      requires conn.id in conns ==> conns[conn.id] == conn
      modifies this`conns, this`users, conns.Values
      ensures conns == old(conns)[conn.id := conn]
      ensures UsersExact()
      ensures ChannelsExact() <==> Has(old(conns), conn) || forall ch :: !Carries(conn.attrs, ch)
      ensures Uids() == Without(old(Uids()), conn.uid)[conn.id := conn.uid] && conn.uid == old(conn.uid)
      ensures Attrs() == old(Attrs())[conn.id := conn.attrs] && conn.attrs == old(conn.attrs)
    {
      hide Uids, Attrs, Inverse, Listed, Without, Filed, Valid, UsersExact, ChannelsExact, In, Carries;
      Meaning();
      var cid, uid := conn.id, conn.uid;
      NewcomerInverse(conns, users, Uids(), conn, uid);
      NewcomerListed(conns, channels, Attrs(), conn, conn.attrs);
      if uid != 0 {
        Displace(conn);
        users := users[uid := conn];
      } else {
        WithoutOne(conns, users, Uids(), 0);
      }
      File(conn);
      Meaning();
    }

    method File(conn: Conn)
      modifies this`conns
      ensures conns == old(conns)[conn.id := conn]
      ensures Uids() == old(Uids())[conn.id := conn.uid] && Attrs() == old(Attrs())[conn.id := conn.attrs]
    {
      hide Uids, Attrs;
      ghost var uids, attrs := Uids(), Attrs();
      conns := conns[conn.id := conn];
      SnapshotsAre(uids[conn.id := conn.uid], attrs[conn.id := conn.attrs]);
    }

    /** Unbinds whoever else has the newcomer's user. */
    method Displace(conn: Conn)
      requires UsersExact() && conn.uid != 0
      requires conn.id in conns ==> conns[conn.id] == conn
      modifies conns.Values
      ensures Uids()[conn.id := conn.uid] == Without(old(Uids()), conn.uid)[conn.id := conn.uid]
      ensures Attrs() == old(Attrs()) && conn.uid == old(conn.uid) && conn.attrs == old(conn.attrs)
    {
      hide Uids, Attrs, Inverse, Without, Filed, UsersExact;
      Meaning();
      var cid, uid := conn.id, conn.uid;
      WithoutOne(conns, users, Uids(), uid);
      UserIsFiled(uid);
      if uid in users && users[uid].id != cid {
        SetUid(users[uid], 0);
      }
    }

    /** What the indexes promise, unfolded. */
    lemma Meaning()
      ensures Valid() <==> UsersExact() && ChannelsExact()
      ensures UsersExact() <==> Filed(conns) && Inverse(conns, users, Uids())
      ensures ChannelsExact() <==> Listed(conns, channels, Attrs())
    {
    }

    /** The indexes are exact again for these attributes. */
    lemma Settled(uids: map<int, int>, attrs: map<int, set<string>>)
      requires Uids() == uids && Attrs() == attrs && SameKeys(uids, conns) && SameKeys(attrs, conns)
      requires Filed(conns) && Inverse(conns, users, uids) && Listed(conns, channels, attrs)
      ensures Valid()
    {
    }

    lemma FiledAt(cid: int)
      requires UsersExact() && cid in conns
      ensures conns[cid].id == cid
    {
    }

    lemma UserIsFiled(uid: int)
      requires UsersExact()
      ensures uid in users ==> uid != 0 && Has(conns, users[uid]) && users[uid] in conns.Values && users[uid].uid == uid
    {
    }

    /** Takes a connection out of every index. What it still carries does not matter afterwards, and a user
        that has moved on to another connection keeps it. */
    method RemConn(conn: Conn)
      requires Valid()
      requires conn.id in conns ==> conns[conn.id] == conn
      modifies this
      ensures Valid()
      ensures conns == old(conns) - {conn.id}
      ensures users == if conn.uid in old(users) && old(users)[conn.uid] == conn then old(users) - {conn.uid} else old(users)
      ensures forall ch, c :: In(channels, ch, c) <==> In(old(channels), ch, c) && c != conn
    {
      hide Uids, Attrs, Inverse, Listed, Without, Filed, Valid, UsersExact, ChannelsExact, In, Carries;
      Meaning();
      var cid, uid := conn.id, conn.uid;
      LeaverInverse(conns, users, Uids(), conn, uid);
      LeaverCarries(conns, channels, Attrs(), conn, conn.attrs);
      ghost var uids, attrs := Uids(), Attrs();
      conns := conns - {cid};
      SnapshotsAre(uids - {cid}, attrs - {cid});
      if uid != 0 {
        if uid in users && users[uid].id == cid {
          users := users - {uid};
        }
      }
      LeaveChannels(conn);
      LeaverListed(old(conns), old(channels), channels, attrs, conn);
      SnapshotsAre(uids - {cid}, attrs - {cid});
      Meaning();
    }

    lemma SnapshotsAre(uids: map<int, int>, attrs: map<int, set<string>>)
      requires forall id :: id in uids <==> id in conns
      requires forall id :: id in attrs <==> id in conns
      requires forall id :: id in conns ==> uids[id] == conns[id].uid && attrs[id] == conns[id].attrs
      ensures Uids() == uids && Attrs() == attrs
    {
      var u, a := Uids(), Attrs();
      assert forall id :: id in u <==> id in uids;
      assert forall id :: id in a <==> id in attrs;
      assert forall id :: id in uids ==> u[id] == uids[id] && a[id] == attrs[id];
      assert u == uids && a == attrs;
    }

    /** Visits the attributes of a connection that has left, and drops it from the channels they name. */
    method LeaveChannels(conn: Conn)
      requires forall ch :: In(channels, ch, conn) ==> Carries(conn.attrs, ch)
      modifies this`channels
      ensures forall ch, c :: In(channels, ch, c) <==> In(old(channels), ch, c) && c != conn
    {
      var keys := conn.attrs;
      while keys != {}
        invariant keys <= conn.attrs
        invariant forall ch, c :: c != conn ==> (In(channels, ch, c) <==> In(old(channels), ch, c))
        invariant forall ch :: In(channels, ch, conn) ==> Carries(keys, ch)
        decreases keys
      {
        var key :| key in keys;
        forall ch | ChannelKey(ch) == key ensures IsChannelKey(key) && ch == ChannelOf(key) {
          KeyBack(ch);
        }
        if IsChannelKey(key) {
          var channel := ChannelOf(key);
          if channel != "" {
            DoUnsubscribe(channel, conn);
          }
        }
        keys := keys - {key};
      }
    }

    /** Binds a connection to a user, or unbinds it for uid 0. Whoever had the user loses it and is to be closed;
        no other connection changes. */
    method Bind(cid: int, uid: int) returns (err: Error, kicked: Option<Conn>)
      requires Valid()
      modifies this`users, conns.Values
      ensures Valid()
      ensures err == if cid in conns then NoError else NotFoundSession
      ensures Uids() == (if cid in conns then Without(old(Uids()), uid)[cid := uid] else old(Uids())) && Attrs() == old(Attrs())
      ensures kicked == if cid in conns && uid != 0 && uid in old(users) && old(users)[uid] != conns[cid]
                        then Some(old(users)[uid]) else None
    {
      hide *;
      Meaning();
      if cid !in conns {
        return NotFoundSession, None;
      }
      ghost var uids, attrs := Uids(), Attrs();
      BindInverse(conns, users, uids, cid, uid);
      WithoutOne(conns, users, uids, uid);
      UserIsFiled(uid);
      var conn := conns[cid];
      var oldUID := conn.uid;
      UserIsFiled(oldUID);
      FiledAt(cid);
      if oldUID == uid {
        return NoError, None;
      }
      if oldUID != 0 {
        if oldUID in users && users[oldUID].id == cid {
          users := users - {oldUID};
        }
      }
      ghost var freed := if oldUID != 0 then old(users) - {oldUID} else old(users);
      assert users == freed;
      if uid == 0 {
        SetUid(conn, 0);
        Settled(Without(uids, uid)[cid := uid], attrs);
        return NoError, None;
      }
      // the user's connection is another one, because this one's uid differs
      kicked := Kick(uid);
      SetUid(conn, uid);
      users := users[uid := conn];
      Settled(Without(uids, uid)[cid := uid], attrs);
      return NoError, kicked;
    }

    /** Takes a user from its connection. */
    method Kick(uid: int) returns (kicked: Option<Conn>)
      requires Filed(conns) && (uid in users ==> Has(conns, users[uid]) && users[uid] in conns.Values)
      modifies conns.Values
      ensures Uids() == (if uid in users then old(Uids())[users[uid].id := 0] else old(Uids())) && Attrs() == old(Attrs())
      ensures kicked == if uid in users then Some(users[uid]) else None
    {
      hide Uids, Attrs, Filed;
      kicked := None;
      if uid in users {
        var oldConn := users[uid];
        SetUid(oldConn, 0);
        kicked := Some(oldConn);
      }
    }

    /** Unbinds a connection from a user only if it is bound to that very user. */
    method Unbind(cid: int, uid: int) returns (r: int, err: Error)
      requires Valid()
      modifies this`users, conns.Values
      ensures Valid()
      ensures var bound := cid != 0 && uid != 0 && cid in conns && old(Uids())[cid] == uid;
              && r == (if bound then cid else 0)
              && users == (if bound then old(users) - {uid} else old(users))
              && Uids() == (if bound then old(Uids())[cid := 0] else old(Uids()))
              && Attrs() == old(Attrs())
      ensures err == if cid == 0 || uid == 0 || cid !in conns then NotFoundSession else NoError
    {
      hide Uids, Attrs, Inverse, Listed, Without, Filed, Valid, UsersExact, ChannelsExact;
      Meaning();
      if uid == 0 || cid == 0 {
        return 0, NotFoundSession;
      }
      if cid !in conns {
        return 0, NotFoundSession;
      }
      var conn := conns[cid];
      if conn.uid != uid {
        return 0, NoError;
      }
      UnbindInverse(conns, users, Uids(), cid, uid);
      SetUid(conn, 0);
      if uid in users && users[uid].id == cid {
        users := users - {uid};
      }
      Meaning();
      return cid, NoError;
    }

    /** Gives the named connections the channel's attribute and lists them, and nobody else. */
    method Subscribe(kind: Kind, targets: seq<int>, channel: string) returns (err: Error)
      requires Valid()
      modifies this`channels, conns.Values
      ensures Valid()
      ensures err == if targets != [] && channel != "" && kind == Unknown then InvalidSessionKind else NoError
      ensures var index := if kind == ByUser then users else conns;
              Attrs() == if channel == "" || kind == Unknown then old(Attrs())
                         else WithKey(old(Attrs()), TargetIds(index, targets), ChannelKey(channel))
      ensures Uids() == old(Uids())
    {
      hide Uids, Attrs, Inverse, Listed, Filed, Valid, UsersExact, ChannelsExact, WithKey, WithoutKey, TargetIds;
      if |targets| == 0 || channel == "" {
        NobodyNamed(ChannelKey(channel));
        return NoError;
      }
      if kind == Unknown {
        return InvalidSessionKind;
      }
      var index := if kind == ByUser then users else conns;
      OpenChannel(channel);
      TargetStep(index, targets, 0);
      KeysTwice(Attrs(), {}, {}, ChannelKey(channel));
      for i := 0 to |targets|
        invariant Valid() && channel in channels
        invariant Attrs() == WithKey(old(Attrs()), TargetIds(index, targets[..i]), ChannelKey(channel))
        invariant Uids() == old(Uids())
      {
        IndexIsFiled(kind, targets[i]);
        TargetStep(index, targets, i);
        if targets[i] in index {
          KeysTwice(old(Attrs()), TargetIds(index, targets[..i]), {index[targets[i]].id}, ChannelKey(channel));
          Join(index[targets[i]], channel);
        }
      }
      assert targets[..|targets|] == targets;
      return NoError;
    }

    /** Takes the channel's attribute from the named connections and unlists them, and nobody else. */
    method Unsubscribe(kind: Kind, targets: seq<int>, channel: string) returns (err: Error)
      requires Valid()
      modifies this`channels, conns.Values
      ensures Valid()
      ensures err == if targets != [] && channel != "" && kind == Unknown then InvalidSessionKind else NoError
      ensures var index := if kind == ByUser then users else conns;
              Attrs() == if channel == "" || kind == Unknown then old(Attrs())
                         else WithoutKey(old(Attrs()), TargetIds(index, targets), ChannelKey(channel))
      ensures Uids() == old(Uids())
    {
      hide Uids, Attrs, Inverse, Listed, Filed, Valid, UsersExact, ChannelsExact, WithKey, WithoutKey, TargetIds;
      if |targets| == 0 || channel == "" {
        NobodyNamed(ChannelKey(channel));
        return NoError;
      }
      if kind == Unknown {
        return InvalidSessionKind;
      }
      var index := if kind == ByUser then users else conns;
      TargetStep(index, targets, 0);
      KeysTwice(Attrs(), {}, {}, ChannelKey(channel));
      for i := 0 to |targets|
        invariant Valid()
        invariant Attrs() == WithoutKey(old(Attrs()), TargetIds(index, targets[..i]), ChannelKey(channel))
        invariant Uids() == old(Uids())
      {
        IndexIsFiled(kind, targets[i]);
        TargetStep(index, targets, i);
        if targets[i] in index {
          KeysTwice(old(Attrs()), TargetIds(index, targets[..i]), {index[targets[i]].id}, ChannelKey(channel));
          Leave(index[targets[i]], channel);
        }
      }
      assert targets[..|targets|] == targets;
      return NoError;
    }

    lemma NobodyNamed(key: string)
      ensures forall index :: TargetIds(index, []) == {}
      ensures WithKey(Attrs(), {}, key) == Attrs() && WithoutKey(Attrs(), {}, key) == Attrs()
    {
      KeysTwice(Attrs(), {}, {}, key);
    }

    lemma IndexIsFiled(kind: Kind, target: int)
      requires Valid()
      ensures var index := if kind == ByUser then users else conns;
              target in index ==> Has(conns, index[target]) && index[target] in conns.Values
    {
    }

    method OpenChannel(channel: string)
      requires Valid()
      modifies this`channels
      ensures Valid() && channel in channels
    {
      hide Uids, Attrs, Inverse, Filed, Carries;
      if channel !in channels {
        channels := channels[channel := {}];
      }
    }

    method Join(conn: Conn, channel: string)
      requires Valid() && Has(conns, conn) && channel != "" && channel in channels
      modifies this`channels, conn
      ensures Valid() && channel in channels
      ensures Attrs() == WithKey(old(Attrs()), {conn.id}, ChannelKey(channel)) && Uids() == old(Uids())
    {
      hide Uids, Attrs, Inverse, Listed, Filed, Valid, UsersExact, ChannelsExact;
      Meaning();
      JoinListed(conns, channels, Attrs(), conn, channel);
      SetAttrs(conn, conn.attrs + {ChannelKey(channel)});
      channels := channels[channel := channels[channel] + {conn}];
      Meaning();
    }

    method Leave(conn: Conn, channel: string)
      requires Valid() && Has(conns, conn) && channel != ""
      modifies this`channels, conn
      ensures Valid()
      ensures Attrs() == WithoutKey(old(Attrs()), {conn.id}, ChannelKey(channel)) && Uids() == old(Uids())
    {
      hide Uids, Attrs, Inverse, Listed, Filed, Valid, UsersExact, ChannelsExact;
      Meaning();
      ghost var attrs := Attrs();
      if ChannelKey(channel) in conn.attrs {
        SetAttrs(conn, conn.attrs - {ChannelKey(channel)});
        DoUnsubscribe(channel, conn);
      }
      LeaveListed(conns, old(channels), channels, attrs, conn, channel);
      Meaning();
    }

    /** Drops a connection from a channel, and the channel with its last one. */
    method DoUnsubscribe(channel: string, conn: Conn)
      modifies this`channels
      ensures forall ch, c :: In(channels, ch, c) <==> In(old(channels), ch, c) && !(ch == channel && c == conn)
    {
      if channel !in channels {
        return;
      }
      var rest := channels[channel] - {conn};
      channels := channels[channel := rest];
      if |rest| == 0 {
        channels := channels - {channel};
      }
    }
  }

  // ---- runs

  /** What can happen between two events: a new connection, or a call for a registered one. */
  datatype Op =
    | Joins(cid: int)
    | Quits(cid: int)
    | Binds(cid: int, uid: int)
    | Unbinds(cid: int, uid: int)
    | Subscribes(kind: Kind, targets: seq<int>, channel: string)
    | Unsubscribes(kind: Kind, targets: seq<int>, channel: string)

  /** Whether an operation takes this connection away, or takes it or somebody else to this user. */
  predicate Moves(op: Op, cid: int, uid: int) {
    match op
    case Quits(c) => c == cid
    case Binds(c, u) => c == cid || u == uid
    case Unbinds(c, _) => c == cid
    case _ => false
  }

  /** Who stays registered, and with which user, whatever operation comes. */
  ghost predicate Keeps(op: Op, conns: map<int, Conn>, uids: map<int, int>, conns': map<int, Conn>, uids': map<int, int>)
    requires SameKeys(uids, conns) && SameKeys(uids', conns')
  {
    forall id :: id in conns ==>
      && (!(op.Quits? && op.cid == id) ==> id in conns' && conns'[id] == conns[id])
      && (id in conns' && uids[id] != 0 && !Moves(op, id, uids[id]) ==> uids'[id] == uids[id])
  }

  method Perform(s: Session, op: Op)
    requires s.Valid()
    modifies s, s.conns.Values
    ensures s.Valid() && fresh(s.conns.Values - old(s.conns.Values))
    ensures Keeps(op, old(s.conns), old(s.Uids()), s.conns, s.Uids())
  {
    hide Inverse, Listed, WithKey, WithoutKey, TargetIds, Session.Uids, Session.Attrs, Session.UsersExact, Session.ChannelsExact;
    match op {
      case Joins(cid) =>
        Enter(s, cid);
      case Quits(cid) =>
        Quit(s, cid);
      case Binds(cid, uid) =>
        var _, _ := s.Bind(cid, uid);
      case Unbinds(cid, uid) =>
        var _, _ := s.Unbind(cid, uid);
      case Subscribes(kind, targets, channel) =>
        var _ := s.Subscribe(kind, targets, channel);
      case Unsubscribes(kind, targets, channel) =>
        var _ := s.Unsubscribe(kind, targets, channel);
    }
  }

  method Enter(s: Session, cid: int)
    requires s.Valid()
    modifies s`conns, s`users, s.conns.Values
    ensures s.Valid() && fresh(s.conns.Values - old(s.conns.Values))
    ensures Keeps(Joins(cid), old(s.conns), old(s.Uids()), s.conns, s.Uids())
  {
    hide Inverse, Listed, Session.Uids, Session.Attrs, Session.UsersExact, Session.ChannelsExact;
    if cid !in s.conns {
      var conn := new Conn(cid);
      s.AddConn(conn);
    }
  }

  method Quit(s: Session, cid: int)
    requires s.Valid()
    modifies s
    ensures s.Valid() && fresh(s.conns.Values - old(s.conns.Values))
    ensures Keeps(Quits(cid), old(s.conns), old(s.Uids()), s.conns, s.Uids())
  {
    hide Inverse, Listed, Session.Valid, Session.UsersExact, Session.ChannelsExact;
    s.Meaning();
    if cid in s.conns {
      s.FiledAt(cid);
      s.RemConn(s.conns[cid]);
    }
  }

  /** A connection that has been displaced from a user leaves later, whatever happens in between, without taking the
      user from its successor. */
  method DisplacedLeaves(s: Session, cid: int, uid: int, meanwhile: seq<Op>)
    requires s.Valid() && cid in s.conns && uid != 0
    requires forall i :: 0 <= i < |meanwhile| ==> !Moves(meanwhile[i], cid, uid)
    requires forall i :: 0 <= i < |meanwhile| && uid in s.users ==> meanwhile[i] != Quits(s.users[uid].id)
    modifies s, s.conns.Values
    ensures s.Valid() && cid in s.conns && s.conns[cid] == old(s.conns[cid])
    ensures s.conns[cid].uid == uid && uid in s.users && s.users[uid] == s.conns[cid]
    ensures uid in old(s.users) && old(s.users)[uid] != s.conns[cid] ==> old(s.users)[uid].id !in s.conns
  {
    hide Inverse, Listed, Without;
    s.UserIsFiled(uid);
    var err, kicked := s.Bind(cid, uid);
    for i := 0 to |meanwhile|
      invariant s.Valid() && cid in s.conns && s.conns[cid] == old(s.conns[cid]) && s.Uids()[cid] == uid
      invariant kicked.Some? ==> Has(s.conns, kicked.value)
      invariant fresh(s.conns.Values - old(s.conns.Values))
    {
      Perform(s, meanwhile[i]);
    }
    if kicked.Some? {
      s.RemConn(kicked.value);
    }
    BoundIsUser(s, cid);
  }

  /** Leaving and coming back: a connection that carries a channel is then missing from it. */
  method ComesBack(s: Session, conn: Conn, channel: string)
    requires s.Valid() && Has(s.conns, conn) && Carries(conn.attrs, channel)
    modifies s, s.conns.Values
    ensures s.UsersExact() && !s.ChannelsExact()
    ensures Has(s.conns, conn) && Carries(conn.attrs, channel) && !In(s.channels, channel, conn)
  {
    hide Inverse, Listed, Without, Carries;
    s.RemConn(conn);
    s.AddConn(conn);
  }

  lemma BoundIsUser(s: Session, cid: int)
    requires s.Valid() && cid in s.conns && s.conns[cid].uid != 0
    ensures s.conns[cid].uid in s.users && s.users[s.conns[cid].uid] == s.conns[cid]
  {
  }

  /** Nobody is bound to this user any more; for 0 nothing changes. */
  ghost function Without(uids: map<int, int>, uid: int): map<int, int> {
    map id | id in uids :: if uids[id] == uid then 0 else uids[id]
  }

  /** Only the user's own connection has to be changed for that. */
  lemma WithoutOne(conns: map<int, Conn>, users: map<int, Conn>, uids: map<int, int>, uid: int)
    requires SameKeys(uids, conns) && Filed(conns) && Inverse(conns, users, uids)
    ensures Without(uids, uid) == if uid != 0 && uid in users then uids[users[uid].id := 0] else uids
  {
    forall id | id in uids && uid != 0 && uids[id] == uid ensures uid in users && users[uid].id == id {
      assert conns[id] == users[uid];
    }
    assert forall id :: id in Without(uids, uid) <==> id in uids;
  }

  lemma BindInverse(conns: map<int, Conn>, users: map<int, Conn>, uids: map<int, int>, cid: int, uid: int)
    requires SameKeys(uids, conns) && Filed(conns) && Inverse(conns, users, uids) && cid in conns
    ensures var uids' := Without(uids, uid)[cid := uid];
            var freed := if uids[cid] != 0 then users - {uids[cid]} else users;
            && SameKeys(uids', conns) && Has(conns, conns[cid])
            && (uids[cid] == uid ==> uids' == uids)
            && (uids[cid] != uid ==> Inverse(conns, if uid == 0 then freed else freed[uid := conns[cid]], uids'))
            && (uids[cid] != 0 ==> uids[cid] in users && users[uids[cid]] == conns[cid])
  {
    if uids[cid] == uid {
      WithoutOne(conns, users, uids, uid);
    }
  }

  lemma UnbindInverse(conns: map<int, Conn>, users: map<int, Conn>, uids: map<int, int>, cid: int, uid: int)
    requires SameKeys(uids, conns) && Filed(conns) && Inverse(conns, users, uids)
    requires cid in conns && uid != 0 && uids[cid] == uid
    ensures SameKeys(uids[cid := 0], conns) && Inverse(conns, users - {uid}, uids[cid := 0])
    ensures uid in users && users[uid] == conns[cid] && users[uid].id == cid
  {
  }

  /** The registered connections that a list of targets names. */
  function TargetIds(index: map<int, Conn>, targets: seq<int>): set<int> {
    set i | 0 <= i < |targets| && targets[i] in index :: index[targets[i]].id
  }

  lemma TargetStep(index: map<int, Conn>, targets: seq<int>, i: nat)
    requires i < |targets|
    ensures TargetIds(index, targets[..i + 1]) ==
            if targets[i] in index then TargetIds(index, targets[..i]) + {index[targets[i]].id} else TargetIds(index, targets[..i])
    ensures TargetIds(index, targets[..0]) == {}
  {
    var s := targets[..i + 1];
    assert forall j :: 0 <= j < i ==> s[j] == targets[..i][j];
    assert s[i] == targets[i];
  }

  function WithKey(attrs: map<int, set<string>>, ids: set<int>, key: string): map<int, set<string>> {
    map id | id in attrs :: if id in ids then attrs[id] + {key} else attrs[id]
  }

  function WithoutKey(attrs: map<int, set<string>>, ids: set<int>, key: string): map<int, set<string>> {
    map id | id in attrs :: if id in ids then attrs[id] - {key} else attrs[id]
  }

  lemma KeysTwice(attrs: map<int, set<string>>, a: set<int>, b: set<int>, key: string)
    ensures WithKey(WithKey(attrs, a, key), b, key) == WithKey(attrs, a + b, key)
    ensures WithoutKey(WithoutKey(attrs, a, key), b, key) == WithoutKey(attrs, a + b, key)
    ensures WithKey(attrs, {}, key) == attrs && WithoutKey(attrs, {}, key) == attrs
  {
    forall id | id in attrs
      ensures WithKey(WithKey(attrs, a, key), b, key)[id] == WithKey(attrs, a + b, key)[id]
      ensures WithoutKey(WithoutKey(attrs, a, key), b, key)[id] == WithoutKey(attrs, a + b, key)[id]
    {
    }
  }

  lemma KeysDiffer(ch: string, channel: string)
    requires ChannelKey(ch) == ChannelKey(channel)
    ensures ch == channel
  {
    KeyBack(ch);
    KeyBack(channel);
  }

  lemma JoinListed(conns: map<int, Conn>, channels: map<string, set<Conn>>, attrs: map<int, set<string>>,
                   conn: Conn, channel: string)
    requires SameKeys(attrs, conns) && Filed(conns) && Listed(conns, channels, attrs)
    requires Has(conns, conn) && channel != "" && channel in channels
    ensures var attrs' := attrs[conn.id := attrs[conn.id] + {ChannelKey(channel)}];
            && attrs' == WithKey(attrs, {conn.id}, ChannelKey(channel))
            && SameKeys(attrs', conns)
            && Listed(conns, channels[channel := channels[channel] + {conn}], attrs')
  {
    forall ch | ChannelKey(ch) == ChannelKey(channel) ensures ch == channel {
      KeysDiffer(ch, channel);
    }
    hide ChannelKey;
    var attrs' := attrs[conn.id := attrs[conn.id] + {ChannelKey(channel)}];
    var channels' := channels[channel := channels[channel] + {conn}];
    forall ch, id | id in conns && Carries(attrs'[id], ch) ensures In(channels', ch, conns[id]) {
      assert id != conn.id ==> In(channels, ch, conns[id]);
      assert id == conn.id && ch != channel ==> Carries(attrs[id], ch);
    }
    forall ch, c | ch in channels' && c in channels'[ch] ensures Has(conns, c) && Carries(attrs'[c.id], ch) {
      assert (ch == channel && c == conn) || In(channels, ch, c);
    }
  }

  lemma LeaveListed(conns: map<int, Conn>, channels: map<string, set<Conn>>, channels': map<string, set<Conn>>,
                    attrs: map<int, set<string>>, conn: Conn, channel: string)
    requires SameKeys(attrs, conns) && Filed(conns) && Listed(conns, channels, attrs)
    requires Has(conns, conn) && channel != ""
    requires if ChannelKey(channel) in attrs[conn.id]
             then forall ch, c :: In(channels', ch, c) <==> In(channels, ch, c) && !(ch == channel && c == conn)
             else channels' == channels
    ensures var attrs' := attrs[conn.id := attrs[conn.id] - {ChannelKey(channel)}];
            && attrs' == WithoutKey(attrs, {conn.id}, ChannelKey(channel))
            && SameKeys(attrs', conns)
            && (ChannelKey(channel) !in attrs[conn.id] ==> attrs' == attrs)
            && Listed(conns, channels', attrs')
  {
    var attrs' := attrs[conn.id := attrs[conn.id] - {ChannelKey(channel)}];
    forall ch | ChannelKey(ch) == ChannelKey(channel) ensures ch == channel {
      KeysDiffer(ch, channel);
    }
    hide ChannelKey;
    if ChannelKey(channel) !in attrs[conn.id] {
      assert attrs[conn.id] - {ChannelKey(channel)} == attrs[conn.id];
      assert attrs' == attrs;
    }
    forall ch, c | ch in channels' && c in channels'[ch] ensures Has(conns, c) && Carries(attrs'[c.id], ch) {
      assert In(channels', ch, c);
    }
  }

  lemma NewcomerInverse(conns: map<int, Conn>, users: map<int, Conn>, uids: map<int, int>, conn: Conn, uid: int)
    requires SameKeys(uids, conns) && Filed(conns) && Inverse(conns, users, uids)
    requires conn.id in conns ==> conns[conn.id] == conn && uids[conn.id] == uid
    ensures var uids' := Without(uids, uid)[conn.id := uid];
            var conns' := conns[conn.id := conn];
            && SameKeys(uids', conns') && Filed(conns')
            && Inverse(conns', if uid != 0 then users[uid := conn] else users, uids')
    ensures uid in users && users[uid].id == conn.id ==> users[uid] == conn
  {
  }

  lemma NewcomerListed(conns: map<int, Conn>, channels: map<string, set<Conn>>, attrs: map<int, set<string>>,
                       conn: Conn, keys: set<string>)
    requires SameKeys(attrs, conns) && Listed(conns, channels, attrs)
    requires conn.id in conns ==> conns[conn.id] == conn && attrs[conn.id] == keys
    ensures SameKeys(attrs[conn.id := keys], conns[conn.id := conn])
    ensures Listed(conns[conn.id := conn], channels, attrs[conn.id := keys]) <==>
              Has(conns, conn) || forall ch :: !Carries(keys, ch)
  {
    hide Carries;
    var (conns', attrs') := (conns[conn.id := conn], attrs[conn.id := keys]);
    if Has(conns, conn) {
      assert conns' == conns && attrs' == attrs;
    } else if Listed(conns', channels, attrs') {
      forall ch ensures !Carries(keys, ch) {
        assert !In(channels, ch, conns'[conn.id]);
      }
    }
  }

  lemma LeaverInverse(conns: map<int, Conn>, users: map<int, Conn>, uids: map<int, int>, conn: Conn, uid: int)
    requires SameKeys(uids, conns) && Filed(conns) && Inverse(conns, users, uids)
    requires conn.id in conns ==> conns[conn.id] == conn && uids[conn.id] == uid
    ensures var (uids', conns') := (uids - {conn.id}, conns - {conn.id});
            && SameKeys(uids', conns') && Filed(conns')
            && Inverse(conns', if uid in users && users[uid] == conn then users - {uid} else users, uids')
    ensures uid in users ==> uid != 0 && (users[uid].id == conn.id ==> users[uid] == conn)
  {
  }

  lemma LeaverCarries(conns: map<int, Conn>, channels: map<string, set<Conn>>, attrs: map<int, set<string>>,
                      conn: Conn, keys: set<string>)
    requires SameKeys(attrs, conns) && Listed(conns, channels, attrs)
    requires conn.id in conns ==> attrs[conn.id] == keys
    ensures forall ch :: In(channels, ch, conn) ==> Carries(keys, ch)
  {
  }

  lemma LeaverListed(conns: map<int, Conn>, channels: map<string, set<Conn>>, channels': map<string, set<Conn>>,
                     attrs: map<int, set<string>>, conn: Conn)
    requires SameKeys(attrs, conns) && Listed(conns, channels, attrs) && Filed(conns)
    requires conn.id in conns ==> conns[conn.id] == conn
    requires forall ch, c :: In(channels', ch, c) <==> In(channels, ch, c) && c != conn
    ensures SameKeys(attrs - {conn.id}, conns - {conn.id})
    ensures Listed(conns - {conn.id}, channels', attrs - {conn.id})
  {
    hide Carries;
    forall ch, c | ch in channels' && c in channels'[ch]
      ensures Has(conns - {conn.id}, c) && Carries((attrs - {conn.id})[c.id], ch)
    {
      assert In(channels', ch, c);
    }
  }
}
