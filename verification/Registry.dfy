/** Registered service instances, their release status, and the newest version of each group. */
module Registry {
  import opened Version

  datatype ServiceStatus = Normal | Gray | Test

  const METADATA_STATUS_KEY := "service_status"
  const NODE := "node"
  const GATE := "gate"

  datatype ServiceInstance = ServiceInstance(id: string, kind: string, alias: string, state: string, endpoint: string,
                                             weight: int, gameID: int, version: string, metadata: map<string, string>)

  function ParseServiceStatus(status: string): ServiceStatus {
    if status == "gray" then Gray else if status == "test" then Test else Normal
  }

  function ServiceStatusOf(ins: ServiceInstance): ServiceStatus {
    if METADATA_STATUS_KEY in ins.metadata then ParseServiceStatus(ins.metadata[METADATA_STATUS_KEY])
    else ParseServiceStatus("")
  }

  /** Test is above gray, and gray above normal; any other text counts as normal. */
  function Rank(status: ServiceStatus): nat {
    match status
    case Normal => 0
    case Gray => 1
    case Test => 2
  }

  function TextRank(text: string): nat {
    if text == "test" then 2 else if text == "gray" then 1 else 0
  }

  /** An instance has the status its metadata says. */
  lemma StatusIsText(ins: ServiceInstance)
    ensures Rank(ServiceStatusOf(ins)) ==
            if "service_status" in ins.metadata then TextRank(ins.metadata["service_status"]) else 0
  {
  }

  /** The target status, then the ones it falls back to. */
  function PreferredServiceStatuses(target: string): seq<ServiceStatus> {
    match ParseServiceStatus(target)
    case Test => [Test, Gray, Normal]
    case Gray => [Gray, Normal]
    case Normal => [Normal]
  }

  // ---- groups that compete for the newest version

  datatype Group =
    | OfGame(gameID: int)
    | OfStatus(gameID: int, status: ServiceStatus)
    | OfAlias(kind: string, alias: string)

  predicate InGroup(ins: ServiceInstance, group: Group) {
    match group
    case OfGame(g) => ins.kind == NODE && ins.gameID == g
    case OfStatus(g, s) => ins.kind == NODE && ins.gameID == g && ServiceStatusOf(ins) == s
    case OfAlias(k, a) => ins.kind == k && ins.alias == a
  }

  ghost predicate Populated(services: seq<ServiceInstance>, group: Group) {
    exists ins :: ins in services && InGroup(ins, group)
  }

  /** v is the version of a member, and no member is newer. */
  ghost predicate IsNewest(v: string, services: seq<ServiceInstance>, group: Group) {
    && (exists ins :: ins in services && InGroup(ins, group) && ins.version == v)
    && forall ins :: ins in services && InGroup(ins, group) ==> VersionOrder(v, ins.version) >= 0
  }

  /** What a map entry says about its group: present exactly when somebody is in it, and then the newest version. */
  ghost predicate Tracks(present: bool, v: string, services: seq<ServiceInstance>, group: Group) {
    && (present <==> Populated(services, group))
    && (present ==> IsNewest(v, services, group))
  }

  /** Reading one more instance keeps or replaces the newest version. */
  lemma TrackStep(services: seq<ServiceInstance>, i: nat, group: Group, present: bool, v: string)
    requires i < |services| && Tracks(present, v, services[..i], group)
    ensures var ins := services[i];
            var better := InGroup(ins, group) && (!present || VersionOrder(ins.version, v) > 0);
            Tracks(present || InGroup(ins, group), if better then ins.version else v, services[..i + 1], group)
  {
    hide VersionOrder, InGroup;
    var ins := services[i];
    assert services[..i + 1] == services[..i] + [ins];
    assert ins in services[..i + 1];
    OrderIsAntisymmetric(ins.version, v);
    OrderIsAntisymmetric(ins.version, ins.version);
    if present && VersionOrder(ins.version, v) > 0 {
      forall other | other in services[..i] && InGroup(other, group) ensures VersionOrder(ins.version, other.version) >= 0 {
        OrderIsTransitive(ins.version, v, other.version);
      }
    }
  }

  /** A missing key reads as the empty string. */
  function Lookup<K>(m: map<K, string>, k: K): string {
    if k in m then m[k] else ""
  }

  /** Whether an instance's version replaces the recorded one. */
  method Replaces(ins: ServiceInstance, present: bool, current: string) returns (r: bool)
    ensures r <==> !present || VersionOrder(ins.version, current) > 0
  {
    if !present {
      return true;
    }
    var c := CompareVersion(ins.version, current);
    return c > 0;
  }

  method MaxVersionForGame(services: seq<ServiceInstance>) returns (maxVersions: map<int, string>)
    ensures forall g :: Tracks(g in maxVersions, Lookup(maxVersions, g), services, OfGame(g))
  {
    maxVersions := map[];
    assert services[..0] == [];
    for i := 0 to |services|
      invariant forall g :: Tracks(g in maxVersions, Lookup(maxVersions, g), services[..i], OfGame(g))
    {
      hide Tracks;
      ghost var before := maxVersions;
      var ins := services[i];
      if ins.kind == NODE {
        var replace := Replaces(ins, ins.gameID in maxVersions, Lookup(maxVersions, ins.gameID));
        if replace {
          maxVersions := maxVersions[ins.gameID := ins.version];
        }
      }
      forall g ensures Tracks(g in maxVersions, Lookup(maxVersions, g), services[..i + 1], OfGame(g)) {
        TrackStep(services, i, OfGame(g), g in before, Lookup(before, g));
      }
    }
    assert services[..|services|] == services;
  }

  method MaxVersionByKindAlias(services: seq<ServiceInstance>, kind: string) returns (maxVersions: map<string, string>)
    ensures forall a :: Tracks(a in maxVersions, Lookup(maxVersions, a), services, OfAlias(kind, a))
  {
    maxVersions := map[];
    assert services[..0] == [];
    for i := 0 to |services|
      invariant forall a :: Tracks(a in maxVersions, Lookup(maxVersions, a), services[..i], OfAlias(kind, a))
    {
      hide Tracks;
      ghost var before := maxVersions;
      var ins := services[i];
      if ins.kind == kind {
        var replace := Replaces(ins, ins.alias in maxVersions, Lookup(maxVersions, ins.alias));
        if replace {
          maxVersions := maxVersions[ins.alias := ins.version];
        }
      }
      forall a ensures Tracks(a in maxVersions, Lookup(maxVersions, a), services[..i + 1], OfAlias(kind, a)) {
        TrackStep(services, i, OfAlias(kind, a), a in before, Lookup(before, a));
      }
    }
    assert services[..|services|] == services;
  }

  type StatusVersions = map<ServiceStatus, string>

  function StatusGroup(m: map<int, StatusVersions>, g: int): StatusVersions {
    if g in m then m[g] else map[]
  }

  /** The nested map holds the newest version of every populated status of every game, and nothing else. */
  ghost predicate TracksStatuses(m: map<int, StatusVersions>, services: seq<ServiceInstance>) {
    && (forall g :: g in m <==> Populated(services, OfGame(g)))
    && forall g, s :: Tracks(s in StatusGroup(m, g), Lookup(StatusGroup(m, g), s), services, OfStatus(g, s))
  }

  method MaxVersionForGameByServiceStatus(services: seq<ServiceInstance>) returns (maxVersions: map<int, StatusVersions>)
    ensures TracksStatuses(maxVersions, services)
  {
    maxVersions := map[];
    assert services[..0] == [];
    for i := 0 to |services|
      invariant TracksStatuses(maxVersions, services[..i])
    {
      var ins := services[i];
      StatusesStep(services, i, maxVersions);
      hide TracksStatuses, VersionOrder, ServiceStatusOf;
      ghost var before := maxVersions;
      if ins.kind == NODE {
        var status := ServiceStatusOf(ins);
        var group := StatusGroup(maxVersions, ins.gameID);
        var replace := Replaces(ins, status in group, Lookup(group, status));
        if replace {
          group := group[status := ins.version];
        }
        maxVersions := maxVersions[ins.gameID := group];
      }
      assert maxVersions == Recorded(before, ins);
    }
    assert services[..|services|] == services;
  }

  ghost function Recorded(m: map<int, StatusVersions>, ins: ServiceInstance): map<int, StatusVersions> {
    if ins.kind != NODE then m else
      var group, status := StatusGroup(m, ins.gameID), ServiceStatusOf(ins);
      var replace := status !in group || VersionOrder(ins.version, group[status]) > 0;
      m[ins.gameID := if replace then group[status := ins.version] else group]
  }

  lemma StatusesStep(services: seq<ServiceInstance>, i: nat, m: map<int, StatusVersions>)
    requires i < |services| && TracksStatuses(m, services[..i])
    ensures TracksStatuses(Recorded(m, services[i]), services[..i + 1])
  {
    PopulatedStep(services, i);
    hide Tracks, Populated, VersionOrder, ServiceStatusOf, StatusGroup, Recorded, InGroup;
    var after := Recorded(m, services[i]);
    forall g, s ensures Tracks(s in StatusGroup(after, g), Lookup(StatusGroup(after, g), s), services[..i + 1], OfStatus(g, s)) {
      StatusStep(services, i, m, g, s);
    }
    RecordedGames(m, services[i]);
  }

  lemma RecordedGames(m: map<int, StatusVersions>, ins: ServiceInstance)
    ensures forall g :: g in Recorded(m, ins) <==> g in m || InGroup(ins, OfGame(g))
  {
  }

  lemma StatusStep(services: seq<ServiceInstance>, i: nat, m: map<int, StatusVersions>, g: int, s: ServiceStatus)
    requires i < |services|
    requires Tracks(s in StatusGroup(m, g), Lookup(StatusGroup(m, g), s), services[..i], OfStatus(g, s))
    ensures var after := StatusGroup(Recorded(m, services[i]), g);
            Tracks(s in after, Lookup(after, s), services[..i + 1], OfStatus(g, s))
  {
    hide Tracks, VersionOrder, ServiceStatusOf;
    TrackStep(services, i, OfStatus(g, s), s in StatusGroup(m, g), Lookup(StatusGroup(m, g), s));
  }

  lemma PopulatedStep(services: seq<ServiceInstance>, i: nat)
    requires i < |services|
    ensures forall group :: Populated(services[..i + 1], group) <==> Populated(services[..i], group) || InGroup(services[i], group)
  {
    assert services[..i + 1] == services[..i] + [services[i]];
    assert services[i] in services[..i + 1];
  }

  method IsLatestVersion(ins: ServiceInstance, maxVersion: string) returns (r: bool)
    ensures r <==> VersionOrder(ins.version, maxVersion) >= 0
  {
    var c := CompareVersion(ins.version, maxVersion);
    return c >= 0;
  }

  /** Being at least as new as the newest version is being newest. */
  lemma LatestIsNewest(ins: ServiceInstance, v: string, services: seq<ServiceInstance>, group: Group)
    requires ins in services && InGroup(ins, group) && IsNewest(v, services, group)
    ensures VersionOrder(ins.version, v) >= 0 <==> IsNewest(ins.version, services, group)
  {
    hide VersionOrder;
    if VersionOrder(ins.version, v) >= 0 {
      forall other | other in services && InGroup(other, group) ensures VersionOrder(ins.version, other.version) >= 0 {
        OrderIsTransitive(ins.version, v, other.version);
      }
    }
  }
}
