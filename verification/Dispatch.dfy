/** The dispatch index: instances bucketed by game, status and state, and picked by weighted round robin. */
module Dispatch {
  import opened Optional
  import opened Version
  import opened Registry
  import opened RoundRobin
  import opened Rotation

  /** A parsed address; how text is parsed is a parameter of this model. */
  type Address = string

  const WORK := "work"
  const BUSY := "busy"
  const HANG := "hang"
  const SHUT := "shut"

  class ServiceEndpoint {
    const insID: string
    const state: string
    const status: ServiceStatus
    const endpoint: Address
    const weight: int
    var currWeight: int
    /** The instance this was made from, and its place among the registered services. */
    ghost const source: ServiceInstance
    ghost const place: nat

    constructor (service: ServiceInstance, ep: Address, ghost at: nat)
      ensures insID == service.id && state == service.state && status == ServiceStatusOf(service)
      ensures endpoint == ep && weight == service.weight && currWeight == 0
      ensures source == service && place == at
    {
      insID, state, status := service.id, service.state, ServiceStatusOf(service);
      endpoint, weight, currWeight := ep, service.weight, 0;
      source, place := service, at;
    }
  }

  /** The lists instances are kept in; an instance in any other state is in none of them. */
  datatype Class = Working(status: ServiceStatus) | Busying(status: ServiceStatus) | Hanging | Shutting | Nowhere

  function ClassOf(status: ServiceStatus, state: string): Class {
    if state == WORK then Working(status)
    else if state == BUSY then Busying(status)
    else if state == HANG then Hanging
    else if state == SHUT then Shutting
    else Nowhere
  }

  /** The order in which a request falls back. */
  function Fallback(statuses: seq<ServiceStatus>): (order: seq<Class>)
    ensures |order| == 2 * |statuses|
  {
    if statuses == [] then [] else [Working(statuses[0]), Busying(statuses[0])] + Fallback(statuses[1..])
  }

  /** A request for this text may be served by working or busy endpoints up to its rank. */
  predicate Serves(se: ServiceEndpoint, text: string) {
    (se.state == "work" || se.state == "busy") && Rank(se.status) <= TextRank(text)
  }

  /** The higher rank comes first, and within it work before busy. */
  predicate Beats(a: ServiceEndpoint, b: ServiceEndpoint) {
    Rank(a.status) > Rank(b.status) || (Rank(a.status) == Rank(b.status) && a.state == "work" && b.state == "busy")
  }

  predicate ServedClass(c: Class, text: string) {
    match c
    case Working(s) => Rank(s) <= TextRank(text)
    case Busying(s) => Rank(s) <= TextRank(text)
    case _ => false
  }

  function ClassRank(c: Class): nat {
    match c
    case Working(s) => 2 * Rank(s) + 1
    case Busying(s) => 2 * Rank(s)
    case _ => 0
  }

  /** The fallback order is all classes that may serve, from the highest down. */
  lemma FallbackOrder(text: string)
    ensures var order := Fallback(PreferredServiceStatuses(text));
            && (forall i, j :: 0 <= i < j < |order| ==> ClassRank(order[i]) > ClassRank(order[j]))
            && (forall c :: c in order <==> ServedClass(c, text))
  {
    var statuses := PreferredServiceStatuses(text);
    FallbackUnfold(statuses);
    if |statuses| > 1 {
      FallbackUnfold(statuses[1..]);
      if |statuses| > 2 {
        FallbackUnfold(statuses[2..]);
        assert Fallback(statuses) == [Working(Test), Busying(Test), Working(Gray), Busying(Gray), Working(Normal), Busying(Normal)];
      } else {
        assert Fallback(statuses) == [Working(Gray), Busying(Gray), Working(Normal), Busying(Normal)];
      }
    } else {
      assert Fallback(statuses) == [Working(Normal), Busying(Normal)];
    }
  }

  lemma ClassServes(se: ServiceEndpoint, text: string)
    ensures Serves(se, text) <==> ServedClass(ClassOf(se.status, se.state), text)
  {
  }

  lemma ClassBeats(a: ServiceEndpoint, b: ServiceEndpoint, text: string)
    requires Serves(a, text) && Serves(b, text)
    ensures Beats(a, b) <==> ClassRank(ClassOf(a.status, a.state)) > ClassRank(ClassOf(b.status, b.state))
    ensures ClassRank(ClassOf(a.status, a.state)) == ClassRank(ClassOf(b.status, b.state)) ==>
              ClassOf(a.status, a.state) == ClassOf(b.status, b.state)
  {
  }

  lemma FallbackUnfold(statuses: seq<ServiceStatus>)
    requires statuses != []
    ensures Fallback(statuses) == [Working(statuses[0]), Busying(statuses[0])] + Fallback(statuses[1..])
  {
  }

  datatype Policy = RandomPolicy | RoundRobinPolicy | WeightRoundRobinPolicy

  class GameRoute {
    const gameID: int
    const group: string
    var endpoints1: seq<ServiceEndpoint>
    var endpoints2: seq<ServiceEndpoint>
    var endpoints3: seq<ServiceEndpoint>
    var endpoints4: seq<ServiceEndpoint>
    var endpoints5: map<string, ServiceEndpoint>
    var endpoints6: seq<ServiceEndpoint>
    var endpoints7: seq<ServiceEndpoint>
    var endpoints8: seq<ServiceEndpoint>
    var endpoints9: seq<ServiceEndpoint>
    var counter: Word64

    ghost function List(c: Class): seq<ServiceEndpoint>
      reads this`endpoints1, this`endpoints2, this`endpoints3, this`endpoints4
      reads this`endpoints6, this`endpoints7, this`endpoints8, this`endpoints9
    {
      match c
      case Working(Normal) => endpoints1
      case Busying(Normal) => endpoints2
      case Hanging => endpoints3
      case Shutting => endpoints4
      case Working(Test) => endpoints6
      case Busying(Test) => endpoints7
      case Working(Gray) => endpoints8
      case Busying(Gray) => endpoints9
      case Nowhere => []
    }

    /** Every list holds endpoints of its own class in registration order, so none twice. */
    ghost predicate Valid()
      reads this
    {
      forall c :: OfClass(List(c), c) && InOrder(List(c))
    }

    constructor (gameID: int, group: string)
      ensures this.gameID == gameID && this.group == group
      ensures Valid() && endpoints5 == map[] && forall c :: List(c) == []
    {
      this.gameID, this.group := gameID, group;
      endpoints1, endpoints2, endpoints3, endpoints4, endpoints5 := [], [], [], [], map[];
      endpoints6, endpoints7, endpoints8, endpoints9, counter := [], [], [], [], 0;
    }

    twostate lemma SameLists()
      requires unchanged(`endpoints1, `endpoints2, `endpoints3, `endpoints4, `endpoints6, `endpoints7, `endpoints8, `endpoints9)
      ensures forall c :: List(c) == old(List(c))
    {
    }

    /** The identifier index always takes the endpoint; the lists only when it may be balanced. */
    method AddServiceEndpoint(se: ServiceEndpoint, balance: bool)
      requires Valid()
      requires forall c :: AllBefore(List(c), se.place)
      modifies this
      ensures endpoints5 == old(endpoints5)[se.insID := se]
      ensures forall c :: List(c) == if balance && Lists(c, se) then old(List(c)) + [se] else old(List(c))
      ensures Valid()
    {
      hide List, ClassOf, InOrder, OfClass, AllBefore;
      endpoints5 := endpoints5[se.insID := se];
      SameLists();
      if balance {
        AddToList(se);
      }
      forall c ensures OfClass(List(c), c) && InOrder(List(c)) {
        ListGrows(old(List(c)), c, se);
      }
    }

    method AddToList(se: ServiceEndpoint)
      modifies this
      ensures endpoints5 == old(endpoints5)
      ensures forall c :: List(c) == if Lists(c, se) then old(List(c)) + [se] else old(List(c))
    {
      match se.status {
        case Test =>
          if se.state == WORK {
            endpoints6 := endpoints6 + [se];
          } else if se.state == BUSY {
            endpoints7 := endpoints7 + [se];
          } else if se.state == HANG {
            endpoints3 := endpoints3 + [se];
          } else if se.state == SHUT {
            endpoints4 := endpoints4 + [se];
          }
        case Gray =>
          if se.state == WORK {
            endpoints8 := endpoints8 + [se];
          } else if se.state == BUSY {
            endpoints9 := endpoints9 + [se];
          } else if se.state == HANG {
            endpoints3 := endpoints3 + [se];
          } else if se.state == SHUT {
            endpoints4 := endpoints4 + [se];
          }
        case Normal =>
          if se.state == WORK {
            endpoints1 := endpoints1 + [se];
          } else if se.state == BUSY {
            endpoints2 := endpoints2 + [se];
          } else if se.state == HANG {
            endpoints3 := endpoints3 + [se];
          } else if se.state == SHUT {
            endpoints4 := endpoints4 + [se];
          }
      }
    }

    /** The first non-empty list. */
    ghost function FirstNonEmpty(order: seq<Class>): seq<ServiceEndpoint>
      reads this`endpoints1, this`endpoints2, this`endpoints3, this`endpoints4
      reads this`endpoints6, this`endpoints7, this`endpoints8, this`endpoints9
      decreases order
    {
      if order == [] then [] else if List(order[0]) != [] then List(order[0]) else FirstNonEmpty(order[1..])
    }

    ghost function Chosen(status: string): seq<ServiceEndpoint>
      reads this`endpoints1, this`endpoints2, this`endpoints3, this`endpoints4
      reads this`endpoints6, this`endpoints7, this`endpoints8, this`endpoints9
    {
      FirstNonEmpty(Fallback(PreferredServiceStatuses(status)))
    }

    ghost predicate IsBest(se: ServiceEndpoint, status: string)
      reads this`endpoints1, this`endpoints2, this`endpoints3, this`endpoints4
      reads this`endpoints6, this`endpoints7, this`endpoints8, this`endpoints9
    {
      && se in Listed() && Serves(se, status)
      && forall other :: other in Listed() && Serves(other, status) ==> !Beats(other, se)
    }

    /** What a request gets: of the listed endpoints that may serve it, those no other beats, in registration order. */
    method BalanceEndpoints(status: string) returns (r: seq<ServiceEndpoint>)
      ensures r == Chosen(status)
      ensures Valid() ==> InOrder(r) && forall se :: se in r <==> IsBest(se, status)
    {
      r := FirstList(status);
      ghost var valid := Valid();
      if valid {
        FirstNonEmptyOrdered(Fallback(PreferredServiceStatuses(status)));
        ChosenIsBest(status);
      }
    }

    lemma ChosenIsBest(status: string)
      requires Valid()
      ensures forall se :: se in Chosen(status) <==> IsBest(se, status)
    {
      var order, r := Fallback(PreferredServiceStatuses(status)), Chosen(status);
      FallbackOrder(status);
      var k := FirstPopulated(this, order);
      hide List, Listed, Fallback, PreferredServiceStatuses, ClassRank, ServedClass, Serves, Beats, ClassOf, FirstNonEmpty;
      forall se | se in r ensures IsBest(se, status) {
        ClassServes(se, status);
        assert ClassOf(se.status, se.state) == order[k];
        forall other | other in Listed() && Serves(other, status) ensures !Beats(other, se) {
          var j := PlaceInOrder(status, other);
          ClassBeats(other, se, status);
        }
      }
      forall se | IsBest(se, status) ensures se in r {
        var j := PlaceInOrder(status, se);
        var first := r[0];
        ClassServes(first, status);
        ClassBeats(first, se, status);
        assert first in Listed() && ClassOf(first.status, first.state) == order[k];
      }
    }

    /** An endpoint that may serve is in the list of a class of the fallback order. */
    lemma PlaceInOrder(status: string, se: ServiceEndpoint) returns (j: nat)
      requires Valid() && se in Listed() && Serves(se, status)
      ensures var order := Fallback(PreferredServiceStatuses(status));
              && j < |order| && order[j] == ClassOf(se.status, se.state) && se in List(order[j])
    {
      FallbackOrder(status);
      ClassServes(se, status);
      hide List, Listed, Fallback, PreferredServiceStatuses, ServedClass, ClassOf;
      var c :| se in List(c);
      var i :| 0 <= i < |List(c)| && List(c)[i] == se;
      assert ClassOf(List(c)[i].status, List(c)[i].state) == c;
      var order := Fallback(PreferredServiceStatuses(status));
      assert c in order;
      var k :| 0 <= k < |order| && order[k] == c;
      j := k;
    }

    method FirstList(status: string) returns (r: seq<ServiceEndpoint>)
      ensures r == Chosen(status)
    {
      hide List;
      var preferred := PreferredServiceStatuses(status);
      for i := 0 to |preferred|
        invariant Chosen(status) == FirstNonEmpty(Fallback(preferred[i..]))
      {
        var rest := preferred[i..];
        assert rest[1..] == preferred[i + 1..];
        FirstTwo(rest);
        var work, busy := WorkAndBusy(preferred[i]);
        if |work| > 0 {
          return work;
        }
        if |busy| > 0 {
          return busy;
        }
      }
      return [];
    }

    lemma FirstTwo(statuses: seq<ServiceStatus>)
      requires statuses != []
      ensures FirstNonEmpty(Fallback(statuses)) ==
              if List(Working(statuses[0])) != [] then List(Working(statuses[0]))
              else if List(Busying(statuses[0])) != [] then List(Busying(statuses[0]))
              else FirstNonEmpty(Fallback(statuses[1..]))
    {
      hide *;
      var rest := Fallback(statuses[1..]);
      var order := [Busying(statuses[0])] + rest;
      FallbackUnfold(statuses);
      FirstNonEmptyUnfold([Working(statuses[0])] + order);
      FirstNonEmptyUnfold(order);
      assert ([Working(statuses[0])] + order)[1..] == order && order[1..] == rest;
      assert [Working(statuses[0])] + order == [Working(statuses[0]), Busying(statuses[0])] + rest;
    }

    lemma FirstNonEmptyUnfold(order: seq<Class>)
      requires order != []
      ensures FirstNonEmpty(order) == if List(order[0]) != [] then List(order[0]) else FirstNonEmpty(order[1..])
    {
    }

    method WorkAndBusy(status: ServiceStatus) returns (work: seq<ServiceEndpoint>, busy: seq<ServiceEndpoint>)
      ensures work == List(Working(status)) && busy == List(Busying(status))
    {
      match status {
        case Test => return endpoints6, endpoints7;
        case Gray => return endpoints8, endpoints9;
        case Normal => return endpoints1, endpoints2;
      }
    }

    /** Each endpoint of the chosen bucket earns its weight; the first that is furthest ahead is picked and pays
        the total. Nothing outside the bucket changes. */
    method WeightRoundRobinDispatch(status: string) returns (r: Option<ServiceEndpoint>)
      requires Valid()
      modifies Chosen(status)
      ensures var bucket := Chosen(status);
              if bucket == [] then r == None else
                var (k, after) := old(Pick(Currents(bucket), Weights(bucket)));
                r == Some(bucket[k]) && Currents(bucket) == after
    {
      hide Pick, Currents, Weights, List;
      var endpoints := BalanceEndpoints(status);
      if |endpoints| == 0 {
        return None;
      }
      ChosenDistinct(status);
      ghost var pick := Pick(Currents(endpoints), Weights(endpoints));
      var selected := PickFrom(endpoints);
      assert selected == endpoints[pick.0];
      assert Currents(endpoints) == pick.1;
      assert Chosen(status) == endpoints;
      assert old(Pick(Currents(endpoints), Weights(endpoints))) == pick;
      return Some(selected);
    }

    ghost function ChosenAll(statuses: seq<string>): (chosen: seq<seq<ServiceEndpoint>>)
      reads this`endpoints1, this`endpoints2, this`endpoints3, this`endpoints4
      reads this`endpoints6, this`endpoints7, this`endpoints8, this`endpoints9
      ensures |chosen| == |statuses|
      ensures forall t :: 0 <= t < |statuses| ==> chosen[t] == Chosen(statuses[t])
    {
      if statuses == [] then [] else ChosenAll(statuses[..|statuses| - 1]) + [Chosen(statuses[|statuses| - 1])]
    }

    lemma ChosenIsList(order: seq<Class>) returns (c: Class)
      ensures FirstNonEmpty(order) == List(c)
    {
      hide List;
      if order == [] {
        c := NothingNowhere();
      } else if List(order[0]) != [] {
        c := order[0];
      } else {
        c := ChosenIsList(order[1..]);
      }
    }

    lemma NothingNowhere() returns (c: Class)
      ensures List(c) == []
    {
      c := Nowhere;
    }

    /** Every endpoint that is in some list. */
    ghost function Listed(): (all: set<ServiceEndpoint>)
      reads this`endpoints1, this`endpoints2, this`endpoints3, this`endpoints4
      reads this`endpoints6, this`endpoints7, this`endpoints8, this`endpoints9
      ensures forall c, se :: se in List(c) ==> se in all
      ensures forall se :: se in all ==> exists c :: se in List(c)
    {
      assert List(Working(Normal)) == endpoints1 && List(Busying(Normal)) == endpoints2;
      assert List(Hanging) == endpoints3 && List(Shutting) == endpoints4;
      assert List(Working(Test)) == endpoints6 && List(Busying(Test)) == endpoints7;
      assert List(Working(Gray)) == endpoints8 && List(Busying(Gray)) == endpoints9;
      (set se | se in endpoints1 + endpoints2 + endpoints3 + endpoints4)
      + (set se | se in endpoints6 + endpoints7 + endpoints8 + endpoints9)
    }

    ghost predicate AllFollow(before: imap<Class, seq<int>>, chosen: seq<seq<ServiceEndpoint>>, answers: seq<Option<ServiceEndpoint>>)
      reads this, Listed()
    {
      forall c: Class :: c in before && Follows(List(c), before[c], Currents(List(c)), chosen, answers)
    }

    method ServeNext(status: string, ghost before: imap<Class, seq<int>>,
                     ghost chosen: seq<seq<ServiceEndpoint>>, ghost answers: seq<Option<ServiceEndpoint>>)
      returns (answer: Option<ServiceEndpoint>)
      requires Valid() && AllFollow(before, chosen, answers)
      modifies Listed()
      ensures Chosen(status) == [] ==> answer == None
      ensures AllFollow(before, chosen + [Chosen(status)], answers + [answer])
    {
      hide List, Pick, Follows, Weights, FirstNonEmpty, Listed;
      ghost var served := Chosen(status);
      ghost var home := ChosenIsList(Fallback(PreferredServiceStatuses(status)));
      answer := WeightRoundRobinDispatch(status);
      forall c: Class ensures Follows(List(c), before[c], Currents(List(c)), chosen + [served], answers + [answer]) {
        if c != home {
          ListsApart(c, home);
        }
        if List(c) == [] {
          FollowsNothing(List(c), before[c], Currents(List(c)), chosen + [served], answers + [answer]);
        } else {
          FollowsStep(List(c), before[c], old(Currents(List(c))), Currents(List(c)), chosen, answers, served, answer);
        }
      }
    }

    /** A run of requests. What falls on one list is what consecutive picks from it alone would have given. */
    method Serve(statuses: seq<string>) returns (answers: seq<Option<ServiceEndpoint>>)
      requires Valid()
      modifies Listed()
      ensures |answers| == |statuses|
      ensures forall t :: 0 <= t < |statuses| && Chosen(statuses[t]) == [] ==> answers[t] == None
      ensures forall c :: Follows(List(c), old(Currents(List(c))), Currents(List(c)), ChosenAll(statuses), answers)
    {
      hide List, Follows, Chosen, Currents, Listed, AllFollow, Valid;
      answers := [];
      ghost var before, chosen := imap c: Class :: Currents(List(c)), ChosenAll(statuses);
      AllFollowStart(before);
      for i := 0 to |statuses|
        invariant |answers| == i
        invariant forall t :: 0 <= t < i && Chosen(statuses[t]) == [] ==> answers[t] == None
        invariant AllFollow(before, chosen[..i], answers)
      {
        var answer := ServeNext(statuses[i], before, chosen[..i], answers);
        answers := answers + [answer];
        assert chosen[..i + 1] == chosen[..i] + [chosen[i]];
      }
      assert chosen[..|statuses|] == chosen;
      AllFollowIs(before, chosen, answers);
    }

    lemma AllFollowStart(before: imap<Class, seq<int>>)
      requires forall c: Class :: c in before && before[c] == Currents(List(c))
      ensures AllFollow(before, [], [])
    {
      hide List, Currents, Follows;
      forall c: Class ensures Follows(List(c), before[c], Currents(List(c)), [], []) {
        FollowsStart(List(c), Currents(List(c)));
      }
    }

    lemma AllFollowIs(before: imap<Class, seq<int>>, chosen: seq<seq<ServiceEndpoint>>, answers: seq<Option<ServiceEndpoint>>)
      requires AllFollow(before, chosen, answers)
      ensures forall c: Class :: c in before && Follows(List(c), before[c], Currents(List(c)), chosen, answers)
    {
    }

    /** A run of requests by plain round robin: every answered request moves the one counter on, whatever its list. */
    method ServeInTurn(statuses: seq<string>) returns (answers: seq<Option<ServiceEndpoint>>)
      modifies this`counter
      ensures InTurn(old(counter), ChosenAll(statuses), answers)
      ensures counter == Turn(old(counter), Served(ChosenAll(statuses)))
    {
      hide List, Chosen, Turn, Landing, InTurn, Served;
      answers := [];
      ghost var chosen := ChosenAll(statuses);
      TurnNothing(counter);
      InTurnStart(counter);
      for i := 0 to |statuses|
        invariant InTurn(old(counter), chosen[..i], answers)
        invariant counter == Turn(old(counter), Served(chosen[..i]))
      {
        TurnOn(old(counter), Served(chosen[..i]), |chosen[i]|);
        var answer := RoundRobinDispatch(statuses[i]);
        InTurnStep(old(counter), chosen[..i], answers, chosen[i], answer);
        assert chosen[..i + 1] == chosen[..i] + [chosen[i]];
        answers := answers + [answer];
      }
      assert chosen[..|statuses|] == chosen;
    }

    /** In an index of these services: the instance of this game registered last under the identifier, whatever its
        state, status or version, and none exactly if no such instance parses. */
    method DirectDispatch(insID: string, ghost all: seq<ServiceInstance>, ghost parse: string -> Option<Address>)
      returns (r: Option<ServiceEndpoint>)
      ensures r == if insID in endpoints5 then Some(endpoints5[insID]) else None
      ensures DirectIs(endpoints5, all, parse, |all|, gameID) ==> FoundIs(r, all, parse, gameID, insID)
    {
      LastWithIs(all, parse, |all|, gameID, insID);
      if insID !in endpoints5 {
        return None;
      }
      return Some(endpoints5[insID]);
    }

    /** Any endpoint of the chosen bucket; the draw below its length is a parameter. */
    method RandomDispatch(status: string, draw: nat) returns (r: Option<ServiceEndpoint>)
      requires draw < |Chosen(status)| || Chosen(status) == []
      ensures if Chosen(status) == [] then r == None else r.Some? && r.value in Chosen(status)
    {
      var endpoints := BalanceEndpoints(status);
      if |endpoints| > 0 {
        return Some(endpoints[draw]);
      }
      return None;
    }

    /** The next endpoint of the chosen bucket, by a 64-bit counter that all buckets of the route share. */
    method RoundRobinDispatch(status: string) returns (r: Option<ServiceEndpoint>)
      modifies this`counter
      ensures counter == if Chosen(status) == [] then old(counter) else Turn(old(counter), 1)
      ensures r == if Chosen(status) == [] then None else Some(Chosen(status)[Landing(old(counter), |Chosen(status)|, 1)])
    {
      hide List;
      var endpoints := BalanceEndpoints(status);
      if |endpoints| > 0 {
        counter := Turn(counter, 1);
        return Some(endpoints[counter % |endpoints|]);
      }
      return None;
    }

    /** A named instance is looked up directly; otherwise the policy picks from the chosen bucket. */
    method FindServiceEndpoint(policy: Policy, status: string, insID: string, draw: nat,
                               ghost all: seq<ServiceInstance>, ghost parse: string -> Option<Address>)
      returns (r: Option<ServiceEndpoint>)
      requires Valid() && (draw < |Chosen(status)| || Chosen(status) == [])
      modifies this`counter, Chosen(status)
      ensures insID != "" && DirectIs(endpoints5, all, parse, |all|, gameID) ==> FoundIs(r, all, parse, gameID, insID)
      ensures insID != "" ==> r == if insID in endpoints5 then Some(endpoints5[insID]) else None
      ensures insID == "" ==> if Chosen(status) == [] then r == None else r.Some? && r.value in Chosen(status)
      ensures var bucket := Chosen(status);
              if insID == "" && policy.RoundRobinPolicy? && bucket != [] then
                counter == Turn(old(counter), 1) && r == Some(bucket[Landing(old(counter), |bucket|, 1)])
              else
                counter == old(counter)
      ensures var bucket := Chosen(status);
              if insID == "" && policy.WeightRoundRobinPolicy? && bucket != [] then
                var (k, after) := old(Pick(Currents(bucket), Weights(bucket)));
                r == Some(bucket[k]) && Currents(bucket) == after
              else
                Currents(bucket) == old(Currents(bucket))
    {
      hide List, Valid, Pick, Currents, Weights, DirectIs;
      ghost var bucket := Chosen(status);
      ghost var before := Currents(bucket);
      if insID == "" {
        match policy {
          case RoundRobinPolicy => r := RoundRobinDispatch(status);
          case WeightRoundRobinPolicy => r := WeightRoundRobinDispatch(status);
          case RandomPolicy => r := RandomDispatch(status, draw);
        }
        assert !policy.WeightRoundRobinPolicy? || bucket == [] ==> Currents(bucket) == before;
        return;
      }
      r := DirectDispatch(insID, all, parse);
    }

    /** Picks from one list leave the weights of every other list alone. */
    lemma ListsApart(c: Class, c': Class)
      requires Valid() && c != c'
      ensures forall se :: se in List(c) ==> se !in List(c')
    {
      hide List, ClassOf;
      assert OfClass(List(c), c) && OfClass(List(c'), c');
    }

    lemma ChosenDistinct(status: string)
      requires Valid()
      ensures Distinct(Chosen(status))
    {
      hide List;
      FirstNonEmptyOrdered(Fallback(PreferredServiceStatuses(status)));
    }

    lemma FirstNonEmptyOrdered(order: seq<Class>)
      requires Valid()
      ensures InOrder(FirstNonEmpty(order))
    {
      hide List;
      if order != [] && List(order[0]) == [] {
        FirstNonEmptyOrdered(order[1..]);
      }
    }
  }

  predicate Lists(c: Class, se: ServiceEndpoint) {
    ClassOf(se.status, se.state) == c && c != Nowhere
  }

  ghost predicate OfClass(list: seq<ServiceEndpoint>, c: Class) {
    forall j :: 0 <= j < |list| ==> ClassOf(list[j].status, list[j].state) == c
  }

  ghost predicate InOrder(list: seq<ServiceEndpoint>) {
    forall j, k :: 0 <= j < k < |list| ==> list[j].place < list[k].place
  }

  ghost predicate AllBefore(list: seq<ServiceEndpoint>, place: nat) {
    forall j :: 0 <= j < |list| ==> list[j].place < place
  }

  lemma ListGrows(list: seq<ServiceEndpoint>, c: Class, se: ServiceEndpoint)
    requires OfClass(list, c) && InOrder(list) && AllBefore(list, se.place)
    ensures InOrder(list + [se]) && (Lists(c, se) ==> OfClass(list + [se], c))
  {
    hide ClassOf;
  }

  function Weights(endpoints: seq<ServiceEndpoint>): (w: seq<int>)
    ensures |w| == |endpoints|
  {
    seq(|endpoints|, i requires 0 <= i < |endpoints| => endpoints[i].weight)
  }

  function Currents(endpoints: seq<ServiceEndpoint>): (c: seq<int>)
    reads endpoints
    ensures |c| == |endpoints|
  {
    seq(|endpoints|, i requires 0 <= i < |endpoints| reads endpoints => endpoints[i].currWeight)
  }

  predicate Distinct(endpoints: seq<ServiceEndpoint>) {
    forall j, k :: 0 <= j < k < |endpoints| ==> endpoints[j] != endpoints[k]
  }

  /** The weighted round robin loop over one bucket. */
  method PickFrom(endpoints: seq<ServiceEndpoint>) returns (selected: ServiceEndpoint)
    requires endpoints != [] && Distinct(endpoints)
    modifies endpoints
    ensures var (k, after) := old(Pick(Currents(endpoints), Weights(endpoints)));
            selected == endpoints[k] && Currents(endpoints) == after
  {
    hide Sum, Winner, IsWinner, Weights, Currents, Bumped;
    ghost var b := Bumped(Currents(endpoints), Weights(endpoints));
    var best, totalWeight := EarnWeights(endpoints);
    ghost var k := Winner(b);
    CurrentsAt(endpoints);
    selected := best;
    selected.currWeight := selected.currWeight - totalWeight;
    CurrentsAre(endpoints, b[k := b[k] - totalWeight]);
  }

  lemma CurrentsAt(endpoints: seq<ServiceEndpoint>)
    ensures forall j :: 0 <= j < |endpoints| ==> endpoints[j].currWeight == Currents(endpoints)[j]
  {
  }

  lemma CurrentsAre(endpoints: seq<ServiceEndpoint>, s: seq<int>)
    requires |s| == |endpoints| && forall j :: 0 <= j < |endpoints| ==> endpoints[j].currWeight == s[j]
    ensures Currents(endpoints) == s
  {
  }

  method EarnWeights(endpoints: seq<ServiceEndpoint>) returns (best: ServiceEndpoint, totalWeight: int)
    requires endpoints != [] && Distinct(endpoints)
    modifies endpoints
    ensures Currents(endpoints) == old(Bumped(Currents(endpoints), Weights(endpoints)))
    ensures best == endpoints[Winner(Currents(endpoints))] && totalWeight == Sum(Weights(endpoints))
  {
    hide Sum, Winner, IsWinner;
    ghost var c, w := Currents(endpoints), Weights(endpoints);
    ghost var b := Bumped(c, w);
    totalWeight := 0;
    var selected: ServiceEndpoint? := null;
    ghost var k: nat := 0;
    SumNothing(w);
    for i := 0 to |endpoints|
      invariant totalWeight == Sum(w[..i])
      invariant forall j :: 0 <= j < |endpoints| ==> endpoints[j].currWeight == if j < i then b[j] else c[j]
      invariant i == 0 <==> selected == null
      invariant i > 0 ==> k < i && selected == endpoints[k] && IsWinner(b[..i], k)
    {
      var se := endpoints[i];
      se.currWeight := se.currWeight + se.weight;
      totalWeight := totalWeight + se.weight;
      SumStep(w, i);
      WinnerStep(b, i, k);
      if selected == null || se.currWeight > selected.currWeight {
        selected := se;
        k := i;
      }
    }
    assert w[..|w|] == w && b[..|b|] == b;
    best := selected;
    OneWinner(b, k, Winner(b));
    assert Currents(endpoints) == b;
  }

  lemma SumNothing(w: seq<int>)
    ensures Sum(w[..0]) == 0
  {
  }

  lemma SumStep(w: seq<int>, i: nat)
    requires i < |w|
    ensures Sum(w[..i + 1]) == Sum(w[..i]) + w[i]
  {
    assert w[..i + 1][..i] == w[..i];
  }

  lemma WinnerStep(b: seq<int>, i: nat, k: nat)
    requires i < |b| && (i > 0 ==> IsWinner(b[..i], k))
    ensures IsWinner(b[..i + 1], if i == 0 || b[i] > b[k] then i else k)
  {
    if i > 0 {
      assert forall j :: 0 <= j < i ==> b[..i][j] == b[j];
    }
  }

  lemma OneWinner(b: seq<int>, k: nat, k': nat)
    requires IsWinner(b, k) && IsWinner(b, k')
    ensures k == k'
  {
    var x, y := b[k], b[k'];
  }

  // ---- runs of requests

  /** How many requests were served from this bucket. */
  ghost function Asked(chosen: seq<seq<ServiceEndpoint>>, bucket: seq<ServiceEndpoint>): nat {
    if chosen == [] then 0 else
      var n := |chosen| - 1;
      Asked(chosen[..n], bucket) + if chosen[n] == bucket then 1 else 0
  }

  /** The answers given to them. */
  ghost function Answered(chosen: seq<seq<ServiceEndpoint>>, answers: seq<Option<ServiceEndpoint>>,
                          bucket: seq<ServiceEndpoint>): seq<Option<ServiceEndpoint>>
    requires |chosen| == |answers|
  {
    if chosen == [] then [] else
      var n := |chosen| - 1;
      Answered(chosen[..n], answers[..n], bucket) + if chosen[n] == bucket then [answers[n]] else []
  }

  ghost function At(bucket: seq<ServiceEndpoint>, picks: seq<nat>): seq<Option<ServiceEndpoint>> {
    seq(|picks|, t requires 0 <= t < |picks| => if picks[t] < |bucket| then Some(bucket[picks[t]]) else None)
  }

  /** The answers from a bucket, and its current weights, are those of as many consecutive picks. */
  ghost predicate Follows(bucket: seq<ServiceEndpoint>, before: seq<int>, now: seq<int>,
                          chosen: seq<seq<ServiceEndpoint>>, answers: seq<Option<ServiceEndpoint>>) {
    bucket != [] ==>
      && |before| == |bucket| && |chosen| == |answers|
      && var (picks, after) := Run(before, Weights(bucket), Asked(chosen, bucket));
         now == after && Answered(chosen, answers, bucket) == At(bucket, picks)
  }

  lemma FollowsNothing(bucket: seq<ServiceEndpoint>, before: seq<int>, now: seq<int>,
                       chosen: seq<seq<ServiceEndpoint>>, answers: seq<Option<ServiceEndpoint>>)
    requires bucket == []
    ensures Follows(bucket, before, now, chosen, answers)
  {
  }

  lemma FollowsStart(bucket: seq<ServiceEndpoint>, c: seq<int>)
    requires |c| == |bucket|
    ensures Follows(bucket, c, c, [], [])
  {
  }

  lemma FollowsStep(bucket: seq<ServiceEndpoint>, before: seq<int>, now: seq<int>, now': seq<int>,
                    chosen: seq<seq<ServiceEndpoint>>, answers: seq<Option<ServiceEndpoint>>,
                    served: seq<ServiceEndpoint>, answer: Option<ServiceEndpoint>)
    requires bucket != [] && |now| == |bucket| && Follows(bucket, before, now, chosen, answers)
    requires if served == bucket then
               var (k, after) := Pick(now, Weights(bucket)); answer == Some(bucket[k]) && now' == after
             else now' == now
    ensures Follows(bucket, before, now', chosen + [served], answers + [answer])
  {
    hide Pick, Weights;
    assert (chosen + [served])[..|chosen|] == chosen;
    assert (answers + [answer])[..|answers|] == answers;
    if served == bucket {
      var n := Asked(chosen, bucket);
      RunUnfold(before, Weights(bucket), n + 1);
      var (picks, after) := Run(before, Weights(bucket), n);
      var k := Pick(after, Weights(bucket)).0;
      assert At(bucket, picks + [k]) == At(bucket, picks) + [Some(bucket[k])];
    } else {
      assert Answered(chosen, answers, bucket) + [] == Answered(chosen, answers, bucket);
    }
  }

  /** Over any run of requests that falls on a bucket as often as its weights add up to, starting from no history,
      every endpoint is the answer exactly as often as its weight says, and no history remains. */
  lemma FairRequests(bucket: seq<ServiceEndpoint>, now: seq<int>, chosen: seq<seq<ServiceEndpoint>>, answers: seq<Option<ServiceEndpoint>>)
    requires Distinct(bucket) && FairWeights(Weights(bucket)) && |chosen| == |answers|
    requires Follows(bucket, Zeros(|bucket|), now, chosen, answers)
    requires Asked(chosen, bucket) == Sum(Weights(bucket))
    ensures now == Zeros(|bucket|)
    ensures forall i :: 0 <= i < |bucket| ==> multiset(Answered(chosen, answers, bucket))[Some(bucket[i])] == bucket[i].weight
  {
    var w := Weights(bucket);
    assert bucket != [];
    hide Run, Count, FairWeights, Asked, Answered, At, Distinct;
    ExactFairness(w);
    PicksInRange(Zeros(|w|), w, Sum(w));
    var picks := Run(Zeros(|w|), w, Sum(w)).0;
    forall i | 0 <= i < |bucket| ensures multiset(At(bucket, picks))[Some(bucket[i])] == bucket[i].weight {
      TimesAnswered(bucket, picks, i);
    }
  }

  lemma {:induction false} TimesAnswered(bucket: seq<ServiceEndpoint>, picks: seq<nat>, i: nat)
    requires Distinct(bucket) && i < |bucket| && forall t :: 0 <= t < |picks| ==> picks[t] < |bucket|
    ensures multiset(At(bucket, picks))[Some(bucket[i])] == Count(picks, i)
  {
    if picks != [] {
      var n := |picks| - 1;
      TimesAnswered(bucket, picks[..n], i);
      assert At(bucket, picks) == At(bucket, picks[..n]) + [Some(bucket[picks[n]])];
    }
  }

  /** How many requests were answered at all; each moved the counter on. */
  ghost function Served(chosen: seq<seq<ServiceEndpoint>>): nat {
    if chosen == [] then 0 else
      var n := |chosen| - 1;
      Served(chosen[..n]) + if chosen[n] != [] then 1 else 0
  }

  /** What the k-th answered request is given, if this list is its choice. */
  ghost function OnTurn(counter: Word64, bucket: seq<ServiceEndpoint>, k: nat): Option<ServiceEndpoint> {
    if bucket == [] then None else Some(bucket[Landing(counter, |bucket|, k)])
  }

  /** Every answer is where the counter stood by then. */
  ghost predicate InTurn(counter: Word64, chosen: seq<seq<ServiceEndpoint>>, answers: seq<Option<ServiceEndpoint>>) {
    && |chosen| == |answers|
    && forall t :: 0 <= t < |chosen| ==> answers[t] == OnTurn(counter, chosen[t], Served(chosen[..t + 1]))
  }

  lemma InTurnStart(counter: Word64)
    ensures InTurn(counter, [], []) && Served([]) == 0
  {
  }

  lemma ServedNext(chosen: seq<seq<ServiceEndpoint>>, served: seq<ServiceEndpoint>)
    ensures Served(chosen + [served]) == Served(chosen) + if served == [] then 0 else 1
  {
    assert (chosen + [served])[..|chosen|] == chosen;
  }

  lemma InTurnStep(counter: Word64, chosen: seq<seq<ServiceEndpoint>>, answers: seq<Option<ServiceEndpoint>>,
                   served: seq<ServiceEndpoint>, answer: Option<ServiceEndpoint>)
    requires InTurn(counter, chosen, answers) && answer == OnTurn(counter, served, Served(chosen) + 1)
    ensures InTurn(counter, chosen + [served], answers + [answer])
    ensures Served(chosen + [served]) == Served(chosen) + if served == [] then 0 else 1
  {
    EmptyTurn(counter, served, Served(chosen) + 1, Served(chosen));
    ServedNext(chosen, served);
    hide OnTurn, Served;
    var all, said := chosen + [served], answers + [answer];
    forall t | 0 <= t < |all| ensures said[t] == OnTurn(counter, all[t], Served(all[..t + 1])) {
      if t < |chosen| {
        assert all[..t + 1] == chosen[..t + 1];
      } else {
        assert all[..t + 1] == all;
      }
    }
  }

  lemma EmptyTurn(counter: Word64, bucket: seq<ServiceEndpoint>, k: nat, k': nat)
    ensures bucket == [] ==> OnTurn(counter, bucket, k) == OnTurn(counter, bucket, k')
  {
  }

  lemma InTurnBefore(counter: Word64, chosen: seq<seq<ServiceEndpoint>>, answers: seq<Option<ServiceEndpoint>>)
    requires chosen != [] && InTurn(counter, chosen, answers)
    ensures InTurn(counter, chosen[..|chosen| - 1], answers[..|chosen| - 1])
  {
    hide OnTurn, Served;
    var n := |chosen| - 1;
    var (all, said) := (chosen[..n], answers[..n]);
    forall t | 0 <= t < n ensures said[t] == OnTurn(counter, all[t], Served(all[..t + 1])) {
      assert all[..t + 1] == chosen[..t + 1];
    }
  }

  /** Where the requests for one bucket land. */
  ghost function Landings(counter: Word64, chosen: seq<seq<ServiceEndpoint>>, bucket: seq<ServiceEndpoint>): seq<nat>
    requires bucket != []
  {
    if chosen == [] then [] else
      var n := |chosen| - 1;
      Landings(counter, chosen[..n], bucket)
      + if chosen[n] == bucket then [Landing(counter, |bucket|, Served(chosen))] else []
  }

  lemma {:induction false} AnswersLand(counter: Word64, chosen: seq<seq<ServiceEndpoint>>, answers: seq<Option<ServiceEndpoint>>,
                                       bucket: seq<ServiceEndpoint>)
    requires bucket != [] && InTurn(counter, chosen, answers)
    ensures var landings := Landings(counter, chosen, bucket);
            && |landings| == Asked(chosen, bucket) && (forall k :: 0 <= k < |landings| ==> landings[k] < |bucket|)
            && Answered(chosen, answers, bucket) == At(bucket, landings)
  {
    hide Landing;
    if chosen != [] {
      var n := |chosen| - 1;
      InTurnBefore(counter, chosen, answers);
      AnswersLand(counter, chosen[..n], answers[..n], bucket);
      assert chosen[..n + 1] == chosen;
    }
  }

  /** Among as many requests for a bucket as it has endpoints, whatever other requests come in between, each endpoint
      is the answer once, exactly if the counter was nowhere twice for them. */
  lemma EvenRequests(counter: Word64, chosen: seq<seq<ServiceEndpoint>>, answers: seq<Option<ServiceEndpoint>>,
                     bucket: seq<ServiceEndpoint>)
    requires bucket != [] && Distinct(bucket) && InTurn(counter, chosen, answers) && Asked(chosen, bucket) == |bucket|
    ensures EachAnswersOnce(chosen, answers, bucket) <==> AllDiffer(Landings(counter, chosen, bucket))
  {
    var landings := Landings(counter, chosen, bucket);
    AnswersLand(counter, chosen, answers, bucket);
    hide Landings, Asked, Answered, Count, InTurn, AllDiffer;
    AllDifferOnce(landings, |bucket|);
    forall i | 0 <= i < |bucket| ensures multiset(Answered(chosen, answers, bucket))[Some(bucket[i])] == Count(landings, i) {
      TimesAnswered(bucket, landings, i);
    }
  }

  ghost predicate EachAnswersOnce(chosen: seq<seq<ServiceEndpoint>>, answers: seq<Option<ServiceEndpoint>>, bucket: seq<ServiceEndpoint>)
    requires |chosen| == |answers|
  {
    forall i :: 0 <= i < |bucket| ==> multiset(Answered(chosen, answers, bucket))[Some(bucket[i])] == 1
  }

  /** With nothing in between, that is so unless the counter wraps. */
  lemma EvenAlone(counter: Word64, chosen: seq<seq<ServiceEndpoint>>, answers: seq<Option<ServiceEndpoint>>,
                  bucket: seq<ServiceEndpoint>)
    requires 0 < |bucket| < WRAP && Distinct(bucket) && InTurn(counter, chosen, answers)
    requires |chosen| == |bucket| && forall t :: 0 <= t < |chosen| ==> chosen[t] == bucket
    ensures EachAnswersOnce(chosen, answers, bucket) <==>
              counter + |bucket| < WRAP || counter == WRAP - 1 || WRAP % |bucket| == 0
  {
    hide Landing, InTurn, Distinct, EachAnswersOnce;
    NothingBetween(counter, chosen, bucket);
    EvenRequests(counter, chosen, answers, bucket);
    EveryTurnOnce(counter, |bucket|);
  }

  lemma {:induction false} NothingBetween(counter: Word64, chosen: seq<seq<ServiceEndpoint>>, bucket: seq<ServiceEndpoint>)
    requires bucket != [] && forall t :: 0 <= t < |chosen| ==> chosen[t] == bucket
    ensures Asked(chosen, bucket) == Served(chosen) == |chosen|
    ensures Landings(counter, chosen, bucket) == Turns(counter, |bucket|, |chosen|)
  {
    hide Landing;
    if chosen != [] {
      NothingBetween(counter, chosen[..|chosen| - 1], bucket);
    }
  }

  /** Two lists asked in turns: the list of two endpoints gives the same one for ever, wrap or not. */
  lemma AlternatingStarves(counter: Word64, chosen: seq<seq<ServiceEndpoint>>, answers: seq<Option<ServiceEndpoint>>,
                           bucket: seq<ServiceEndpoint>, other: seq<ServiceEndpoint>)
    requires |bucket| == 2 && other != [] && InTurn(counter, chosen, answers)
    requires forall t :: 0 <= t < |chosen| ==> chosen[t] == if t % 2 == 0 then bucket else other
    ensures forall t :: 0 <= t < |chosen| && t % 2 == 0 ==> answers[t] == answers[0]
  {
    hide Landing;
    forall t | 0 <= t < |chosen| && t % 2 == 0 ensures answers[t] == answers[0] {
      AllServed(chosen[..t + 1]);
      AllServed(chosen[..1]);
      SameSide(counter, t);
    }
  }

  lemma {:induction false} AllServed(chosen: seq<seq<ServiceEndpoint>>)
    requires forall t :: 0 <= t < |chosen| ==> chosen[t] != []
    ensures Served(chosen) == |chosen|
  {
    if chosen != [] {
      AllServed(chosen[..|chosen| - 1]);
    }
  }

  // ---- building the index

  /** Whether an instance takes part in balancing: nodes and gates only at the newest version of their group. */
  ghost predicate Eligible(all: seq<ServiceInstance>, ins: ServiceInstance) {
    if ins.kind == NODE then IsNewest(ins.version, all, OfStatus(ins.gameID, ServiceStatusOf(ins)))
    else if ins.kind == GATE then IsNewest(ins.version, all, OfAlias(GATE, ins.alias))
    else true
  }

  ghost predicate Belongs(all: seq<ServiceInstance>, parse: string -> Option<Address>, ins: ServiceInstance, g: int, c: Class) {
    && parse(ins.endpoint).Some? && ins.gameID == g && Eligible(all, ins)
    && ClassOf(ServiceStatusOf(ins), ins.state) == c && c != Nowhere
  }

  /** The instances of a prefix that belong to a class of a game, in registration order. */
  ghost function Members(all: seq<ServiceInstance>, parse: string -> Option<Address>, n: nat, g: int, c: Class): seq<ServiceInstance>
    requires n <= |all|
  {
    if n == 0 then [] else
      Members(all, parse, n - 1, g, c) + if Belongs(all, parse, all[n - 1], g, c) then [all[n - 1]] else []
  }

  lemma {:induction false} MembersAre(all: seq<ServiceInstance>, parse: string -> Option<Address>, n: nat, g: int, c: Class)
    requires n <= |all|
    ensures forall ins :: ins in Members(all, parse, n, g, c) <==> ins in all[..n] && Belongs(all, parse, ins, g, c)
  {
    if n > 0 {
      MembersAre(all, parse, n - 1, g, c);
      assert all[..n] == all[..n - 1] + [all[n - 1]];
    }
  }

  /** The last parseable instance of a prefix with this identifier, in one game or in any. */
  ghost function LastWith(all: seq<ServiceInstance>, parse: string -> Option<Address>, n: nat, g: Option<int>, id: string)
    : Option<ServiceInstance>
    requires n <= |all|
  {
    if n == 0 then None
    else if parse(all[n - 1].endpoint).Some? && all[n - 1].id == id && (g.None? || all[n - 1].gameID == g.value) then Some(all[n - 1])
    else LastWith(all, parse, n - 1, g, id)
  }

  /** An instance of game g that parses and has this identifier. */
  predicate Named(ins: ServiceInstance, parse: string -> Option<Address>, g: int, id: string) {
    parse(ins.endpoint).Some? && ins.gameID == g && ins.id == id
  }

  predicate IsLastNamed(all: seq<ServiceInstance>, parse: string -> Option<Address>, g: int, id: string, i: nat) {
    && i < |all| && Named(all[i], parse, g, id)
    && forall j :: i < j < |all| ==> !Named(all[j], parse, g, id)
  }

  /** The answer is the last instance of that name, and there is none exactly if nothing has that name. */
  ghost predicate FoundIs(r: Option<ServiceEndpoint>, all: seq<ServiceInstance>, parse: string -> Option<Address>, g: int, id: string) {
    && (r.None? <==> forall i :: 0 <= i < |all| ==> !Named(all[i], parse, g, id))
    && (r.Some? ==> exists i: nat :: IsLastNamed(all, parse, g, id, i) && r.value.source == all[i])
  }

  lemma {:induction false} LastWithIs(all: seq<ServiceInstance>, parse: string -> Option<Address>, n: nat, g: int, id: string)
    requires n <= |all|
    ensures var last := LastWith(all, parse, n, Some(g), id);
            && (last.None? <==> forall i :: 0 <= i < n ==> !Named(all[i], parse, g, id))
            && (last.Some? ==> exists i: nat :: i < n && IsLastNamed(all[..n], parse, g, id, i) && last.value == all[i])
    ensures n == |all| ==> all[..n] == all
  {
    hide IsLastNamed;
    if n > 0 {
      LastWithIs(all, parse, n - 1, g, id);
      if Named(all[n - 1], parse, g, id) {
        LastOne(all[..n], parse, g, id);
      } else if LastWith(all, parse, n, Some(g), id).Some? {
        var i: nat :| i < n - 1 && IsLastNamed(all[..n - 1], parse, g, id, i) && LastWith(all, parse, n, Some(g), id).value == all[i];
        StillLast(all, parse, n - 1, g, id, i);
      }
    }
  }

  lemma LastOne(all: seq<ServiceInstance>, parse: string -> Option<Address>, g: int, id: string)
    requires all != [] && Named(all[|all| - 1], parse, g, id)
    ensures IsLastNamed(all, parse, g, id, |all| - 1)
  {
  }

  lemma StillLast(all: seq<ServiceInstance>, parse: string -> Option<Address>, n: nat, g: int, id: string, i: nat)
    requires n < |all| && IsLastNamed(all[..n], parse, g, id, i) && !Named(all[n], parse, g, id)
    ensures IsLastNamed(all[..n + 1], parse, g, id, i)
  {
    hide Named;
    assert forall j :: 0 <= j < n ==> all[..n + 1][j] == all[..n][j];
  }

  ghost predicate HasGame(all: seq<ServiceInstance>, parse: string -> Option<Address>, n: nat, g: int)
    requires n <= |all|
  {
    exists i :: 0 <= i < n && all[i].gameID == g && parse(all[i].endpoint).Some?
  }

  ghost function Sources(list: seq<ServiceEndpoint>): (s: seq<ServiceInstance>)
    ensures |s| == |list|
  {
    seq(|list|, j requires 0 <= j < |list| => list[j].source)
  }

  /** The route of game g after n instances: each list is exactly the members of its class. */
  ghost predicate RouteIs(route: GameRoute, all: seq<ServiceInstance>, parse: string -> Option<Address>, n: nat, g: int)
    requires n <= |all|
    reads route
  {
    && route.gameID == g && route.Valid()
    && (forall c :: Sources(route.List(c)) == Members(all, parse, n, g, c))
    && (forall c :: AllBefore(route.List(c), n))
    && DirectIs(route.endpoints5, all, parse, n, g)
  }

  /** The identifier index of a route holds the last instance registered under each identifier. */
  ghost predicate DirectIs(index: map<string, ServiceEndpoint>, all: seq<ServiceInstance>, parse: string -> Option<Address>, n: nat, g: int)
    requires n <= |all|
  {
    && (forall id :: id in index <==> LastWith(all, parse, n, Some(g), id).Some?)
    && (forall id :: id in index ==> Some(index[id].source) == LastWith(all, parse, n, Some(g), id))
  }

  /** An instance of another game, or one that does not parse, changes nothing. */
  lemma RouteKeeps(route: GameRoute, all: seq<ServiceInstance>, parse: string -> Option<Address>, n: nat, g: int)
    requires n < |all| && RouteIs(route, all, parse, n, g)
    requires parse(all[n].endpoint).None? || all[n].gameID != g
    ensures RouteIs(route, all, parse, n + 1, g)
  {
    hide Eligible, ClassOf;
    forall c ensures Members(all, parse, n + 1, g, c) == Members(all, parse, n, g, c) {
      assert Members(all, parse, n, g, c) + [] == Members(all, parse, n, g, c);
    }
  }

  lemma EmptyRoute(route: GameRoute, all: seq<ServiceInstance>, parse: string -> Option<Address>, n: nat, g: int)
    requires n <= |all| && !HasGame(all, parse, n, g)
    requires route.gameID == g && route.Valid() && route.endpoints5 == map[] && forall c :: route.List(c) == []
    ensures RouteIs(route, all, parse, n, g)
  {
    hide Eligible, ClassOf, Fallback;
    forall c ensures Members(all, parse, n, g, c) == [] {
      NoMembers(all, parse, n, g, c);
    }
    forall id ensures LastWith(all, parse, n, Some(g), id).None? {
      NobodyWith(all, parse, n, g, id);
    }
  }

  lemma {:induction false} NoMembers(all: seq<ServiceInstance>, parse: string -> Option<Address>, n: nat, g: int, c: Class)
    requires n <= |all| && !HasGame(all, parse, n, g)
    ensures Members(all, parse, n, g, c) == []
  {
    if n > 0 {
      NoMembers(all, parse, n - 1, g, c);
    }
  }

  lemma {:induction false} NobodyWith(all: seq<ServiceInstance>, parse: string -> Option<Address>, n: nat, g: int, id: string)
    requires n <= |all| && !HasGame(all, parse, n, g)
    ensures LastWith(all, parse, n, Some(g), id).None?
  {
    if n > 0 {
      NobodyWith(all, parse, n - 1, g, id);
    }
  }

  /** Adding instance n to a list of its game. */
  lemma ListIs(list: seq<ServiceEndpoint>, c: Class, all: seq<ServiceInstance>, parse: string -> Option<Address>, n: nat,
               se: ServiceEndpoint)
    requires n < |all| && parse(all[n].endpoint).Some? && Describes(se, all, n)
    requires Sources(list) == Members(all, parse, n, all[n].gameID, c) && AllBefore(list, n)
    ensures var list' := if Eligible(all, all[n]) && Lists(c, se) then list + [se] else list;
            Sources(list') == Members(all, parse, n + 1, all[n].gameID, c) && AllBefore(list', n + 1)
  {
    hide Eligible, ClassOf, ServiceStatusOf;
    assert Sources(list + [se]) == Sources(list) + [se.source];
    assert Members(all, parse, n, all[n].gameID, c) + [] == Members(all, parse, n, all[n].gameID, c);
  }

  ghost predicate Describes(se: ServiceEndpoint, all: seq<ServiceInstance>, n: nat)
    requires n < |all|
  {
    && se.source == all[n] && se.place == n && se.insID == all[n].id
    && se.status == ServiceStatusOf(all[n]) && se.state == all[n].state
  }

  lemma DirectGrows(index: map<string, ServiceEndpoint>, all: seq<ServiceInstance>, parse: string -> Option<Address>, n: nat,
                    se: ServiceEndpoint)
    requires n < |all| && parse(all[n].endpoint).Some? && Describes(se, all, n)
    requires DirectIs(index, all, parse, n, all[n].gameID)
    ensures DirectIs(index[se.insID := se], all, parse, n + 1, all[n].gameID)
  {
    hide ServiceStatusOf;
  }

  /** One route for every game that has a parseable instance, each with exactly its members. */
  ghost predicate RoutesAre(routes: map<int, GameRoute>, all: seq<ServiceInstance>, parse: string -> Option<Address>, n: nat)
    requires n <= |all|
    reads routes.Values
  {
    && (forall g :: g in routes <==> HasGame(all, parse, n, g))
    && (forall g :: g in routes ==> routes[g].gameID == g && RouteIs(routes[g], all, parse, n, g))
  }

  ghost predicate ListsFrom(routes: map<int, GameRoute>, made: set<ServiceEndpoint>)
    reads routes.Values
  {
    forall g, c, j :: g in routes && 0 <= j < |routes[g].List(c)| ==> routes[g].List(c)[j] in made
  }

  ghost predicate InstancesAre(instances: map<string, ServiceInstance>, endpoints: map<string, Address>,
                               all: seq<ServiceInstance>, parse: string -> Option<Address>, n: nat)
    requires n <= |all|
  {
    && (forall id :: id in instances <==> LastWith(all, parse, n, None, id).Some?)
    && (forall id :: id in instances ==> Some(instances[id]) == LastWith(all, parse, n, None, id))
    && (forall id :: id in endpoints <==> id in instances)
    && (forall id :: id in endpoints ==> Some(endpoints[id]) == parse(instances[id].endpoint))
  }

  lemma InstancesStep(instances: map<string, ServiceInstance>, endpoints: map<string, Address>,
                      all: seq<ServiceInstance>, parse: string -> Option<Address>, n: nat)
    requires n < |all| && InstancesAre(instances, endpoints, all, parse, n)
    ensures var ins := all[n];
            if parse(ins.endpoint).None? then InstancesAre(instances, endpoints, all, parse, n + 1)
            else InstancesAre(instances[ins.id := ins], endpoints[ins.id := parse(ins.endpoint).value], all, parse, n + 1)
  {
  }

  lemma EmptyIndex(all: seq<ServiceInstance>, parse: string -> Option<Address>)
    ensures InstancesAre(map[], map[], all, parse, 0) && RoutesAre(map[], all, parse, 0) && ListsFrom(map[], {})
  {
  }

  lemma RoutesKeep(routes: map<int, GameRoute>, all: seq<ServiceInstance>, parse: string -> Option<Address>, n: nat)
    requires n < |all| && RoutesAre(routes, all, parse, n) && parse(all[n].endpoint).None?
    ensures RoutesAre(routes, all, parse, n + 1)
  {
    hide RouteIs;
    forall g | g in routes ensures RouteIs(routes[g], all, parse, n + 1, g) {
      RouteKeeps(routes[g], all, parse, n, g);
    }
  }

  lemma Described(se: ServiceEndpoint, service: ServiceInstance, all: seq<ServiceInstance>, n: nat)
    requires n < |all| && service == all[n]
    requires se.source == service && se.place == n && se.insID == service.id
    requires se.status == ServiceStatusOf(service) && se.state == service.state
    ensures Describes(se, all, n)
  {
  }

  /** Compares an instance with the newest version of its group. */
  method Balance(service: ServiceInstance, byGame: map<int, string>, byStatus: map<int, StatusVersions>,
                 byAlias: map<string, string>, ghost all: seq<ServiceInstance>) returns (balance: bool)
    requires service in all && TracksStatuses(byStatus, all)
    requires forall a :: Tracks(a in byAlias, Lookup(byAlias, a), all, OfAlias(GATE, a))
    ensures balance == Eligible(all, service)
  {
    hide VersionOrder, IsNewest;
    balance := true;
    if service.kind == NODE {
      var status := ServiceStatusOf(service);
      if service.gameID in byStatus {
        balance := IsLatestVersion(service, Lookup(byStatus[service.gameID], status));
      } else {
        balance := IsLatestVersion(service, Lookup(byGame, service.gameID));
      }
      hide ServiceStatusOf;
      assert InGroup(service, OfGame(service.gameID));
      assert InGroup(service, OfStatus(service.gameID, status));
      LatestIsNewest(service, Lookup(StatusGroup(byStatus, service.gameID), status), all, OfStatus(service.gameID, status));
    } else if service.kind == GATE {
      balance := IsLatestVersion(service, Lookup(byAlias, service.alias));
      assert InGroup(service, OfAlias(GATE, service.alias));
      LatestIsNewest(service, Lookup(byAlias, service.alias), all, OfAlias(GATE, service.alias));
    }
  }

  method AddToRoute(route: GameRoute, se: ServiceEndpoint, balance: bool,
                    ghost all: seq<ServiceInstance>, ghost parse: string -> Option<Address>, ghost i: nat)
    requires i < |all| && parse(all[i].endpoint).Some? && RouteIs(route, all, parse, i, all[i].gameID)
    requires balance == Eligible(all, all[i]) && Describes(se, all, i)
    modifies route
    ensures RouteIs(route, all, parse, i + 1, all[i].gameID)
    ensures forall c, j :: 0 <= j < |route.List(c)| ==> route.List(c)[j] == se || route.List(c)[j] in old(route.List(c))
  {
    hide Eligible, ServiceStatusOf, GameRoute.List, GameRoute.Valid, Members, ClassOf, Lists, DirectIs, Sources, AllBefore;
    DirectGrows(route.endpoints5, all, parse, i, se);
    route.AddServiceEndpoint(se, balance);
    forall c ensures Sources(route.List(c)) == Members(all, parse, i + 1, all[i].gameID, c) && AllBefore(route.List(c), i + 1) {
      ListIs(old(route.List(c)), c, all, parse, i, se);
    }
  }

  /** Adds one instance to the route of its game, which is made first if need be. */
  method AddService(routes: map<int, GameRoute>, service: ServiceInstance, se: ServiceEndpoint, balance: bool,
                    ghost all: seq<ServiceInstance>, ghost parse: string -> Option<Address>, ghost i: nat,
                    ghost made: set<ServiceEndpoint>)
    returns (r: map<int, GameRoute>)
    requires i < |all| && service == all[i] && parse(service.endpoint).Some?
    requires RoutesAre(routes, all, parse, i) && ListsFrom(routes, made)
    requires balance == Eligible(all, service)
    requires Describes(se, all, i)
    modifies routes.Values
    ensures RoutesAre(r, all, parse, i + 1) && ListsFrom(r, made + {se})
    ensures fresh(r.Values - routes.Values)
  {
    hide Eligible, ServiceStatusOf, GameRoute.List, GameRoute.Valid, Members, LastWith, ClassOf, Lists, RouteIs, DirectIs;
    var route;
    r := routes;
    if service.gameID in routes {
      route := routes[service.gameID];
    } else {
      route := new GameRoute(service.gameID, service.alias);
      r := r[service.gameID := route];
      EmptyRoute(route, all, parse, i, service.gameID);
    }
    AddToRoute(route, se, balance, all, parse, i);
    forall g | g in r && g != service.gameID ensures RouteIs(r[g], all, parse, i + 1, g) {
      RouteKeeps(r[g], all, parse, i, g);
    }
  }

  class Dispatcher {
    var routes: map<int, GameRoute>
    var endpoints: map<string, Address>
    var instances: map<string, ServiceInstance>

    /** The index answers for exactly these services. */
    ghost predicate Indexed(all: seq<ServiceInstance>, parse: string -> Option<Address>)
      reads this, routes.Values
    {
      RoutesAre(routes, all, parse, |all|) && InstancesAre(instances, endpoints, all, parse, |all|)
    }

    lemma NowIndexed(all: seq<ServiceInstance>, parse: string -> Option<Address>, made: set<ServiceEndpoint>)
      requires RoutesAre(routes, all, parse, |all|) && InstancesAre(instances, endpoints, all, parse, |all|)
      requires ListsFrom(routes, made)
      ensures Indexed(all, parse)
      ensures forall g, c, j :: g in routes && 0 <= j < |routes[g].List(c)| ==> routes[g].List(c)[j] in made
    {
    }

    /** Replaces the whole index; no endpoint has any round-robin history afterwards. */
    method ReplaceServices(services: seq<ServiceInstance>, parse: string -> Option<Address>)
      modifies this
      ensures Indexed(services, parse)
      ensures fresh(routes.Values)
      ensures forall g, c, j :: g in routes && 0 <= j < |routes[g].List(c)| ==>
                fresh(routes[g].List(c)[j]) && routes[g].List(c)[j].currWeight == 0
    {
      var newRoutes: map<int, GameRoute> := map[];
      var newEndpoints: map<string, Address> := map[];
      var newInstances: map<string, ServiceInstance> := map[];
      var byGame := MaxVersionForGame(services);
      var byStatus := MaxVersionForGameByServiceStatus(services);
      var byAlias := MaxVersionByKindAlias(services, GATE);
      ghost var made: set<ServiceEndpoint> := {};
      EmptyIndex(services, parse);
      hide *;
      for i := 0 to |services|
        invariant RoutesAre(newRoutes, services, parse, i) && ListsFrom(newRoutes, made) && fresh(newRoutes.Values)
        invariant InstancesAre(newInstances, newEndpoints, services, parse, i)
        invariant forall se :: se in made ==> fresh(se) && se.currWeight == 0
      {
        var service := services[i];
        InstancesStep(newInstances, newEndpoints, services, parse, i);
        match parse(service.endpoint) {
          case None =>
            RoutesKeep(newRoutes, services, parse, i);
          case Some(ep) =>
            newEndpoints := newEndpoints[service.id := ep];
            newInstances := newInstances[service.id := service];
            var balance := Balance(service, byGame, byStatus, byAlias, services);
            var se := new ServiceEndpoint(service, ep, i);
            Described(se, service, services, i);
            newRoutes := AddService(newRoutes, service, se, balance, services, parse, i, made);
            made := made + {se};
        }
      }
      routes, endpoints, instances := newRoutes, newEndpoints, newInstances;
      NowIndexed(services, parse, made);
    }
  }

  /** What a request is given: the members of the first populated class in fallback order, and nobody else. */
  lemma BalancedExactly(d: Dispatcher, services: seq<ServiceInstance>, parse: string -> Option<Address>, g: int, status: string)
    returns (k: nat)
    requires d.Indexed(services, parse) && g in d.routes
    ensures var order, n := Fallback(PreferredServiceStatuses(status)), |services|;
            var bucket := Sources(d.routes[g].Chosen(status));
            && k <= |order|
            && (forall j :: 0 <= j < k ==> Members(services, parse, n, g, order[j]) == [])
            && (k == |order| ==> bucket == [])
            && (k < |order| ==> bucket == Members(services, parse, n, g, order[k]) && bucket != [])
  {
    var route, order := d.routes[g], Fallback(PreferredServiceStatuses(status));
    assert route.Chosen(status) == route.FirstNonEmpty(order);
    RouteMembers(d, services, parse, g);
    hide *;
    k := FirstPopulated(route, order);
  }

  lemma RouteMembers(d: Dispatcher, services: seq<ServiceInstance>, parse: string -> Option<Address>, g: int)
    requires d.Indexed(services, parse) && g in d.routes
    ensures forall c :: Sources(d.routes[g].List(c)) == Members(services, parse, |services|, g, c)
    ensures forall c :: Members(services, parse, |services|, g, c) == [] <==> d.routes[g].List(c) == []
  {
    hide GameRoute.List, Members, Sources;
  }

  lemma FirstPopulated(route: GameRoute, order: seq<Class>) returns (k: nat)
    ensures k <= |order| && forall j :: 0 <= j < k ==> route.List(order[j]) == []
    ensures k == |order| ==> route.FirstNonEmpty(order) == []
    ensures k < |order| ==> route.FirstNonEmpty(order) == route.List(order[k]) && route.List(order[k]) != []
  {
    hide GameRoute.List;
    k := 0;
    if order != [] && route.List(order[0]) == [] {
      k := FirstPopulated(route, order[1..]);
      k := k + 1;
      assert forall j :: 0 < j < |order| ==> order[j] == order[1..][j - 1];
    }
  }
}
