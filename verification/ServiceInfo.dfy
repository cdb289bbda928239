/** The node directory: service descriptions by node id, and a rotating list that decides which of them are reported next. */
module ServiceInfo {
  import opened Bytes
  import opened Sequences

  const MAX_CHANGE_SET_SIZE := 48

  /** The part of a node's description that the directory looks at or changes. */
  class NodeServiceInfo {
    var timeStamp: int
    var kvs: map<string, string>

    constructor (timeStamp: int)
      ensures this.timeStamp == timeStamp && kvs == map[]
    {
      this.timeStamp := timeStamp;
      kvs := map[];
    }
  }

  /** ids lists every member of keys exactly once and nothing else. */
  ghost predicate Lists(ids: seq<string>, keys: set<string>)
  {
    Distinct(ids) && forall id :: id in keys <==> id in ids
  }

  /** The list once id is known. */
  function Listed(ids: seq<string>, id: string): seq<string>
  {
    if id in ids then ids else ids + [id]
  }

  /** The list without the ids in dead, in the same order. */
  function Without(ids: seq<string>, dead: set<string>): (r: seq<string>)
    ensures forall id :: id in r <==> id in ids && id !in dead
  {
    if ids == [] then []
    else (if ids[0] in dead then [] else [ids[0]]) + Without(ids[1..], dead)
  }

  /** The number of nodes one report covers. */
  function ReportSize(ids: seq<string>): (n: nat)
    ensures n <= |ids|
  {
    if |ids| < MAX_CHANGE_SET_SIZE then |ids| else MAX_CHANGE_SET_SIZE
  }

  /** The nodes of the next report. */
  function Reported(ids: seq<string>): seq<string>
  {
    ids[..ReportSize(ids)]
  }

  /** The list once the next report is out. */
  function Rotated(ids: seq<string>): seq<string>
  {
    ids[ReportSize(ids)..] + Reported(ids)
  }

  /** Taking ids out of two lists in a row is taking them out of both, so the order of the others stays. */
  lemma {:induction false} WithoutOfBoth(a: seq<string>, b: seq<string>, dead: set<string>)
    ensures Without(a + b, dead) == Without(a, dead) + Without(b, dead)
  {
    if a == [] {
      assert a + b == b;
    } else {
      assert (a + b)[1..] == a[1..] + b;
      WithoutOfBoth(a[1..], b, dead);
    }
  }

  lemma WithoutOfOne(id: string, dead: set<string>)
    ensures Without([id], dead) == if id in dead then [] else [id]
  {
  }

  /** A report covers the first 48 nodes, or all if there are fewer, and moves them behind the others in the same order. */
  lemma ReportAndRotation(ids: seq<string>, k: nat)
    ensures Reported(ids) == if |ids| < 48 then ids else ids[..48]
    ensures |Rotated(ids)| == |ids|
    ensures |ids| > 48 && k < |ids| ==> Rotated(ids)[k] == if k + 48 < |ids| then ids[k + 48] else ids[k + 48 - |ids|]
    ensures |ids| <= 48 ==> Rotated(ids) == ids
  {
  }

  lemma {:induction false} WithoutKeepsOrder(ids: seq<string>, dead: set<string>)
    requires Distinct(ids)
    ensures Distinct(Without(ids, dead))
  {
    if ids != [] {
      var head, rest := ids[0], Without(ids[1..], dead);
      WithoutKeepsOrder(ids[1..], dead);
      assert forall i :: 0 <= i < |ids[1..]| ==> ids[1..][i] == ids[i + 1] != head;
      assert head !in rest;
    }
  }

  /** Removing one more id. */
  lemma {:induction false} WithoutTwice(ids: seq<string>, dead: set<string>, id: string)
    ensures Without(Without(ids, dead), {id}) == Without(ids, dead + {id})
  {
    if ids != [] {
      var head, rest := ids[0], Without(ids[1..], dead);
      WithoutTwice(ids[1..], dead, id);
      assert ([head] + rest)[1..] == rest;
      assert head in dead + {id} <==> head in dead || head == id;
      assert head in dead ==> Without(ids, dead) == rest;
      assert head !in dead ==> Without(ids, dead) == [head] + rest;
      assert Without([head] + rest, {id}) == (if head == id then [] else [head]) + Without(rest, {id});
    }
  }

  lemma {:induction false} WithoutNothing(ids: seq<string>)
    ensures Without(ids, {}) == ids
  {
    if ids != [] {
      WithoutNothing(ids[1..]);
    }
  }

  /** A list that is cut in two and put together the other way round lists the same ids. */
  lemma RotationLists(ids: seq<string>, n: nat, keys: set<string>)
    requires n <= |ids| && Lists(ids, keys)
    ensures Lists(ids[n..] + ids[..n], keys)
  {
    var r := ids[n..] + ids[..n];
    forall i, j | 0 <= i < j < |r|
      ensures r[i] != r[j]
    {
      var k := |ids| - n;
      var a, b := if i < k then i + n else i - k, if j < k then j + n else j - k;
      assert r[i] == ids[a] && r[j] == ids[b];
    }
    assert ids == ids[..n] + ids[n..];
    assert forall id :: id in r <==> id in ids[n..] || id in ids[..n];
  }

  /** Which description of a node is kept when another one is offered: the known one unless the other is strictly newer. */
  function Newer(known: map<string, NodeServiceInfo>, offered: (string, NodeServiceInfo)): (r: NodeServiceInfo)
    reads known.Values, offered.1
    ensures r.timeStamp >= offered.1.timeStamp
    ensures offered.0 in known ==> r.timeStamp >= known[offered.0].timeStamp
  {
    var (id, info) := offered;
    if id !in known || info.timeStamp > known[id].timeStamp then info else known[id]
  }

  /** What an entry makes of the description of its node: nothing if the known one is as new, else it takes its place. */
  ghost predicate KeepsNewest(known: map<string, NodeServiceInfo>, offered: (string, NodeServiceInfo), now: map<string, NodeServiceInfo>)
    reads known.Values, offered.1
  {
    var (id, info) := offered;
    && id in now
    && (id in known && known[id].timeStamp >= info.timeStamp ==> now[id] == known[id])
    && (id !in known || known[id].timeStamp < info.timeStamp ==> now[id] == info)
  }

  /** The list after a sequence of additions. */
  function ListedAll(ids: seq<string>, infos: seq<(string, NodeServiceInfo)>): seq<string>
  {
    if infos == [] then ids else Listed(ListedAll(ids, infos[..|infos| - 1]), infos[|infos| - 1].0)
  }

  /** The ids of the entries. */
  function Ids(infos: seq<(string, NodeServiceInfo)>): set<string>
  {
    if infos == [] then {} else Ids(infos[..|infos| - 1]) + {infos[|infos| - 1].0}
  }

  lemma {:induction false} IdsAreFirsts(infos: seq<(string, NodeServiceInfo)>)
    ensures forall id :: id in Ids(infos) <==> exists i :: 0 <= i < |infos| && infos[i].0 == id
  {
    if infos != [] {
      var init := infos[..|infos| - 1];
      IdsAreFirsts(init);
      assert forall i :: 0 <= i < |init| ==> infos[i] == init[i];
    }
  }

  /** One round of storing. */
  lemma StoreOne(known: map<string, NodeServiceInfo>, ids: seq<string>, infos: seq<(string, NodeServiceInfo)>,
                 kept: seq<NodeServiceInfo>, n: nat)
    requires n < |infos| == |kept| && forall i, j :: 0 <= i < j < |infos| ==> infos[i].0 != infos[j].0
    ensures var (id, before) := (infos[n].0, Stored(known, infos[..n], kept[..n]));
            && (id in before <==> id in known)
            && (id in known ==> before[id] == known[id])
            && Stored(known, infos[..n + 1], kept[..n + 1]) == before[id := kept[n]]
            && ListedAll(ids, infos[..n + 1]) == Listed(ListedAll(ids, infos[..n]), id)
  {
    IdsAreFirsts(infos[..n]);
    StoredWhere(known, infos[..n], kept[..n]);
    assert infos[..n + 1][..n] == infos[..n] && infos[..n + 1][n] == infos[n];
    assert kept[..n + 1][..n] == kept[..n];
  }

  ghost function Kept(known: map<string, NodeServiceInfo>, infos: seq<(string, NodeServiceInfo)>): (r: seq<NodeServiceInfo>)
    reads known.Values, set i | 0 <= i < |infos| :: infos[i].1
    ensures |r| == |infos| && forall i :: 0 <= i < |infos| ==> r[i] == Newer(known, infos[i])
  {
    if infos == [] then []
    else
      assert forall i :: 0 <= i < |infos| - 1 ==> infos[..|infos| - 1][i] == infos[i];
      Kept(known, infos[..|infos| - 1]) + [Newer(known, infos[|infos| - 1])]
  }

  /** The map once the entries have been stored, each with the description that is kept. */
  ghost function Stored(known: map<string, NodeServiceInfo>, infos: seq<(string, NodeServiceInfo)>, kept: seq<NodeServiceInfo>)
    : map<string, NodeServiceInfo>
    requires |kept| == |infos|
  {
    if infos == [] then known
    else Stored(known, infos[..|infos| - 1], kept[..|infos| - 1])[infos[|infos| - 1].0 := kept[|infos| - 1]]
  }

  lemma {:induction false} StoredWhere(known: map<string, NodeServiceInfo>, infos: seq<(string, NodeServiceInfo)>, kept: seq<NodeServiceInfo>)
    requires |kept| == |infos|
    ensures Stored(known, infos, kept).Keys == known.Keys + Ids(infos)
    ensures forall id :: id in known && id !in Ids(infos) ==> Stored(known, infos, kept)[id] == known[id]
  {
    if infos != [] {
      StoredWhere(known, infos[..|infos| - 1], kept[..|infos| - 1]);
    }
  }

  lemma {:induction false} StoredAt(known: map<string, NodeServiceInfo>, infos: seq<(string, NodeServiceInfo)>, kept: seq<NodeServiceInfo>, i: nat)
    requires |kept| == |infos| && i < |infos|
    requires forall i, j :: 0 <= i < j < |infos| ==> infos[i].0 != infos[j].0
    ensures infos[i].0 in Stored(known, infos, kept) && Stored(known, infos, kept)[infos[i].0] == kept[i]
  {
    if i < |infos| - 1 {
      StoredAt(known, infos[..|infos| - 1], kept[..|infos| - 1], i);
    }
  }

  /** The descriptions of the given nodes. */
  function Select(infos: map<string, NodeServiceInfo>, ids: seq<string>): map<string, NodeServiceInfo>
    requires forall id :: id in ids ==> id in infos
  {
    map id | id in ids :: infos[id]
  }

  /** One round of reporting. */
  lemma ReportOne(infos: map<string, NodeServiceInfo>, ids: seq<string>, i: nat)
    requires i < |ids| && Lists(ids, infos.Keys)
    ensures (ids[i..] + ids[..i])[1..] + [ids[i]] == ids[i + 1..] + ids[..i + 1]
    ensures forall id :: id in ids[..i + 1] ==> id in infos
    ensures Select(infos, ids[..i])[ids[i] := infos[ids[i]]] == Select(infos, ids[..i + 1])
  {
    assert ids[..i + 1] == ids[..i] + [ids[i]];
  }

  /** infos and ids are what is left of known and knownIds without the dead. */
  ghost predicate Removed<V>(known: map<string, V>, knownIds: seq<string>, dead: set<string>, infos: map<string, V>, ids: seq<string>)
  {
    infos == known - dead && ids == Without(knownIds, dead)
  }

  lemma RemovedNothing<V>(known: map<string, V>, knownIds: seq<string>, dead: set<string>, rest: set<string>)
    requires dead <= rest
    ensures Removed(known, knownIds, dead - rest, known, knownIds)
  {
    assert dead - rest == {};
    WithoutNothing(knownIds);
  }

  /** One round of removing: rest has not been looked at yet. */
  lemma RemoveOne<V>(known: map<string, V>, knownIds: seq<string>, dead: set<string>, rest: set<string>,
                     infos: map<string, V>, ids: seq<string>, id: string)
    requires id in rest && Removed(known, knownIds, dead - rest, infos, ids)
    ensures id in known ==> id in infos && infos[id] == known[id]
    ensures id !in dead ==> Removed(known, knownIds, dead - (rest - {id}), infos, ids)
    ensures id in dead ==> Removed(known, knownIds, dead - (rest - {id}), infos - {id}, Without(ids, {id}))
  {
    if id in dead {
      assert dead - (rest - {id}) == dead - rest + {id};
      WithoutTwice(knownIds, dead - rest, id);
    } else {
      assert dead - (rest - {id}) == dead - rest;
    }
  }

  lemma RemovedAll<V>(known: map<string, V>, knownIds: seq<string>, dead: set<string>, infos: map<string, V>, ids: seq<string>)
    requires Lists(knownIds, known.Keys) && Removed(known, knownIds, dead - {}, infos, ids)
    ensures infos == known - dead && ids == Without(knownIds, dead) && Lists(ids, infos.Keys)
  {
    assert dead - {} == dead;
    WithoutKeepsOrder(knownIds, dead);
  }

  class ServiceInfoManager {
    var serviceInfos: map<string, NodeServiceInfo>
    var change: map<string, NodeServiceInfo>
    var nodeidList: seq<string>

    /** The list names every known node once. */
    ghost predicate Valid()
      reads this
    {
      Lists(nodeidList, serviceInfos.Keys)
    }

    constructor ()
      ensures Valid() && nodeidList == [] && serviceInfos == map[] && change == map[]
    {
      serviceInfos, change, nodeidList := map[], map[], [];
    }

    /** Adds a node, or replaces what is known about it by something strictly newer. */
    method Add(id: string, info: NodeServiceInfo)
      requires Valid()
      modifies this`serviceInfos, this`nodeidList
      ensures Valid() && nodeidList == Listed(old(nodeidList), id)
      ensures serviceInfos == old(serviceInfos)[id := Newer(old(serviceInfos), (id, info))]
      ensures id !in old(serviceInfos) ==> nodeidList == old(nodeidList) + [id] && serviceInfos[id] == info
      ensures id in old(serviceInfos) ==> nodeidList == old(nodeidList)
      ensures id in old(serviceInfos) && old(serviceInfos)[id].timeStamp >= info.timeStamp ==> serviceInfos == old(serviceInfos)
      ensures id in old(serviceInfos) && old(serviceInfos)[id].timeStamp < info.timeStamp ==> serviceInfos[id] == info
      ensures serviceInfos[id].timeStamp >= info.timeStamp
    {
      if id !in serviceInfos {
        serviceInfos := serviceInfos[id := info];
        nodeidList := nodeidList + [id];
      } else if info.timeStamp > serviceInfos[id].timeStamp {
        serviceInfos := serviceInfos[id := info];
      }
    }

    /** Adds the nodes of a map, here the list of its entries in the order in which the map is traversed. */
    method AddAll(infos: seq<(string, NodeServiceInfo)>)
      requires Valid()
      requires forall i, j :: 0 <= i < j < |infos| ==> infos[i].0 != infos[j].0
      modifies this`serviceInfos, this`nodeidList
      ensures Valid() && nodeidList == ListedAll(old(nodeidList), infos)
      ensures serviceInfos.Keys == old(serviceInfos.Keys) + Ids(infos)
      ensures forall i :: 0 <= i < |infos| ==> infos[i].0 in serviceInfos && serviceInfos[infos[i].0] == Newer(old(serviceInfos), infos[i])
      ensures forall i :: 0 <= i < |infos| ==> KeepsNewest(old(serviceInfos), infos[i], serviceInfos)
      ensures forall id :: id in old(serviceInfos) && id !in Ids(infos) ==> serviceInfos[id] == old(serviceInfos)[id]
    {
      hide Lists, Listed;
      ghost var known, kept := serviceInfos, Kept(serviceInfos, infos);
      for n := 0 to |infos|
        invariant Valid() && nodeidList == ListedAll(old(nodeidList), infos[..n])
        invariant serviceInfos == Stored(known, infos[..n], kept[..n])
      {
        StoreOne(known, old(nodeidList), infos, kept, n);
        assert Newer(serviceInfos, infos[n]) == kept[n];
        Add(infos[n].0, infos[n].1);
      }
      assert infos[..|infos|] == infos && kept[..|infos|] == kept;
      StoredWhere(known, infos, kept);
      forall i | 0 <= i < |infos|
        ensures infos[i].0 in serviceInfos && serviceInfos[infos[i].0] == kept[i]
      {
        StoredAt(known, infos, kept, i);
      }
    }

    /** The nodes that can be found are those on the list. */
    method Find(id: string) returns (info: Option<NodeServiceInfo>)
      requires Valid()
      ensures info.Some? <==> id in nodeidList
      ensures info.Some? ==> id in serviceInfos && info.value == serviceInfos[id]
    {
      info := if id in serviceInfos then Some(serviceInfos[id]) else None;
    }

    /** Changes the description itself, so everyone who holds it sees the change. */
    method Update(id: string, k: string, v: string)
      modifies if id in serviceInfos then {serviceInfos[id]} else {}
      ensures id in serviceInfos ==> serviceInfos[id].kvs == old(serviceInfos[id].kvs)[k := v]
      ensures id in serviceInfos ==> serviceInfos[id].timeStamp == old(serviceInfos[id].timeStamp)
    {
      if id in serviceInfos {
        serviceInfos[id].kvs := serviceInfos[id].kvs[k := v];
      }
    }

    method UpdateTimeStamp(id: string, now: int)
      modifies if id in serviceInfos then {serviceInfos[id]} else {}
      ensures id in serviceInfos ==> serviceInfos[id].timeStamp == now && serviceInfos[id].kvs == old(serviceInfos[id].kvs)
    {
      if id in serviceInfos {
        serviceInfos[id].timeStamp := now;
      }
    }

    /** The nodes whose description is older than the threshold. */
    ghost function Unlived(threshold: int): set<string>
      reads this, serviceInfos.Values
    {
      set id | id in serviceInfos && serviceInfos[id].timeStamp < threshold
    }

    /** Removes every node that has not been heard of for more than sec seconds, and no other. */
    method RemoveUnlivedNodes(sec: int, now: int)
      requires Valid()
      modifies this`serviceInfos, this`nodeidList
      ensures Valid() && nodeidList == Without(old(nodeidList), old(Unlived(now - sec)))
      ensures serviceInfos == old(serviceInfos) - old(Unlived(now - sec))
      ensures forall id :: id in old(serviceInfos) ==> (id in serviceInfos <==> old(serviceInfos[id].timeStamp) >= now - sec)
    {
      hide Lists, Without, Removed;
      var threshold := now - sec;
      ghost var before, unlived := serviceInfos, old(Unlived(now - sec));
      var rest := serviceInfos.Keys;
      RemovedNothing(serviceInfos, nodeidList, unlived, rest);
      while rest != {}
        invariant rest <= before.Keys
        invariant Removed(before, old(nodeidList), unlived - rest, serviceInfos, nodeidList)
        decreases |rest|
      {
        var id :| id in rest;
        RemoveOne(before, old(nodeidList), unlived, rest, serviceInfos, nodeidList, id);
        if serviceInfos[id].timeStamp < threshold {
          nodeidList := Without(nodeidList, {id});
          serviceInfos := serviceInfos - {id};
        }
        rest := rest - {id};
      }
      RemovedAll(before, old(nodeidList), unlived, serviceInfos, nodeidList);
    }

    method ResetChangeSet()
      modifies this`change
      ensures change == map[]
    {
      change := map[];
    }

    /** Reports the nodes at the front of the list with their current descriptions and moves them to the back. */
    method GetChangeSet() returns (reported: map<string, NodeServiceInfo>)
      requires Valid()
      modifies this`change, this`nodeidList
      ensures Valid() && nodeidList == Rotated(old(nodeidList))
      ensures reported == change == Select(serviceInfos, Reported(old(nodeidList)))
      ensures forall id :: id in reported <==> id in if |old(nodeidList)| < 48 then old(nodeidList) else old(nodeidList)[..48]
      ensures forall id :: id in reported ==> id in serviceInfos && reported[id] == serviceInfos[id]
    {
      change := map[];
      var size := if |nodeidList| < MAX_CHANGE_SET_SIZE then |nodeidList| else MAX_CHANGE_SET_SIZE;
      for i := 0 to size
        invariant nodeidList == old(nodeidList)[i..] + old(nodeidList)[..i]
        invariant change == Select(serviceInfos, old(nodeidList)[..i])
      {
        hide Lists, Select;
        ReportOne(serviceInfos, old(nodeidList), i);
        var id := nodeidList[0];
        nodeidList := nodeidList[1..] + [id];
        change := change[id := serviceInfos[id]];
      }
      RotationLists(old(nodeidList), size, serviceInfos.Keys);
      reported := change;
    }
  }

  /** What the operations of the directory do to the list. */
  datatype Event = Addition(id: string) | Removal(dead: set<string>) | ChangeSet

  function Apply(ids: seq<string>, event: Event): seq<string>
  {
    match event
    case Addition(id) => Listed(ids, id)
    case Removal(dead) => Without(ids, dead)
    case ChangeSet => Rotated(ids)
  }

  /** The list after a run. */
  function After(ids: seq<string>, events: seq<Event>): seq<string>
    decreases |events|
  {
    if events == [] then ids else After(Apply(ids, events[0]), events[1..])
  }

  lemma {:induction false} AfterOneMore(ids: seq<string>, events: seq<Event>, event: Event)
    ensures After(ids, events + [event]) == Apply(After(ids, events), event)
    decreases |events|
  {
    if events == [] {
      assert events + [event] == [event];
    } else {
      assert (events + [event])[1..] == events[1..] + [event];
      AfterOneMore(Apply(ids, events[0]), events[1..], event);
    }
  }

  /** The events of adding a map. */
  function Additions(infos: seq<(string, NodeServiceInfo)>): (events: seq<Event>)
    ensures |events| == |infos| && forall i :: 0 <= i < |infos| ==> events[i] == Addition(infos[i].0)
  {
    seq(|infos|, i requires 0 <= i < |infos| => Addition(infos[i].0))
  }

  /** Adding a map is a run of additions, so what holds over all runs holds over those in which maps are added. */
  lemma {:induction false} AddAllIsRun(ids: seq<string>, infos: seq<(string, NodeServiceInfo)>)
    ensures After(ids, Additions(infos)) == ListedAll(ids, infos)
    ensures ChangeSets(Additions(infos)) == 0 && forall id :: Survives(id, Additions(infos))
  {
    if infos != [] {
      var n := |infos| - 1;
      var init := infos[..n];
      AddAllIsRun(ids, init);
      assert Additions(infos) == Additions(init) + [Addition(infos[n].0)];
      AfterOneMore(ids, Additions(init), Addition(infos[n].0));
    }
    NoChangeSets(Additions(infos));
  }

  lemma {:induction false} NoChangeSets(events: seq<Event>)
    requires forall i :: 0 <= i < |events| ==> events[i].Addition?
    ensures ChangeSets(events) == 0
  {
    if events != [] {
      NoChangeSets(events[1..]);
    }
  }

  function ChangeSets(events: seq<Event>): nat
  {
    if events == [] then 0 else (if events[0].ChangeSet? then 1 else 0) + ChangeSets(events[1..])
  }

  /** No event removes id. */
  predicate Survives(id: string, events: seq<Event>)
  {
    forall i :: 0 <= i < |events| && events[i].Removal? ==> id !in events[i].dead
  }

  /** Which of the change sets in a run is the first that contains id. */
  function FirstReport(id: string, ids: seq<string>, events: seq<Event>): Option<nat>
    decreases |events|
  {
    if events == [] then None
    else if events[0].ChangeSet? && id in Reported(ids) then Some(1)
    else
      match FirstReport(id, Apply(ids, events[0]), events[1..])
      case None => None
      case Some(n) => Some(n + if events[0].ChangeSet? then 1 else 0)
  }

  /** A node that stays moves towards the front when others are removed. */
  lemma {:induction false} SurvivorMovesUp(ids: seq<string>, dead: set<string>, p: nat) returns (q: nat)
    requires p < |ids| && ids[p] !in dead
    ensures q <= p && q < |Without(ids, dead)| && Without(ids, dead)[q] == ids[p]
  {
    if p == 0 {
      q := 0;
    } else {
      q := SurvivorMovesUp(ids[1..], dead, p - 1);
      if ids[0] !in dead {
        q := q + 1;
      }
    }
  }

  /** A node at index p is part of one of the next p / 48 + 1 change sets, whatever happens to other nodes in between. */
  lemma {:induction false} NoStarvation(ids: seq<string>, p: nat, events: seq<Event>)
    requires p < |ids| && Survives(ids[p], events)
    requires ChangeSets(events) >= p / 48 + 1
    ensures FirstReport(ids[p], ids, events).Some?
    ensures 1 <= FirstReport(ids[p], ids, events).value <= p / 48 + 1
    decreases |events|
  {
    var id, next, rest := ids[p], Apply(ids, events[0]), events[1..];
    match events[0] {
      case Addition(_) => NoStarvation(next, p, rest);
      case Removal(dead) =>
        var q := SurvivorMovesUp(ids, dead, p);
        NoStarvation(next, q, rest);
      case ChangeSet =>
        if p < ReportSize(ids) {
          assert Reported(ids)[p] == id;
        } else if id !in Reported(ids) {
          NoStarvation(next, p - 48, rest);
        }
    }
  }

  /** The bound is exact: while no node is removed, the node is not reported any earlier. */
  lemma {:induction false} NotEarlier(ids: seq<string>, p: nat, events: seq<Event>)
    requires Distinct(ids) && p < |ids|
    requires forall i :: 0 <= i < |events| ==> !events[i].Removal?
    ensures FirstReport(ids[p], ids, events).Some? <==> ChangeSets(events) >= p / 48 + 1
    ensures FirstReport(ids[p], ids, events).Some? ==> FirstReport(ids[p], ids, events).value == p / 48 + 1
    decreases |events|
  {
    hide Without, Lists;
    if events != [] {
      var id, next, rest := ids[p], Apply(ids, events[0]), events[1..];
      if events[0].ChangeSet? {
        if p < ReportSize(ids) {
          assert Reported(ids)[p] == id;
        } else {
          RotationLists(ids, ReportSize(ids), set x | x in ids);
          NotEarlier(next, p - 48, rest);
        }
      } else {
        NotEarlier(next, p, rest);
      }
    }
  }
}
