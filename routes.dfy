/** The route table as a value: a map from destination address to its best known
    route, the improve-or-ignore update every version of the engine performs under
    its table lock, and the self-route seeding done at start-up and before the
    first advertisement. */
module Routes {
  import opened JavaText

  /** One route: accumulated distance, relays traversed, and the neighbour to send through. */
  datatype RoutingInfo = RoutingInfo(distance: int32, hops: int32, nextHop: string)

  type Table = map<string, RoutingInfo>

  /** The route a node has to one of its own addresses. */
  function SelfRoute(ip: string): RoutingInfo
  {
    RoutingInfo(0, 0, ip)
  }

  /** Improve-or-ignore: `info` is stored under `destination` when the destination is
      unknown or `info` is strictly shorter; otherwise the table is left as it is.
      The result knows exactly one more key at most, leaves every other key alone,
      and never stores a longer distance than either side offered. */
  function Upsert(t: Table, destination: string, info: RoutingInfo): (r: Table)
    ensures r.Keys == t.Keys + {destination}
    ensures forall k :: k in t && k != destination ==> r[k] == t[k]
    ensures r[destination] == info || (destination in t && r[destination] == t[destination])
    ensures r[destination].distance <= info.distance
    ensures destination in t ==> r[destination].distance <= t[destination].distance
  {
    if destination in t && info.distance >= t[destination].distance then t
    else t[destination := info]
  }

  /** An unknown destination is inserted with exactly the offered route. */
  lemma UpsertAbsent(t: Table, destination: string, info: RoutingInfo)
    requires destination !in t
    ensures Upsert(t, destination, info) == t[destination := info]
  {
  }

  /** An offer that is not strictly shorter changes nothing at all. */
  lemma UpsertNotShorter(t: Table, destination: string, info: RoutingInfo)
    requires destination in t && info.distance >= t[destination].distance
    ensures Upsert(t, destination, info) == t
  {
  }

  /** A strictly shorter offer replaces that one entry, route and all. */
  lemma UpsertShorter(t: Table, destination: string, info: RoutingInfo)
    requires destination in t && info.distance < t[destination].distance
    ensures Upsert(t, destination, info) == t[destination := info]
  {
  }

  /** `newer` knows every destination `older` knows, each at a distance no longer. */
  ghost predicate Dominates(older: Table, newer: Table)
  {
    older.Keys <= newer.Keys &&
    forall k :: k in older ==> newer[k].distance <= older[k].distance
  }

  lemma DominatesTransitive(a: Table, b: Table, c: Table)
    requires Dominates(a, b) && Dominates(b, c)
    ensures Dominates(a, c)
  {
  }

  /** One call of the update operation. */
  datatype Update = Update(destination: string, info: RoutingInfo)

  /** The table after a sequence of updates, applied in order. */
  function ApplyAll(t: Table, updates: seq<Update>): Table
    decreases updates
  {
    if updates == [] then t
    else ApplyAll(Upsert(t, updates[0].destination, updates[0].info), updates[1..])
  }

  /** Whatever sequence of updates runs, no destination is ever forgotten and no
      stored distance ever grows. */
  lemma {:induction false} ApplyAllDominates(t: Table, updates: seq<Update>)
    ensures Dominates(t, ApplyAll(t, updates))
    decreases updates
  {
    if updates != [] {
      var t1 := Upsert(t, updates[0].destination, updates[0].info);
      ApplyAllDominates(t1, updates[1..]);
      DominatesTransitive(t, t1, ApplyAll(t1, updates[1..]));
    }
  }

  /** Every route of `t` is a self route. */
  ghost predicate OnlySelfRoutes(t: Table)
  {
    forall k :: k in t ==> t[k] == SelfRoute(k)
  }

  /** The table after adding a self route (distance 0, hops 0, next hop itself) for each
      of `ips` in turn, each through the improve-or-ignore update. */
  function SeedSelf(t: Table, ips: seq<string>): Table
  {
    if ips == [] then t
    else
      var last := ips[|ips| - 1];
      Upsert(SeedSelf(t, ips[..|ips| - 1]), last, SelfRoute(last))
  }

  /** Seeding a table holding only self routes (the empty one, in particular) leaves
      exactly the old keys plus every listed address, each with its self route. */
  lemma {:induction false} SeedSelfRoutes(t: Table, ips: seq<string>)
    requires OnlySelfRoutes(t)
    ensures forall k :: k in SeedSelf(t, ips) <==> k in t || k in ips
    ensures OnlySelfRoutes(SeedSelf(t, ips))
  {
    if ips != [] {
      var init := ips[..|ips| - 1];
      SeedSelfRoutes(t, init);
      assert forall k :: k in ips <==> k in init || k == ips[|ips| - 1];
    }
  }

  /** After seeding an empty table, every own address maps to distance 0, hops 0 and
      itself as next hop, and nothing else is in the table. */
  lemma SeedEmptyTable(ips: seq<string>)
    ensures forall k :: k in SeedSelf(map[], ips) <==> k in ips
    ensures forall ip :: ip in ips ==> SeedSelf(map[], ips)[ip] == RoutingInfo(0, 0, ip)
  {
    SeedSelfRoutes(map[], ips);
  }
}
