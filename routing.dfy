/** The `routing` package (src/routing/): the route table object shared by a relay's
    threads, and the advertisement packet that decodes and encodes it. */
module Routing {
  import opened JavaText
  import opened Routes
  import opened Wire
  import opened Relaxation

  /** The `RoutingInfo` a decoded entry becomes: the packet reuses the route record,
      so its `nextHop` field carries the advertised destination. */
  function AsRouteInfo(a: Advert): RoutingInfo
  {
    RoutingInfo(a.distance, a.hops, a.destination)
  }

  function AsRouteInfos(adverts: seq<Advert>): (r: seq<RoutingInfo>)
    ensures |r| == |adverts|
    ensures forall i :: 0 <= i < |r| ==> r[i] == AsRouteInfo(adverts[i])
  {
    seq(|adverts|, i requires 0 <= i < |adverts| => AsRouteInfo(adverts[i]))
  }

  lemma AsRouteInfosSnoc(adverts: seq<Advert>, a: Advert)
    ensures AsRouteInfos(adverts + [a]) == AsRouteInfos(adverts) + [AsRouteInfo(a)]
  {
  }

  /** `routing.RoutingTable`. `addRoutingPath` holds the table's lock across its check
      and its write, so each call is one atomic step here. */
  class RoutingTable {
    var table: Table

    constructor()
      ensures table == map[]
    {
      table := map[];
    }

    /** Stores the route when the destination is unknown or the distance strictly
        shorter than the stored one; otherwise returns without a change. */
    method AddRoutingPath(destination: string, distance: int32, hops: int32, nextHop: string)
      modifies this
      ensures table == Upsert(old(table), destination, RoutingInfo(distance, hops, nextHop))
    {
      if destination in table {
        var currentDistance := table[destination].distance;
        if distance >= currentDistance {
          return;
        }
      }
      table := table[destination := RoutingInfo(distance, hops, nextHop)];
    }

    /** Decodes `message` and relaxes each decoded entry through the link from
        `sourceIP`. The decoded record's `nextHop` field is the advertised
        destination; the route's next hop is `sourceIP`. */
    method MergeRoutingTable(message: string, sourceIP: string, delay: int32)
      modifies this
      ensures table == MergeMessage(old(table), message, sourceIP, delay)
    {
      var packet := new RoutingPacket(message);
      var infos := packet.GetRouteInfos();
      ghost var adverts := Decode(message);
      for i := 0 to |infos|
        invariant table == MergeAll(old(table), adverts[..i], sourceIP, delay)
      {
        MergePrefixStep(old(table), adverts, i, sourceIP, delay);
        var info := infos[i];
        assert info == AsRouteInfo(adverts[i]);
        var newDistance := WrapAdd(info.distance, delay);
        var newHops := WrapAdd(info.hops, 1);
        if !ContainsKey(info.nextHop) || GetDistance(info.nextHop) > newDistance {
          AddRoutingPath(info.nextHop, newDistance, newHops, sourceIP);
        }
      }
      assert adverts[..|infos|] == adverts;
    }

    /** `isEmpty`: no destination has a route. */
    predicate IsEmpty()
      reads this
      ensures IsEmpty() <==> forall k :: !ContainsKey(k)
    {
      assert forall k :: ContainsKey(k) <==> k in table;
      assert (forall k :: k !in table) ==> table == map[];
      table == map[]
    }

    /** `containsKey`: exactly the destinations for which `get` finds a route. */
    predicate ContainsKey(key: string)
      reads this
      ensures ContainsKey(key) <==> Get(key).Some?
    {
      key in table
    }

    /** `getDistance`: the distance of the route `get` returns. Java dereferences the
        looked-up record, so callers check `ContainsKey` first. */
    function GetDistance(destination: string): (r: int32)
      reads this
      requires destination in table
      ensures Get(destination).Some? && Get(destination).value.distance == r
    {
      table[destination].distance
    }

    /** `get` returns `null` for an unknown destination. */
    function Get(destinationIP: string): (r: Option<RoutingInfo>)
      reads this
      ensures r.Some? <==> destinationIP in table
      ensures r.Some? ==> r.value == table[destinationIP]
    {
      if destinationIP in table then Some(table[destinationIP]) else None
    }
  }

  /** `routing.RoutingPacket`. */
  class RoutingPacket {
    const routeInfos: seq<RoutingInfo>
    /** The advertisement this packet was decoded from. */
    ghost const message: string

    /** The packet holds the decoding of its message; the constructor establishes
        this and the final field keeps it. */
    ghost predicate Valid()
    {
      routeInfos == AsRouteInfos(Decode(message))
    }

    /** Decodes an advertisement entry by entry: nothing without the prefix or with an
        empty body; an entry without exactly three `:`-fields, or whose distance or
        hop count does not parse, is skipped and the rest are kept, in order. */
    constructor(message: string)
      ensures this.message == message
      ensures routeInfos == AsRouteInfos(Decode(message))
      ensures Valid()
    {
      var infos: seq<RoutingInfo> := [];
      if StartsWith(message, Prefix) {
        var tableData := message[|Prefix|..];
        if tableData != [] {
          var entries := Split(tableData, ',');
          for i := 0 to |entries|
            invariant infos == AsRouteInfos(DecodeEntries(entries[..i]))
          {
            DecodeEntriesStep(entries, i);
            var parts := Split(entries[i], ':');
            if |parts| != 3 {
              continue;
            }
            var destination := parts[0];
            var distance := ParseInt(parts[1]);
            var hops := ParseInt(parts[2]);
            if distance.None? || hops.None? {
              continue;
            }
            assert ParseEntry(entries[i]) == Some(Advert(destination, distance.value, hops.value));
            AsRouteInfosSnoc(DecodeEntries(entries[..i]), Advert(destination, distance.value, hops.value));
            infos := infos + [RoutingInfo(distance.value, hops.value, destination)];
          }
          assert entries[..|entries|] == entries;
        }
      }
      routeInfos := infos;
      this.message := message;
    }

    /** `getRouteInfos`: one record per well-formed entry of the message, in order. */
    function GetRouteInfos(): (r: seq<RoutingInfo>)
      requires Valid()
      ensures |r| == |Decode(message)|
      ensures forall i :: 0 <= i < |r| ==> r[i] == AsRouteInfo(Decode(message)[i])
    {
      routeInfos
    }

    /** Encodes `table`, first seeding it with a self route per own address when it is
        empty. Entries follow the map's iteration order, which Java leaves
        unspecified: `order` is the enumeration this run used. */
    static method Create(table: RoutingTable, selfIPAddresses: seq<string>) returns (s: string, ghost order: seq<string>)
      modifies table
      ensures table.table == if old(table.table) == map[] then SeedSelf(map[], selfIPAddresses) else old(table.table)
      ensures IsEnumeration(order, table.table.Keys)
      ensures s == Encode(table.table, order)
    {
      if table.IsEmpty() {
        for i := 0 to |selfIPAddresses|
          invariant table.table == SeedSelf(map[], selfIPAddresses[..i])
        {
          table.AddRoutingPath(selfIPAddresses[i], 0, 0, selfIPAddresses[i]);
          assert selfIPAddresses[..i + 1][..i] == selfIPAddresses[..i];
        }
        assert selfIPAddresses[..|selfIPAddresses|] == selfIPAddresses;
      }
      var sb := Prefix;
      order := [];
      var remaining := table.table.Keys;
      while remaining != {}
        invariant remaining <= table.table.Keys
        invariant forall k :: k in order <==> k in table.table && k !in remaining
        invariant forall i, j :: 0 <= i < j < |order| ==> order[i] != order[j]
        invariant sb == Encode(table.table, order)
        decreases remaining
        modifies {}
      {
        var k :| k in remaining;
        var info := table.table[k];
        EncodeSnoc(table.table, order, k);
        sb := sb + EntryText(k, info.distance, info.hops) + ",";
        order := order + [k];
        remaining := remaining - {k};
      }
      s := sb;
    }

    /** `isRoutingPacket`: a message without the prefix carries no routes. */
    static predicate IsRoutingPacket(message: string)
      ensures !IsRoutingPacket(message) ==> Decode(message) == []
    {
      StartsWith(message, Prefix)
    }
  }

  /** Only a message that passes `isRoutingPacket` can carry routes, and every encoded
      table passes it. */
  lemma RoutingPacketRecognition(message: string, t: Table, order: seq<string>)
    requires forall k :: k in order ==> k in t
    ensures !RoutingPacket.IsRoutingPacket(message) ==> Decode(message) == []
    ensures RoutingPacket.IsRoutingPacket(Encode(t, order))
  {
    EncodedStartsWithPrefix(t, order);
  }
}
