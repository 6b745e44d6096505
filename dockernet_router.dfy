/** dockernet/Router.java: the self-contained relay that keeps its route map as a
    field, updates it with its own improve-or-ignore method, and advertises an empty
    map as its bare address list. Sockets, threads and timers are replaced by one
    method per handled event; the node's own addresses and its link delay are given
    to the constructor. */
module DockernetRouter {
  import opened JavaText
  import opened Routes
  import opened Wire
  import opened Relaxation
  import opened Addressing

  class Router {
    var routingTable: Table
    /** The link delay added to every advertised distance. */
    const delay: int32
    /** What `getIPAddresses()` returns: the node's IPv4 addresses, as text. */
    const ipAddresses: seq<string>

    /** Creates the empty map and seeds it with the self routes. */
    constructor(delay: int32, ipAddresses: seq<string>)
      ensures this.delay == delay && this.ipAddresses == ipAddresses
      ensures routingTable == SeedSelf(map[], ipAddresses)
    {
      this.delay := delay;
      this.ipAddresses := ipAddresses;
      routingTable := map[];
      new;
      InitializeRoutingTable();
    }

    /** Offers a self route (distance 0, hops 0, next hop itself) for every own address. */
    method InitializeRoutingTable()
      modifies this
      ensures routingTable == SeedSelf(old(routingTable), ipAddresses)
    {
      for i := 0 to |ipAddresses|
        invariant routingTable == SeedSelf(old(routingTable), ipAddresses[..i])
      {
        AddRoute(ipAddresses[i], 0, 0, ipAddresses[i]);
        assert ipAddresses[..i + 1][..i] == ipAddresses[..i];
      }
      assert ipAddresses[..|ipAddresses|] == ipAddresses;
    }

    /** One broadcast: the serialized map, sent to the broadcast address of each own
        address that has one. */
    method SendRoutingTable() returns (tableData: string, ghost order: seq<string>, targets: seq<string>)
      ensures routingTable == map[] ==> tableData == Prefix + Join(ipAddresses, ',')
      ensures routingTable != map[] ==> IsEnumeration(order, routingTable.Keys) && tableData == Encode(routingTable, order)
      ensures targets == BroadcastTargets(ipAddresses)
    {
      tableData, order := SerializeRoutingTable();
      targets := SendTargets(ipAddresses);
    }

    /** One received datagram of `listenForBroadcast`: a message from one of the
        node's own addresses, or an empty one, is ignored; any other is merged. */
    method OnBroadcast(message: string, sourceIP: string)
      modifies this
      ensures sourceIP in ipAddresses || message == [] ==> routingTable == old(routingTable)
      ensures sourceIP !in ipAddresses && message != [] ==>
        routingTable == MergeMessage(old(routingTable), message, sourceIP, delay)
    {
      if sourceIP in ipAddresses {
        return;
      }
      if message == [] {
        return;
      }
      MergeRoutingTable(message, sourceIP);
    }

    /** Ignores a message without the prefix or with an empty body; otherwise splits
        the body on `,`, skips each entry that does not parse, and relaxes the rest
        through the link from `sourceIP`, in message order. */
    method MergeRoutingTable(message: string, sourceIP: string)
      modifies this
      ensures routingTable == MergeMessage(old(routingTable), message, sourceIP, delay)
    {
      if !StartsWith(message, Prefix) {
        return;
      }
      var tableData := message[|Prefix|..];
      if tableData == [] {
        return;
      }
      var entries := Split(tableData, ',');
      for i := 0 to |entries|
        invariant routingTable == MergeAll(old(routingTable), DecodeEntries(entries[..i]), sourceIP, delay)
      {
        MergeEntriesStep(old(routingTable), entries, i, sourceIP, delay);
        var parts := Split(entries[i], ':');
        if |parts| != 3 {
          continue;
        }
        var destination := parts[0];
        var distance := ParseInt(parts[1]);
        var hops := ParseInt(parts[2]);
        if distance.None? || hops.None? {
          continue;
        }
        assert ParseEntry(entries[i]) == Some(Advert(destination, distance.value, hops.value));
        var newDistance := WrapAdd(distance.value, delay);
        var newHops := WrapAdd(hops.value, 1);
        if destination !in routingTable || routingTable[destination].distance > newDistance {
          AddRoute(destination, newDistance, newHops, sourceIP);
        }
      }
      assert entries[..|entries|] == entries;
    }

    /** An empty map is advertised as the prefix followed by the own addresses joined
        by `,` (and is not seeded); otherwise the prefix and one `key:distance:hops,`
        per entry, in the map's (unspecified) iteration order, which `order` records. */
    method SerializeRoutingTable() returns (s: string, ghost order: seq<string>)
      ensures routingTable == map[] ==> s == Prefix + Join(ipAddresses, ',')
      ensures routingTable != map[] ==> IsEnumeration(order, routingTable.Keys) && s == Encode(routingTable, order)
    {
      order := [];
      if routingTable == map[] {
        return Prefix + Join(ipAddresses, ','), order;
      }
      var sb := Prefix;
      var remaining := routingTable.Keys;
      while remaining != {}
        invariant remaining <= routingTable.Keys
        invariant forall k :: k in order <==> k in routingTable && k !in remaining
        invariant forall i, j :: 0 <= i < j < |order| ==> order[i] != order[j]
        invariant sb == Encode(routingTable, order)
        decreases remaining
      {
        var k :| k in remaining;
        var info := routingTable[k];
        EncodeSnoc(routingTable, order, k);
        sb := sb + EntryText(k, info.distance, info.hops) + ",";
        order := order + [k];
        remaining := remaining - {k};
      }
      s := sb;
    }

    /** The improve-or-ignore update, one atomic step under the map's lock. */
    method AddRoute(destination: string, distance: int32, hops: int32, nextHop: string)
      modifies this
      ensures routingTable == Upsert(old(routingTable), destination, RoutingInfo(distance, hops, nextHop))
    {
      if destination in routingTable {
        var currentDistance := routingTable[destination].distance;
        if distance >= currentDistance {
          return;
        }
      }
      routingTable := routingTable[destination := RoutingInfo(distance, hops, nextHop)];
    }
  }

  /** The empty-map advertisement carries no route: an address without `:` is an entry
      of one field, which every receiver skips. */
  lemma EmptyAdvertCarriesNoRoutes(ipAddresses: seq<string>)
    requires forall i :: 0 <= i < |ipAddresses| ==> ':' !in ipAddresses[i]
    ensures Decode(Prefix + Join(ipAddresses, ',')) == []
  {
    var body := Join(ipAddresses, ',');
    var m := Prefix + body;
    assert StartsWith(m, Prefix) && m[|Prefix|..] == body;
    JoinAvoids(ipAddresses, ',', ':');
    var entries := Split(body, ',');
    var fields := Fields(body, ',');
    assert forall i :: 0 <= i < |entries| ==> entries[i] == fields[i];
    forall i | 0 <= i < |entries|
      ensures ParseEntry(entries[i]) == None
    {
      assert ':' !in entries[i];
      FieldsNoSeparator(entries[i], ':');
    }
    DecodeEntriesNone(entries);
  }
}
