/** src/Router.java: a relay over the table of src/RoutingTable.java that decodes
    and relaxes advertisements itself. Sockets, threads and timers are replaced by
    one method per handled event; the node's own addresses and its link delay are
    given to the constructor. */
module SrcRouter {
  import opened JavaText
  import opened Routes
  import opened Wire
  import opened Relaxation
  import opened Addressing
  import opened SrcRoutingTable

  class Router {
    const routingTable: RoutingTable
    /** The link delay added to every advertised distance. */
    const delay: int32
    /** What `getIPAddresses()` returns: the node's IPv4 addresses, as text. */
    const ipAddresses: seq<string>

    constructor(delay: int32, ipAddresses: seq<string>)
      ensures this.delay == delay && this.ipAddresses == ipAddresses
      ensures fresh(routingTable) && routingTable.table == map[]
    {
      this.delay := delay;
      this.ipAddresses := ipAddresses;
      routingTable := new RoutingTable();
    }

    /** Offers a self route (distance 0, hops 0, next hop itself) for every own address. */
    method InitializeRoutingTable()
      modifies routingTable
      ensures routingTable.table == SeedSelf(old(routingTable.table), ipAddresses)
    {
      for i := 0 to |ipAddresses|
        invariant routingTable.table == SeedSelf(old(routingTable.table), ipAddresses[..i])
      {
        routingTable.AddRoutingPath(ipAddresses[i], 0, 0, ipAddresses[i]);
        assert ipAddresses[..i + 1][..i] == ipAddresses[..i];
      }
      assert ipAddresses[..|ipAddresses|] == ipAddresses;
    }

    /** One broadcast: the serialized table (seeded first when empty), sent to the
        broadcast address of each own address that has one. */
    method SendRoutingTable() returns (tableData: string, ghost order: seq<string>, targets: seq<string>)
      modifies routingTable
      ensures routingTable.table ==
        if old(routingTable.table) == map[] then SeedSelf(map[], ipAddresses) else old(routingTable.table)
      ensures IsEnumeration(order, routingTable.table.Keys)
      ensures tableData == Encode(routingTable.table, order)
      ensures targets == BroadcastTargets(ipAddresses)
    {
      tableData, order := routingTable.Serialize(ipAddresses);
      targets := SendTargets(ipAddresses);
    }

    /** One received datagram of `listenForBroadcast`: a message from one of the
        node's own addresses, or an empty one, is ignored; any other is merged. */
    method OnBroadcast(message: string, sourceIP: string)
      modifies routingTable
      ensures sourceIP in ipAddresses || message == [] ==> routingTable.table == old(routingTable.table)
      ensures sourceIP !in ipAddresses && message != [] ==>
        routingTable.table == MergeMessage(old(routingTable.table), message, sourceIP, delay)
    {
      if sourceIP in ipAddresses {
        return;
      }
      if message == [] {
        return;
      }
      MergeRoutingTable(message, sourceIP);
    }

    /** The relay's own copy of the decode-and-relax loop, with its link delay. */
    method MergeRoutingTable(message: string, sourceIP: string)
      modifies routingTable
      ensures routingTable.table == MergeMessage(old(routingTable.table), message, sourceIP, delay)
    {
      if !StartsWith(message, Prefix) {
        return;
      }
      var tableData := message[|Prefix|..];
      if tableData == [] {
        return;
      }
      var entries := Split(tableData, ',');
      for i := 0 to |entries|
        invariant routingTable.table == MergeAll(old(routingTable.table), DecodeEntries(entries[..i]), sourceIP, delay)
      {
        MergeEntriesStep(old(routingTable.table), entries, i, sourceIP, delay);
        var parts := Split(entries[i], ':');
        if |parts| != 3 {
          continue;
        }
        var destination := parts[0];
        var distance := ParseInt(parts[1]);
        var hops := ParseInt(parts[2]);
        if distance.None? || hops.None? {
          continue;
        }
        assert ParseEntry(entries[i]) == Some(Advert(destination, distance.value, hops.value));
        var newDistance := WrapAdd(distance.value, delay);
        var newHops := WrapAdd(hops.value, 1);
        if !routingTable.ContainsKey(destination) || routingTable.GetDistance(destination) > newDistance {
          routingTable.AddRoutingPath(destination, newDistance, newHops, sourceIP);
        }
      }
      assert entries[..|entries|] == entries;
    }
  }
}
