/** src/RoutingTable.java: the route table with its own encoder and an inline,
    entry-by-entry decode-and-relax merge. */
module SrcRoutingTable {
  import opened JavaText
  import opened Routes
  import opened Wire
  import opened Relaxation

  class RoutingTable {
    var table: Table

    constructor()
      ensures table == map[]
    {
      table := map[];
    }

    /** The improve-or-ignore update, one atomic step under the table lock. */
    method AddRoutingPath(destination: string, distance: int32, hops: int32, nextHop: string)
      modifies this
      ensures table == Upsert(old(table), destination, RoutingInfo(distance, hops, nextHop))
    {
      if destination in table {
        var currentDistance := table[destination].distance;
        if distance >= currentDistance {
          return;
        }
      }
      table := table[destination := RoutingInfo(distance, hops, nextHop)];
    }

    /** Seeds an empty table with the self routes, then writes the prefix and one
        `key:distance:hops,` per entry, in the map's (unspecified) iteration order,
        which `order` records. */
    method Serialize(selfIPAddresses: seq<string>) returns (s: string, ghost order: seq<string>)
      modifies this
      ensures table == if old(table) == map[] then SeedSelf(map[], selfIPAddresses) else old(table)
      ensures IsEnumeration(order, table.Keys)
      ensures s == Encode(table, order)
    {
      if IsEmpty() {
        for i := 0 to |selfIPAddresses|
          invariant table == SeedSelf(map[], selfIPAddresses[..i])
        {
          AddRoutingPath(selfIPAddresses[i], 0, 0, selfIPAddresses[i]);
          assert selfIPAddresses[..i + 1][..i] == selfIPAddresses[..i];
        }
        assert selfIPAddresses[..|selfIPAddresses|] == selfIPAddresses;
      }
      var sb := Prefix;
      order := [];
      var remaining := table.Keys;
      while remaining != {}
        invariant remaining <= table.Keys
        invariant forall k :: k in order <==> k in table && k !in remaining
        invariant forall i, j :: 0 <= i < j < |order| ==> order[i] != order[j]
        invariant sb == Encode(table, order)
        decreases remaining
        modifies {}
      {
        var k :| k in remaining;
        var info := table[k];
        EncodeSnoc(table, order, k);
        sb := sb + EntryText(k, info.distance, info.hops) + ",";
        order := order + [k];
        remaining := remaining - {k};
      }
      s := sb;
    }

    /** Ignores a message without the prefix or with an empty body; otherwise splits
        the body on `,`, skips each entry that does not parse, and relaxes the rest
        through the link from `sourceIP`, in message order. */
    method MergeRoutingTable(message: string, sourceIP: string, delay: int32)
      modifies this
      ensures table == MergeMessage(old(table), message, sourceIP, delay)
    {
      if !StartsWith(message, Prefix) {
        return;
      }
      var tableData := message[|Prefix|..];
      if tableData == [] {
        return;
      }
      var entries := Split(tableData, ',');
      for i := 0 to |entries|
        invariant table == MergeAll(old(table), DecodeEntries(entries[..i]), sourceIP, delay)
      {
        MergeEntriesStep(old(table), entries, i, sourceIP, delay);
        var parts := Split(entries[i], ':');
        if |parts| != 3 {
          continue;
        }
        var destination := parts[0];
        var distance := ParseInt(parts[1]);
        var hops := ParseInt(parts[2]);
        if distance.None? || hops.None? {
          continue;
        }
        assert ParseEntry(entries[i]) == Some(Advert(destination, distance.value, hops.value));
        var newDistance := WrapAdd(distance.value, delay);
        var newHops := WrapAdd(hops.value, 1);
        if !ContainsKey(destination) || GetDistance(destination) > newDistance {
          AddRoutingPath(destination, newDistance, newHops, sourceIP);
        }
      }
      assert entries[..|entries|] == entries;
    }

    /** `isEmpty`: no destination has a route. */
    predicate IsEmpty()
      reads this
      ensures IsEmpty() <==> forall k :: !ContainsKey(k)
    {
      assert forall k :: ContainsKey(k) <==> k in table;
      assert (forall k :: k !in table) ==> table == map[];
      table == map[]
    }

    /** `containsKey`: exactly the destinations for which `get` finds a route. */
    predicate ContainsKey(key: string)
      reads this
      ensures ContainsKey(key) <==> Get(key).Some?
    {
      key in table
    }

    /** `getDistance`: the distance of the route `get` returns. Java dereferences the
        looked-up record, so callers check `ContainsKey` first. */
    function GetDistance(destination: string): (r: int32)
      reads this
      requires destination in table
      ensures Get(destination).Some? && Get(destination).value.distance == r
    {
      table[destination].distance
    }

    /** `get` returns `null` for an unknown destination. */
    function Get(destinationIP: string): (r: Option<RoutingInfo>)
      reads this
      ensures r.Some? <==> destinationIP in table
      ensures r.Some? ==> r.value == table[destinationIP]
    {
      if destinationIP in table then Some(table[destinationIP]) else None
    }
  }
}
