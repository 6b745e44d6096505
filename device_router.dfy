/** src/device/Router.java: the relay built on the `routing` package, which also
    forwards data packets. A data packet is a query string naming its destination;
    the relay looks the destination up and sends the packet, unchanged, to that
    route's next hop. Sockets, threads and timers are replaced by one method per
    handled event; the node's own addresses and its link delay are given to the
    constructor. */
module DeviceRouter {
  import opened JavaText
  import opened Routes
  import opened Wire
  import opened Relaxation
  import opened Addressing
  import Routing

  // ---------------------------------------------------------------- the destination of a data packet

  /** `extractDestinationIP` over the `&`-separated pairs, left to right: a pair that
      does not split on `=` into exactly two parts is passed over; otherwise key and
      value are URL-decoded (a decoding error ends the search with `null`), and the
      value of the first pair whose key is `destination` is the answer. */
  function FindDestination(pairs: seq<string>): Option<string>
  {
    if pairs == [] then None
    else
      var keyValue := Split(pairs[0], '=');
      if |keyValue| != 2 then FindDestination(pairs[1..])
      else
        match (UrlDecode(keyValue[0]), UrlDecode(keyValue[1]))
        case (Some(key), Some(value)) =>
          if key == "destination" then Some(value) else FindDestination(pairs[1..])
        case _ => None
  }

  /** The destination named by a whole query string. */
  function QueryDestination(queryString: string): Option<string>
  {
    FindDestination(Split(queryString, '&'))
  }

  /** A pair the search moves past: not a two-part pair, or one that decodes
      cleanly to a key other than `destination`. */
  ghost predicate PassesOver(pair: string)
  {
    var keyValue := Split(pair, '=');
    |keyValue| != 2 ||
    (UrlDecode(keyValue[0]).Some? && UrlDecode(keyValue[1]).Some? &&
     UrlDecode(keyValue[0]).value != "destination")
  }

  /** The first pair the search does not move past decides the answer: the pairs after
      it are never looked at, and when every pair of `a` is passed over, the answer is
      that of the pairs after `a`. */
  lemma {:induction false} FindDestinationAppend(a: seq<string>, b: seq<string>)
    ensures (forall i :: 0 <= i < |a| ==> PassesOver(a[i])) ==> FindDestination(a + b) == FindDestination(b)
    ensures (exists i :: 0 <= i < |a| && !PassesOver(a[i])) ==> FindDestination(a + b) == FindDestination(a)
  {
    if a == [] {
      assert a + b == b;
    } else {
      var tail := a[1..];
      assert a + b == [a[0]] + (tail + b);
      assert a == [a[0]] + tail;
      FindDestinationHead(a[0], tail + b);
      FindDestinationHead(a[0], tail);
      FindDestinationAppend(tail, b);
      if exists i :: 0 <= i < |a| && !PassesOver(a[i]) {
        if PassesOver(a[0]) {
          var i :| 0 <= i < |a| && !PassesOver(a[i]);
          assert !PassesOver(tail[i - 1]);
        }
      }
      if forall i :: 0 <= i < |a| ==> PassesOver(a[i]) {
        assert PassesOver(a[0]);
        assert forall i :: 0 <= i < |tail| ==> PassesOver(tail[i]);
      }
    }
  }

  /** The search moves past a pair that passes over and stops at any other. */
  lemma FindDestinationHead(p: string, rest: seq<string>)
    ensures FindDestination([p] + rest) == if PassesOver(p) then FindDestination(rest) else FindDestination([p])
  {
    assert ([p] + rest)[1..] == rest;
    assert ([p] + rest)[0] == p;
  }

  /** `destination=v` with a plain value `v` yields `v`, whatever follows. */
  lemma DestinationPairFound(v: string, rest: seq<string>)
    requires v != []
    requires '=' !in v && '%' !in v && '+' !in v
    ensures FindDestination(["destination=" + v] + rest) == Some(v)
  {
    var key := "destination";
    assert '=' !in key && '%' !in key && '+' !in key;
    assert Join([key, v], '=') == "destination=" + v by {
      assert [key, v][1..] == [v];
    }
    SplitOfJoin([key, v], '=');
    UrlDecodePlain(key);
    UrlDecodePlain(v);
    assert (["destination=" + v] + rest)[0] == "destination=" + v;
  }

  /** Pairs that do not split into exactly two parts are passed over: `k=` (its empty
      value is dropped by `String.split`, leaving one part) and `a=b=c` (three parts),
      `destination=` and `destination=x=y` included. */
  lemma NonPairsIgnored(k: string, a: string, b: string, c: string, rest: seq<string>)
    requires '=' !in k && '=' !in a && '=' !in b && '=' !in c
    requires c != []
    ensures FindDestination([k + "="] + rest) == FindDestination(rest)
    ensures FindDestination([a + "=" + b + "=" + c] + rest) == FindDestination(rest)
  {
    assert Fields(k + "=", '=') == [k, []] by {
      FieldsAfterSeparator(k, '=', []);
      assert k + "=" == k + ['='] + [];
    }
    assert |Split(k + "=", '=')| <= 1 by {
      assert [k, []][..1] == [k];
      assert [k][..0] == [];
    }
    assert ([k + "="] + rest)[1..] == rest;
    JoinThree(a, b, c, '=');
    assert a + "=" + b + "=" + c == a + ['='] + b + ['='] + c;
    SplitOfJoin([a, b, c], '=');
    assert ([a + "=" + b + "=" + c] + rest)[1..] == rest;
  }

  /** A key whose escape is cut short makes `URLDecoder.decode` throw: the search ends
      with `null`, even when a `destination` pair follows. */
  lemma MalformedEscapeAborts(v: string, rest: seq<string>)
    requires v != [] && '=' !in v
    ensures FindDestination(["%=" + v] + rest) == None
  {
    assert '=' !in "%";
    assert Join(["%", v], '=') == "%=" + v by {
      assert ["%", v][1..] == [v];
    }
    SplitOfJoin(["%", v], '=');
    assert (["%=" + v] + rest)[0] == "%=" + v;
  }

  // ---------------------------------------------------------------- the relay

  /** What handling one data packet does. */
  datatype PacketAction =
    | Forward(payload: string, nextHop: string)  // sent on, unchanged, to the next hop
    | NoRoute(destination: string)               // dropped with a diagnostic
    | StopListening                              // `get(null)` throws and ends the listener

  class Router {
    const routingTable: Routing.RoutingTable
    /** The link delay added to every advertised distance. */
    const delay: int32
    /** What `getIPAddresses()` returns: the node's IPv4 addresses, as text. */
    const ipAddresses: seq<string>

    constructor(delay: int32, ipAddresses: seq<string>)
      ensures this.delay == delay && this.ipAddresses == ipAddresses
      ensures fresh(routingTable) && routingTable.table == map[]
    {
      this.delay := delay;
      this.ipAddresses := ipAddresses;
      routingTable := new Routing.RoutingTable();
    }

    /** Offers a self route (distance 0, hops 0, next hop itself) for every own address. */
    method InitializeRoutingTable()
      modifies routingTable
      ensures routingTable.table == SeedSelf(old(routingTable.table), ipAddresses)
    {
      for i := 0 to |ipAddresses|
        invariant routingTable.table == SeedSelf(old(routingTable.table), ipAddresses[..i])
      {
        routingTable.AddRoutingPath(ipAddresses[i], 0, 0, ipAddresses[i]);
        assert ipAddresses[..i + 1][..i] == ipAddresses[..i];
      }
      assert ipAddresses[..|ipAddresses|] == ipAddresses;
    }

    /** One broadcast: the advertisement `RoutingPacket.create` builds (seeding an
        empty table first), sent to the broadcast address of each own address that
        has one. */
    method SendRoutingTable() returns (tableData: string, ghost order: seq<string>, targets: seq<string>)
      modifies routingTable
      ensures routingTable.table ==
        if old(routingTable.table) == map[] then SeedSelf(map[], ipAddresses) else old(routingTable.table)
      ensures IsEnumeration(order, routingTable.table.Keys)
      ensures tableData == Encode(routingTable.table, order)
      ensures targets == BroadcastTargets(ipAddresses)
    {
      tableData, order := Routing.RoutingPacket.Create(routingTable, ipAddresses);
      targets := SendTargets(ipAddresses);
    }

    /** One received datagram of `listenForBroadcast`: a message from one of the
        node's own addresses, or an empty one, is ignored; any other is merged. */
    method OnBroadcast(message: string, sourceIP: string)
      modifies routingTable
      ensures sourceIP in ipAddresses || message == [] ==> routingTable.table == old(routingTable.table)
      ensures sourceIP !in ipAddresses && message != [] ==>
        routingTable.table == MergeMessage(old(routingTable.table), message, sourceIP, delay)
    {
      if sourceIP in ipAddresses {
        return;
      }
      if message == [] {
        return;
      }
      routingTable.MergeRoutingTable(message, sourceIP, delay);
    }

    /** `extractDestinationIP`: the search over the `&`-separated pairs, returning as
        soon as it is decided. */
    method ExtractDestinationIP(queryString: string) returns (r: Option<string>)
      ensures r == QueryDestination(queryString)
    {
      var pairs := Split(queryString, '&');
      for i := 0 to |pairs|
        invariant FindDestination(pairs[i..]) == FindDestination(pairs)
      {
        assert pairs[i..][1..] == pairs[i + 1..];
        var keyValue := Split(pairs[i], '=');
        if |keyValue| == 2 {
          var key := UrlDecode(keyValue[0]);
          if key.None? {
            return None;
          }
          var value := UrlDecode(keyValue[1]);
          if value.None? {
            return None;
          }
          if key.value == "destination" {
            return value;
          }
        }
      }
      return None;
    }

    /** One received data packet: it is forwarded, unchanged, to the next hop of the
        route to its destination; with no such route it is dropped; with no
        destination at all the lookup throws and the listener stops. */
    method HandlePacket(message: string) returns (action: PacketAction)
      ensures action == StopListening <==> QueryDestination(message) == None
      ensures action.Forward? <==>
        QueryDestination(message).Some? && QueryDestination(message).value in routingTable.table
      ensures action.Forward? ==>
        action == Forward(message, routingTable.table[QueryDestination(message).value].nextHop)
      ensures action.NoRoute? ==> action.destination == QueryDestination(message).value
    {
      var destinationIP := ExtractDestinationIP(message);
      if destinationIP.None? {
        return StopListening;
      }
      var route := routingTable.Get(destinationIP.value);
      if route.Some? {
        return Forward(message, route.value.nextHop);
      }
      return NoRoute(destinationIP.value);
    }
  }
}
