/** The /24 broadcast address a relay sends its advertisements to: the first three
    dot-separated parts of one of its own addresses, then `.255`. Resolving the
    resulting text with `InetAddress.getByName` is not part of this model. */
module Addressing {
  import opened JavaText

  /** `getBroadcastAddress` as a string derivation: `ip.split("\\.")`, then parts 0, 1
      and 2 joined by `.` with `.255` appended; fewer than three parts makes the
      indexing throw, which the method turns into `null`. */
  function BroadcastAddress(ip: string): (r: Option<string>)
    ensures r.None? <==> |Split(ip, '.')| < 3
    ensures r.Some? ==> Split(r.value, '.') == Split(ip, '.')[..3] + ["255"]
  {
    var parts := Split(ip, '.');
    if |parts| < 3 then None
    else
      var a := parts[0] + "." + parts[1] + "." + parts[2] + ".255";
      var f := Fields(ip, '.');
      assert forall i :: 0 <= i < |parts| ==> parts[i] == f[i];
      assert '.' !in "255";
      assert a == parts[0] + "." + parts[1] + "." + parts[2] + "." + "255";
      JoinFour(parts[0], parts[1], parts[2], "255");
      SplitOfJoin([parts[0], parts[1], parts[2], "255"], '.');
      assert [parts[0], parts[1], parts[2], "255"] == parts[..3] + ["255"];
      Some(a)
  }

  lemma JoinFour(a: string, b: string, c: string, d: string)
    ensures Join([a, b, c, d], '.') == a + "." + b + "." + c + "." + d
  {
    assert [a, b, c, d][1..] == [b, c, d];
    JoinThree(b, c, d, '.');
  }

  /** A dotted address `a.b.c.d` broadcasts to `a.b.c.255`. */
  lemma BroadcastOfDottedQuad(a: string, b: string, c: string, d: string)
    requires '.' !in a && '.' !in b && '.' !in c && '.' !in d
    requires d != []
    ensures BroadcastAddress(a + "." + b + "." + c + "." + d) == Some(a + "." + b + "." + c + ".255")
  {
    JoinFour(a, b, c, d);
    SplitOfJoin([a, b, c, d], '.');
  }

  /** An address with no dot, or with one, has no broadcast address. */
  lemma BroadcastNeedsThreeParts(a: string, b: string)
    requires '.' !in a && '.' !in b
    ensures BroadcastAddress(a) == None
    ensures BroadcastAddress(a + "." + b) == None
  {
    FieldsNoSeparator(a, '.');
    FieldsAfterSeparator(a, '.', b);
    FieldsNoSeparator(b, '.');
  }

  /** The addresses `sendRoutingTable` sends to: the broadcast address of each own
      address in turn, skipping those that have none. */
  function BroadcastTargets(ips: seq<string>): seq<string>
  {
    if ips == [] then []
    else
      var rest := BroadcastTargets(ips[..|ips| - 1]);
      match BroadcastAddress(ips[|ips| - 1])
      case Some(b) => rest + [b]
      case None => rest
  }

  lemma BroadcastTargetsStep(ips: seq<string>, i: nat)
    requires i < |ips|
    ensures BroadcastTargets(ips[..i + 1]) ==
      BroadcastTargets(ips[..i]) + match BroadcastAddress(ips[i]) case Some(b) => [b] case None => []
  {
    assert ips[..i + 1][..i] == ips[..i];
  }

  /** The send loop of `sendRoutingTable`: one datagram per own address that has a
      broadcast address, in address order (the datagram itself is not modelled; its
      destination is recorded). */
  method SendTargets(ipAddresses: seq<string>) returns (targets: seq<string>)
    ensures targets == BroadcastTargets(ipAddresses)
  {
    targets := [];
    for i := 0 to |ipAddresses|
      invariant targets == BroadcastTargets(ipAddresses[..i])
    {
      BroadcastTargetsStep(ipAddresses, i);
      var broadcastAddress := BroadcastAddress(ipAddresses[i]);
      if broadcastAddress.Some? {
        targets := targets + [broadcastAddress.value];
      }
    }
    assert ipAddresses[..|ipAddresses|] == ipAddresses;
  }

  /** A datagram goes to exactly the broadcast addresses of the own addresses. */
  lemma {:induction false} BroadcastTargetsExact(ips: seq<string>)
    ensures forall b :: b in BroadcastTargets(ips) <==> exists ip :: ip in ips && BroadcastAddress(ip) == Some(b)
  {
    if ips != [] {
      var init := ips[..|ips| - 1];
      BroadcastTargetsExact(init);
      assert ips == init + [ips[|ips| - 1]];
      forall b
        ensures b in BroadcastTargets(ips) <==> exists ip :: ip in ips && BroadcastAddress(ip) == Some(b)
      {
        if b in BroadcastTargets(ips) && b !in BroadcastTargets(init) {
          assert BroadcastAddress(ips[|ips| - 1]) == Some(b);
        }
        if exists ip :: ip in ips && BroadcastAddress(ip) == Some(b) {
          var ip :| ip in ips && BroadcastAddress(ip) == Some(b);
          if ip !in init {
            assert ip == ips[|ips| - 1];
          }
        }
      }
    }
  }
}
