/** The merge of a neighbour's advertisement into the local table: every decoded
    entry is relaxed through the link it arrived on (distance plus the node's link
    delay, hops plus one, next hop the sender) and offered to the improve-or-ignore
    update. Every version of the engine runs this same loop; the additions are Java
    `int` additions and wrap around. */
module Relaxation {
  import opened JavaText
  import opened Routes
  import opened Wire

  /** The route an advertised entry offers once it has crossed the link from the sender. */
  function Candidate(a: Advert, sourceIP: string, delay: int32): Update
  {
    Update(a.destination, RoutingInfo(WrapAdd(a.distance, delay), WrapAdd(a.hops, 1), sourceIP))
  }

  /** One step of a merge loop as the source writes it: the loop first checks that the
      destination is unknown or the candidate strictly shorter, then calls the update
      (which checks again). */
  function Relax(t: Table, a: Advert, sourceIP: string, delay: int32): Table
  {
    var c := Candidate(a, sourceIP, delay);
    if c.destination !in t || t[c.destination].distance > c.info.distance then
      Upsert(t, c.destination, c.info)
    else t
  }

  /** The table after relaxing every advertised entry, in message order. */
  function MergeAll(t: Table, adverts: seq<Advert>, sourceIP: string, delay: int32): Table
    decreases adverts
  {
    if adverts == [] then t
    else MergeAll(Relax(t, adverts[0], sourceIP, delay), adverts[1..], sourceIP, delay)
  }

  /** The table after a whole message has been merged. */
  function MergeMessage(t: Table, message: string, sourceIP: string, delay: int32): Table
  {
    MergeAll(t, Decode(message), sourceIP, delay)
  }

  /** The check the merge loops make before calling the update is redundant: a
      relaxation step is exactly one improve-or-ignore update with the candidate. */
  lemma RelaxIsUpsert(t: Table, a: Advert, sourceIP: string, delay: int32)
    ensures Relax(t, a, sourceIP, delay) ==
      Upsert(t, Candidate(a, sourceIP, delay).destination, Candidate(a, sourceIP, delay).info)
  {
  }

  function Candidates(adverts: seq<Advert>, sourceIP: string, delay: int32): (r: seq<Update>)
    ensures |r| == |adverts|
    ensures forall i :: 0 <= i < |r| ==> r[i] == Candidate(adverts[i], sourceIP, delay)
  {
    if adverts == [] then []
    else [Candidate(adverts[0], sourceIP, delay)] + Candidates(adverts[1..], sourceIP, delay)
  }

  /** A merge is the sequence of updates with the message's candidates. */
  lemma {:induction false} MergeIsApplyAll(t: Table, adverts: seq<Advert>, sourceIP: string, delay: int32)
    ensures MergeAll(t, adverts, sourceIP, delay) == ApplyAll(t, Candidates(adverts, sourceIP, delay))
    decreases adverts
  {
    if adverts != [] {
      RelaxIsUpsert(t, adverts[0], sourceIP, delay);
      MergeIsApplyAll(Relax(t, adverts[0], sourceIP, delay), adverts[1..], sourceIP, delay);
      assert Candidates(adverts, sourceIP, delay)[1..] == Candidates(adverts[1..], sourceIP, delay);
    }
  }

  /** A merge never forgets a destination and never lengthens a stored distance. */
  lemma MergeDominates(t: Table, adverts: seq<Advert>, sourceIP: string, delay: int32)
    ensures Dominates(t, MergeAll(t, adverts, sourceIP, delay))
  {
    MergeIsApplyAll(t, adverts, sourceIP, delay);
    ApplyAllDominates(t, Candidates(adverts, sourceIP, delay));
  }

  lemma {:induction false} MergeAppend(t: Table, a: seq<Advert>, b: seq<Advert>, sourceIP: string, delay: int32)
    ensures MergeAll(t, a + b, sourceIP, delay) == MergeAll(MergeAll(t, a, sourceIP, delay), b, sourceIP, delay)
    decreases a
  {
    if a == [] {
      assert a + b == b;
    } else {
      assert (a + b)[1..] == a[1..] + b;
      MergeAppend(Relax(t, a[0], sourceIP, delay), a[1..], b, sourceIP, delay);
    }
  }

  /** Merging the adverts up to and including advert `i` is merging those before it and
      then relaxing advert `i`. */
  lemma MergePrefixStep(t: Table, adverts: seq<Advert>, i: nat, sourceIP: string, delay: int32)
    requires i < |adverts|
    ensures MergeAll(t, adverts[..i + 1], sourceIP, delay) ==
      Relax(MergeAll(t, adverts[..i], sourceIP, delay), adverts[i], sourceIP, delay)
  {
    assert adverts[..i + 1] == adverts[..i] + [adverts[i]];
    MergeAppend(t, adverts[..i], [adverts[i]], sourceIP, delay);
    assert [adverts[i]][1..] == [];
  }

  /** Merging the decoded entries up to and including entry `i` is merging those before
      it and then relaxing entry `i`, when it parses. */
  lemma MergeEntriesStep(t: Table, entries: seq<string>, i: nat, sourceIP: string, delay: int32)
    requires i < |entries|
    ensures MergeAll(t, DecodeEntries(entries[..i + 1]), sourceIP, delay) ==
      match ParseEntry(entries[i])
      case Some(a) => Relax(MergeAll(t, DecodeEntries(entries[..i]), sourceIP, delay), a, sourceIP, delay)
      case None => MergeAll(t, DecodeEntries(entries[..i]), sourceIP, delay)
  {
    DecodeEntriesStep(entries, i);
    var one := match ParseEntry(entries[i]) case Some(a) => [a] case None => [];
    MergeAppend(t, DecodeEntries(entries[..i]), one, sourceIP, delay);
  }

  /** After a merge, every advertised destination is known, at a distance no longer
      than any candidate the message offered for it. */
  lemma {:induction false} MergeBound(t: Table, adverts: seq<Advert>, sourceIP: string, delay: int32)
    ensures forall i :: 0 <= i < |adverts| ==>
      var r := MergeAll(t, adverts, sourceIP, delay);
      adverts[i].destination in r &&
      r[adverts[i].destination].distance <= Candidate(adverts[i], sourceIP, delay).info.distance
    decreases adverts
  {
    if adverts != [] {
      var t1 := Relax(t, adverts[0], sourceIP, delay);
      var rest := adverts[1..];
      MergeBound(t1, rest, sourceIP, delay);
      MergeDominates(t1, rest, sourceIP, delay);
      forall i | 1 <= i < |adverts|
        ensures adverts[i] == rest[i - 1]
      {
      }
    }
  }

  /** A message none of whose candidates is strictly shorter than what is stored
      changes nothing. */
  lemma {:induction false} MergeStable(t: Table, adverts: seq<Advert>, sourceIP: string, delay: int32)
    requires forall i :: 0 <= i < |adverts| ==>
      adverts[i].destination in t &&
      t[adverts[i].destination].distance <= Candidate(adverts[i], sourceIP, delay).info.distance
    ensures MergeAll(t, adverts, sourceIP, delay) == t
    decreases adverts
  {
    if adverts != [] {
      assert Relax(t, adverts[0], sourceIP, delay) == t;
      forall i | 0 <= i < |adverts[1..]|
        ensures adverts[1..][i] == adverts[i + 1]
      {
      }
      MergeStable(t, adverts[1..], sourceIP, delay);
    }
  }

  /** The same advertisement merged again from the same sender with the same delay
      changes nothing. */
  lemma MergeIdempotent(t: Table, adverts: seq<Advert>, sourceIP: string, delay: int32)
    ensures var once := MergeAll(t, adverts, sourceIP, delay);
      MergeAll(once, adverts, sourceIP, delay) == once
  {
    var once := MergeAll(t, adverts, sourceIP, delay);
    MergeBound(t, adverts, sourceIP, delay);
    MergeStable(once, adverts, sourceIP, delay);
  }

  /** Some entry of the message advertises destination `k`. */
  ghost predicate Mentions(adverts: seq<Advert>, k: string)
  {
    exists i :: 0 <= i < |adverts| && adverts[i].destination == k
  }

  lemma MentionsCons(adverts: seq<Advert>, k: string)
    requires adverts != []
    ensures Mentions(adverts, k) <==> adverts[0].destination == k || Mentions(adverts[1..], k)
  {
    if Mentions(adverts, k) && adverts[0].destination != k {
      var i :| 0 <= i < |adverts| && adverts[i].destination == k;
      assert adverts[1..][i - 1] == adverts[i];
    }
    if Mentions(adverts[1..], k) {
      var j :| 0 <= j < |adverts[1..]| && adverts[1..][j].destination == k;
      assert adverts[j + 1] == adverts[1..][j];
    }
  }

  /** A merge adds exactly the advertised destinations to the table's keys. */
  lemma {:induction false} MergeKeys(t: Table, adverts: seq<Advert>, sourceIP: string, delay: int32)
    ensures forall k :: k in MergeAll(t, adverts, sourceIP, delay) <==> k in t || Mentions(adverts, k)
    decreases adverts
  {
    if adverts != [] {
      var t1 := Relax(t, adverts[0], sourceIP, delay);
      MergeKeys(t1, adverts[1..], sourceIP, delay);
      forall k
        ensures k in MergeAll(t, adverts, sourceIP, delay) <==> k in t || Mentions(adverts, k)
      {
        MentionsCons(adverts, k);
      }
    }
  }

  /** Every entry after a merge is either the one stored before or a candidate the
      message offered for that destination, whose next hop is the sender. */
  lemma {:induction false} MergeValues(t: Table, adverts: seq<Advert>, sourceIP: string, delay: int32)
    ensures var r := MergeAll(t, adverts, sourceIP, delay);
      forall k :: k in r ==>
        (k in t && r[k] == t[k]) ||
        (exists i :: 0 <= i < |adverts| && adverts[i].destination == k &&
                     r[k] == Candidate(adverts[i], sourceIP, delay).info)
    decreases adverts
  {
    var r := MergeAll(t, adverts, sourceIP, delay);
    if adverts != [] {
      var t1 := Relax(t, adverts[0], sourceIP, delay);
      var rest := adverts[1..];
      MergeValues(t1, rest, sourceIP, delay);
      forall k | k in r
        ensures (k in t && r[k] == t[k]) ||
                (exists i :: 0 <= i < |adverts| && adverts[i].destination == k &&
                             r[k] == Candidate(adverts[i], sourceIP, delay).info)
      {
        if k in t1 && r[k] == t1[k] {
          if !(k in t && t1[k] == t[k]) {
            assert adverts[0].destination == k && r[k] == Candidate(adverts[0], sourceIP, delay).info;
          }
        } else {
          var j :| 0 <= j < |rest| && rest[j].destination == k &&
                   r[k] == Candidate(rest[j], sourceIP, delay).info;
          assert adverts[j + 1] == rest[j];
        }
      }
    }
  }

  /** A destination the message does not mention keeps its entry. */
  lemma MergeLeavesOthers(t: Table, adverts: seq<Advert>, sourceIP: string, delay: int32, k: string)
    requires k in t
    requires forall i :: 0 <= i < |adverts| ==> adverts[i].destination != k
    ensures k in MergeAll(t, adverts, sourceIP, delay)
    ensures MergeAll(t, adverts, sourceIP, delay)[k] == t[k]
  {
    MergeKeys(t, adverts, sourceIP, delay);
    MergeValues(t, adverts, sourceIP, delay);
  }

  /** A message without the prefix, or with nothing after it, leaves the table as it is. */
  lemma MergeIgnoresNonAdvert(t: Table, message: string, sourceIP: string, delay: int32)
    requires !StartsWith(message, Prefix) || message == Prefix
    ensures MergeMessage(t, message, sourceIP, delay) == t
  {
    DecodeNeedsPrefixAndBody(message);
  }

  /** A message with one well-formed entry `d:x:h` from `sourceIP` stores
      `d -> (x + delay, h + 1, sourceIP)` exactly when `d` was unknown or stored at a
      distance longer than `x + delay`, and otherwise changes nothing. */
  lemma MergeOneEntry(t: Table, d: string, x: int32, h: int32, sourceIP: string, delay: int32)
    requires IsWireAddress(d)
    ensures var r := MergeMessage(t, Prefix + EntryText(d, x, h), sourceIP, delay);
      var newDistance := WrapAdd(x, delay);
      if d !in t || t[d].distance > newDistance then
        r == t[d := RoutingInfo(newDistance, WrapAdd(h, 1), sourceIP)]
      else r == t
  {
    var e := EntryText(d, x, h);
    EntryTextIsPiece(d, x, h);
    var a := Advert(d, x, h);
    assert Decode(Prefix + e) == [a] by {
      assert Join([e], ',') == e;
      DecodeJoined([e]);
      EntryTextParses(d, x, h);
      assert DecodeEntries([e]) == [a];
    }
    assert MergeAll(t, [a], sourceIP, delay) == Relax(t, a, sourceIP, delay) by {
      assert [a][1..] == [];
    }
  }

  /** The worked example: an empty table merges `ROUTING_TABLE;10.0.0.5:0:0` received
      from 10.0.0.9 with link delay 120 into the single route
      10.0.0.5 -> (distance 120, hops 1, next hop 10.0.0.9). */
  lemma MergeExample()
    ensures MergeMessage(map[], Prefix + EntryText("10.0.0.5", 0, 0), "10.0.0.9", 120) ==
      map["10.0.0.5" := RoutingInfo(120, 1, "10.0.0.9")]
    ensures EntryText("10.0.0.5", 0, 0) == "10.0.0.5:0:0"
  {
    assert IntToString(0) == "0";
    MergeOneEntry(map[], "10.0.0.5", 0, 0, "10.0.0.9", 120);
  }

  /** As written, `distance + delay` wraps: a neighbour advertising the largest `int`
      distance yields a negative candidate, which then displaces any route stored at
      a non-negative distance. */
  lemma OverflowedCandidateWins(t: Table, d: string, hops: int32, sourceIP: string, delay: int32)
    requires 0 < delay
    requires d in t && t[d].distance >= 0
    ensures var c := Candidate(Advert(d, MaxInt, hops), sourceIP, delay);
      c.info.distance < 0 &&
      Relax(t, Advert(d, MaxInt, hops), sourceIP, delay) == t[d := c.info]
  {
  }

  /** Without overflow the opposite holds: when every advertised distance is
      non-negative, the delay is non-negative and no sum leaves the `int` range, a
      merge leaves a route of distance 0 or less (a self route, say) untouched. */
  lemma {:induction false} MergeKeepsShortestRoute(t: Table, adverts: seq<Advert>, sourceIP: string, delay: int32, k: string)
    requires k in t && t[k].distance <= 0
    requires 0 <= delay
    requires forall i :: 0 <= i < |adverts| ==> 0 <= adverts[i].distance && adverts[i].distance + delay <= MaxInt
    ensures k in MergeAll(t, adverts, sourceIP, delay)
    ensures MergeAll(t, adverts, sourceIP, delay)[k] == t[k]
    decreases adverts
  {
    if adverts != [] {
      var a := adverts[0];
      WrapAddExact(a.distance, delay);
      var t1 := Relax(t, a, sourceIP, delay);
      assert k in t1 && t1[k] == t[k];
      MergeKeepsShortestRoute(t1, adverts[1..], sourceIP, delay, k);
    }
  }
}
