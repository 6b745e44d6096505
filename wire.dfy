/** The routing advertisement's text format,
      ROUTING_TABLE;<destination>:<distance>:<hops>,<destination>:<distance>:<hops>,...
    as every version of the engine writes it (a comma after every entry, the last
    one included) and reads it (skipping each entry that does not parse). */
module Wire {
  import opened JavaText
  import opened Routes

  const Prefix: string := "ROUTING_TABLE;"

  /** One advertised route as it travels: the destination, and the sender's own
      distance and hop count to it. */
  datatype Advert = Advert(destination: string, distance: int32, hops: int32)

  /** One entry: exactly three `:`-separated fields, the last two accepted by
      `Integer.parseInt`; anything else is skipped. */
  function ParseEntry(entry: string): Option<Advert>
  {
    var parts := Split(entry, ':');
    if |parts| != 3 then None
    else
      match (ParseInt(parts[1]), ParseInt(parts[2]))
      case (Some(distance), Some(hops)) => Some(Advert(parts[0], distance, hops))
      case _ => None
  }

  /** The entries that parse, in message order. */
  function DecodeEntries(entries: seq<string>): seq<Advert>
  {
    if entries == [] then []
    else
      match ParseEntry(entries[0])
      case Some(a) => [a] + DecodeEntries(entries[1..])
      case None => DecodeEntries(entries[1..])
  }

  /** A whole advertisement: nothing unless it starts with the prefix and has
      something after it; otherwise the parsed entries of the `,`-split body. */
  function Decode(message: string): seq<Advert>
  {
    if !StartsWith(message, Prefix) then []
    else
      var body := message[|Prefix|..];
      if body == [] then [] else DecodeEntries(Split(body, ','))
  }

  /** `destination:distance:hops`, numbers as `StringBuilder.append(int)` writes them. */
  function EntryText(destination: string, distance: int32, hops: int32): string
  {
    destination + ":" + IntToString(distance) + ":" + IntToString(hops)
  }

  /** An enumeration of `keys`: each exactly once. */
  ghost predicate IsEnumeration(order: seq<string>, keys: set<string>)
  {
    (forall k :: k in order <==> k in keys) &&
    (forall i, j :: 0 <= i < j < |order| ==> order[i] != order[j])
  }

  /** The entry text of each key of `order`, in that order. */
  function EntryTexts(t: Table, order: seq<string>): (r: seq<string>)
    requires forall k :: k in order ==> k in t
    ensures |r| == |order|
    ensures forall i :: 0 <= i < |r| ==> r[i] == EntryText(order[i], t[order[i]].distance, t[order[i]].hops)
  {
    if order == [] then []
    else
      var k := order[0];
      [EntryText(k, t[k].distance, t[k].hops)] + EntryTexts(t, order[1..])
  }

  /** The entries of `t` in the given key order, each followed by a comma. */
  function EncodeBody(t: Table, order: seq<string>): string
    requires forall k :: k in order ==> k in t
  {
    Terminated(EntryTexts(t, order), ',')
  }

  /** The advertisement of `t` when its entries are enumerated in `order`. */
  function Encode(t: Table, order: seq<string>): string
    requires forall k :: k in order ==> k in t
  {
    Prefix + EncodeBody(t, order)
  }

  /** What a receiver should get from the advertisement of `t`: destination,
      distance and hops of each key in `order` (next hops are not sent). */
  function Advertised(t: Table, order: seq<string>): (r: seq<Advert>)
    requires forall k :: k in order ==> k in t
    ensures |r| == |order|
    ensures forall i :: 0 <= i < |r| ==>
      r[i] == Advert(order[i], t[order[i]].distance, t[order[i]].hops)
  {
    if order == [] then []
    else
      var k := order[0];
      [Advert(k, t[k].distance, t[k].hops)] + Advertised(t, order[1..])
  }

  /** A destination that can travel in an entry. */
  predicate IsWireAddress(destination: string)
  {
    ':' !in destination && ',' !in destination
  }

  lemma EncodeBodySnoc(t: Table, order: seq<string>, k: string)
    requires forall j :: j in order ==> j in t
    requires k in t
    ensures EncodeBody(t, order + [k]) == EncodeBody(t, order) + EntryText(k, t[k].distance, t[k].hops) + ","
  {
    var texts, last := EntryTexts(t, order), EntryText(k, t[k].distance, t[k].hops);
    assert EntryTexts(t, order + [k]) == texts + [last];
    TerminatedSnoc(texts, last, ',');
  }

  /** Encoding one more key appends its entry and a comma. */
  lemma EncodeSnoc(t: Table, order: seq<string>, k: string)
    requires forall j :: j in order ==> j in t
    requires k in t
    ensures Encode(t, order + [k]) == Encode(t, order) + EntryText(k, t[k].distance, t[k].hops) + ","
  {
    var body, last := EncodeBody(t, order), EntryText(k, t[k].distance, t[k].hops);
    EncodeBodySnoc(t, order, k);
    AppendAfterPrefix(Prefix, body, last);
  }

  lemma AppendAfterPrefix(p: string, body: string, last: string)
    ensures p + (body + last + ",") == p + body + last + ","
  {
    assert body + last + "," == body + (last + ",");
  }

  // ---------------------------------------------------------------- the round trip

  lemma EntryTextParses(destination: string, distance: int32, hops: int32)
    requires IsWireAddress(destination)
    ensures ParseEntry(EntryText(destination, distance, hops)) == Some(Advert(destination, distance, hops))
  {
    var parts := [destination, IntToString(distance), IntToString(hops)];
    JoinThree(destination, IntToString(distance), IntToString(hops), ':');
    assert Join(parts, ':') == EntryText(destination, distance, hops);
    SplitOfJoin(parts, ':');
    ParseIntOfToString(distance);
    ParseIntOfToString(hops);
  }

  lemma {:induction false} DecodeEntryTexts(t: Table, order: seq<string>)
    requires forall k :: k in order ==> k in t && IsWireAddress(k)
    ensures DecodeEntries(EntryTexts(t, order)) == Advertised(t, order)
  {
    if order != [] {
      var k := order[0];
      EntryTextParses(k, t[k].distance, t[k].hops);
      DecodeEntryTexts(t, order[1..]);
      assert EntryTexts(t, order)[1..] == EntryTexts(t, order[1..]);
    }
  }

  lemma EntryTextsHaveNoComma(t: Table, order: seq<string>)
    requires forall k :: k in order ==> k in t && IsWireAddress(k)
    ensures forall i :: 0 <= i < |order| ==> ',' !in EntryTexts(t, order)[i] && EntryTexts(t, order)[i] != []
  {
    forall i | 0 <= i < |order|
      ensures ',' !in EntryTexts(t, order)[i] && EntryTexts(t, order)[i] != []
    {
      var k := order[i];
      EntryTextIsPiece(k, t[k].distance, t[k].hops);
    }
  }

  /** Splitting an encoded body on `,` gives one piece per entry: the empty piece
      after the final comma is dropped by `String.split`. */
  lemma SplitEncodeBody(t: Table, order: seq<string>)
    requires order != []
    requires forall k :: k in order ==> k in t && IsWireAddress(k)
    ensures EncodeBody(t, order) != []
    ensures Split(EncodeBody(t, order), ',') == EntryTexts(t, order)
  {
    EntryTextsHaveNoComma(t, order);
    SplitOfTerminated(EntryTexts(t, order), ',');
  }

  /** Decoding an encoded table gives back each key in the encoding order with its
      distance and hop count, provided no key contains `:` or `,`. */
  lemma DecodeEncode(t: Table, order: seq<string>)
    requires forall k :: k in order ==> k in t && IsWireAddress(k)
    ensures Decode(Encode(t, order)) == Advertised(t, order)
  {
    var m := Encode(t, order);
    assert StartsWith(m, Prefix) && m[|Prefix|..] == EncodeBody(t, order);
    if order != [] {
      SplitEncodeBody(t, order);
      DecodeEntryTexts(t, order);
    }
  }

  /** The same round trip, order ignored: when the encoding enumerates the table's
      keys, the decoded entries are exactly the table's (destination, distance,
      hops) triples, one per key. */
  lemma DecodeEncodeTriples(t: Table, order: seq<string>)
    requires IsEnumeration(order, t.Keys)
    requires forall k :: k in t ==> IsWireAddress(k)
    ensures |Decode(Encode(t, order))| == |t|
    ensures forall a :: a in Decode(Encode(t, order)) <==>
      a.destination in t && a == Advert(a.destination, t[a.destination].distance, t[a.destination].hops)
  {
    DecodeEncode(t, order);
    AdvertisedTriples(t, order);
  }

  /** An enumeration of the table's keys advertises each triple of the table once. */
  lemma AdvertisedTriples(t: Table, order: seq<string>)
    requires IsEnumeration(order, t.Keys)
    ensures |Advertised(t, order)| == |t|
    ensures forall a :: a in Advertised(t, order) <==>
      a.destination in t && a == Advert(a.destination, t[a.destination].distance, t[a.destination].hops)
  {
    var r := Advertised(t, order);
    assert |t| == |order| by {
      DistinctCardinality(order);
      assert t.Keys == set k | k in order;
    }
    forall a
      ensures a in r <==> a.destination in t && a == Advert(a.destination, t[a.destination].distance, t[a.destination].hops)
    {
      if a.destination in t && a == Advert(a.destination, t[a.destination].distance, t[a.destination].hops) {
        var i :| 0 <= i < |order| && order[i] == a.destination;
        assert r[i] == a;
      }
    }
  }

  lemma {:induction false} DistinctCardinality(order: seq<string>)
    requires forall i, j :: 0 <= i < j < |order| ==> order[i] != order[j]
    ensures |set k | k in order| == |order|
  {
    if order != [] {
      var rest := order[1..];
      DistinctCardinality(rest);
      assert (set k | k in order) == {order[0]} + (set k | k in rest);
      assert order[0] !in rest;
    }
  }

  /** Every encoded advertisement is recognised as one. */
  lemma EncodedStartsWithPrefix(t: Table, order: seq<string>)
    requires forall k :: k in order ==> k in t
    ensures StartsWith(Encode(t, order), Prefix)
  {
    assert Encode(t, order)[..|Prefix|] == Prefix;
  }

  // ---------------------------------------------------------------- fault tolerance

  lemma {:induction false} DecodeEntriesAppend(a: seq<string>, b: seq<string>)
    ensures DecodeEntries(a + b) == DecodeEntries(a) + DecodeEntries(b)
  {
    if a == [] {
      assert a + b == b;
    } else {
      assert (a + b)[1..] == a[1..] + b;
      DecodeEntriesAppend(a[1..], b);
    }
  }

  /** Entries none of which parse decode to nothing. */
  lemma {:induction false} DecodeEntriesNone(entries: seq<string>)
    requires forall i :: 0 <= i < |entries| ==> ParseEntry(entries[i]) == None
    ensures DecodeEntries(entries) == []
  {
    if entries != [] {
      DecodeEntriesNone(entries[1..]);
    }
  }

  /** Decoding the entries up to and including entry `i` adds entry `i`'s route,
      if it parses, to those decoded before it. */
  lemma DecodeEntriesStep(entries: seq<string>, i: nat)
    requires i < |entries|
    ensures DecodeEntries(entries[..i + 1]) ==
      DecodeEntries(entries[..i]) + (match ParseEntry(entries[i]) case Some(a) => [a] case None => [])
  {
    assert entries[..i + 1] == entries[..i] + [entries[i]];
    DecodeEntriesAppend(entries[..i], [entries[i]]);
  }

  /** A malformed entry is dropped on its own: the entries around it decode as if it
      were not there. */
  lemma SkipMalformedEntry(before: seq<string>, bad: string, after: seq<string>)
    requires ParseEntry(bad) == None
    ensures DecodeEntries(before + [bad] + after) == DecodeEntries(before) + DecodeEntries(after)
  {
    DecodeEntriesAppend(before + [bad], after);
    DecodeEntriesAppend(before, [bad]);
  }

  /** An entry without exactly three `:`-separated fields does not parse. */
  lemma WrongArityRejected(entry: string)
    requires |Split(entry, ':')| != 3
    ensures ParseEntry(entry) == None
  {
  }

  /** An entry whose distance or hop count is not a number does not parse. */
  lemma NonNumericRejected(entry: string)
    requires |Split(entry, ':')| == 3
    requires ParseInt(Split(entry, ':')[1]) == None || ParseInt(Split(entry, ':')[2]) == None
    ensures ParseEntry(entry) == None
  {
  }

  /** A message without the prefix, or with nothing after it, carries no routes. */
  lemma DecodeNeedsPrefixAndBody(message: string)
    requires !StartsWith(message, Prefix) || message == Prefix
    ensures Decode(message) == []
  {
  }

  /** A message built from entries joined by commas decodes entry by entry. */
  lemma DecodeJoined(entries: seq<string>)
    requires |entries| >= 1 && entries[0] != []
    requires forall i :: 0 <= i < |entries| ==> ',' !in entries[i]
    requires |entries| == 1 || entries[|entries| - 1] != []
    ensures Decode(Prefix + Join(entries, ',')) == DecodeEntries(entries)
  {
    var m := Prefix + Join(entries, ',');
    assert StartsWith(m, Prefix) && m[|Prefix|..] == Join(entries, ',');
    assert Join(entries, ',') != [] by {
      if |entries| > 1 {
        assert |Join(entries, ',')| >= |entries[0]|;
      }
    }
    SplitOfJoin(entries, ',');
  }

  /** The corrupt-middle-entry case, `ROUTING_TABLE;A:1:0,BAD,C:2:1` and all its kind:
      a middle entry with no `:` is skipped and the good entries on either side of it
      are returned, in order. */
  lemma DecodeSkipsBadMiddle(a: Advert, bad: string, c: Advert)
    requires IsWireAddress(a.destination) && IsWireAddress(c.destination)
    requires ':' !in bad && ',' !in bad
    ensures Decode(Prefix + Join([EntryText(a.destination, a.distance, a.hops), bad,
                                   EntryText(c.destination, c.distance, c.hops)], ',')) == [a, c]
  {
    EntryTextIsPiece(a.destination, a.distance, a.hops);
    EntryTextIsPiece(c.destination, c.distance, c.hops);
    var entries := [EntryText(a.destination, a.distance, a.hops), bad, EntryText(c.destination, c.distance, c.hops)];
    DecodeJoined(entries);
    EntryTextParses(a.destination, a.distance, a.hops);
    EntryTextParses(c.destination, c.distance, c.hops);
    assert ParseEntry(bad) == None by {
      FieldsNoSeparator(bad, ':');
    }
    DecodeEntriesSkipBadMiddle(entries[0], bad, entries[2], a, c);
  }

  lemma DecodeEntriesSkipBadMiddle(ea: string, bad: string, ec: string, a: Advert, c: Advert)
    requires ParseEntry(ea) == Some(a) && ParseEntry(bad) == None && ParseEntry(ec) == Some(c)
    ensures DecodeEntries([ea, bad, ec]) == [a, c]
  {
    assert DecodeEntries([ea]) == [a] by {
      assert [ea][1..] == [];
    }
    assert DecodeEntries([ec]) == [c] by {
      assert [ec][1..] == [];
    }
    SkipMalformedEntry([ea], bad, [ec]);
    assert [ea] + [bad] + [ec] == [ea, bad, ec];
  }

  /** An entry text is a non-empty piece without a comma. */
  lemma EntryTextIsPiece(destination: string, distance: int32, hops: int32)
    requires IsWireAddress(destination)
    ensures ',' !in EntryText(destination, distance, hops) && EntryText(destination, distance, hops) != []
  {
    var d, h := IntToString(distance), IntToString(hops);
    assert EntryText(destination, distance, hops) == destination + ":" + d + ":" + h;
  }
}
