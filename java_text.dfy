/** The behaviour of the few Java standard-library operations the routing engine
    is built from: `String.split` with a one-character separator, `String.join`,
    `String.startsWith`, `Integer.parseInt`, `Integer.toString` (what
    `StringBuilder.append(int)` writes), 32-bit `int` addition and
    `URLDecoder.decode`. Strings are sequences of characters. */
module JavaText {

  datatype Option<T> = None | Some(value: T)

  const MinInt: int := -0x8000_0000
  const MaxInt: int := 0x7fff_ffff

  /** Java's `int`. */
  type int32 = x: int | -0x8000_0000 <= x < 0x8000_0000

  /** Java's `a + b` on two `int`s: the true sum reduced into 32 bits (two's complement). */
  function WrapAdd(a: int32, b: int32): (r: int32)
    ensures (r - (a + b)) % 0x1_0000_0000 == 0
  {
    var s := a + b;
    if s > MaxInt then s - 0x1_0000_0000
    else if s < MinInt then s + 0x1_0000_0000
    else s
  }

  /** Without overflow, Java's `int` addition is ordinary addition. */
  lemma WrapAddExact(a: int32, b: int32)
    requires MinInt <= a + b <= MaxInt
    ensures WrapAdd(a, b) == a + b
  {
  }

  // ---------------------------------------------------------------- startsWith, join, split

  predicate StartsWith(s: string, prefix: string)
  {
    |prefix| <= |s| && s[..|prefix|] == prefix
  }

  /** `String.join(String.valueOf(c), parts)`. */
  function Join(parts: seq<string>, c: char): string
  {
    if |parts| == 0 then []
    else if |parts| == 1 then parts[0]
    else parts[0] + [c] + Join(parts[1..], c)
  }

  lemma JoinThree(a: string, b: string, d: string, c: char)
    ensures Join([a, b, d], c) == a + [c] + b + [c] + d
  {
    assert [a, b, d][1..] == [b, d];
    assert [b, d][1..] == [d];
    assert Join([d], c) == d;
    assert Join([b, d], c) == b + [c] + d;
  }

  /** A character that is neither the separator nor in any part is not in the join. */
  lemma {:induction false} JoinAvoids(parts: seq<string>, c: char, x: char)
    requires x != c
    requires forall i :: 0 <= i < |parts| ==> x !in parts[i]
    ensures x !in Join(parts, c)
    decreases |parts|
  {
    if |parts| > 1 {
      JoinAvoids(parts[1..], c, x);
    }
  }

  /** Every field of `s` between occurrences of `c`, empty ones included: one more
      field than there are occurrences of `c`, none containing `c`, and each made of
      characters of `s`. */
  function Fields(s: string, c: char): (r: seq<string>)
    ensures |r| >= 1
    ensures forall i :: 0 <= i < |r| ==> c !in r[i]
    ensures forall i, x :: 0 <= i < |r| && x in r[i] ==> x in s
    ensures c !in s <==> |r| == 1
  {
    if s == [] then [[]]
    else
      var rest := Fields(s[1..], c);
      assert forall x :: x in s[1..] ==> x in s;
      if s[0] == c then
        var r := [[]] + rest;
        assert forall i :: 1 <= i < |r| ==> r[i] == rest[i - 1];
        r
      else
        var r := [[s[0]] + rest[0]] + rest[1..];
        assert forall i :: 1 <= i < |r| ==> r[i] == rest[i];
        r
  }

  /** Drops the empty strings at the end of `fields`, and only those. */
  function TrimTrailingEmpty(fields: seq<string>): (r: seq<string>)
    ensures r <= fields
    ensures r == [] || r[|r| - 1] != []
    ensures forall i :: |r| <= i < |fields| ==> fields[i] == []
  {
    if fields == [] then []
    else if fields[|fields| - 1] == [] then TrimTrailingEmpty(fields[..|fields| - 1])
    else fields
  }

  /** `s.split(String.valueOf(c))` for a separator that is not a regular-expression
      metacharacter (and `s.split("\\.")` for `c == '.'`): with no separator in `s` the
      result is `[s]` (so `"".split(",")` is `[""]`); otherwise the fields with the
      trailing empty ones removed (leading empty fields are kept). */
  function Split(s: string, c: char): seq<string>
  {
    var f := Fields(s, c);
    if |f| == 1 then f else TrimTrailingEmpty(f)
  }

  lemma {:induction false} FieldsNoSeparator(a: string, c: char)
    requires c !in a
    ensures Fields(a, c) == [a]
  {
    if a != [] {
      FieldsNoSeparator(a[1..], c);
      assert [a[0]] + a[1..] == a;
    }
  }

  lemma {:induction false} FieldsAfterSeparator(a: string, c: char, b: string)
    requires c !in a
    ensures Fields(a + [c] + b, c) == [a] + Fields(b, c)
  {
    if a == [] {
      assert a + [c] + b == [c] + b;
    } else {
      FieldsAfterSeparator(a[1..], c, b);
      assert (a + [c] + b)[1..] == a[1..] + [c] + b;
      assert [a[0]] + a[1..] == a;
    }
  }

  /** Splitting a join of separator-free parts gives the parts back (all of them,
      including empty ones). */
  lemma {:induction false} FieldsOfJoin(parts: seq<string>, c: char)
    requires |parts| >= 1
    requires forall i :: 0 <= i < |parts| ==> c !in parts[i]
    ensures Fields(Join(parts, c), c) == parts
  {
    if |parts| == 1 {
      FieldsNoSeparator(parts[0], c);
    } else {
      FieldsOfJoin(parts[1..], c);
      FieldsAfterSeparator(parts[0], c, Join(parts[1..], c));
    }
  }

  /** `String.split` inverts `String.join` when no part contains the separator and the
      last part is not empty (or there is just one part). */
  lemma SplitOfJoin(parts: seq<string>, c: char)
    requires |parts| >= 1
    requires forall i :: 0 <= i < |parts| ==> c !in parts[i]
    requires |parts| == 1 || parts[|parts| - 1] != []
    ensures Split(Join(parts, c), c) == parts
  {
    FieldsOfJoin(parts, c);
  }

  /** Each part followed by `c`, as a loop appending `part` then `c` writes them. */
  function Terminated(parts: seq<string>, c: char): string
  {
    if parts == [] then [] else parts[0] + [c] + Terminated(parts[1..], c)
  }

  lemma {:induction false} TerminatedSnoc(parts: seq<string>, p: string, c: char)
    ensures Terminated(parts + [p], c) == Terminated(parts, c) + p + [c]
  {
    if parts == [] {
      assert parts + [p] == [p];
    } else {
      assert (parts + [p])[1..] == parts[1..] + [p];
      TerminatedSnoc(parts[1..], p, c);
    }
  }

  /** A separator after every part is a join with an extra, empty, last part. */
  lemma {:induction false} TerminatedIsJoin(parts: seq<string>, c: char)
    ensures Terminated(parts, c) == Join(parts + [[]], c)
  {
    if parts != [] {
      TerminatedIsJoin(parts[1..], c);
      assert (parts + [[]])[1..] == parts[1..] + [[]];
    }
  }

  /** With a separator after every part, `String.split` returns just the parts: the
      trailing empty field is dropped. */
  lemma SplitOfTerminated(parts: seq<string>, c: char)
    requires |parts| >= 1
    requires forall i :: 0 <= i < |parts| ==> c !in parts[i] && parts[i] != []
    ensures Terminated(parts, c) != []
    ensures Split(Terminated(parts, c), c) == parts
  {
    TerminatedIsJoin(parts, c);
    var pieces := parts + [[]];
    assert forall i :: 0 <= i < |pieces| ==> c !in pieces[i];
    FieldsOfJoin(pieces, c);
    var f := Fields(Join(pieces, c), c);
    assert |f| == |parts| + 1 >= 2;
    var trimmed := TrimTrailingEmpty(f);
    assert trimmed <= f;
    assert f[|f| - 1] == [] && f[|parts| - 1] != [];
    assert |trimmed| == |parts|;
    assert trimmed == f[..|parts|] == parts;
  }

  // ---------------------------------------------------------------- Integer.parseInt / toString

  predicate IsDigit(ch: char)
  {
    '0' <= ch <= '9'
  }

  predicate AllDigits(s: string)
  {
    forall i :: 0 <= i < |s| ==> IsDigit(s[i])
  }

  /** The value of a string of decimal digits, leading zeros allowed. */
  function DigitsValue(s: string): nat
    requires AllDigits(s)
  {
    if s == [] then 0
    else DigitsValue(s[..|s| - 1]) * 10 + (s[|s| - 1] as int - '0' as int)
  }

  /** `Integer.parseInt(s)`: an optional `+` or `-`, then at least one decimal digit,
      and the value must fit in an `int`; anything else throws
      `NumberFormatException`, modelled as `None`. */
  function ParseInt(s: string): Option<int32>
  {
    if s == [] then None
    else
      var signed := s[0] == '-' || s[0] == '+';
      var digits := if signed then s[1..] else s;
      if digits == [] || !AllDigits(digits) then None
      else
        var v: int := if s[0] == '-' then -(DigitsValue(digits) as int) else DigitsValue(digits);
        if MinInt <= v <= MaxInt then Some(v) else None
  }

  function DigitChar(d: nat): (ch: char)
    requires d < 10
    ensures IsDigit(ch) && ch as int - '0' as int == d
  {
    ('0' as int + d) as char
  }

  /** The decimal digits of `n`, without leading zeros. */
  function NatToDigits(n: nat): (s: string)
    ensures s != [] && AllDigits(s)
    ensures DigitsValue(s) == n
  {
    if n < 10 then [DigitChar(n)]
    else
      var s := NatToDigits(n / 10) + [DigitChar(n % 10)];
      assert s[..|s| - 1] == NatToDigits(n / 10);
      s
  }

  /** `Integer.toString(n)`: a minus sign for negative numbers, then the digits. */
  function IntToString(n: int32): (s: string)
    ensures s != [] && ':' !in s && ',' !in s
  {
    if n < 0 then "-" + NatToDigits(-(n as int)) else NatToDigits(n)
  }

  /** `Integer.parseInt` reads back what `Integer.toString` writes, for every `int`. */
  lemma ParseIntOfToString(n: int32)
    ensures ParseInt(IntToString(n)) == Some(n)
  {
    var s := IntToString(n);
    if n < 0 {
      assert s[1..] == NatToDigits(-(n as int));
    } else {
      assert IsDigit(s[0]);
    }
  }

  /** Text that is not a number makes `Integer.parseInt` throw. */
  lemma ParseIntRejectsNonDigits(s: string, i: nat)
    requires 0 < i < |s| && !IsDigit(s[i])
    ensures ParseInt(s) == None
  {
    if s[0] == '-' || s[0] == '+' {
      assert s[1..][i - 1] == s[i];
    }
  }

  // ---------------------------------------------------------------- URLDecoder.decode

  function HexValue(ch: char): Option<nat>
  {
    if '0' <= ch <= '9' then Some(ch as int - '0' as int)
    else if 'a' <= ch <= 'f' then Some(ch as int - 'a' as int + 10)
    else if 'A' <= ch <= 'F' then Some(ch as int - 'A' as int + 10)
    else None
  }

  /** The byte of an escape `%ab`: `Integer.parseInt(ab, 16)`, which also takes a sign
      in front of one hex digit; a negative value is refused. */
  function EscapeByte(a: char, b: char): (r: Option<nat>)
    ensures r.Some? ==> r.value < 256
  {
    if HexValue(b).None? then None
    else if a == '+' then HexValue(b)
    else if a == '-' then (if HexValue(b) == Some(0) then Some(0) else None)
    else if HexValue(a).None? then None
    else Some(HexValue(a).value * 16 + HexValue(b).value)
  }

  /** `URLDecoder.decode(s, "UTF-8")`: `+` becomes a space and `%ab` the escaped byte;
      an escape that is cut short or not hexadecimal throws
      `IllegalArgumentException`, modelled as `None`. Each escaped byte becomes the
      character with that code. */
  function UrlDecode(s: string): Option<string>
    decreases |s|
  {
    if s == [] then Some([])
    else if s[0] == '%' then
      if |s| < 3 then None
      else
        match (EscapeByte(s[1], s[2]), UrlDecode(s[3..]))
        case (Some(b), Some(rest)) => Some([b as char] + rest)
        case _ => None
    else
      var ch := if s[0] == '+' then ' ' else s[0];
      match UrlDecode(s[1..])
      case Some(rest) => Some([ch] + rest)
      case None => None
  }

  /** A string without `%` and `+` decodes to itself. */
  lemma {:induction false} UrlDecodePlain(s: string)
    requires '%' !in s && '+' !in s
    ensures UrlDecode(s) == Some(s)
  {
    if s != [] {
      UrlDecodePlain(s[1..]);
      assert [s[0]] + s[1..] == s;
    }
  }
}
