/** Decimal text of machine integers, and the identifiers built from it. */
module Decimal {
  import opened Prelude

  function Digit(d: nat): char
    requires d < 10
  {
    ('0' as int + d) as char
  }

  /** The decimal digits of a natural number, most significant first, without leading zeros. */
  function Digits(n: nat): string {
    if n < 10 then [Digit(n)] else Digits(n / 10) + [Digit(n % 10)]
  }

  function Itoa(i: int): string {
    if i < 0 then "-" + Digits(-i) else Digits(i)
  }

  predicate IsDigit(c: char) {
    '0' <= c <= '9'
  }

  /** Reads a non-empty run of digits. */
  function ParseNat(s: string): Option<nat> {
    if s == [] || !IsDigit(s[|s| - 1]) then None
    else
      var d := s[|s| - 1] as int - '0' as int;
      if |s| == 1 then Some(d)
      else match ParseNat(s[..|s| - 1])
        case None => None
        case Some(n) => Some(10 * n + d)
  }

  function ParseInt(s: string): Option<int> {
    if s != [] && s[0] == '-' then
      match ParseNat(s[1..])
      case None => None
      case Some(n) => var i: int := n; Some(-i)
    else
      match ParseNat(s)
      case None => None
      case Some(n) => Some(n)
  }

  lemma {:induction false} DigitsParse(n: nat)
    ensures Digits(n) != [] && (forall i :: 0 <= i < |Digits(n)| ==> IsDigit(Digits(n)[i]))
    ensures ParseNat(Digits(n)) == Some(n)
  {
    if n >= 10 {
      DigitsParse(n / 10);
      assert Digits(n)[..|Digits(n)| - 1] == Digits(n / 10);
    }
  }

  /** Decimal text names one integer, and holds no colon. */
  lemma ItoaParse(i: int)
    ensures ParseInt(Itoa(i)) == Some(i)
    ensures Itoa(i) == if i >= 0 then Digits(i) else "-" + Itoa(-i)
    ensures ':' !in Itoa(i)
  {
    DigitsParse(if i < 0 then -i else i);
    assert i < 0 ==> Itoa(i)[1..] == Digits(-i);
  }

  /** Every digit is the one of its place: ones last, and no zero leads but zero itself. */
  lemma {:induction false} DigitPlaces(n: nat, i: nat)
    requires i < |Digits(n)|
    ensures Digits(n)[|Digits(n)| - 1 - i] as int == '0' as int + n / Pow10(i) % 10
    ensures n < Pow10(|Digits(n)|)
    ensures n > 0 ==> Digits(n)[0] != '0'
    ensures n == 0 ==> |Digits(n)| == 1
    decreases n
  {
    if n >= 10 {
      DigitPlaces(n / 10, if i > 0 then i - 1 else 0);
      if i > 0 {
        TenTimes(n, Pow10(i - 1));
      }
    }
  }

  lemma TenTimes(n: nat, b: nat)
    requires b > 0
    ensures n / 10 / b == n / (10 * b)
  {
    var q, r := n / 10 / b, n / 10 % b;
    var product := q * b;
    assert n / 10 == product + r;
    assert q * (10 * b) == 10 * product;
    Quotient(n, 10 * b, q, 10 * r + n % 10);
  }

  lemma Quotient(n: nat, d: nat, q: nat, r: nat)
    requires n == q * d + r && r < d
    ensures n / d == q
  {
    SmallMultiple(n / d - q, d);
  }

  /** Two's-complement negation: the least integer is its own negative. */
  function Negate(i: int64): int64 {
    if i == INT64_MIN then INT64_MIN else -i
  }

  /** The text that the allocation-free printer appends: a lone sign for the least integer, whose
      negation stays negative, and ordinary decimal text for all others. */
  function Printed(i: int64): string {
    if i == INT64_MIN then "-" else Itoa(i)
  }

  function Pow10(n: nat): (p: nat)
    ensures p > 0
  {
    if n == 0 then 1 else 10 * Pow10(n - 1)
  }

  lemma Pow10Nineteen()
    ensures Pow10(19) == 10_000_000_000_000_000_000
  {
    assert Pow10(4) == 10_000;
    assert Pow10(8) == 100_000_000;
    assert Pow10(12) == 1_000_000_000_000;
    assert Pow10(16) == 10_000_000_000_000_000;
  }

  /** What is left of `n` in front of the digits already produced: nothing once `n` reached zero. */
  function Leading(n: nat): string {
    if n == 0 then [] else Leading(n / 10) + [Digit(n % 10)]
  }

  lemma {:induction false} LeadingDigits(n: nat)
    requires n > 0
    ensures Leading(n) == Digits(n)
  {
    if n >= 10 {
      LeadingDigits(n / 10);
    } else {
      assert Leading(n) == Leading(0) + [Digit(n)];
    }
  }

  /** `written` is the text of `i` but for its leading digits `rest`, of which there are at most `k`. */
  ghost predicate Produced(i: nat, rest: nat, k: nat, written: string) {
    rest < Pow10(k) && Leading(i) == Leading(rest) + written
  }

  lemma OneMoreDigit(i: nat, rest: nat, k: nat, written: string)
    requires Produced(i, rest, k, written) && rest > 0
    ensures k > 0 && Produced(i, rest / 10, k - 1, [Digit(rest % 10)] + written)
  {
  }

  lemma NineteenDigits(i: int64)
    ensures i > 0 ==> Produced(i, i, 19, [])
  {
    Pow10Nineteen();
  }

  /** Appends the decimal text of `i`, filling a 20-byte scratch array from its end. */
  method AppendInt(buf: string, i: int64) returns (result: string)
    ensures result == buf + Printed(i)
  {
    if i == 0 {
      return buf + ['0'];
    }
    result := buf;
    var rest := i;
    if i < 0 {
      rest := Negate(rest);
      result := result + ['-'];
    }
    var digits := ScratchDigits(rest);
    if rest > 0 {
      LeadingDigits(rest);
    }
    result := result + digits;
  }

  method ScratchDigits(i: int64) returns (digits: string)
    ensures digits == if i > 0 then Leading(i) else []
  {
    var rest := i;
    var tmp := new char[20];
    var idx := 20;
    ghost var written := [];
    NineteenDigits(i);
    while rest > 0
      invariant 1 <= idx <= 20 && tmp[idx..] == written
      invariant i <= 0 ==> rest == i && written == []
      invariant i > 0 ==> rest >= 0 && Produced(i, rest, idx - 1, written)
    {
      OneMoreDigit(i, rest, idx - 1, written);
      written := [Digit(rest % 10)] + written;
      idx := idx - 1;
      tmp[idx] := Digit(rest % 10);
      rest := rest / 10;
    }
    digits := tmp[idx..];
  }

  /** The printed text of every 64-bit integer but the least one reads back as that integer. */
  lemma PrintedParse(i: int64)
    ensures ParseInt(Printed(i)) == Some(i) <==> i != INT64_MIN
    ensures ':' !in Printed(i)
  {
    ItoaParse(i);
  }

  lemma PrintedInjective(i: int64, j: int64)
    ensures Printed(i) == Printed(j) ==> i == j
  {
    PrintedParse(i);
    PrintedParse(j);
  }

  // ---------------------------------------------------------------- identifiers

  /** Identifiers and clock readings share one format: a node name, a time and a counter. */
  function Format(node: string, time: string, counter: string): string {
    node + ":" + time + ":" + counter
  }

  /** The part of `s` before its last colon, and the part after it. */
  function SplitLast(s: string): Option<(string, string)> {
    if s == [] then None
    else if s[|s| - 1] == ':' then Some((s[..|s| - 1], []))
    else match SplitLast(s[..|s| - 1])
      case None => None
      case Some(parts) => Some((parts.0, parts.1 + [s[|s| - 1]]))
  }

  lemma {:induction false} SplitLastJoin(head: string, tail: string)
    requires ':' !in tail
    ensures SplitLast(head + ":" + tail) == Some((head, tail))
  {
    var s := head + ":" + tail;
    if tail == [] {
      assert s[..|s| - 1] == head;
    } else {
      assert s[..|s| - 1] == head + ":" + tail[..|tail| - 1];
      SplitLastJoin(head, tail[..|tail| - 1]);
      assert tail == tail[..|tail| - 1] + [tail[|tail| - 1]];
    }
  }

  /** Splitting twice from the right recovers the parts, whatever colons the node name holds. */
  lemma FormatSplit(node: string, time: string, counter: string)
    requires ':' !in time && ':' !in counter
    ensures SplitLast(Format(node, time, counter)) == Some((node + ":" + time, counter))
    ensures SplitLast(node + ":" + time) == Some((node, time))
  {
    SplitLastJoin(node + ":" + time, counter);
    SplitLastJoin(node, time);
  }

  /** Reads a node name, a time and a counter back, splitting from the right. */
  function Parse(text: string): Option<(string, int, int)> {
    match SplitLast(text)
    case None => None
    case Some(outer) =>
      match SplitLast(outer.0)
      case None => None
      case Some(inner) =>
        match (ParseInt(inner.1), ParseInt(outer.1))
        case (Some(t), Some(c)) => Some((inner.0, t, c))
        case _ => None
  }

  lemma FormatParse(node: string, time: int, counter: int)
    ensures Parse(Format(node, Itoa(time), Itoa(counter))) == Some((node, time, counter))
  {
    ItoaParse(time);
    ItoaParse(counter);
    FormatSplit(node, Itoa(time), Itoa(counter));
  }

  /** The `n`-th identifier of a node, counting from zero, made at the given wall-clock time. */
  function IdentifierAt(node: string, now: int64, n: nat): string {
    Format(node, Itoa(now), Itoa((n + 1) % 0x1_0000_0000_0000_0000))
  }

  lemma NextCounter(calls: nat)
    ensures var m := 0x1_0000_0000_0000_0000;
      (calls + 1) % m == if calls % m == m - 1 then 0 else calls % m + 1
  {
  }

  class Generator {
    const nodeID: string
    var counter: uint64
    ghost var calls: nat

    ghost predicate Valid()
      reads this
    {
      counter == calls % 0x1_0000_0000_0000_0000
    }

    constructor (nodeID: string)
      ensures Valid() && calls == 0 && this.nodeID == nodeID
    {
      this.nodeID, counter, calls := nodeID, 0, 0;
    }

    /** A new identifier at the given wall-clock time; the counter wraps at 64 bits. */
    method Generate(now: int64) returns (id: string)
      requires Valid()
      modifies this
      ensures Valid() && calls == old(calls) + 1 && id == IdentifierAt(nodeID, now, old(calls))
      ensures counter == (old(counter) + 1) % 0x1_0000_0000_0000_0000
      ensures id == nodeID + ":" + Itoa(now) + ":" + Itoa(counter)
    {
      NextCounter(calls);
      var buf := nodeID + [':'];
      buf := buf + Itoa(now);
      buf := buf + [':'];
      counter := if counter == 0xFFFF_FFFF_FFFF_FFFF then 0 else counter + 1;
      calls := calls + 1;
      buf := buf + Itoa(counter);
      id := buf;
    }
  }

  lemma SuccessorsModulo(i: nat, j: nat, m: nat)
    requires m > 0 && (i + 1) % m == (j + 1) % m
    ensures i % m == j % m
  {
    var k := (i + 1) / m - (j + 1) / m - i / m + j / m;
    assert i % m - j % m == m * k;
    SmallMultiple(k, m);
  }

  /** Two identifiers coincide only if they are of the same node, and made 2^64 calls apart or by the same
      call, and at the same time by its clock. */
  lemma IdentifiersDistinct(n1: string, t1: int64, i: nat, n2: string, t2: int64, j: nat)
    requires IdentifierAt(n1, t1, i) == IdentifierAt(n2, t2, j)
    ensures n1 == n2 && t1 == t2 && i % 0x1_0000_0000_0000_0000 == j % 0x1_0000_0000_0000_0000
  {
    var m := 0x1_0000_0000_0000_0000;
    FormatParse(n1, t1, (i + 1) % m);
    FormatParse(n2, t2, (j + 1) % m);
    SuccessorsModulo(i, j, m);
  }
}
