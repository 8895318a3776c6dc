/** Segment names: what the gateway writes, and the sort key the materializer reads back. */
module SegmentNames {

  predicate IsDigit(c: char) { '0' <= c <= '9' }

  predicate AllDigits(s: string) { forall i :: 0 <= i < |s| ==> IsDigit(s[i]) }

  function Digit(d: nat): (c: char)
    requires d < 10
    ensures IsDigit(c) && DigitValue(c) == d
  {
    ['0', '1', '2', '3', '4', '5', '6', '7', '8', '9'][d]
  }

  function DigitValue(c: char): nat
    requires IsDigit(c)
  {
    (c - '0') as int
  }

  /** `std::to_string` of an unsigned number. */
  function Decimal(n: nat): (s: string)
    ensures s != "" && AllDigits(s)
    decreases n
  {
    if n < 10 then [Digit(n)] else Decimal(n / 10) + [Digit(n % 10)]
  }

  function Number(s: string): nat
    requires AllDigits(s)
  {
    if s == "" then 0 else 10 * Number(s[..|s| - 1]) + DigitValue(s[|s| - 1])
  }

  lemma {:induction false} NumberOfDecimal(n: nat)
    ensures Number(Decimal(n)) == n
    decreases n
  {
    if n >= 10 {
      NumberOfDecimal(n / 10);
      assert Decimal(n)[..|Decimal(n)| - 1] == Decimal(n / 10);
    }
  }

  function WalName(now: nat, sequence: nat): string {
    "wal-" + Decimal(now) + "-" + Decimal(sequence) + ".wal"
  }

  // ----- The sort key

  datatype WalKey = WalKey(timestamp: nat, sequence: nat, name: string)

  /** The length of the longest run of digits at the start. */
  function DigitRun(s: string): (n: nat)
    ensures n <= |s| && AllDigits(s[..n]) && (n < |s| ==> !IsDigit(s[n]))
  {
    if s == "" || !IsDigit(s[0]) then 0
    else
      var n := DigitRun(s[1..]);
      assert s[..1 + n] == [s[0]] + s[1..][..n];
      1 + n
  }

  predicate HasWalForm(name: string) {
    8 < |name| && name[..4] == "wal-" && name[|name| - 4..] == ".wal"
  }

  /** The two patterns in turn, then the fallback. */
  function ParseWalKey(name: string): (key: WalKey)
    ensures key.name == name
  {
    if !HasWalForm(name) then WalKey(0, 0, name)
    else
      var body := name[4..|name| - 4];
      var n := DigitRun(body);
      if n == 0 then WalKey(0, 0, name)
      else if n == |body| then WalKey(0, Number(body[..n]), name)
      else if body[n] == '-' && n + 1 < |body| && DigitRun(body[n + 1..]) == |body| - n - 1 then
        WalKey(Number(body[..n]), Number(body[n + 1..][..|body| - n - 1]), name)
      else WalKey(0, 0, name)
  }

  /** Tuples compare field by field; the name, last, never decides between two gateway names. */
  predicate KeyLess(a: WalKey, b: WalKey) {
    a.timestamp < b.timestamp || (a.timestamp == b.timestamp && a.sequence < b.sequence)
  }

  lemma {:induction false} DigitRunStops(a: string, rest: string)
    requires AllDigits(a) && (rest != "" ==> !IsDigit(rest[0]))
    ensures DigitRun(a + rest) == |a|
  {
    if a == "" {
      assert a + rest == rest;
    } else {
      DigitRunStops(a[1..], rest);
      assert (a + rest)[1..] == a[1..] + rest;
    }
  }

  lemma BodyOfName(body: string)
    requires body != ""
    ensures var name := "wal-" + body + ".wal"; HasWalForm(name) && name[4..|name| - 4] == body
  {
    var name := "wal-" + body + ".wal";
    assert name[..4] == "wal-" && name[|name| - 4..] == ".wal";
  }

  lemma ParseOfBody(a: string, b: string, body: string, name: string)
    requires AllDigits(a) && AllDigits(b) && a != "" && b != ""
    requires body == a + ("-" + b) && HasWalForm(name) && name[4..|name| - 4] == body
    ensures ParseWalKey(name) == WalKey(Number(a), Number(b), name)
  {
    DigitRunStops(a, "-" + b);
    assert body[..|a|] == a && body[|a| + 1..] == b && body[|a|] == '-';
    DigitRunStops(b, "");
    assert b + "" == b && b[..|b|] == b;
  }

  /** Parsing a gateway-made name returns its timestamp and its sequence number. */
  lemma ParseOfWalName(now: nat, sequence: nat)
    ensures ParseWalKey(WalName(now, sequence)) == WalKey(now, sequence, WalName(now, sequence))
  {
    var a, b := Decimal(now), Decimal(sequence);
    var body := a + ("-" + b);
    NameFromBody(a, b);
    BodyOfName(body);
    ParseOfBody(a, b, body, WalName(now, sequence));
    NumberOfDecimal(now);
    NumberOfDecimal(sequence);
  }

  /** Any two runs of digits in the gateway's pattern are the timestamp and the sequence number; a
      single one is the sequence number, with timestamp 0. */
  lemma KeyOfForm(a: string, b: string)
    requires AllDigits(a) && AllDigits(b) && a != "" && b != ""
    ensures var name := "wal-" + a + "-" + b + ".wal"; ParseWalKey(name) == WalKey(Number(a), Number(b), name)
    ensures var name := "wal-" + a + ".wal"; ParseWalKey(name) == WalKey(0, Number(a), name)
  {
    NameFromBody(a, b);
    BodyOfName(a + ("-" + b));
    ParseOfBody(a, b, a + ("-" + b), "wal-" + a + "-" + b + ".wal");
    BodyOfName(a);
    DigitRunStops(a, "");
    assert a + "" == a && a[..|a|] == a;
  }

  ghost predicate IsPair(name: string, a: string, b: string) {
    a != "" && b != "" && AllDigits(a) && AllDigits(b) && name == "wal-" + a + "-" + b + ".wal"
  }

  ghost predicate IsSingle(name: string, a: string) { a != "" && AllDigits(a) && name == "wal-" + a + ".wal" }

  /** A name with neither pattern has nothing to sort by but itself. */
  lemma KeyOfOther(name: string)
    ensures (exists a, b :: IsPair(name, a, b)) || (exists a :: IsSingle(name, a))
         || ParseWalKey(name) == WalKey(0, 0, name)
  {
    if HasWalForm(name) {
      var body := name[4..|name| - 4];
      var n := DigitRun(body);
      assert name == "wal-" + body + ".wal";
      if 0 < n == |body| {
        assert body[..n] == body;
        assert IsSingle(name, body);
      } else if 0 < n && body[n] == '-' && n + 1 < |body| && DigitRun(body[n + 1..]) == |body| - n - 1 {
        PairOfBody(name, body, n);
      }
    }
  }

  lemma PairOfBody(name: string, body: string, n: nat)
    requires 0 < n < |body| - 1 && AllDigits(body[..n]) && body[n] == '-'
    requires DigitRun(body[n + 1..]) == |body| - n - 1 && name == "wal-" + body + ".wal"
    ensures IsPair(name, body[..n], body[n + 1..])
  {
    var a, b := body[..n], body[n + 1..];
    assert b[..|b|] == b && body == a + ("-" + b);
    NameFromBody(a, b);
  }

  lemma NameFromBody(a: string, b: string)
    ensures "wal-" + a + "-" + b + ".wal" == "wal-" + (a + ("-" + b)) + ".wal"
  {
  }

  /** The name of the tenth segment, opened 172 nanoseconds into the epoch. */
  lemma ExampleName()
    ensures WalName(172, 9) == "wal-172-9.wal"
  {
  }

  /** Names made later, under a clock that does not run backwards, have greater keys. */
  lemma LaterNameIsGreater(now: nat, sequence: nat, later: nat, next: nat)
    requires now <= later && sequence < next
    ensures KeyLess(ParseWalKey(WalName(now, sequence)), ParseWalKey(WalName(later, next)))
  {
    ParseOfWalName(now, sequence);
    ParseOfWalName(later, next);
  }
}
