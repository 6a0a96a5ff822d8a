/** IPv4 addresses as the address-space generator of lib/actions/ip-management.ts
    handles them: dotted-quad text, the 32-bit number it stands for, and the JavaScript
    integer arithmetic (signed `<<`, unsigned `>>>`, `& 255`) that moves between them. */
module Ipv4 {
  import opened Common
  import opened JsStrings

  const TWO32: int := 0x1_0000_0000

  /** A 32-bit unsigned address. */
  type U32 = x: int | 0 <= x < 0x1_0000_0000

  /** One field of a dotted quad: a non-empty run of decimal digits worth at most 255
      (leading zeros are allowed, as `Number("010")` is 10). */
  predicate IsOctetField(f: string) {
    f != [] && AllRadixDigits(f, 10) && NumeralValue(f, 10) <= 255
  }

  /** A well-formed dotted quad: four octet fields separated by dots. */
  predicate IsDottedQuad(s: string) {
    var f := Split(s, '.');
    |f| == 4 && forall i :: 0 <= i < 4 ==> IsOctetField(f[i])
  }

  /** A dotted quad in the form the generator writes: no superfluous leading zeros. */
  predicate IsCanonicalDottedQuad(s: string) {
    IsDottedQuad(s) && forall i :: 0 <= i < 4 ==> IsCanonicalNumeral(Split(s, '.')[i])
  }

  predicate AreOctets(o: seq<nat>) {
    |o| == 4 && forall i :: 0 <= i < 4 ==> o[i] <= 255
  }

  /** `networkAddress.split(".").map(Number)` on a well-formed dotted quad. */
  function Octets(s: string): (o: seq<nat>)
    requires IsDottedQuad(s)
    ensures AreOctets(o)
  {
    var f := Split(s, '.');
    [NumeralValue(f[0], 10), NumeralValue(f[1], 10), NumeralValue(f[2], 10), NumeralValue(f[3], 10)]
  }

  /** The address whose big-endian bytes are o. */
  function FromOctets(o: seq<nat>): U32
    requires AreOctets(o)
  {
    o[0] * 0x100_0000 + o[1] * 0x1_0000 + o[2] * 0x100 + o[3]
  }

  /** `[(a >>> 24) & 255, (a >>> 16) & 255, (a >>> 8) & 255, a & 255]` for an unsigned a. */
  function ToOctets(a: U32): (o: seq<nat>)
    ensures AreOctets(o)
  {
    [a / 0x100_0000 % 256, a / 0x1_0000 % 256, a / 0x100 % 256, a % 256]
  }

  lemma FromToOctets(a: U32)
    ensures FromOctets(ToOctets(a)) == a
  {
    var o := ToOctets(a);
    assert a / 0x100_0000 < 256;
    assert a / 0x1_0000 == (a / 0x100_0000) * 256 + o[1];
    assert a / 0x100 == (a / 0x1_0000) * 256 + o[2];
    assert a == (a / 0x100) * 256 + o[3];
  }

  lemma ToFromOctets(o: seq<nat>)
    requires AreOctets(o)
    ensures ToOctets(FromOctets(o)) == o
  {
    var a := FromOctets(o);
    assert a / 0x100 == o[0] * 0x1_0000 + o[1] * 0x100 + o[2];
    assert a / 0x1_0000 == o[0] * 0x100 + o[1];
    assert a / 0x100_0000 == o[0];
  }

  /** The dotted-quad text of an address (line 225): the four octets in decimal,
      joined by dots. */
  function Format(a: U32): string {
    Join(FormatFields(a), '.')
  }

  /** The four decimal octets of an address, most significant first. */
  function FormatFields(a: U32): seq<string> {
    var o := ToOctets(a);
    [Decimal(o[0]), Decimal(o[1]), Decimal(o[2]), Decimal(o[3])]
  }

  /** The address a well-formed dotted quad stands for. */
  function ParseAddress(s: string): U32
    requires IsDottedQuad(s)
  {
    FromOctets(Octets(s))
  }

  /** Formatting yields a canonical dotted quad (four octets in 0..255) that parses
      back to the same address. */
  lemma ParseFormat(a: U32)
    ensures IsCanonicalDottedQuad(Format(a))
    ensures ParseAddress(Format(a)) == a
  {
    var parts := FormatFields(a);
    SplitFormat(a);
    assert forall i :: 0 <= i < 4 ==> IsOctetField(parts[i]);
    assert Octets(Format(a)) == ToOctets(a);
    FromToOctets(a);
  }

  /** Splitting an address's text on dots gives back its four decimal octets. */
  lemma SplitFormat(a: U32)
    ensures Split(Format(a), '.') == FormatFields(a)
  {
    var parts := FormatFields(a);
    assert forall i :: 0 <= i < 4 ==> '.' !in parts[i];
    SplitJoin(parts, '.');
  }

  /** Parsing then formatting gives back a canonical dotted quad. */
  lemma FormatParse(s: string)
    requires IsCanonicalDottedQuad(s)
    ensures Format(ParseAddress(s)) == s
  {
    var f := Split(s, '.');
    var o := Octets(s);
    ToFromOctets(o);
    forall i | 0 <= i < 4
      ensures Decimal(o[i]) == f[i]
    {
      DecimalOfValue(f[i]);
    }
    assert [Decimal(o[0]), Decimal(o[1]), Decimal(o[2]), Decimal(o[3])] == f;
    JoinSplit(s, '.');
  }

  /** Distinct addresses have distinct texts. */
  lemma FormatInjective(a: U32, b: U32)
    requires a != b
    ensures Format(a) != Format(b)
  {
    ParseFormat(a);
    ParseFormat(b);
  }

  /** The text of an address is never empty. */
  lemma FormatNonEmpty(a: U32)
    ensures Format(a) != []
  {
    var o := ToOctets(a);
    assert Format(a) == Decimal(o[0]) + ['.'] + Join([Decimal(o[1]), Decimal(o[2]), Decimal(o[3])], '.');
  }

  // ---- JavaScript 32-bit integer arithmetic ----

  /** ECMA-262 ToInt32: the signed 32-bit value congruent to x. */
  function ToInt32(x: int): (r: int)
    ensures -0x8000_0000 <= r < 0x8000_0000
    ensures (r - x) % TWO32 == 0
  {
    var m := x % TWO32;
    if m >= 0x8000_0000 then m - TWO32 else m
  }

  /** ECMA-262 ToUint32 (what `>>>` applies first): the unsigned value congruent to x. */
  function ToUint32(x: int): U32 {
    x % TWO32
  }

  /** The number computed at line 215 from the four octets:
      `(p0 << 24) + (p1 << 16) + (p2 << 8) + p3`, where `x << k` is ToInt32(x * 2^k). */
  function JsNetworkNumber(o: seq<nat>): int
    requires AreOctets(o)
  {
    ToInt32(o[0] * 0x100_0000) + ToInt32(o[1] * 0x1_0000) + ToInt32(o[2] * 0x100) + o[3]
  }

  /** The signed shift makes the network number 2^32 too small exactly when the first
      octet is 128 or more; it is the unsigned address otherwise. */
  lemma {:induction false} JsNetworkNumberValue(o: seq<nat>)
    requires AreOctets(o)
    ensures o[0] < 128 ==> JsNetworkNumber(o) == FromOctets(o)
    ensures o[0] >= 128 ==> JsNetworkNumber(o) == FromOctets(o) - TWO32 && JsNetworkNumber(o) < 0
  {
    assert ToInt32(o[1] * 0x1_0000) == o[1] * 0x1_0000;
    assert ToInt32(o[2] * 0x100) == o[2] * 0x100;
    var hi := o[0] * 0x100_0000;
    assert hi % TWO32 == hi;
  }

  /** Every generated number, once `>>>` reduces it, is the unsigned network address
      plus the offset, modulo 2^32. */
  lemma JsNetworkNumberWraps(o: seq<nat>, i: int)
    requires AreOctets(o)
    ensures ToUint32(JsNetworkNumber(o) + i) == (FromOctets(o) + i) % TWO32
  {
    JsNetworkNumberValue(o);
    if o[0] >= 128 {
      var n := FromOctets(o) + i;
      assert JsNetworkNumber(o) + i == n - TWO32;
      ModShift(n);
    }
  }

  lemma ModShift(n: int)
    ensures (n - TWO32) % TWO32 == n % TWO32
  {
  }
}
