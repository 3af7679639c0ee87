/** `DNSProxy::IP2Bytes` (server.php:119-125): an address text split at its
    dots, each component turned into one octet by `chr`. */
module Addresses {
  import opened Base

  /** PHP's `explode(".", s)`: the pieces between the dots, in order. */
  function Explode(s: string): (parts: seq<string>)
    ensures |parts| >= 1
    ensures forall k :: 0 <= k < |parts| ==> '.' !in parts[k]
    ensures Implode(parts) == s
  {
    if s == [] then [""]
    else if s[0] == '.' then [""] + Explode(s[1..])
    else var rest := Explode(s[1..]); [[s[0]] + rest[0]] + rest[1..]
  }

  /** The pieces joined by dots: `implode(".", parts)`. */
  function Implode(parts: seq<string>): string
  {
    if parts == [] then ""
    else if |parts| == 1 then parts[0]
    else parts[0] + "." + Implode(parts[1..])
  }

  predicate IsDigit(c: char)
  {
    '0' <= c <= '9'
  }

  /** The longest prefix of `s` made of decimal digits. */
  function LeadingDigits(s: string): (d: string)
    ensures d <= s
    ensures forall k :: 0 <= k < |d| ==> IsDigit(d[k])
    ensures |d| < |s| ==> !IsDigit(s[|d|])
  {
    if s != [] && IsDigit(s[0]) then [s[0]] + LeadingDigits(s[1..]) else ""
  }

  /** The number a string of decimal digits denotes. */
  function DecimalValue(d: string): nat
    requires forall k :: 0 <= k < |d| ==> IsDigit(d[k])
  {
    if d == [] then 0 else DecimalValue(d[..|d| - 1]) * 10 + DigitValue(d[|d| - 1])
  }

  function DigitValue(c: char): (v: nat)
    requires IsDigit(c)
    ensures v < 10
  {
    c as int - '0' as int
  }

  /** `chr` applied to one component: PHP reads the component's leading
      decimal digits as an integer (0 when there are none) and `chr` keeps
      that integer modulo 256. */
  function Octet(part: string): (b: byte)
    ensures part == [] || !IsDigit(part[0]) ==> b == 0
  {
    DecimalValue(LeadingDigits(part)) % 256
  }

  /** The address bytes for the text of a records line's first field. */
  function IP2Bytes(text: string): (r: Address)
    ensures |r| == |Explode(text)|
    ensures forall k :: 0 <= k < |r| ==> r[k] == Octet(Explode(text)[k])
  {
    Octets(Explode(text))
  }

  function Octets(parts: seq<string>): (r: Address)
    ensures |r| == |parts|
    ensures forall k :: 0 <= k < |r| ==> r[k] == Octet(parts[k])
  {
    if parts == [] then [] else [Octet(parts[0])] + Octets(parts[1..])
  }

  // ----- The dotted-decimal text the records file is meant to hold -----

  /** The decimal numeral of `n`, without leading zeros. */
  function DecimalString(n: nat): (d: string)
    ensures d != [] && forall k :: 0 <= k < |d| ==> IsDigit(d[k])
    ensures '.' !in d
  {
    var c := ('0' as int + n % 10) as char;
    if n < 10 then [c] else DecimalString(n / 10) + [c]
  }

  /** The dotted-decimal text of an address, `127.0.0.1` for [127, 0, 0, 1]. */
  function DottedDecimal(a: Address): (parts: seq<string>)
    ensures |parts| == |a|
    ensures forall k :: 0 <= k < |a| ==> parts[k] == DecimalString(a[k])
  {
    if a == [] then [] else [DecimalString(a[0])] + DottedDecimal(a[1..])
  }

  lemma {:induction false} DecimalRoundTrip(n: nat)
    ensures DecimalValue(DecimalString(n)) == n
  {
    var d := DecimalString(n);
    if n >= 10 {
      DecimalRoundTrip(n / 10);
      assert d[..|d| - 1] == DecimalString(n / 10);
    }
  }

  lemma OctetOfDecimal(b: byte)
    ensures Octet(DecimalString(b)) == b
  {
    LeadingDigitsAll(DecimalString(b));
    DecimalRoundTrip(b);
  }

  lemma {:induction false} LeadingDigitsAll(d: string)
    requires forall k :: 0 <= k < |d| ==> IsDigit(d[k])
    ensures LeadingDigits(d) == d
  {
    if d != [] {
      LeadingDigitsAll(d[1..]);
    }
  }

  lemma {:induction false} ExplodeSingle(p: string)
    requires '.' !in p
    ensures Explode(p) == [p]
  {
    if p != [] {
      ExplodeSingle(p[1..]);
    }
  }

  lemma {:induction false} ExplodeCons(p: string, rest: string)
    requires '.' !in p
    ensures Explode(p + "." + rest) == [p] + Explode(rest)
  {
    if p == [] {
      assert p + "." + rest == "." + rest;
    } else {
      assert (p + "." + rest)[1..] == p[1..] + "." + rest;
      ExplodeCons(p[1..], rest);
      assert [p[0]] + p[1..] == p;
    }
  }

  /** Exploding dot-free pieces joined by dots gives the pieces back. */
  lemma {:induction false} ExplodeImplode(parts: seq<string>)
    requires |parts| >= 1
    requires forall k :: 0 <= k < |parts| ==> '.' !in parts[k]
    ensures Explode(Implode(parts)) == parts
  {
    if |parts| == 1 {
      ExplodeSingle(parts[0]);
    } else {
      ExplodeCons(parts[0], Implode(parts[1..]));
      ExplodeImplode(parts[1..]);
    }
  }

  /** Property: the text of an address in dotted decimal converts back to
      that address, one byte per component, in order. */
  lemma IP2BytesDottedDecimal(a: Address)
    requires |a| >= 1
    ensures IP2Bytes(Implode(DottedDecimal(a))) == a
  {
    var parts := DottedDecimal(a);
    ExplodeImplode(parts);
    var r := IP2Bytes(Implode(parts));
    assert |r| == |a|;
    forall k | 0 <= k < |a| ensures r[k] == a[k] {
      OctetOfDecimal(a[k]);
    }
  }

  /** Property: the loopback address of the records-file example. */
  lemma IP2BytesLoopback()
    ensures IP2Bytes("127.0.0.1") == [127, 0, 0, 1]
  {
    LoopbackParts();
    LoopbackOctets();
    OctetsFour(["127", "0", "0", "1"]);
  }

  lemma LoopbackParts()
    ensures Explode("127.0.0.1") == ["127", "0", "0", "1"]
  {
    var parts := ["127", "0", "0", "1"];
    assert Implode(parts) == "127.0.0.1" by {
      assert Implode(parts[2..]) == "0.1";
      assert Implode(parts[1..]) == "0.0.1";
    }
    ExplodeImplode(parts);
  }

  lemma LoopbackOctets()
    ensures Octet("127") == 127 && Octet("0") == 0 && Octet("1") == 1
  {
    Octet127();
    OctetOfDigits("0");
    OctetOfDigits("1");
  }

  lemma Octet127()
    ensures Octet("127") == 127
  {
    OctetOfDigits("127");
    ThreeDigits("127");
  }

  /** Property: a component above 255 wraps, as `chr` masks with 255. */
  lemma IP2BytesWraps()
    ensures IP2Bytes("256.300") == [0, 44]
  {
    WrappingParts();
    WrappingOctets();
    OctetsTwo(["256", "300"]);
  }

  lemma WrappingParts()
    ensures Explode("256.300") == ["256", "300"]
  {
    var parts := ["256", "300"];
    assert Implode(parts) == "256.300";
    ExplodeImplode(parts);
  }

  lemma WrappingOctets()
    ensures Octet("256") == 0 && Octet("300") == 44
  {
    Octet256();
    Octet300();
  }

  lemma Octet256()
    ensures Octet("256") == 0
  {
    OctetOfDigits("256");
    ThreeDigits("256");
  }

  lemma Octet300()
    ensures Octet("300") == 44
  {
    OctetOfDigits("300");
    ThreeDigits("300");
  }

  lemma {:induction false} OctetsFour(parts: seq<string>)
    requires |parts| == 4
    ensures Octets(parts) == [Octet(parts[0]), Octet(parts[1]), Octet(parts[2]), Octet(parts[3])]
  {
    var r := Octets(parts);
    assert r[0] == Octet(parts[0]) && r[1] == Octet(parts[1]);
    assert r[2] == Octet(parts[2]) && r[3] == Octet(parts[3]);
  }

  lemma {:induction false} OctetsTwo(parts: seq<string>)
    requires |parts| == 2
    ensures Octets(parts) == [Octet(parts[0]), Octet(parts[1])]
  {
    var r := Octets(parts);
    assert r[0] == Octet(parts[0]) && r[1] == Octet(parts[1]);
  }

  lemma OctetOfDigits(d: string)
    requires forall k :: 0 <= k < |d| ==> IsDigit(d[k])
    ensures Octet(d) == DecimalValue(d) % 256
  {
    LeadingDigitsAll(d);
  }

  lemma ThreeDigits(d: string)
    requires |d| == 3 && forall k :: 0 <= k < |d| ==> IsDigit(d[k])
    ensures DecimalValue(d) == (DigitValue(d[0]) * 10 + DigitValue(d[1])) * 10 + DigitValue(d[2])
  {
    var d2, d1 := d[..2], d[..2][..1];
    assert d2[1] == d[1] && d1[0] == d[0] && d1[..0] == [];
    assert DecimalValue(d1) == DigitValue(d[0]);
    assert DecimalValue(d2) == DigitValue(d[0]) * 10 + DigitValue(d[1]);
  }
}
