/** IPv4 addresses: dotted-decimal text and the 32-bit integer of ipv4.cpp. */
module Ipv4Address {
  import opened Text
  import opened Bytes
  import opened Numbers

  /** The four bytes m_ip. */
  type Ipv4 = m: seq<Byte> | |m| == 4 witness [0, 0, 0, 0]

  datatype Endian = Big | Little

  /** The pattern ^(?:[0-9]{1,3}\.){3}[0-9]{1,3}$. */
  predicate Accepted(s: string) {
    var parts := Split(s, '.');
    |parts| == 4 && forall i :: 0 <= i < 4 ==> |parts[i]| <= 3 && IsNumeral(parts[i], 10)
  }

  /** One to three digits. */
  predicate ShortNumeral(part: string) {
    1 <= |part| <= 3 && forall i :: 0 <= i < |part| ==> '0' <= part[i] <= '9'
  }

  /** The text yields the bytes that its parts are congruent to. */
  lemma ParsedOctets(s: string, a: string, b: string, c: string, d: string)
    requires FourParts(s, a, b, c, d)
    ensures Parsed(s).Ok?
    ensures var ip, parts := Parsed(s).value, [a, b, c, d];
      forall i :: 0 <= i < 4 ==> (Value(parts[i], 10) - ip[i]) % 256 == 0
  {
    AcceptedIff(s);
    var parts := [a, b, c, d];
    FourJoined(parts);
    forall i | 0 <= i < 4 ensures '.' !in parts[i] {
      NumeralDigits(parts[i]);
    }
    SplitJoin(parts, '.');
    hide Accepted, IsNumeral, Split, Join, Value, ShortNumeral;
    assert Parsed(s) == Ok(Octets(parts));
    forall i | 0 <= i < 4 ensures (Value(parts[i], 10) - Octet(parts[i])) % 256 == 0 {
      LowByte(Value(parts[i], 10));
    }
  }

  lemma LowByte(n: nat)
    ensures (n - n % 256) % 256 == 0
  {
  }

  predicate FourParts(s: string, a: string, b: string, c: string, d: string) {
    ShortNumeral(a) && ShortNumeral(b) && ShortNumeral(c) && ShortNumeral(d) && s == a + "." + b + "." + c + "." + d
  }

  /** So four parts of one to three digits each are accepted, and nothing else. */
  lemma AcceptedIff(s: string)
    ensures Accepted(s) <==> exists a, b, c, d :: FourParts(s, a, b, c, d)
  {
    if Accepted(s) {
      var parts := Split(s, '.');
      JoinSplit(s, '.');
      FourJoined(parts);
      forall i | 0 <= i < 4 ensures ShortNumeral(parts[i]) {
        NumeralDigits(parts[i]);
      }
      assert FourParts(s, parts[0], parts[1], parts[2], parts[3]);
    }
    if a, b, c, d :| FourParts(s, a, b, c, d) {
      var parts := [a, b, c, d];
      FourJoined(parts);
      forall i | 0 <= i < 4 ensures IsNumeral(parts[i], 10) && '.' !in parts[i] {
        NumeralDigits(parts[i]);
      }
      SplitJoin(parts, '.');
    }
  }

  lemma NumeralDigits(part: string)
    ensures ShortNumeral(part) <==> |part| <= 3 && IsNumeral(part, 10)
    ensures IsNumeral(part, 10) ==> '.' !in part
  {
    forall i | 0 <= i < |part| ensures DigitValue(part[i]) < 10 <==> '0' <= part[i] <= '9' {
    }
  }

  lemma FourJoined(parts: seq<string>)
    requires |parts| == 4
    ensures Join(parts, '.') == parts[0] + "." + parts[1] + "." + parts[2] + "." + parts[3]
  {
    assert parts[1..][1..] == parts[2..] && parts[2..][1..] == parts[3..] && parts[3..] == [parts[3]];
    assert Join(parts[2..], '.') == parts[2] + "." + parts[3];
    assert Join(parts[1..], '.') == parts[1] + "." + (parts[2] + "." + parts[3]);
  }

  /** The byte stored for a part: the lowest byte of its value. */
  function Octet(part: string): Byte {
    Value(part, 10) % 256
  }

  function Octets(parts: seq<string>): (m: seq<Byte>)
    ensures |m| == |parts|
    ensures forall i :: 0 <= i < |parts| ==> m[i] == Octet(parts[i])
  {
    seq(|parts|, i requires 0 <= i < |parts| => Octet(parts[i]))
  }

  function Parsed(s: string): Result<Ipv4> {
    if Accepted(s) then Ok(Octets(Split(s, '.'))) else Thrown
  }

  /** Ipv4(const std::string&). */
  method FromText(s: string) returns (r: Result<Ipv4>)
    ensures r == Parsed(s)
  {
    if !Accepted(s) {
      return Thrown;
    }
    var m_ip := new Byte[4](_ => 0);
    var part := "";
    var partIndex := 0;
    ghost var parts: seq<string> := [];
    FirstPart(s);
    hide Accepted, Octet;
    for index := 0 to |s|
      invariant PartsSoFar(s, index, parts, part)
      invariant partIndex == |parts| < 4
      invariant m_ip[..partIndex] == Octets(parts)
    {
      NextPart(s, index, parts, part);
      if s[index] == '.' {
        m_ip[partIndex] := Octet(part);
        assert m_ip[..partIndex + 1] == Octets(parts) + [Octet(part)] == Octets(parts + [part]);
        parts := parts + [part];
        part := "";
        partIndex := partIndex + 1;
        continue;
      }
      part := part + [s[index]];
    }
    LastPart(s, parts, part);
    m_ip[partIndex] := Octet(part);
    assert m_ip[..] == Octets(parts) + [Octet(part)] == Octets(parts + [part]);
    r := Ok(m_ip[..]);
  }

  /** The complete parts and the current one, at `index`. */
  ghost predicate PartsSoFar(s: string, index: nat, parts: seq<string>, part: string) {
    index <= |s| && |Split(s, '.')| == 4 && Split(s[..index], '.') == parts + [part]
  }

  lemma FirstPart(s: string)
    requires Accepted(s)
    ensures PartsSoFar(s, 0, [], "")
  {
    assert s[..0] == "" && Split("", '.') == [""] == [] + [""];
  }

  lemma NextPart(s: string, index: nat, parts: seq<string>, part: string)
    requires index < |s| && PartsSoFar(s, index, parts, part)
    ensures if s[index] == '.' then PartsSoFar(s, index + 1, parts + [part], "") && |parts| < 3
      else PartsSoFar(s, index + 1, parts, part + [s[index]])
  {
    SplitAppend(s[..index], s[index], '.');
    assert s[..index + 1] == s[..index] + [s[index]];
    SplitPrefix(s, index + 1);
    assert (parts + [part])[|parts| := part + [s[index]]] == parts + [part + [s[index]]];
  }

  lemma LastPart(s: string, parts: seq<string>, part: string)
    requires PartsSoFar(s, |s|, parts, part)
    ensures Split(s, '.') == parts + [part] && |parts| == 3
  {
    assert s[..|s|] == s;
  }

  /** All pieces of a prefix but the last one are pieces of the whole. */
  lemma {:induction false} SplitPrefix(s: string, n: nat)
    requires n <= |s|
    ensures var ps := Split(s[..n], '.');
      |ps| <= |Split(s, '.')| && ps[..|ps| - 1] == Split(s, '.')[..|ps| - 1]
    decreases |s| - n
  {
    hide Split;
    if n == |s| {
      assert s[..n] == s;
    } else {
      SplitPrefix(s, n + 1);
      SplitAppend(s[..n], s[n], '.');
      assert s[..n + 1] == s[..n] + [s[n]];
    }
  }

  function PrintedParts(ip: Ipv4): seq<string> {
    [Decimal(ip[0]), Decimal(ip[1]), Decimal(ip[2]), Decimal(ip[3])]
  }

  /** operator std::string. */
  function Print(ip: Ipv4): string {
    Decimal(ip[0]) + "." + Decimal(ip[1]) + "." + Decimal(ip[2]) + "." + Decimal(ip[3])
  }

  /** The parts that printing can produce. */
  predicate CanonicalOctet(part: string) {
    Canonical(part) && Value(part, 10) <= 255
  }

  /** Ipv4(uint32_t, std::endian). */
  function FromInteger(v: Uint32, endian: Endian): Ipv4 {
    var m := Memory32(v);
    if endian == Little then [m[3], m[2], m[1], m[0]] else m
  }

  /** operator uint32_t. */
  function ToInteger(ip: Ipv4): Uint32 {
    Read32(ip[0], ip[1], ip[2], ip[3])
  }

  lemma DecimalOfByte(b: Byte)
    ensures |Decimal(b)| <= 3 && CanonicalOctet(Decimal(b)) && '.' !in Decimal(b)
    ensures Octet(Decimal(b)) == b
  {
    hide Decimal, Value;
    DecimalValue(b);
    DecimalDigits(b);
  }

  lemma SplitPrinted(ip: Ipv4)
    ensures Split(Print(ip), '.') == PrintedParts(ip)
  {
    hide Decimal;
    var parts := PrintedParts(ip);
    forall i | 0 <= i < 4 ensures '.' !in parts[i] {
      DecimalOfByte(ip[i]);
    }
    SplitJoin(parts, '.');
    assert parts[1..][1..][1..] == [parts[3]] && parts[1..][1..] == [parts[2], parts[3]];
    assert Join(parts[1..][1..], '.') == parts[2] + "." + parts[3];
    assert Join(parts[1..], '.') == parts[1] + "." + (parts[2] + "." + parts[3]);
    Associative(parts[1] + ".", parts[2] + ".", parts[3]);
    Associative(parts[0] + ".", parts[1] + "." + parts[2] + ".", parts[3]);
    Associative(parts[0] + ".", parts[1] + ".", parts[2] + ".");
    assert Join(parts, '.') == parts[0] + "." + (parts[1] + "." + (parts[2] + "." + parts[3]));
    assert Join(parts, '.') == Print(ip);
  }

  /** Every address prints to text of the accepted form that parses to the same four bytes. */
  lemma ParsePrint(ip: Ipv4)
    ensures Accepted(Print(ip)) && Parsed(Print(ip)) == Ok(ip)
  {
    hide Decimal, Octet, IsNumeral, Print, Split;
    SplitPrinted(ip);
    var parts := PrintedParts(ip);
    forall i | 0 <= i < 4 ensures |parts[i]| <= 3 && IsNumeral(parts[i], 10) && Octet(parts[i]) == ip[i] {
      assert parts[i] == Decimal(ip[i]);
      DecimalOfByte(ip[i]);
    }
    assert Octets(parts) == ip;
  }

  lemma OctetIff(part: string)
    requires IsNumeral(part, 10)
    ensures Decimal(Octet(part)) == part <==> CanonicalOctet(part)
  {
    if CanonicalOctet(part) {
      var v := Value(part, 10);
      assert v % 256 == v;
      DecimalOfValueIff(part);
    } else {
      DecimalOfByte(Octet(part));
    }
  }

  lemma PrintedPartsIff(parts: seq<string>)
    requires |parts| == 4 && forall i :: 0 <= i < 4 ==> IsNumeral(parts[i], 10)
    ensures PrintedParts(Octets(parts)) == parts <==> forall i :: 0 <= i < 4 ==> CanonicalOctet(parts[i])
  {
    hide Decimal, Octet, CanonicalOctet, IsNumeral;
    var printed := PrintedParts(Octets(parts));
    forall i | 0 <= i < 4 ensures printed[i] == parts[i] <==> CanonicalOctet(parts[i]) {
      OctetIff(parts[i]);
    }
    assert printed == parts <==> forall i :: 0 <= i < 4 ==> printed[i] == parts[i];
  }

  /** Accepted text survives parsing and printing exactly when every part is canonical and at most 255. */
  lemma PrintParseIff(s: string)
    requires Accepted(s)
    ensures Print(Parsed(s).value) == s <==> forall i :: 0 <= i < 4 ==> CanonicalOctet(Split(s, '.')[i])
  {
    hide Print, PrintedParts, CanonicalOctet, IsNumeral, Split, Join;
    var parts := Split(s, '.');
    PrintedPartsIff(parts);
    SplitPrinted(Octets(parts));
    JoinSplit(s, '.');
    JoinSplit(Print(Octets(parts)), '.');
  }

  /** The big-endian constructor and the conversion undo each other; the little-endian one reverses. */
  lemma IntegerRoundTrip(ip: Ipv4, v: Uint32)
    ensures FromInteger(ToInteger(ip), Big) == ip
    ensures ToInteger(FromInteger(v, Big)) == v
    ensures ToInteger(FromInteger(v, Little)) == Swap32(v)
  {
    Memory32Inverse(v, ip[0], ip[1], ip[2], ip[3]);
  }
}
