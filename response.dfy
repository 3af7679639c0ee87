/** The answer datagram `DNSProxy::listen` sends on a hit
    (server.php:107-111), and a reader of the DNS message layout of
    section 4.1 of RFC 1035 to state what that datagram says. */
module Response {
  import opened Base
  import QueryName

  /** TYPE A and CLASS IN (sections 3.2.2 and 3.2.4 of RFC 1035). */
  const TypeA: nat := 1
  const ClassIn: nat := 1
  /** The time to live every answer advertises, in seconds. */
  const Ttl: nat := 60

  /** The response to the query datagram `buf` carrying address `addr`:
      the ID echoed, flags 0x81 0x80, the query's QDCOUNT bytes as both
      QDCOUNT and ANCOUNT, zero NSCOUNT and ARCOUNT, the question bytes
      verbatim, and one answer naming offset 12 through a pointer. */
  function Encode(buf: seq<byte>, addr: Address): (out: seq<byte>)
    requires |buf| >= 12
    ensures |out| == |buf| + 12 + |addr|
    ensures out[..2] == buf[..2] && out[12..|buf|] == buf[12..]
    ensures out[|buf| + 12..] == addr
  {
    [buf[0], buf[1], 0x81, 0x80, buf[4], buf[5], buf[4], buf[5], 0, 0, 0, 0]
    + buf[12..]
    + [0xC0, 0x0C]
    + [0, 1, 0, 1, 0, 0, 0, 60, 0, 4]
    + addr
  }

  // ----- Reading a response back -----

  function U16(hi: byte, lo: byte): nat
  {
    hi * 256 + lo
  }

  function U32(b0: byte, b1: byte, b2: byte, b3: byte): nat
  {
    U16(b0, b1) * 65536 + U16(b2, b3)
  }

  /** The header fields of section 4.1.1 of RFC 1035. */
  datatype Header = Header(
    id: nat, qr: bool, opcode: nat, aa: bool, tc: bool, rd: bool, ra: bool, rcode: nat,
    qdcount: nat, ancount: nat, nscount: nat, arcount: nat)

  /** One resource record whose owner name is a compression pointer
      (sections 4.1.3 and 4.1.4 of RFC 1035). */
  datatype Answer = Answer(pointer: nat, rtype: nat, rclass: nat, ttl: nat, rdata: seq<byte>)

  datatype Message = Message(header: Header, question: seq<byte>, answer: Answer)

  function ParseHeader(m: seq<byte>): Header
    requires |m| >= 12
  {
    Header(U16(m[0], m[1]),
           m[2] >= 128, (m[2] / 8) % 16, (m[2] / 4) % 2 == 1, (m[2] / 2) % 2 == 1, m[2] % 2 == 1,
           m[3] >= 128, m[3] % 16,
           U16(m[4], m[5]), U16(m[6], m[7]), U16(m[8], m[9]), U16(m[10], m[11]))
  }

  /** The query holds exactly one question: a name ended by a zero byte
      (labels are walked as the decoder walks them), then QTYPE and QCLASS,
      and nothing after them. */
  predicate OneQuestion(buf: seq<byte>)
  {
    |buf| >= 12 && QueryName.Terminated(buf[12..], 0) && 12 + QueryName.NameEnd(buf[12..], 0) + 4 == |buf|
  }

  /** Reads a response holding one question and one answer whose owner is
      a compression pointer: the question ends after its name, QTYPE and
      QCLASS, and the answer follows at once. None when the bytes do not
      have that shape or RDLENGTH disagrees with the bytes present.
      Compression pointers inside the question name are not followed. */
  function ParseResponse(m: seq<byte>): Option<Message>
  {
    if |m| < 12 || !QueryName.Terminated(m[12..], 0) then None
    else
      var a := 12 + QueryName.NameEnd(m[12..], 0) + 4;
      if |m| < a + 12 || m[a] < 0xC0 then None
      else
        var rdlength := U16(m[a + 10], m[a + 11]);
        if |m| != a + 12 + rdlength then None
        else Some(Message(
          ParseHeader(m),
          m[12..a],
          Answer(U16(m[a] - 0xC0, m[a + 1]), U16(m[a + 2], m[a + 3]), U16(m[a + 4], m[a + 5]),
                 U32(m[a + 6], m[a + 7], m[a + 8], m[a + 9]), m[a + 12..])))
  }

  /** The question of the response ends where the query's did. */
  lemma QuestionEnd(buf: seq<byte>, addr: Address)
    requires OneQuestion(buf)
    ensures var m := Encode(buf, addr);
      QueryName.Terminated(m[12..], 0) && 12 + QueryName.NameEnd(m[12..], 0) + 4 == |buf|
  {
    var m := Encode(buf, addr);
    EncodeTail(buf, addr);
    QueryName.NameEndExtend(buf[12..], m[|buf|..], 0);
  }

  /** Property: the response is a standard response to a standard query
      with the query's ID, recursion desired and available, no error, the
      query's QDCOUNT as both QDCOUNT and ANCOUNT, no authority or additional
      records; its question is the query's own bytes from offset 12; its one
      answer points at offset 12 and is an A record of class IN, TTL 60,
      whose data is the 4-byte address. */
  lemma EncodeParses(buf: seq<byte>, addr: Address)
    requires OneQuestion(buf) && |addr| == 4
    ensures ParseResponse(Encode(buf, addr)) == Some(Message(
      Header(U16(buf[0], buf[1]), true, 0, false, false, true, true, 0,
             U16(buf[4], buf[5]), U16(buf[4], buf[5]), 0, 0),
      buf[12..],
      Answer(12, TypeA, ClassIn, Ttl, addr)))
  {
    var m := Encode(buf, addr);
    var a := |buf|;
    QuestionEnd(buf, addr);
    EncodeLayout(buf, addr);
    HeaderBytes(m, buf[0], buf[1], buf[4], buf[5]);
    AnswerBytes(m, a);
    ParseAt(m, a);
  }

  /** How the reader takes apart a message whose question ends at `a`. */
  lemma ParseAt(m: seq<byte>, a: nat)
    requires |m| >= 12 && QueryName.Terminated(m[12..], 0) && 12 + QueryName.NameEnd(m[12..], 0) + 4 == a
    requires |m| >= a + 12 && m[a] >= 0xC0 && |m| == a + 12 + U16(m[a + 10], m[a + 11])
    ensures ParseResponse(m) == Some(Message(ParseHeader(m), m[12..a],
      Answer(U16(m[a] - 0xC0, m[a + 1]), U16(m[a + 2], m[a + 3]), U16(m[a + 4], m[a + 5]),
             U32(m[a + 6], m[a + 7], m[a + 8], m[a + 9]), m[a + 12..])))
  {
  }

  /** The byte layout of the response: fixed header, question, answer. */
  lemma EncodeLayout(buf: seq<byte>, addr: Address)
    requires |buf| >= 12
    ensures var m := Encode(buf, addr);
      m[..12] == [buf[0], buf[1], 0x81, 0x80, buf[4], buf[5], buf[4], buf[5], 0, 0, 0, 0] &&
      m[|buf|..|buf| + 12] == [0xC0, 0x0C, 0, 1, 0, 1, 0, 0, 0, 60, 0, 4]
  {
  }

  lemma HeaderBytes(m: seq<byte>, id0: byte, id1: byte, q0: byte, q1: byte)
    requires |m| >= 12 && m[..12] == [id0, id1, 0x81, 0x80, q0, q1, q0, q1, 0, 0, 0, 0]
    ensures ParseHeader(m) == Header(U16(id0, id1), true, 0, false, false, true, true, 0, U16(q0, q1), U16(q0, q1), 0, 0)
  {
    assert m[0] == id0 && m[1] == id1 && m[2] == 0x81 && m[3] == 0x80;
    assert m[4] == q0 && m[5] == q1 && m[6] == q0 && m[7] == q1;
    assert m[8] == 0 && m[9] == 0 && m[10] == 0 && m[11] == 0;
  }

  lemma AnswerBytes(m: seq<byte>, a: nat)
    requires |m| >= a + 12 && m[a..a + 12] == [0xC0, 0x0C, 0, 1, 0, 1, 0, 0, 0, 60, 0, 4]
    ensures m[a] >= 0xC0 && U16(m[a] - 0xC0, m[a + 1]) == 12
    ensures U16(m[a + 2], m[a + 3]) == TypeA && U16(m[a + 4], m[a + 5]) == ClassIn
    ensures U32(m[a + 6], m[a + 7], m[a + 8], m[a + 9]) == Ttl && U16(m[a + 10], m[a + 11]) == 4
  {
    assert m[a] == 0xC0 && m[a + 1] == 0x0C && m[a + 2] == 0 && m[a + 3] == 1;
    assert m[a + 4] == 0 && m[a + 5] == 1 && m[a + 6] == 0 && m[a + 7] == 0;
    assert m[a + 8] == 0 && m[a + 9] == 60 && m[a + 10] == 0 && m[a + 11] == 4;
  }

  /** Property: RDLENGTH is always 4, so an address that is not 4 bytes long
      yields a datagram whose answer does not read back. */
  lemma EncodeNeedsFourOctets(buf: seq<byte>, addr: Address)
    requires OneQuestion(buf) && |addr| != 4
    ensures ParseResponse(Encode(buf, addr)) == None
  {
    var m := Encode(buf, addr);
    var a := |buf|;
    QuestionEnd(buf, addr);
    EncodeLayout(buf, addr);
    assert m[a..a + 12] == [0xC0, 0x0C, 0, 1, 0, 1, 0, 0, 0, 60, 0, 4];
    assert m[a + 10] == 0 && m[a + 11] == 4;
  }

  /** Property: the whole query tail is copied, so a query that carries a
      record after its question (an EDNS OPT record, whose owner is the
      root name, a zero byte) gets a response in which that record sits
      where the answer should be; the answer does not read back. */
  lemma ExtraRecordMisread(buf: seq<byte>, addr: Address)
    requires |buf| >= 12 && QueryName.Terminated(buf[12..], 0)
    requires var q := 12 + QueryName.NameEnd(buf[12..], 0) + 4; q < |buf| && buf[q] < 0xC0
    ensures ParseResponse(Encode(buf, addr)) == None
  {
    var m := Encode(buf, addr);
    var q := 12 + QueryName.NameEnd(buf[12..], 0) + 4;
    EncodeTail(buf, addr);
    QueryName.NameEndExtend(buf[12..], m[|buf|..], 0);
    assert m[12..|buf|][q - 12] == buf[12..][q - 12];
    NoAnswerAt(m, q);
  }

  lemma NoAnswerAt(m: seq<byte>, a: nat)
    requires |m| >= 12 && QueryName.Terminated(m[12..], 0) && 12 + QueryName.NameEnd(m[12..], 0) + 4 == a
    requires a < |m| && m[a] < 0xC0
    ensures ParseResponse(m) == None
  {
  }

  /** The response from offset 12 on is the query's tail and then the answer. */
  lemma EncodeTail(buf: seq<byte>, addr: Address)
    requires |buf| >= 12
    ensures var m := Encode(buf, addr); m[12..] == buf[12..] + m[|buf|..]
  {
    var m := Encode(buf, addr);
    assert m[12..] == m[12..|buf|] + m[|buf|..];
  }

  /** Property: for a query whose name ends with a zero byte, the question
      echoed into the response decodes to the name that was looked up. */
  lemma EchoedNameDecodesAlike(buf: seq<byte>, addr: Address)
    requires |buf| >= 12 && QueryName.Terminated(buf[12..], 0)
    ensures QueryName.DecodeName(Encode(buf, addr)[12..]) == QueryName.DecodeName(buf[12..])
  {
    var m := Encode(buf, addr);
    EncodeTail(buf, addr);
    QueryName.LabelsExtend(buf[12..], m[|buf|..], 0);
  }
}
