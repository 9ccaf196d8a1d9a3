/**
 The DNS responder: the wire codec of section 4.1 of RFC 1035 with the OPT record of section 6.1
 of RFC 6891, the answering policy, and the client side that probes the responder.

 Masks over one octet or over the 16-bit flags are written as arithmetic: `len & 0xC0 != 0` is
 `len >= 0x40`, and an or of disjoint bits is a sum, octet by octet (`TopBitsAreThresholds` and
 `FlagBitsAreDisjoint` say that the two readings agree on every value).
 */
module Dns {
  import opened Prelude
  import Text

  const TYPE_A: u16 := 1
  const TYPE_OPT: u16 := 41
  const RCODE_NOERROR: u16 := 0
  const RCODE_FORMERR: u16 := 1
  const RCODE_REFUSED: u16 := 5
  const DEFAULT_UDP_MAX: nat := 512
  const HEADER_LEN: nat := 12
  const DOT: byte := 46

  datatype Transport = Udp | Tcp

  datatype Query = Query(
    id: seq<byte>,
    opcode: nat,
    rd: bool,
    labels: seq<seq<byte>>,
    qtype: u16,
    rawQuestion: seq<byte>,
    ednsUdpSize: Option<u16>)

  datatype Answer = A | NoData | Refused

  datatype Name = Name(labels: seq<seq<byte>>, end: nat)

  lemma TopBitsAreThresholds(len: bv8)
    ensures len & 0xC0 != 0 <==> len >= 0x40
    ensures len & 0xC0 == 0xC0 <==> len >= 0xC0
  {
  }

  lemma FlagBitsAreDisjoint(opcode: bv16, aa: bool, tc: bool, rd: bool, rcode: bv16, hi: bv16, lo: bv16)
    requires hi < 0x100 && lo < 0x100
    ensures var a: bv16 := if aa then 0x0400 else 0;
            var t: bv16 := if tc then 0x0200 else 0;
            var r: bv16 := if rd then 0x0100 else 0;
            var w := 0x8000 | ((opcode & 0xF) << 11) | a | t | r | (rcode & 0xF);
            && w >> 8 == 0x80 + ((opcode & 0xF) << 3) + (a >> 8) + (t >> 8) + (r >> 8)
            && w & 0xFF == rcode & 0xF
    ensures var flags := (hi << 8) | lo;
            && (flags >> 11) & 0xF == (hi >> 3) & 0xF
            && (flags & 0x0100 != 0 <==> hi & 1 == 1)
  {
  }

  // -- the question grammar --------------------------------------------------------------------

  predicate IsLabel(l: seq<byte>) {
    1 <= |l| <= 63
  }

  predicate AreLabels(ls: seq<seq<byte>>) {
    forall i :: 0 <= i < |ls| ==> IsLabel(ls[i])
  }

  /** Length-prefixed labels, without the root octet. */
  function EncodeLabels(ls: seq<seq<byte>>): seq<byte>
    requires AreLabels(ls)
  {
    if ls == [] then [] else [|ls[0]| as byte] + ls[0] + EncodeLabels(ls[1..])
  }

  /** An uncompressed name, section 4.1.2 of RFC 1035. */
  function EncodeName(ls: seq<seq<byte>>): seq<byte>
    requires AreLabels(ls)
  {
    EncodeLabels(ls) + [0]
  }

  function EncodeQuestion(ls: seq<seq<byte>>, qtype: u16, qclass: u16): seq<byte>
    requires AreLabels(ls)
  {
    EncodeName(ls) + Be16(qtype) + Be16(qclass)
  }

  /** `piece` stands in `msg` at `pos`. */
  predicate StandsAt(msg: seq<byte>, pos: nat, piece: seq<byte>) {
    pos + |piece| <= |msg| && msg[pos..pos + |piece|] == piece
  }

  lemma StandsAtSplit(msg: seq<byte>, pos: nat, p: seq<byte>, q: seq<byte>)
    ensures StandsAt(msg, pos, p + q) <==> StandsAt(msg, pos, p) && StandsAt(msg, pos + |p|, q)
  {
    if StandsAt(msg, pos, p + q) {
      assert msg[pos..pos + |p|] == (p + q)[..|p|];
      assert msg[pos + |p|..pos + |p| + |q|] == (p + q)[|p|..];
    }
    if StandsAt(msg, pos, p) && StandsAt(msg, pos + |p|, q) {
      assert msg[pos..pos + |p + q|] == msg[pos..pos + |p|] + msg[pos + |p|..pos + |p| + |q|];
    }
  }

  lemma OctetAt(msg: seq<byte>, pos: nat, piece: seq<byte>, i: nat)
    requires StandsAt(msg, pos, piece) && i < |piece|
    ensures msg[pos + i] == piece[i]
  {
    assert msg[pos..pos + |piece|][i] == piece[i];
  }

  // -- parsing ---------------------------------------------------------------------------------

  /** The name that starts at `pos`, with the position after it. */
  function ReadName(msg: seq<byte>, pos: nat): Option<Name>
    decreases |msg| - pos
  {
    if pos >= |msg| then None
    else if msg[pos] == 0 then Some(Name([], pos + 1))
    else if msg[pos] >= 0x40 || pos + 1 + msg[pos] as int > |msg| then None
    else Prepend([msg[pos + 1..pos + 1 + msg[pos] as int]], ReadName(msg, pos + 1 + msg[pos] as int))
  }

  function Prepend(ls: seq<seq<byte>>, rest: Option<Name>): Option<Name> {
    match rest
    case None => None
    case Some(name) => Some(Name(ls + name.labels, name.end))
  }

  function ReadOptSize(msg: seq<byte>, pos: nat): Option<u16> {
    if pos + 5 <= |msg| && msg[pos] == 0 && U16At(msg[pos + 1], msg[pos + 2]) == TYPE_OPT
    then Some(U16At(msg[pos + 3], msg[pos + 4]))
    else None
  }

  /** The fields of the first flag octet that a reply echoes. */
  function Opcode(flags: byte): nat {
    flags as int / 8 % 0x10
  }

  predicate RecursionDesired(flags: byte) {
    flags % 2 == 1
  }

  function ReadQuery(msg: seq<byte>): Option<Query>
    requires |msg| >= HEADER_LEN
  {
    var name := ReadName(msg, HEADER_LEN);
    if U16At(msg[4], msg[5]) == 0 || name.None? || name.value.end + 4 > |msg| then None
    else
      var pos := name.value.end;
      ReadNameEnds(msg, HEADER_LEN);
      Some(Query(msg[..2], Opcode(msg[2]), RecursionDesired(msg[2]), name.value.labels,
                 U16At(msg[pos], msg[pos + 1]), msg[HEADER_LEN..pos + 4],
                 if U16At(msg[10], msg[11]) >= 1 then ReadOptSize(msg, pos + 4) else None))
  }

  lemma PrependTwice(ls: seq<seq<byte>>, ms: seq<seq<byte>>, rest: Option<Name>)
    ensures Prepend(ls, Prepend(ms, rest)) == Prepend(ls + ms, rest)
    ensures Prepend([], rest) == rest
  {
    if rest.Some? {
      assert ls + (ms + rest.value.labels) == (ls + ms) + rest.value.labels;
      assert [] + rest.value.labels == rest.value.labels;
    }
  }

  lemma ReadNameEnds(msg: seq<byte>, pos: nat)
    ensures var r := ReadName(msg, pos); r.Some? ==> pos < r.value.end <= |msg|
    decreases |msg| - pos
  {
  }

  /** The label loop of `parse`. */
  method ParseName(msg: seq<byte>, start: nat) returns (r: Option<Name>)
    ensures r == ReadName(msg, start)
  {
    var pos := start;
    var labels: seq<seq<byte>> := [];
    PrependTwice([], [], ReadName(msg, pos));
    while true
      invariant ReadName(msg, start) == Prepend(labels, ReadName(msg, pos))
      decreases |msg| - pos
    {
      if pos >= |msg| {
        return None;
      }
      var len := msg[pos];
      if len == 0 {
        assert labels + [] == labels;
        return Some(Name(labels, pos + 1));
      }
      if len >= 0x40 {
        return None;
      }
      var first := pos + 1;
      var end := first + len as int;
      if end > |msg| {
        return None;
      }
      PrependTwice(labels, [msg[first..end]], ReadName(msg, end));
      labels := labels + [msg[first..end]];
      pos := end;
    }
  }

  method Parse(msg: seq<byte>) returns (r: Option<Query>)
    requires |msg| >= HEADER_LEN
    ensures r == ReadQuery(msg)
  {
    var qdcount := U16At(msg[4], msg[5]);
    var arcount := U16At(msg[10], msg[11]);
    if qdcount == 0 {
      return None;
    }
    var name := ParseName(msg, HEADER_LEN);
    if name.None? {
      return None;
    }
    var pos := name.value.end;
    if pos >= |msg| || pos + 1 >= |msg| {
      return None;
    }
    var qtype := U16At(msg[pos], msg[pos + 1]);
    var qEnd := pos + 4;
    if qEnd > |msg| {
      return None;
    }
    ReadNameEnds(msg, HEADER_LEN);
    var ednsUdpSize: Option<u16> := None;
    if arcount >= 1 {
      ednsUdpSize := ParseOptUdpSize(msg, qEnd);
    }
    return Some(Query(msg[..2], Opcode(msg[2]), RecursionDesired(msg[2]), name.value.labels, qtype,
                      msg[HEADER_LEN..qEnd], ednsUdpSize));
  }

  method ParseOptUdpSize(msg: seq<byte>, pos: nat) returns (size: Option<u16>)
    ensures size == ReadOptSize(msg, pos)
  {
    if pos >= |msg| || msg[pos] != 0 {
      return None;
    }
    if pos + 2 >= |msg| || U16At(msg[pos + 1], msg[pos + 2]) != TYPE_OPT {
      return None;
    }
    if pos + 4 >= |msg| {
      return None;
    }
    return Some(U16At(msg[pos + 3], msg[pos + 4]));
  }

  /** What is read as a name is the encoding of the labels read, each of 1 to 63 octets. */
  lemma {:induction false} ReadNameIsEncoded(msg: seq<byte>, pos: nat)
    requires ReadName(msg, pos).Some?
    ensures var n := ReadName(msg, pos).value;
            && AreLabels(n.labels)
            && n.end == pos + |EncodeName(n.labels)|
            && StandsAt(msg, pos, EncodeName(n.labels))
    decreases |msg| - pos
  {
    if msg[pos] != 0 {
      var len := msg[pos] as int;
      ReadNameIsEncoded(msg, pos + 1 + len);
      var n := ReadName(msg, pos).value;
      var rest := ReadName(msg, pos + 1 + len).value;
      assert n.labels[1..] == rest.labels;
      var head := [|n.labels[0]| as byte] + n.labels[0];
      assert StandsAt(msg, pos, head);
      assert EncodeName(n.labels) == head + EncodeName(rest.labels);
      StandsAtSplit(msg, pos, head, EncodeName(rest.labels));
    } else {
      assert msg[pos..pos + 1] == [0];
    }
  }

  /** Any encoded list of labels is read back as itself, wherever it stands. */
  lemma {:induction false} EncodedNameIsRead(msg: seq<byte>, pos: nat, ls: seq<seq<byte>>)
    requires AreLabels(ls) && StandsAt(msg, pos, EncodeName(ls))
    ensures ReadName(msg, pos) == Some(Name(ls, pos + |EncodeName(ls)|))
    decreases |ls|
  {
    if ls == [] {
      OctetAt(msg, pos, EncodeName(ls), 0);
    } else {
      var head := [|ls[0]| as byte] + ls[0];
      assert EncodeName(ls) == head + EncodeName(ls[1..]);
      StandsAtSplit(msg, pos, head, EncodeName(ls[1..]));
      EncodedNameIsRead(msg, pos + |head|, ls[1..]);
      StandsAtSplit(msg, pos, [|ls[0]| as byte], ls[0]);
      OctetAt(msg, pos, [|ls[0]| as byte], 0);
      LabelIsRead(msg, pos, ls[0], ls[1..], pos + |EncodeName(ls)|);
      assert [ls[0]] + ls[1..] == ls;
    }
  }

  lemma LabelIsRead(msg: seq<byte>, pos: nat, l: seq<byte>, ls: seq<seq<byte>>, end: nat)
    requires IsLabel(l) && pos < |msg| && msg[pos] as int == |l| && StandsAt(msg, pos + 1, l)
    requires ReadName(msg, pos + 1 + |l|) == Some(Name(ls, end))
    ensures ReadName(msg, pos) == Some(Name([l] + ls, end))
  {
  }

  function QuestionClass(raw: seq<byte>): u16
    requires |raw| >= 2
  {
    U16At(raw[|raw| - 2], raw[|raw| - 1])
  }

  /** Question parsing inverts question printing: what a query echoes is the encoding of its labels. */
  lemma QuestionIsEncoded(msg: seq<byte>)
    requires |msg| >= HEADER_LEN && ReadQuery(msg).Some?
    ensures var q := ReadQuery(msg).value;
            && U16At(msg[4], msg[5]) != 0
            && AreLabels(q.labels)
            && |q.rawQuestion| == |EncodeName(q.labels)| + 4
            && StandsAt(msg, HEADER_LEN, q.rawQuestion)
            && q.rawQuestion == msg[HEADER_LEN..HEADER_LEN + |q.rawQuestion|]
            && q.rawQuestion == EncodeQuestion(q.labels, q.qtype, QuestionClass(q.rawQuestion))
  {
    ReadNameIsEncoded(msg, HEADER_LEN);
    var q := ReadQuery(msg).value;
    var name := EncodeName(q.labels);
    var pos := ReadName(msg, HEADER_LEN).value.end;
    Be16OfU16At(msg[pos], msg[pos + 1]);
    Be16OfU16At(msg[pos + 2], msg[pos + 3]);
    assert msg[HEADER_LEN..pos] == name;
    assert msg[HEADER_LEN..pos + 4] == msg[HEADER_LEN..pos] + [msg[pos], msg[pos + 1]] + [msg[pos + 2], msg[pos + 3]];
  }

  /** Question printing inverts question parsing, whatever follows the question. */
  lemma EncodedQuestionIsRead(msg: seq<byte>, ls: seq<seq<byte>>, qtype: u16, qclass: u16)
    requires |msg| >= HEADER_LEN && U16At(msg[4], msg[5]) != 0
    requires AreLabels(ls) && StandsAt(msg, HEADER_LEN, EncodeQuestion(ls, qtype, qclass))
    ensures var r := ReadQuery(msg);
            && r.Some?
            && r.value.labels == ls
            && r.value.qtype == qtype
            && r.value.rawQuestion == EncodeQuestion(ls, qtype, qclass)
  {
    var name := EncodeName(ls);
    assert EncodeQuestion(ls, qtype, qclass) == name + (Be16(qtype) + Be16(qclass));
    StandsAtSplit(msg, HEADER_LEN, name, Be16(qtype) + Be16(qclass));
    EncodedNameIsRead(msg, HEADER_LEN, ls);
    var pos := HEADER_LEN + |name|;
    StandsAtSplit(msg, pos, Be16(qtype), Be16(qclass));
    OctetAt(msg, pos, Be16(qtype), 0);
    OctetAt(msg, pos, Be16(qtype), 1);
    assert msg[HEADER_LEN..pos + 4] == EncodeQuestion(ls, qtype, qclass);
  }

  // -- policy ----------------------------------------------------------------------------------

  function LowerByte(b: byte): byte {
    if 0x41 <= b <= 0x5A then b + 0x20 else b
  }

  predicate EqIgnoreCase(s: seq<byte>, t: seq<byte>) {
    |s| == |t| && forall i :: 0 <= i < |s| ==> LowerByte(s[i]) == LowerByte(t[i])
  }

  predicate UnderTld(labels: seq<seq<byte>>, tld: seq<byte>) {
    labels != [] && EqIgnoreCase(labels[|labels| - 1], tld)
  }

  function Decide(labels: seq<seq<byte>>, qtype: u16, tld: seq<byte>): Answer {
    if !UnderTld(labels, tld) then Refused else if qtype == TYPE_A then A else NoData
  }

  // -- printing --------------------------------------------------------------------------------

  function Flag(raised: bool, bit: byte): byte {
    if raised then bit else 0
  }

  function ResponseFlags(opcode: nat, aa: bool, tc: bool, rd: bool, rcode: u16): (f: seq<byte>)
    ensures |f| == 2
  {
    [0x80 + (opcode % 0x10 * 8) as byte + Flag(aa, 4) + Flag(tc, 2) + Flag(rd, 1), (rcode % 0x10) as byte]
  }

  predicate Authoritative(flags: byte) {
    flags / 4 % 2 == 1
  }

  predicate Truncated(flags: byte) {
    flags / 2 % 2 == 1
  }

  /** The flag octets say back each of the fields they were made from. */
  lemma FlagsReadBack(opcode: nat, aa: bool, tc: bool, rd: bool, rcode: u16)
    requires opcode < 0x10 && rcode < 0x10
    ensures var f := ResponseFlags(opcode, aa, tc, rd, rcode);
            && f[0] >= 0x80
            && Opcode(f[0]) == opcode
            && (Authoritative(f[0]) <==> aa)
            && (Truncated(f[0]) <==> tc)
            && (RecursionDesired(f[0]) <==> rd)
            && f[1] as int == rcode
  {
    var f := ResponseFlags(opcode, aa, tc, rd, rcode)[0] as int;
    assert f / 8 == 0x10 + opcode;
  }

  /** An A record whose name is a pointer to the question at offset 12. */
  function ARecord(ttl: u32, ip: Ipv4): (r: seq<byte>)
    ensures |r| == 16
  {
    [0xC0, 0x0C] + Be16(TYPE_A) + Be16(1) + Be32(ttl) + Be16(4) + ip.Octets()
  }

  function OptRecord(): (r: seq<byte>)
    ensures |r| == 11
  {
    [0] + Be16(TYPE_OPT) + Be16(4096) + [0, 0, 0, 0] + Be16(0)
  }

  function Answers(q: Query, ip: Ipv4, tld: seq<byte>, ttl: u32): (r: seq<byte>)
    ensures |r| == if Decide(q.labels, q.qtype, tld) == A then 16 else 0
  {
    if Decide(q.labels, q.qtype, tld) == A then ARecord(ttl, ip) else []
  }

  function Additional(q: Query): (r: seq<byte>)
    ensures |r| == if q.ednsUdpSize.Some? then 11 else 0
  {
    if q.ednsUdpSize.Some? then OptRecord() else []
  }

  /** The length of the reply if nothing is cut. */
  function FullLength(q: Query, tld: seq<byte>): nat {
    HEADER_LEN + |q.rawQuestion| + (if Decide(q.labels, q.qtype, tld) == A then 16 else 0)
    + (if q.ednsUdpSize.Some? then 11 else 0)
  }

  function UdpLimit(q: Query): nat {
    if q.ednsUdpSize.Some? then q.ednsUdpSize.value else DEFAULT_UDP_MAX
  }

  predicate Truncates(q: Query, tld: seq<byte>, transport: Transport) {
    transport == Udp && FullLength(q, tld) > UdpLimit(q)
  }

  function Header(q: Query, answer: Answer, cut: bool): seq<byte> {
    q.id
    + ResponseFlags(q.opcode, answer != Refused, cut, q.rd,
                    if answer == Refused then RCODE_REFUSED else RCODE_NOERROR)
    + Be16(1) + Be16(if answer == A && !cut then 1 else 0) + Be16(0)
    + Be16(if q.ednsUdpSize.Some? then 1 else 0)
  }

  function Compose(q: Query, ip: Ipv4, tld: seq<byte>, ttl: u32, transport: Transport): seq<byte> {
    var answer := Decide(q.labels, q.qtype, tld);
    if Truncates(q, tld, transport)
    then Header(q, answer, true) + q.rawQuestion + Additional(q)
    else Header(q, answer, false) + q.rawQuestion + Answers(q, ip, tld, ttl) + Additional(q)
  }

  function FormErr(request: seq<byte>): (r: seq<byte>)
    requires |request| >= HEADER_LEN
    ensures |r| == 10
  {
    request[..2]
    + ResponseFlags(Opcode(request[2]), false, false, RecursionDesired(request[2]), RCODE_FORMERR)
    + [0, 0, 0, 0, 0, 0]
  }

  function Response(request: seq<byte>, ip: Ipv4, tld: seq<byte>, ttl: u32, transport: Transport): seq<byte>
    requires |request| >= HEADER_LEN
  {
    match ReadQuery(request)
    case Some(q) => Compose(q, ip, tld, ttl, transport)
    case None => FormErr(request)
  }

  /** Nothing is sent to a request too short to carry a header. */
  function Reply(request: seq<byte>, ip: Ipv4, tld: seq<byte>, ttl: u32, transport: Transport): Option<seq<byte>> {
    if |request| < HEADER_LEN then None else Some(Response(request, ip, tld, ttl, transport))
  }

  method WriteHeader(q: Query, answer: Answer, cut: bool) returns (out: seq<byte>)
    ensures out == Header(q, answer, cut)
  {
    var rcode := if answer == Refused then RCODE_REFUSED else RCODE_NOERROR;
    var ancount: u16 := if answer == A && !cut then 1 else 0;
    var arcount: u16 := if q.ednsUdpSize.Some? then 1 else 0;
    out := q.id;
    out := out + ResponseFlags(q.opcode, answer != Refused, cut, q.rd, rcode);
    out := out + Be16(1);
    out := out + Be16(ancount);
    out := out + Be16(0);
    out := out + Be16(arcount);
  }

  /** Sections are assembled first, so that the size check comes before the header is written. */
  method Build(q: Query, ip: Ipv4, tld: seq<byte>, ttl: u32, transport: Transport) returns (out: seq<byte>)
    ensures out == Compose(q, ip, tld, ttl, transport)
  {
    var answer := Decide(q.labels, q.qtype, tld);
    var answers := Answers(q, ip, tld, ttl);
    var additional := Additional(q);
    var fullLen := HEADER_LEN + |q.rawQuestion| + |answers| + |additional|;
    var limit := if q.ednsUdpSize.Some? then q.ednsUdpSize.value else DEFAULT_UDP_MAX;
    var cut := transport == Udp && fullLen > limit;
    assert cut == Truncates(q, tld, transport);
    out := WriteHeader(q, answer, cut);
    out := out + q.rawQuestion;
    if !cut {
      out := out + answers;
    }
    out := out + additional;
  }

  method Respond(request: seq<byte>, ip: Ipv4, tld: seq<byte>, ttl: u32, transport: Transport)
    returns (reply: Option<seq<byte>>)
    ensures reply == Reply(request, ip, tld, ttl, transport)
  {
    if |request| < HEADER_LEN {
      return None;
    }
    var query := Parse(request);
    if query.Some? {
      var out := Build(query.value, ip, tld, ttl, transport);
      return Some(out);
    }
    return Some(FormErr(request));
  }

  // -- what a reply is -------------------------------------------------------------------------

  lemma Layout(h: seq<byte>, q: seq<byte>, a: seq<byte>, b: seq<byte>)
    ensures var out := h + q + a + b;
            && StandsAt(out, 0, h)
            && StandsAt(out, |h|, q)
            && StandsAt(out, |h| + |q|, a)
            && out[|out| - |b|..] == b
  {
    var out := h + q + a + b;
    assert out == h + (q + a + b) == h + q + (a + b);
    assert out[..|h|] == h;
    assert out[|h|..|h| + |q|] == q;
    assert out[|h| + |q|..|h| + |q| + |a|] == a;
  }

  lemma HeaderFields(q: Query, answer: Answer, cut: bool)
    requires |q.id| == 2
    ensures var h := Header(q, answer, cut);
            && |h| == HEADER_LEN
            && h[..2] == q.id
            && h[2..4] == ResponseFlags(q.opcode, answer != Refused, cut, q.rd,
                            if answer == Refused then RCODE_REFUSED else RCODE_NOERROR)
            && U16At(h[4], h[5]) == 1
            && U16At(h[6], h[7]) == (if answer == A && !cut then 1 else 0)
            && U16At(h[8], h[9]) == 0
            && U16At(h[10], h[11]) == (if q.ednsUdpSize.Some? then 1 else 0)
  {
  }

  /** The four parts of a composed reply, each where the wire format puts it. */
  lemma ComposeLayout(q: Query, ip: Ipv4, tld: seq<byte>, ttl: u32, transport: Transport)
    requires |q.id| == 2
    ensures var out := Compose(q, ip, tld, ttl, transport);
            var cut := Truncates(q, tld, transport);
            && out[..2] == q.id
            && StandsAt(out, 2, ResponseFlags(q.opcode, UnderTld(q.labels, tld), cut, q.rd,
                 if UnderTld(q.labels, tld) then RCODE_NOERROR else RCODE_REFUSED))
            && U16At(out[4], out[5]) == 1
            && U16At(out[6], out[7]) == (if Decide(q.labels, q.qtype, tld) == A && !cut then 1 else 0)
            && U16At(out[8], out[9]) == 0
            && U16At(out[10], out[11]) == (if q.ednsUdpSize.Some? then 1 else 0)
            && StandsAt(out, HEADER_LEN, q.rawQuestion)
            && |out| == FullLength(q, tld) - (if cut then |Answers(q, ip, tld, ttl)| else 0)
            && (!cut ==> StandsAt(out, HEADER_LEN + |q.rawQuestion|, Answers(q, ip, tld, ttl)))
            && out[|out| - |Additional(q)|..] == Additional(q)
  {
    var answer, cut := Decide(q.labels, q.qtype, tld), Truncates(q, tld, transport);
    var h := Header(q, answer, cut);
    HeaderFields(q, answer, cut);
    var out := Compose(q, ip, tld, ttl, transport);
    if cut {
      Layout(h, q.rawQuestion, [], Additional(q));
      assert h + q.rawQuestion + [] == h + q.rawQuestion;
    } else {
      Layout(h, q.rawQuestion, Answers(q, ip, tld, ttl), Additional(q));
    }
    forall i | 0 <= i < HEADER_LEN ensures out[i] == h[i] {
      OctetAt(out, 0, h, i);
    }
    assert out[..2] == h[..2] && out[2..4] == h[2..4];
  }

  lemma ReadQueryId(request: seq<byte>)
    requires |request| >= HEADER_LEN && ReadQuery(request).Some?
    ensures var q := ReadQuery(request).value;
            && q.id == request[..2] && |q.id| == 2
            && q.opcode == Opcode(request[2]) < 0x10 && q.rd == RecursionDesired(request[2])
  {
  }

  /**
   The echo: a parsed question comes back octet for octet, letter case included, under the same
   id, opcode and recursion bit; the code and the authority bit follow the policy.
   */
  lemma ReplyEchoes(request: seq<byte>, ip: Ipv4, tld: seq<byte>, ttl: u32, transport: Transport)
    requires |request| >= HEADER_LEN && ReadQuery(request).Some?
    ensures var q := ReadQuery(request).value;
            var out := Response(request, ip, tld, ttl, transport);
            && HEADER_LEN + |q.rawQuestion| <= |out|
            && HEADER_LEN + |q.rawQuestion| <= |request|
            && out[..2] == request[..2]
            && out[HEADER_LEN..HEADER_LEN + |q.rawQuestion|] == q.rawQuestion
            && q.rawQuestion == request[HEADER_LEN..HEADER_LEN + |q.rawQuestion|]
            && out[2] >= 0x80
            && Opcode(out[2]) == Opcode(request[2])
            && (Authoritative(out[2]) <==> UnderTld(q.labels, tld))
            && (Truncated(out[2]) <==> Truncates(q, tld, transport))
            && (RecursionDesired(out[2]) <==> RecursionDesired(request[2]))
            && out[3] == (if UnderTld(q.labels, tld) then 0 else 5)
  {
    var q := ReadQuery(request).value;
    QuestionIsEncoded(request);
    ReadQueryId(request);
    ComposeLayout(q, ip, tld, ttl, transport);
    var out := Response(request, ip, tld, ttl, transport);
    var rcode := if UnderTld(q.labels, tld) then RCODE_NOERROR else RCODE_REFUSED;
    FlagsReadBack(q.opcode, UnderTld(q.labels, tld), Truncates(q, tld, transport), q.rd, rcode);
    var flags := ResponseFlags(q.opcode, UnderTld(q.labels, tld), Truncates(q, tld, transport), q.rd, rcode);
    OctetAt(out, 2, flags, 0);
    OctetAt(out, 2, flags, 1);
  }

  /** A request whose question does not parse is answered by ten octets carrying the code FORMERR. */
  lemma FormErrReply(request: seq<byte>, ip: Ipv4, tld: seq<byte>, ttl: u32, transport: Transport)
    requires |request| >= HEADER_LEN && ReadQuery(request).None?
    ensures var out := Response(request, ip, tld, ttl, transport);
            && |out| == 10
            && out[..2] == request[..2]
            && Opcode(out[2]) == Opcode(request[2])
            && (RecursionDesired(out[2]) <==> RecursionDesired(request[2]))
            && out[2] >= 0x80 && !Authoritative(out[2]) && !Truncated(out[2])
            && out[3] == 1
            && out[4..] == [0, 0, 0, 0, 0, 0]
  {
    FlagsReadBack(Opcode(request[2]), false, false, RecursionDesired(request[2]), RCODE_FORMERR);
  }

  // -- reply sizes and TCP framing -------------------------------------------------------------

  /** An OPT record is only seen when at least five octets follow the question. */
  lemma OptNeedsFiveOctets(request: seq<byte>)
    requires |request| >= HEADER_LEN && ReadQuery(request).Some?
    ensures var q := ReadQuery(request).value;
            HEADER_LEN + |q.rawQuestion| + (if q.ednsUdpSize.Some? then 5 else 0) <= |request|
  {
    ReadNameEnds(request, HEADER_LEN);
  }

  /**
   A reply is at most 22 octets longer than its request. Over UDP it is cut exactly when the full
   reply exceeds the advertised size (512 when none was advertised): then it carries no answer and
   has the TC bit, and otherwise it fits.
   */
  lemma ReplySize(request: seq<byte>, ip: Ipv4, tld: seq<byte>, ttl: u32, transport: Transport)
    requires |request| >= HEADER_LEN
    ensures |Response(request, ip, tld, ttl, transport)| <= |request| + 22
    ensures ReadQuery(request).Some? ==>
              var q := ReadQuery(request).value;
              var out := Response(request, ip, tld, ttl, transport);
              var opt := if q.ednsUdpSize.Some? then 11 else 0;
              var full := 12 + |q.rawQuestion| + (if UnderTld(q.labels, tld) && q.qtype == 1 then 16 else 0) + opt;
              var limit := if q.ednsUdpSize.Some? then q.ednsUdpSize.value else 512;
              && |out| >= 12
              && (Truncated(out[2]) <==> transport == Udp && full > limit)
              && (if transport == Udp && full > limit
                  then U16At(out[6], out[7]) == 0 && |out| == 12 + |q.rawQuestion| + opt
                  else |out| == full && (transport == Udp ==> |out| <= limit))
  {
    if ReadQuery(request).Some? {
      var q := ReadQuery(request).value;
      OptNeedsFiveOctets(request);
      ReadQueryId(request);
      ComposeLayout(q, ip, tld, ttl, transport);
      ReplyEchoes(request, ip, tld, ttl, transport);
    } else {
      FormErrReply(request, ip, tld, ttl, transport);
    }
  }

  /** The TCP framing of section 4.2.2 of RFC 1035, with the length cast to 16 bits. */
  function Frame(reply: seq<byte>): seq<byte> {
    Be16(|reply| % 0x1_0000) + reply
  }

  /** What a client takes from a frame: as many octets as the prefix announces. */
  function Unframe(wire: seq<byte>): Option<seq<byte>> {
    if |wire| < 2 || |wire| < 2 + U16At(wire[0], wire[1]) then None
    else Some(wire[2..2 + U16At(wire[0], wire[1])])
  }

  lemma FrameIsExact(reply: seq<byte>)
    ensures Unframe(Frame(reply)) == Some(reply) <==> |reply| <= 0xFFFF
  {
    var wire := Frame(reply);
    var prefix := Be16(|reply| % 0x1_0000);
    assert wire[0] == prefix[0] && wire[1] == prefix[1];
    var n := U16At(wire[0], wire[1]);
    assert n == |reply| % 0x1_0000 <= |reply|;
    assert wire[2..2 + n] == reply[..n];
    assert n == |reply| ==> reply[..n] == reply;
  }

  /**
   The client reads back the reply exactly when the full reply is below 64 KiB, and every request
   of at most 65513 octets is on that side.
   */
  lemma TcpFraming(request: seq<byte>, ip: Ipv4, tld: seq<byte>, ttl: u32)
    requires |request| >= HEADER_LEN
    ensures var reply := Response(request, ip, tld, ttl, Tcp);
            && (Unframe(Frame(reply)) == Some(reply)
                <==> !(ReadQuery(request).Some? && FullLength(ReadQuery(request).value, tld) > 0xFFFF))
            && (|request| <= 65513 ==> Unframe(Frame(reply)) == Some(reply))
  {
    ReplySize(request, ip, tld, ttl, Tcp);
    FrameIsExact(Response(request, ip, tld, ttl, Tcp));
    if ReadQuery(request).None? {
      FormErrReply(request, ip, tld, ttl, Tcp);
    }
  }

  /** `n` labels of 63 octets in front of `tail`. */
  function LongName(n: nat, tail: seq<seq<byte>>): (ls: seq<seq<byte>>)
    requires AreLabels(tail)
    ensures AreLabels(ls) && |ls| == n + |tail|
    ensures tail != [] ==> ls[|ls| - 1] == tail[|tail| - 1]
  {
    if n == 0 then tail else [seq(63, _ => 0x61)] + LongName(n - 1, tail)
  }

  lemma {:induction false} LongNameLength(n: nat, tail: seq<seq<byte>>)
    requires AreLabels(tail)
    ensures |EncodeLabels(LongName(n, tail))| == 64 * n + |EncodeLabels(tail)|
  {
    if n > 0 {
      LongNameLength(n - 1, tail);
      var ls := LongName(n, tail);
      assert |ls[0]| == 63 && ls[1..] == LongName(n - 1, tail);
      assert EncodeLabels(ls) == [63] + ls[0] + EncodeLabels(ls[1..]);
    }
  }

  function LastLabels(tld: seq<byte>): (ls: seq<seq<byte>>)
    requires |tld| == 3
    ensures AreLabels(ls) && |EncodeLabels(ls)| == 31 && |ls| == 2 && ls[1] == tld
  {
    var ls := [seq(26, _ => 0x61), tld];
    assert ls[1..] == [tld] && [tld][1..] == [];
    assert EncodeLabels([tld]) == [3] + tld;
    ls
  }

  lemma LongQuestion(n: nat, tld: seq<byte>) returns (request: seq<byte>)
    requires n == 1023 && |tld| == 3
    ensures |request| == 65520 && ReadQuery(request).Some?
    ensures FullLength(ReadQuery(request).value, tld) == 0x1_0000
  {
    var ls := LongName(n, LastLabels(tld));
    LongNameLength(n, LastLabels(tld));
    request := PlainQuery(ls);
    PlainQueryIsRead(ls);
  }

  /** The bound is needed: a request that fits a TCP frame can have a reply that does not. */
  lemma TcpFramingFails(ip: Ipv4, ttl: u32) returns (request: seq<byte>, tld: seq<byte>)
    ensures HEADER_LEN <= |request| <= 0xFFFF
    ensures var reply := Response(request, ip, tld, ttl, Tcp);
            |reply| == 0x1_0000 && Unframe(Frame(reply)) != Some(reply)
  {
    tld := [0x64, 0x69, 0x67];
    request := LongQuestion(1023, tld);
    ReplySize(request, ip, tld, ttl, Tcp);
    FrameIsExact(Response(request, ip, tld, ttl, Tcp));
  }

  // -- the client side -------------------------------------------------------------------------

  /** The position after a name, a compression pointer counting two octets. */
  function AfterName(msg: seq<byte>, pos: nat): Option<nat>
    decreases |msg| - pos
  {
    if pos >= |msg| then None
    else if msg[pos] == 0 then Some(pos + 1)
    else if msg[pos] >= 0xC0 then Some(pos + 2)
    else AfterName(msg, pos + 1 + msg[pos] as int)
  }

  function AfterQuestions(msg: seq<byte>, pos: nat, n: nat): Option<nat>
    decreases n
  {
    if n == 0 then Some(pos)
    else match AfterName(msg, pos)
      case None => None
      case Some(p) => AfterQuestions(msg, p + 4, n - 1)
  }

  function FirstAFrom(msg: seq<byte>, pos: nat, n: nat): Option<Ipv4>
    decreases n
  {
    if n == 0 then None
    else match AfterName(msg, pos)
      case None => None
      case Some(p) =>
        if p + 10 > |msg| then None
        else
          var rdlength := U16At(msg[p + 8], msg[p + 9]);
          if U16At(msg[p], msg[p + 1]) == TYPE_A && rdlength == 4 then
            if p + 14 > |msg| then None
            else Some(Ipv4(msg[p + 10], msg[p + 11], msg[p + 12], msg[p + 13]))
          else FirstAFrom(msg, p + 10 + rdlength, n - 1)
  }

  /** The address of the first A record of a response. */
  function FirstA(msg: seq<byte>): Option<Ipv4> {
    if |msg| < HEADER_LEN then None
    else match AfterQuestions(msg, HEADER_LEN, U16At(msg[4], msg[5]))
      case None => None
      case Some(pos) => FirstAFrom(msg, pos, U16At(msg[6], msg[7]))
  }

  method SkipName(msg: seq<byte>, start: nat) returns (r: Option<nat>)
    ensures r == AfterName(msg, start)
  {
    var pos := start;
    while true
      invariant AfterName(msg, start) == AfterName(msg, pos)
      decreases |msg| - pos
    {
      if pos >= |msg| {
        return None;
      }
      var len := msg[pos];
      if len == 0 {
        return Some(pos + 1);
      }
      if len >= 0xC0 {
        return Some(pos + 2);
      }
      pos := pos + 1 + len as int;
    }
  }

  /** The walk over the questions. */
  method SkipQuestions(msg: seq<byte>, start: nat, count: nat) returns (r: Option<nat>)
    ensures r == AfterQuestions(msg, start, count)
  {
    var pos := start;
    for i := 0 to count
      invariant AfterQuestions(msg, start, count) == AfterQuestions(msg, pos, count - i)
    {
      var p := SkipName(msg, pos);
      if p.None? {
        return None;
      }
      pos := p.value + 4;
    }
    return Some(pos);
  }

  /** The walk over the answers. */
  method FindA(msg: seq<byte>, start: nat, count: nat) returns (r: Option<Ipv4>)
    ensures r == FirstAFrom(msg, start, count)
  {
    var pos: nat := start;
    for i := 0 to count
      invariant FirstAFrom(msg, start, count) == FirstAFrom(msg, pos, count - i)
    {
      var p := SkipName(msg, pos);
      if p.None? {
        return None;
      }
      pos := p.value;
      if pos + 9 >= |msg| {
        return None;
      }
      var rtype := U16At(msg[pos], msg[pos + 1]);
      var rdlength := U16At(msg[pos + 8], msg[pos + 9]);
      var rdata := pos + 10;
      if rtype == TYPE_A && rdlength == 4 {
        if rdata + 4 > |msg| {
          return None;
        }
        return Some(Ipv4(msg[rdata], msg[rdata + 1], msg[rdata + 2], msg[rdata + 3]));
      }
      pos := rdata + rdlength;
    }
    return None;
  }

  method ParseFirstA(response: seq<byte>) returns (r: Option<Ipv4>)
    ensures r == FirstA(response)
  {
    if |response| < HEADER_LEN {
      return None;
    }
    var pos := SkipQuestions(response, HEADER_LEN, U16At(response[4], response[5]));
    if pos.None? {
      return None;
    }
    r := FindA(response, pos.value, U16At(response[6], response[7]));
  }

  /** The labels a probe asks for: the non-empty pieces of the name, each cut at 63 octets. */
  function ProbeLabels(parts: seq<seq<byte>>): (ls: seq<seq<byte>>)
    ensures AreLabels(ls)
  {
    if parts == [] then []
    else if parts[0] == [] then ProbeLabels(parts[1..])
    else [if |parts[0]| <= 63 then parts[0] else parts[0][..63]] + ProbeLabels(parts[1..])
  }

  /** The labels of a probe, piece by piece: an empty piece gives none, any other itself up to 63 octets. */
  lemma {:induction false} ProbeLabelsAre(parts: seq<seq<byte>>, more: seq<seq<byte>>, piece: seq<byte>)
    ensures ProbeLabels(parts + more) == ProbeLabels(parts) + ProbeLabels(more)
    ensures ProbeLabels([piece]) == if piece == [] then [] else if |piece| <= 63 then [piece] else [piece[..63]]
    decreases |parts|
  {
    assert [piece][1..] == [];
    if parts == [] {
      assert parts + more == more;
    } else {
      assert (parts + more)[1..] == parts[1..] + more;
      ProbeLabelsAre(parts[1..], more, piece);
    }
  }

  lemma ProbeStep(parts: seq<seq<byte>>, i: nat)
    requires i < |parts|
    ensures var len := if |parts[i]| < 63 then |parts[i]| else 63;
            EncodeLabels(ProbeLabels(parts[i..]))
            == (if parts[i] == [] then [] else [len as byte] + parts[i][..len])
               + EncodeLabels(ProbeLabels(parts[i + 1..]))
  {
    assert parts[i..][1..] == parts[i + 1..];
    if parts[i] != [] {
      assert ProbeLabels(parts[i..])[1..] == ProbeLabels(parts[i + 1..]);
    }
  }

  function ProbeHeader(): seq<byte> {
    [0, 0] + Be16(0x0100) + Be16(1) + [0, 0, 0, 0, 0, 0]
  }

  function PlainQuery(ls: seq<seq<byte>>): seq<byte>
    requires AreLabels(ls)
  {
    ProbeHeader() + EncodeQuestion(ls, TYPE_A, 1)
  }

  lemma PlainQueryIsRead(ls: seq<seq<byte>>)
    requires AreLabels(ls)
    ensures var r := ReadQuery(PlainQuery(ls));
            && r.Some?
            && r.value.labels == ls
            && r.value.qtype == TYPE_A
            && r.value.rawQuestion == EncodeQuestion(ls, TYPE_A, 1)
            && r.value.ednsUdpSize.None?
            && r.value.rd
  {
    var m := PlainQuery(ls);
    assert m[HEADER_LEN..] == EncodeQuestion(ls, TYPE_A, 1);
    assert StandsAt(m, HEADER_LEN, EncodeQuestion(ls, TYPE_A, 1));
    var h := ProbeHeader();
    assert m[2] == h[2] && m[4] == h[4] && m[5] == h[5] && m[10] == h[10] && m[11] == h[11];
    EncodedQuestionIsRead(m, ls, TYPE_A, 1);
  }

  lemma PlainHeader(ls: seq<seq<byte>>)
    requires AreLabels(ls)
    ensures PlainQuery(ls)[..2] == [0, 0] && PlainQuery(ls)[2] == 1
  {
    var h := ProbeHeader();
    assert h[2] == 1 && h[..2] == [0, 0];
    assert PlainQuery(ls)[..2] == h[..2];
  }

  lemma PlainFields(m: seq<byte>)
    requires |m| >= HEADER_LEN && ReadQuery(m).Some? && m[..2] == [0, 0] && m[2] == 1
    ensures ReadQuery(m).value.id == [0, 0] && ReadQuery(m).value.opcode == 0
  {
    ReadQueryId(m);
  }

  lemma ClassIsLast(ls: seq<seq<byte>>, qtype: u16, qclass: u16)
    requires AreLabels(ls)
    ensures var raw := EncodeQuestion(ls, qtype, qclass); |raw| >= 2 && QuestionClass(raw) == qclass
  {
    var raw, c := EncodeQuestion(ls, qtype, qclass), Be16(qclass);
    assert raw[|raw| - 2] == c[0] && raw[|raw| - 1] == c[1];
  }

  function ProbeQuery(name: seq<byte>): seq<byte> {
    PlainQuery(ProbeLabels(Text.Split(name, DOT)))
  }

  method BuildAQuery(name: seq<byte>) returns (m: seq<byte>)
    ensures m == ProbeQuery(name)
  {
    m := [0, 0];
    m := m + Be16(0x0100);
    m := m + Be16(1);
    m := m + [0, 0, 0, 0, 0, 0];
    var parts := Text.Split(name, DOT);
    for i := 0 to |parts|
      invariant m + EncodeLabels(ProbeLabels(parts[i..])) == ProbeHeader() + EncodeLabels(ProbeLabels(parts))
    {
      ProbeStep(parts, i);
      if parts[i] != [] {
        var len := if |parts[i]| < 63 then |parts[i]| else 63;
        m := m + ([len as byte] + parts[i][..len]);
      }
    }
    assert parts[|parts|..] == [];
    assert m == ProbeHeader() + EncodeLabels(ProbeLabels(parts));
    m := m + [0];
    m := m + Be16(TYPE_A);
    m := m + Be16(1);
    QueryIsAssembled(ProbeHeader(), ProbeLabels(parts), m);
  }

  lemma QueryIsAssembled(h: seq<byte>, ls: seq<seq<byte>>, m: seq<byte>)
    requires AreLabels(ls) && m == h + EncodeLabels(ls) + [0] + Be16(TYPE_A) + Be16(1)
    ensures m == h + EncodeQuestion(ls, TYPE_A, 1)
  {
    var e, a, c := EncodeLabels(ls), Be16(TYPE_A), Be16(1);
    assert h + e + [0] + a + c == h + (e + [0] + a + c);
  }

  // -- the responder and its client together ---------------------------------------------------

  lemma {:induction false} EncodedNameIsSkipped(msg: seq<byte>, pos: nat, ls: seq<seq<byte>>)
    requires AreLabels(ls) && StandsAt(msg, pos, EncodeName(ls))
    ensures AfterName(msg, pos) == Some(pos + |EncodeName(ls)|)
    decreases |ls|
  {
    if ls == [] {
      OctetAt(msg, pos, EncodeName(ls), 0);
    } else {
      var head := [|ls[0]| as byte] + ls[0];
      assert EncodeName(ls) == head + EncodeName(ls[1..]);
      StandsAtSplit(msg, pos, head, EncodeName(ls[1..]));
      OctetAt(msg, pos, head, 0);
      EncodedNameIsSkipped(msg, pos + |head|, ls[1..]);
    }
  }

  lemma ARecordFields(ttl: u32, ip: Ipv4)
    ensures var r := ARecord(ttl, ip);
            && r[0] == 0xC0
            && U16At(r[2], r[3]) == TYPE_A
            && U16At(r[10], r[11]) == 4
            && [r[12], r[13], r[14], r[15]] == ip.Octets()
  {
    var r := ARecord(ttl, ip);
    var tail := Be16(4) + ip.Octets();
    assert r == [0xC0, 0x0C] + Be16(TYPE_A) + Be16(1) + Be32(ttl) + tail;
    assert r[10..] == tail;
    assert r[10] == tail[0] && r[11] == tail[1] && r[12] == tail[2] && r[13] == tail[3];
    assert r[14] == tail[4] && r[15] == tail[5];
  }

  lemma ARecordIsFound(msg: seq<byte>, pos: nat, ttl: u32, ip: Ipv4)
    requires StandsAt(msg, pos, ARecord(ttl, ip))
    ensures FirstAFrom(msg, pos, 1) == Some(ip)
  {
    var r := ARecord(ttl, ip);
    ARecordFields(ttl, ip);
    forall i | 0 <= i < 16 ensures msg[pos + i] == r[i] {
      OctetAt(msg, pos, r, i);
    }
    assert msg[pos + 0] == r[0];
    assert AfterName(msg, pos) == Some(pos + 2);
    assert msg[pos + 2] == r[2] && msg[pos + 3] == r[3] && msg[pos + 10] == r[10] && msg[pos + 11] == r[11];
    assert msg[pos + 12] == r[12] && msg[pos + 13] == r[13] && msg[pos + 14] == r[14] && msg[pos + 15] == r[15];
    assert [r[12], r[13], r[14], r[15]][0] == ip.a && [r[12], r[13], r[14], r[15]][1] == ip.b;
    assert [r[12], r[13], r[14], r[15]][2] == ip.c && [r[12], r[13], r[14], r[15]][3] == ip.d;
  }

  lemma QuestionIsSkipped(msg: seq<byte>, ls: seq<seq<byte>>, qtype: u16, qclass: u16)
    requires AreLabels(ls) && StandsAt(msg, HEADER_LEN, EncodeQuestion(ls, qtype, qclass))
    ensures AfterQuestions(msg, HEADER_LEN, 1) == Some(HEADER_LEN + |EncodeQuestion(ls, qtype, qclass)|)
  {
    var name := EncodeName(ls);
    assert EncodeQuestion(ls, qtype, qclass) == name + (Be16(qtype) + Be16(qclass));
    StandsAtSplit(msg, HEADER_LEN, name, Be16(qtype) + Be16(qclass));
    EncodedNameIsSkipped(msg, HEADER_LEN, ls);
    assert AfterQuestions(msg, HEADER_LEN + |name| + 4, 0) == Some(HEADER_LEN + |name| + 4);
  }

  lemma FirstAAfterQuestion(msg: seq<byte>, ls: seq<seq<byte>>, qtype: u16, qclass: u16)
    requires AreLabels(ls) && StandsAt(msg, HEADER_LEN, EncodeQuestion(ls, qtype, qclass))
    requires U16At(msg[4], msg[5]) == 1
    ensures FirstA(msg)
            == FirstAFrom(msg, HEADER_LEN + |EncodeQuestion(ls, qtype, qclass)|, U16At(msg[6], msg[7]))
  {
    QuestionIsSkipped(msg, ls, qtype, qclass);
  }

  /** The question parses, its last label is the TLD, the type is A, and the reply is not cut. */
  predicate Resolves(request: seq<byte>, tld: seq<byte>, transport: Transport)
    requires |request| >= HEADER_LEN
  {
    var query := ReadQuery(request);
    && query.Some?
    && UnderTld(query.value.labels, tld)
    && query.value.qtype == TYPE_A
    && !Truncates(query.value, tld, transport)
  }

  /** A message with one question and, possibly, one A record after it. */
  lemma OneQuestionDecodes(msg: seq<byte>, ls: seq<seq<byte>>, qtype: u16, qclass: u16, ttl: u32, ip: Ipv4)
    requires AreLabels(ls) && StandsAt(msg, HEADER_LEN, EncodeQuestion(ls, qtype, qclass))
    requires U16At(msg[4], msg[5]) == 1
    requires U16At(msg[6], msg[7]) == 0
             || (U16At(msg[6], msg[7]) == 1
                 && StandsAt(msg, HEADER_LEN + |EncodeQuestion(ls, qtype, qclass)|, ARecord(ttl, ip)))
    ensures FirstA(msg) == if U16At(msg[6], msg[7]) == 1 then Some(ip) else None
  {
    FirstAAfterQuestion(msg, ls, qtype, qclass);
    if U16At(msg[6], msg[7]) == 1 {
      ARecordIsFound(msg, HEADER_LEN + |EncodeQuestion(ls, qtype, qclass)|, ttl, ip);
    }
  }

  lemma ComposeDecodes(q: Query, ip: Ipv4, tld: seq<byte>, ttl: u32, transport: Transport)
    requires |q.id| == 2 && AreLabels(q.labels) && |q.rawQuestion| >= 2
    requires q.rawQuestion == EncodeQuestion(q.labels, q.qtype, QuestionClass(q.rawQuestion))
    ensures FirstA(Compose(q, ip, tld, ttl, transport))
            == if Decide(q.labels, q.qtype, tld) == A && !Truncates(q, tld, transport) then Some(ip) else None
  {
    ComposeLayout(q, ip, tld, ttl, transport);
    OneQuestionDecodes(Compose(q, ip, tld, ttl, transport), q.labels, q.qtype, QuestionClass(q.rawQuestion), ttl, ip);
  }

  lemma ParsedReplyDecodes(request: seq<byte>, ip: Ipv4, tld: seq<byte>, ttl: u32, transport: Transport)
    requires |request| >= HEADER_LEN && ReadQuery(request).Some?
    ensures FirstA(Response(request, ip, tld, ttl, transport))
            == if Resolves(request, tld, transport) then Some(ip) else None
  {
    QuestionIsEncoded(request);
    ReadQueryId(request);
    ComposeDecodes(ReadQuery(request).value, ip, tld, ttl, transport);
  }

  /**
   Whatever the request, a client decoding the reply finds no address or exactly the loopback
   address, and finds it exactly for the names and type that are served.
   */
  lemma ReplyDecodes(request: seq<byte>, ip: Ipv4, tld: seq<byte>, ttl: u32, transport: Transport)
    requires |request| >= HEADER_LEN
    ensures FirstA(Response(request, ip, tld, ttl, transport))
            == if Resolves(request, tld, transport) then Some(ip) else None
  {
    if ReadQuery(request).Some? {
      ParsedReplyDecodes(request, ip, tld, ttl, transport);
    }
  }

  /** A probe is a well-formed request for the labels of its name. */
  lemma ProbeIsRead(name: seq<byte>)
    ensures var r := ReadQuery(ProbeQuery(name));
            && |ProbeQuery(name)| >= HEADER_LEN
            && r.Some?
            && r.value.labels == ProbeLabels(Text.Split(name, DOT))
            && r.value.qtype == TYPE_A
            && r.value.ednsUdpSize.None?
            && r.value.id == [0, 0] && r.value.opcode == 0 && r.value.rd
            && |r.value.rawQuestion| >= 2 && QuestionClass(r.value.rawQuestion) == 1
  {
    var ls := ProbeLabels(Text.Split(name, DOT));
    PlainQueryIsRead(ls);
    ClassIsLast(ls, TYPE_A, 1);
    PlainHeader(ls);
    PlainFields(PlainQuery(ls));
  }

  /**
   Probe, responder and decoder end to end over TCP: a probe of a name gets the loopback address
   back exactly when the last label it asks for is the TLD.
   */
  lemma ProbeRoundTrip(name: seq<byte>, ip: Ipv4, tld: seq<byte>, ttl: u32)
    ensures |ProbeQuery(name)| >= HEADER_LEN
    ensures FirstA(Response(ProbeQuery(name), ip, tld, ttl, Tcp))
            == if UnderTld(ProbeLabels(Text.Split(name, DOT)), tld) then Some(ip) else None
  {
    ProbeIsRead(name);
    ReplyDecodes(ProbeQuery(name), ip, tld, ttl, Tcp);
  }
}
