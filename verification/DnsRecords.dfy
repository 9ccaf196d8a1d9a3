/**
 What stands on the wire, by readers of their own: resource records with compressed names (sections
 4.1.3 and 4.1.4 of RFC 1035), read out of the responder's replies and found by the probe's decoder.
 */
module DnsRecords {
  import opened Prelude
  import opened Dns

  /** A record as read, with the position after it; the name is resolved through its pointers. */
  datatype Record = Record(
    name: seq<seq<byte>>, rtype: u16, rclass: u16, ttl: u32, rdata: seq<byte>, end: nat)

  /**
   The name at `pos`; a pointer leads to before `start`, where the present stretch of labels began,
   so that every name ends.
   */
  function ResolveName(msg: seq<byte>, pos: nat, start: nat): Option<Name>
    decreases start, |msg| - pos
  {
    if pos >= |msg| then None
    else if msg[pos] == 0 then Some(Name([], pos + 1))
    else if msg[pos] >= 0xC0 then
      if pos + 1 >= |msg| then None
      else
        var target := (msg[pos] as int - 0xC0) * 0x100 + msg[pos + 1] as int;
        if target >= start then None
        else match ResolveName(msg, target, target)
          case None => None
          case Some(name) => Some(Name(name.labels, pos + 2))
    else if msg[pos] >= 0x40 || pos + 1 + msg[pos] as int > |msg| then None
    else
      var end := pos + 1 + msg[pos] as int;
      match ResolveName(msg, end, start)
      case None => None
      case Some(rest) => Some(Name([msg[pos + 1..end]] + rest.labels, rest.end))
  }

  function U32At(msg: seq<byte>, pos: nat): u32
    requires pos + 4 <= |msg|
  {
    U16At(msg[pos], msg[pos + 1]) * 0x1_0000 + U16At(msg[pos + 2], msg[pos + 3])
  }

  function ReadRecord(msg: seq<byte>, pos: nat): Option<Record> {
    match ResolveName(msg, pos, pos)
    case None => None
    case Some(name) =>
      var p := name.end;
      if p + 10 > |msg| then None
      else
        var end := p + 10 + U16At(msg[p + 8], msg[p + 9]);
        if end > |msg| then None
        else Some(Record(name.labels, U16At(msg[p], msg[p + 1]), U16At(msg[p + 2], msg[p + 3]), U32At(msg, p + 4),
                         msg[p + 10..end], end))
  }

  lemma {:induction false} EncodedNameResolves(msg: seq<byte>, pos: nat, start: nat, ls: seq<seq<byte>>)
    requires AreLabels(ls) && StandsAt(msg, pos, EncodeName(ls))
    ensures ResolveName(msg, pos, start) == Some(Name(ls, pos + |EncodeName(ls)|))
    decreases |ls|
  {
    if ls == [] {
      OctetAt(msg, pos, EncodeName(ls), 0);
    } else {
      var head := [|ls[0]| as byte] + ls[0];
      assert EncodeName(ls) == head + EncodeName(ls[1..]);
      StandsAtSplit(msg, pos, head, EncodeName(ls[1..]));
      EncodedNameResolves(msg, pos + |head|, start, ls[1..]);
      StandsAtSplit(msg, pos, [|ls[0]| as byte], ls[0]);
      OctetAt(msg, pos, [|ls[0]| as byte], 0);
      LabelResolves(msg, pos, start, ls[0], ls[1..], pos + |EncodeName(ls)|);
      assert [ls[0]] + ls[1..] == ls;
    }
  }

  lemma LabelResolves(msg: seq<byte>, pos: nat, start: nat, l: seq<byte>, ls: seq<seq<byte>>, end: nat)
    requires IsLabel(l) && pos < |msg| && msg[pos] as int == |l| && StandsAt(msg, pos + 1, l)
    requires ResolveName(msg, pos + 1 + |l|, start) == Some(Name(ls, end))
    ensures ResolveName(msg, pos, start) == Some(Name([l] + ls, end))
  {
  }

  /** What stands in a record behind its name. */
  function Tail(rtype: u16, rclass: u16, ttl: u32, rdata: seq<byte>): seq<byte>
    requires |rdata| < 0x1_0000
  {
    Be16(rtype) + Be16(rclass) + Be32(ttl) + Be16(|rdata|) + rdata
  }

  /** The fixed part of a record and its data, after a name that ends at `p`. */
  lemma RecordTail(msg: seq<byte>, p: nat, rtype: u16, rclass: u16, ttl: u32, rdata: seq<byte>)
    requires |rdata| < 0x1_0000 && StandsAt(msg, p, Tail(rtype, rclass, ttl, rdata))
    ensures p + 10 + |rdata| <= |msg|
    ensures U16At(msg[p], msg[p + 1]) == rtype && U16At(msg[p + 2], msg[p + 3]) == rclass
    ensures U32At(msg, p + 4) == ttl
    ensures U16At(msg[p + 8], msg[p + 9]) == |rdata| && msg[p + 10..p + 10 + |rdata|] == rdata
  {
    var a, b, c, d := Be16(rtype), Be16(rclass), Be32(ttl), Be16(|rdata|);
    StandsAtSplit(msg, p, a + b + c + d, rdata);
    StandsAtSplit(msg, p, a + b + c, d);
    StandsAtSplit(msg, p, a + b, c);
    StandsAtSplit(msg, p, a, b);
    PairAt(msg, p, a);
    PairAt(msg, p + 2, b);
    PairAt(msg, p + 8, d);
    OctetAt(msg, p + 4, c, 0);
    OctetAt(msg, p + 4, c, 1);
    OctetAt(msg, p + 4, c, 2);
    OctetAt(msg, p + 4, c, 3);
  }

  lemma RecordIs(msg: seq<byte>, pos: nat, ls: seq<seq<byte>>, p: nat, rtype: u16, rclass: u16, ttl: u32,
                 rdata: seq<byte>)
    requires ResolveName(msg, pos, pos) == Some(Name(ls, p))
    requires |rdata| < 0x1_0000 && StandsAt(msg, p, Tail(rtype, rclass, ttl, rdata))
    ensures ReadRecord(msg, pos) == Some(Record(ls, rtype, rclass, ttl, rdata, p + 10 + |rdata|))
  {
    RecordTail(msg, p, rtype, rclass, ttl, rdata);
    FieldsAre(msg, pos, ls, p, |rdata|);
  }

  lemma FieldsAre(msg: seq<byte>, pos: nat, ls: seq<seq<byte>>, p: nat, n: nat)
    requires ResolveName(msg, pos, pos) == Some(Name(ls, p))
    requires p + 10 + n <= |msg| && U16At(msg[p + 8], msg[p + 9]) == n
    ensures ReadRecord(msg, pos)
            == Some(Record(ls, U16At(msg[p], msg[p + 1]), U16At(msg[p + 2], msg[p + 3]), U32At(msg, p + 4),
                           msg[p + 10..p + 10 + n], p + 10 + n))
  {
  }

  lemma PairAt(msg: seq<byte>, p: nat, pair: seq<byte>)
    requires |pair| == 2 && StandsAt(msg, p, pair)
    ensures msg[p] == pair[0] && msg[p + 1] == pair[1]
  {
    OctetAt(msg, p, pair, 0);
    OctetAt(msg, p, pair, 1);
  }

  // -- the records of a reply ------------------------------------------------------------------

  /** An answer behind a question: its name is a pointer to the question's. */
  lemma AnswerIsRead(msg: seq<byte>, pos: nat, ls: seq<seq<byte>>, ttl: u32, ip: Ipv4)
    requires AreLabels(ls) && StandsAt(msg, 12, EncodeName(ls)) && pos > 12
    requires StandsAt(msg, pos, ARecord(ttl, ip))
    ensures ReadRecord(msg, pos) == Some(Record(ls, 1, 1, ttl, [ip.a, ip.b, ip.c, ip.d], pos + 16))
  {
    var tail := Tail(1, 1, ttl, ip.Octets());
    AnswerIsSplit(ttl, ip);
    StandsAtSplit(msg, pos, [0xC0, 0x0C], tail);
    PairAt(msg, pos, [0xC0, 0x0C]);
    EncodedNameResolves(msg, 12, 12, ls);
    PointerResolves(msg, pos, ls);
    RecordIs(msg, pos, ls, pos + 2, 1, 1, ttl, ip.Octets());
  }

  lemma AnswerIsSplit(ttl: u32, ip: Ipv4)
    ensures ARecord(ttl, ip) == [0xC0, 0x0C] + Tail(1, 1, ttl, ip.Octets())
  {
    GroupAnswer(Be16(TYPE_A), Be16(1), Be32(ttl), Be16(4), ip.Octets());
  }

  lemma GroupAnswer(a: seq<byte>, b: seq<byte>, c: seq<byte>, d: seq<byte>, e: seq<byte>)
    ensures [0xC0, 0x0C] + a + b + c + d + e == [0xC0, 0x0C] + (a + b + c + d + e)
  {
  }

  /** A pointer to the question's name. */
  lemma PointerResolves(msg: seq<byte>, pos: nat, ls: seq<seq<byte>>)
    requires 12 < pos && pos + 1 < |msg| && msg[pos] == 0xC0 && msg[pos + 1] == 0x0C
    requires ResolveName(msg, 12, 12).Some? && ResolveName(msg, 12, 12).value.labels == ls
    ensures ResolveName(msg, pos, pos) == Some(Name(ls, pos + 2))
  {
  }

  lemma OptIsLast(msg: seq<byte>, pos: nat, opt: seq<byte>, size: u16, ttl: u32, rdata: seq<byte>)
    requires |rdata| < 0x1_0000 && opt == [0] + Tail(TYPE_OPT, size, ttl, rdata)
    requires pos + |opt| == |msg| && msg[pos..] == opt
    ensures ReadRecord(msg, pos) == Some(Record([], TYPE_OPT, size, ttl, rdata, |msg|))
  {
    assert msg[pos..pos + |opt|] == opt;
    StandsAtSplit(msg, pos, [0], Tail(TYPE_OPT, size, ttl, rdata));
    HeadAt(msg, pos, 0);
    RootResolves(msg, pos);
    RecordIs(msg, pos, [], pos + 1, TYPE_OPT, size, ttl, rdata);
  }

  lemma RootResolves(msg: seq<byte>, pos: nat)
    requires pos < |msg| && msg[pos] == 0
    ensures ResolveName(msg, pos, pos) == Some(Name([], pos + 1))
  {
  }

  lemma HeadAt(msg: seq<byte>, pos: nat, b: byte)
    requires StandsAt(msg, pos, [b])
    ensures msg[pos] == b
  {
    assert msg[pos..pos + 1][0] == b;
  }

  lemma OptIsSplit(size: u16, ttl: u32)
    requires size == 4096 && ttl == 0
    ensures OptRecord() == [0] + Tail(TYPE_OPT, size, ttl, [])
  {
    ZeroTtl(ttl);
    GroupOpt(Be16(TYPE_OPT), Be16(size), Be32(ttl), Be16(0));
  }

  lemma ZeroTtl(ttl: u32)
    requires ttl == 0
    ensures Be32(ttl) == [0, 0, 0, 0]
  {
  }

  lemma GroupOpt(a: seq<byte>, b: seq<byte>, c: seq<byte>, d: seq<byte>)
    ensures [0] + a + b + c + d == [0] + (a + b + c + d + [])
  {
  }

  /**
   A reply to a request whose question parses, record by record. It counts one question, no authority
   records, one answer exactly when the name and type are served and nothing is cut, and one
   additional record exactly under EDNS. The answer is read as a record of the question's own name,
   type 1, class 1, with the TTL and the address; the additional record as a root-named OPT record
   of 4096 octets. Each record stands right behind what comes before it.
   */
  lemma ReplyRecords(request: seq<byte>, ip: Ipv4, tld: seq<byte>, ttl: u32, transport: Transport)
    requires |request| >= 12 && ReadQuery(request).Some?
    ensures var q := ReadQuery(request).value;
            var out := Response(request, ip, tld, ttl, transport);
            var behind := 12 + |q.rawQuestion|;
            var answered, edns := Resolves(request, tld, transport), q.ednsUdpSize.Some?;
            && |out| == behind + (if answered then 16 else 0) + (if edns then 11 else 0)
            && U16At(out[4], out[5]) == 1 && U16At(out[8], out[9]) == 0
            && U16At(out[6], out[7]) == (if answered then 1 else 0)
            && U16At(out[10], out[11]) == (if edns then 1 else 0)
            && (answered ==>
                  ReadRecord(out, behind) == Some(Record(q.labels, 1, 1, ttl, [ip.a, ip.b, ip.c, ip.d], behind + 16)))
            && (edns ==> ReadRecord(out, |out| - 11) == Some(Record([], 41, 4096, 0, [], |out|)))
  {
    var q := ReadQuery(request).value;
    ReplyCounts(request, ip, tld, ttl, transport);
    if Resolves(request, tld, transport) {
      ReplyAnswer(request, ip, tld, ttl, transport);
    }
    if q.ednsUdpSize.Some? {
      ReplyOpt(request, ip, tld, ttl, transport);
    }
  }

  lemma ReplyCounts(request: seq<byte>, ip: Ipv4, tld: seq<byte>, ttl: u32, transport: Transport)
    requires |request| >= 12 && ReadQuery(request).Some?
    ensures var q := ReadQuery(request).value;
            var out := Response(request, ip, tld, ttl, transport);
            var answered, edns := Resolves(request, tld, transport), q.ednsUdpSize.Some?;
            && |out| == 12 + |q.rawQuestion| + (if answered then 16 else 0) + (if edns then 11 else 0)
            && U16At(out[4], out[5]) == 1 && U16At(out[8], out[9]) == 0
            && U16At(out[6], out[7]) == (if answered then 1 else 0)
            && U16At(out[10], out[11]) == (if edns then 1 else 0)
  {
    ReadQueryId(request);
    ComposeLayout(ReadQuery(request).value, ip, tld, ttl, transport);
  }

  lemma ReplyAnswer(request: seq<byte>, ip: Ipv4, tld: seq<byte>, ttl: u32, transport: Transport)
    requires |request| >= 12 && Resolves(request, tld, transport)
    ensures var q := ReadQuery(request).value;
            ReadRecord(Response(request, ip, tld, ttl, transport), 12 + |q.rawQuestion|)
            == Some(Record(q.labels, 1, 1, ttl, [ip.a, ip.b, ip.c, ip.d], 12 + |q.rawQuestion| + 16))
  {
    QuestionIsEncoded(request);
    AnswerStands(request, ip, tld, ttl, transport);
    AnswerBehind(Response(request, ip, tld, ttl, transport), ReadQuery(request).value, ttl, ip);
  }

  lemma AnswerBehind(out: seq<byte>, q: Query, ttl: u32, ip: Ipv4)
    requires AreLabels(q.labels) && |q.rawQuestion| >= 2
    requires q.rawQuestion == EncodeQuestion(q.labels, q.qtype, QuestionClass(q.rawQuestion))
    requires StandsAt(out, 12, q.rawQuestion) && StandsAt(out, 12 + |q.rawQuestion|, ARecord(ttl, ip))
    ensures ReadRecord(out, 12 + |q.rawQuestion|)
            == Some(Record(q.labels, 1, 1, ttl, [ip.a, ip.b, ip.c, ip.d], 12 + |q.rawQuestion| + 16))
  {
    QuestionName(out, q);
    AnswerIsRead(out, 12 + |q.rawQuestion|, q.labels, ttl, ip);
  }

  lemma AnswerStands(request: seq<byte>, ip: Ipv4, tld: seq<byte>, ttl: u32, transport: Transport)
    requires |request| >= 12 && Resolves(request, tld, transport)
    ensures var q := ReadQuery(request).value;
            var out := Response(request, ip, tld, ttl, transport);
            StandsAt(out, 12, q.rawQuestion) && StandsAt(out, 12 + |q.rawQuestion|, ARecord(ttl, ip))
  {
    ReadQueryId(request);
    ComposeLayout(ReadQuery(request).value, ip, tld, ttl, transport);
  }

  lemma ReplyOpt(request: seq<byte>, ip: Ipv4, tld: seq<byte>, ttl: u32, transport: Transport)
    requires |request| >= 12 && ReadQuery(request).Some? && ReadQuery(request).value.ednsUdpSize.Some?
    ensures var out := Response(request, ip, tld, ttl, transport);
            |out| >= 11 && ReadRecord(out, |out| - 11) == Some(Record([], 41, 4096, 0, [], |out|))
  {
    ReadQueryId(request);
    ComposeLayout(ReadQuery(request).value, ip, tld, ttl, transport);
    var out := Response(request, ip, tld, ttl, transport);
    OptIsSplit(4096, 0);
    OptIsLast(out, |out| - 11, OptRecord(), 4096, 0, []);
  }

  lemma QuestionName(msg: seq<byte>, q: Query)
    requires AreLabels(q.labels) && |q.rawQuestion| >= 2 && StandsAt(msg, 12, q.rawQuestion)
    requires q.rawQuestion == EncodeQuestion(q.labels, q.qtype, QuestionClass(q.rawQuestion))
    ensures StandsAt(msg, 12, EncodeName(q.labels))
  {
    var name, rest := EncodeName(q.labels), Be16(q.qtype) + Be16(QuestionClass(q.rawQuestion));
    assert q.rawQuestion == name + rest;
    StandsAtSplit(msg, 12, name, rest);
  }

  // -- the request -----------------------------------------------------------------------------

  /** A request parses exactly when it counts a question and an encoded question stands behind the header. */
  lemma ParsesExactly(msg: seq<byte>)
    requires |msg| >= 12
    ensures ReadQuery(msg).Some? <==> U16At(msg[4], msg[5]) >= 1 && HasQuestion(msg)
  {
    if ReadQuery(msg).Some? {
      QuestionIsEncoded(msg);
    }
    if U16At(msg[4], msg[5]) >= 1 && HasQuestion(msg) {
      var ls, qtype, qclass :| AreLabels(ls) && StandsAt(msg, 12, EncodeQuestion(ls, qtype, qclass));
      EncodedQuestionIsRead(msg, ls, qtype, qclass);
    }
  }

  ghost predicate HasQuestion(msg: seq<byte>) {
    exists ls, qtype, qclass :: AreLabels(ls) && StandsAt(msg, 12, EncodeQuestion(ls, qtype, qclass))
  }

  /**
   An advertised size is seen exactly when the request counts an additional record and the head of a
   root-named OPT record of that size stands behind the question.
   */
  lemma OptIsSeen(msg: seq<byte>, size: u16)
    requires |msg| >= 12 && ReadQuery(msg).Some?
    ensures var q := ReadQuery(msg).value;
            q.ednsUdpSize == Some(size)
            <==> U16At(msg[10], msg[11]) >= 1 && StandsAt(msg, 12 + |q.rawQuestion|, [0, 0, 41] + Be16(size))
  {
    ReadNameEnds(msg, 12);
    OptHeadIs(msg, 12 + |ReadQuery(msg).value.rawQuestion|, size);
  }

  lemma OptHeadIs(msg: seq<byte>, pos: nat, size: u16)
    ensures ReadOptSize(msg, pos) == Some(size) <==> StandsAt(msg, pos, [0, 0, 41] + Be16(size))
  {
    var head := [0, 0, 41] + Be16(size);
    if StandsAt(msg, pos, head) {
      forall i | 0 <= i < 5 ensures msg[pos + i] == head[i] {
        OctetAt(msg, pos, head, i);
      }
      assert msg[pos + 0] == 0 && msg[pos + 1] == 0 && msg[pos + 2] == 41;
      assert msg[pos + 3] == Be16(size)[0] && msg[pos + 4] == Be16(size)[1];
    }
    if ReadOptSize(msg, pos) == Some(size) {
      Be16OfU16At(msg[pos + 3], msg[pos + 4]);
      assert msg[pos..pos + 5] == [msg[pos], msg[pos + 1], msg[pos + 2], msg[pos + 3], msg[pos + 4]];
    }
  }

  // -- the decoder -----------------------------------------------------------------------------

  lemma {:induction false} ResolvedIsSkipped(msg: seq<byte>, pos: nat, start: nat)
    requires ResolveName(msg, pos, start).Some?
    ensures AfterName(msg, pos) == Some(ResolveName(msg, pos, start).value.end)
    decreases |msg| - pos
  {
    if msg[pos] != 0 && msg[pos] < 0xC0 {
      ResolvedIsSkipped(msg, pos + 1 + msg[pos] as int, start);
    }
  }

  /** `count` records one behind the other. */
  function ReadRecords(msg: seq<byte>, pos: nat, count: nat): Option<seq<Record>>
    decreases count
  {
    if count == 0 then Some([])
    else match ReadRecord(msg, pos)
      case None => None
      case Some(r) =>
        match ReadRecords(msg, r.end, count - 1)
        case None => None
        case Some(rest) => Some([r] + rest)
  }

  predicate IsAddress(r: Record) {
    r.rtype == 1 && |r.rdata| == 4
  }

  lemma RecordIsStepped(msg: seq<byte>, pos: nat, count: nat)
    requires count > 0 && ReadRecord(msg, pos).Some?
    ensures var r := ReadRecord(msg, pos).value;
            FirstAFrom(msg, pos, count)
            == if IsAddress(r) then Some(Ipv4(r.rdata[0], r.rdata[1], r.rdata[2], r.rdata[3]))
               else FirstAFrom(msg, r.end, count - 1)
  {
    ResolvedIsSkipped(msg, pos, pos);
    StepOver(msg, pos, ResolveName(msg, pos, pos).value.end, count);
  }

  lemma StepOver(msg: seq<byte>, pos: nat, p: nat, count: nat)
    requires count > 0 && AfterName(msg, pos) == Some(p) && p + 10 <= |msg|
    requires p + 10 + U16At(msg[p + 8], msg[p + 9]) <= |msg|
    ensures var n := U16At(msg[p + 8], msg[p + 9]);
            FirstAFrom(msg, pos, count)
            == if U16At(msg[p], msg[p + 1]) == 1 && n == 4
               then Some(Ipv4(msg[p + 10], msg[p + 11], msg[p + 12], msg[p + 13]))
               else FirstAFrom(msg, p + 10 + n, count - 1)
  {
  }

  /**
   The decoder finds the first address record, however many records of other kinds stand in front of
   it, and nothing when there is none.
   */
  lemma {:induction false} FirstAddressIsFound(msg: seq<byte>, pos: nat, count: nat)
    requires ReadRecords(msg, pos, count).Some?
    ensures var rs := ReadRecords(msg, pos, count).value;
            && ((forall i :: 0 <= i < |rs| ==> !IsAddress(rs[i])) ==> FirstAFrom(msg, pos, count) == None)
            && forall i :: 0 <= i < |rs| && IsAddress(rs[i]) && (forall j :: 0 <= j < i ==> !IsAddress(rs[j])) ==>
                 FirstAFrom(msg, pos, count)
                 == Some(Ipv4(rs[i].rdata[0], rs[i].rdata[1], rs[i].rdata[2], rs[i].rdata[3]))
    decreases count
  {
    if count > 0 {
      RecordIsStepped(msg, pos, count);
      var r := ReadRecord(msg, pos).value;
      FirstAddressIsFound(msg, r.end, count - 1);
      var rs, rest := ReadRecords(msg, pos, count).value, ReadRecords(msg, r.end, count - 1).value;
      assert rs == [r] + rest && rs[0] == r;
      assert forall i :: 0 <= i < |rest| ==> rest[i] == rs[i + 1];
      forall i | 0 <= i < |rs| && IsAddress(rs[i]) && (forall j :: 0 <= j < i ==> !IsAddress(rs[j]))
        ensures FirstAFrom(msg, pos, count)
                == Some(Ipv4(rs[i].rdata[0], rs[i].rdata[1], rs[i].rdata[2], rs[i].rdata[3]))
      {
        if i > 0 {
          assert rs[i] == rest[i - 1] && !IsAddress(rs[0]);
        }
      }
    }
  }
}
