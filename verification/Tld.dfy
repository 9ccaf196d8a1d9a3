/**
 One notion of "under the TLD", three readers: the DNS policy, the gateway's open-proxy guard and
 the routing rule of the PAC script.
 */
module Tld {
  import opened Prelude
  import opened Text
  import opened Host
  import Dns

  function TrimDots(h: string): (r: string)
    ensures r <= h
    ensures r != "" ==> r[|r| - 1] != '.'
    ensures forall i :: |r| <= i < |h| ==> h[i] == '.'
  {
    if h != "" && h[|h| - 1] == '.' then TrimDots(h[..|h| - 1]) else h
  }

  predicate UnderLower(h: string, tld: string) {
    Lower(h) == Lower(tld) || EndsWith(Lower(h), "." + Lower(tld))
  }

  /** The open-proxy guard. */
  predicate HostIsUnderTld(host: string, tld: string) {
    UnderLower(Before(TrimDots(Trim(host)), ':'), tld)
  }

  function TrimLeadingDots(s: string): string {
    if s != "" && s[0] == '.' then TrimLeadingDots(s[1..]) else s
  }

  const KELVIN := "\U{E2}\U{84}\U{AA}"

  predicate StartsKelvin(s: string) {
    |s| >= 3 && s[0] == '\U{E2}' && s[1] == '\U{84}' && s[2] == '\U{AA}'
  }

  predicate StartsDottedI(s: string) {
    |s| >= 2 && s[0] == '\U{C4}' && s[1] == '\U{B0}'
  }

  /** How many octets the first letter takes, as far as the script changes it, and what it becomes. */
  function FirstLetter(s: string): (nat, string)
    requires s != ""
  {
    if StartsKelvin(s) then (3, "k")
    else if StartsDottedI(s) then (2, "i\U{CC}\U{87}")
    else (1, [LowerChar(s[0])])
  }

  /**
   The script's lower-casing, which follows Unicode: the Kelvin sign becomes a `k`, and the dotted
   capital I an `i` and a combining dot. Every other letter beyond ASCII stays beyond ASCII, and is
   left as it is here, which no comparison with an ASCII text can tell.
   */
  function ScriptLower(s: string): string
    decreases |s|
  {
    if s == "" then "" else FirstLetter(s).1 + ScriptLower(s[FirstLetter(s).0..])
  }

  /** What the generated script decides: `dnsDomainIs` is a suffix test on the lower-cased host. */
  predicate PacRoutes(host: string, tld: string) {
    var h, t := ScriptLower(host), Lower(TrimLeadingDots(Trim(tld)));
    EndsWith(h, "." + t) || h == t
  }

  // -- dotted names ----------------------------------------------------------------------------

  predicate IsNameLabel(l: string) {
    l != "" && IsText(l) && forall i :: 0 <= i < |l| ==> l[i] != '.' && l[i] != ':' && LeadingSpace(l[i..]) == 0
  }

  predicate AreNameLabels(ls: seq<string>) {
    |ls| >= 1 && forall i :: 0 <= i < |ls| ==> IsNameLabel(ls[i])
  }

  lemma {:induction false} NameEnds(ls: seq<string>)
    requires AreNameLabels(ls)
    ensures EndsWell(Join(ls, '.'))
    decreases |ls|
  {
    LabelIsTrimmed(ls[0]);
    if |ls| > 1 {
      NameEnds(ls[1..]);
      DottedEndsWell(ls[0], Join(ls[1..], '.'));
    }
  }

  /** What both ends of a name need so that the guard reads it whole. */
  predicate EndsWell(name: string) {
    name != "" && ':' !in name && Trimmed(name) && name[|name| - 1] != '.'
  }

  lemma DottedEndsWell(first: string, rest: string)
    requires EndsWell(first) && EndsWell(rest)
    ensures EndsWell(first + ['.'] + rest)
  {
    DottedIsTrimmed(first, rest);
  }

  lemma LabelIsTrimmed(l: string)
    requires IsNameLabel(l)
    ensures EndsWell(l)
  {
    assert l[0..] == l;
    var k := TrailingSpace(l);
    var tail := l[|l| - k..];
    assert tail[..k] == tail;
  }

  /** A name is its last label, or something, a dot and its last label. */
  lemma {:induction false} LastLabel(ls: seq<string>) returns (init: string)
    requires AreNameLabels(ls)
    ensures Join(ls, '.') == (if |ls| == 1 then "" else init + ".") + ls[|ls| - 1]
  {
    if |ls| == 1 {
      init := "";
    } else {
      var rest := LastLabel(ls[1..]);
      init := if |ls| == 2 then ls[0] else ls[0] + "." + rest;
    }
  }

  lemma LastDot(init: string, last: string)
    requires '.' !in last
    ensures var s := init + "." + last;
            s[|init|] == '.' && forall j :: |init| < j < |s| ==> s[j] != '.'
  {
    var s := init + "." + last;
    forall j | |init| < j < |s| ensures s[j] != '.' {
      assert s[j] == last[j - |init| - 1];
    }
  }

  lemma SuffixAfterDot(init: string, last: string, tld: string)
    requires '.' !in last && '.' !in tld
    ensures EndsWith(init + "." + last, "." + tld) <==> last == tld
  {
    var s, dot := init + "." + last, "." + tld;
    LastDot(init, last);
    if EndsWith(s, dot) {
      var pre := s[..|s| - |dot|];
      assert s == pre + "." + tld;
      LastDot(pre, tld);
      assert |pre| == |init|;
      assert last == s[|init| + 1..] && tld == s[|pre| + 1..];
    }
    assert s[|init|..] == "." + last;
  }

  lemma SafeTldHasNoDot(tld: string)
    requires IsSafeTld(tld)
    ensures '.' !in tld && Trim(tld) == tld && TrimLeadingDots(tld) == tld && IsText(tld)
  {
    forall i | 0 <= i < |tld| ensures tld[i] != '.' && tld[i] as int < 0x100 {
      assert IsSafeTldChar(tld[i]);
    }
    SafeTldIsTrimmed(tld);
  }

  lemma SafeTldIsTrimmed(tld: string)
    requires IsSafeTld(tld)
    ensures Trim(tld) == tld
  {
    assert IsSafeTldChar(tld[0]) && IsSafeTldChar(tld[|tld| - 1]);
    SolidEndsAreTrimmed(tld);
    TrimOfTrimmed(tld);
  }

  /** Being under the TLD is having it as last label, whatever the case. */
  lemma UnderMeansLastLabel(ls: seq<string>, tld: string)
    requires AreNameLabels(ls) && IsSafeTld(tld)
    ensures UnderLower(Join(ls, '.'), tld) <==> Lower(ls[|ls| - 1]) == tld
  {
    SafeTldIsLower(tld);
    SafeTldHasNoDot(tld);
    var last := ls[|ls| - 1];
    var init := LastLabel(ls);
    assert IsNameLabel(last);
    LowerHasDot(last);
    if |ls| == 1 {
      assert Join(ls, '.') == last;
      LastOfSuffix(Lower(last), "." + tld);
    } else {
      LowerDotted(init, last);
      SuffixAfterDot(Lower(init), Lower(last), tld);
    }
  }

  lemma LowerDotted(init: string, last: string)
    ensures Lower(init + "." + last) == Lower(init) + "." + Lower(last)
    ensures '.' in Lower(init + "." + last)
  {
    LowerConcat(init + ".", last);
    LowerConcat(init, ".");
    assert Lower(init + "." + last)[|init|] == '.';
  }

  // -- the DNS side ----------------------------------------------------------------------------

  function OctetsAll(ls: seq<string>): (r: seq<seq<byte>>)
    requires forall i :: 0 <= i < |ls| ==> IsText(ls[i])
    ensures |r| == |ls| && forall i :: 0 <= i < |ls| ==> r[i] == Octets(ls[i])
  {
    seq(|ls|, i requires 0 <= i < |ls| => Octets(ls[i]))
  }

  lemma EqIgnoreCaseIsLower(s: string, t: string)
    requires IsText(s) && IsText(t)
    ensures Dns.EqIgnoreCase(Octets(s), Octets(t)) <==> Lower(s) == Lower(t)
  {
    if |s| == |t| {
      forall i | 0 <= i < |s|
        ensures Dns.LowerByte(Octets(s)[i]) == Dns.LowerByte(Octets(t)[i]) <==> Lower(s)[i] == Lower(t)[i]
      {
        LowerByteIsLowerChar(s[i]);
        LowerByteIsLowerChar(t[i]);
      }
    }
  }

  lemma LowerByteIsLowerChar(c: char)
    requires c as int < 0x100
    ensures Dns.LowerByte(c as int as byte) as int == LowerChar(c) as int
  {
  }

  predicate HasKelvin(s: string) {
    exists i :: 0 <= i < |s| && StartsKelvin(s[i..])
  }

  /** The label has a Kelvin sign, and is the TLD once those are read as `k`. */
  predicate IsKelvinSpelling(l: string, tld: string) {
    HasKelvin(l) && ScriptLower(l) == tld
  }

  /**
   The three readers of a name: for every dotted name of non-empty labels and every safe TLD, the DNS
   policy does not refuse it exactly when the proxy guard admits it, and exactly when the PAC script
   routes it, unless the last label spells the TLD with a Kelvin sign: that only the script follows.
   */
  lemma ReadersAgree(ls: seq<string>, tld: string, qtype: u16)
    requires AreNameLabels(ls) && IsSafeTld(tld)
    ensures IsText(tld)
    ensures Dns.Decide(OctetsAll(ls), qtype, Octets(tld)) != Dns.Refused <==> HostIsUnderTld(Join(ls, '.'), tld)
    ensures (HostIsUnderTld(Join(ls, '.'), tld) <==> PacRoutes(Join(ls, '.'), tld))
            <==> !IsKelvinSpelling(ls[|ls| - 1], tld)
    ensures HostIsUnderTld(Join(ls, '.'), tld) ==> PacRoutes(Join(ls, '.'), tld)
  {
    SafeTldHasNoDot(tld);
    DnsAgreesWithGuard(ls, tld, qtype);
    GuardReadsLastLabel(ls, tld);
    PacReadsLastLabel(ls, tld);
    LabelReadings(ls[|ls| - 1], tld);
  }

  lemma GuardReadsLastLabel(ls: seq<string>, tld: string)
    requires AreNameLabels(ls) && IsSafeTld(tld)
    ensures HostIsUnderTld(Join(ls, '.'), tld) <==> Lower(ls[|ls| - 1]) == tld
  {
    UnderMeansLastLabel(ls, tld);
    NameEnds(ls);
    GuardReadsUnder(Join(ls, '.'), tld);
  }

  lemma DnsAgreesWithGuard(ls: seq<string>, tld: string, qtype: u16)
    requires AreNameLabels(ls) && IsSafeTld(tld)
    ensures IsText(tld)
    ensures Dns.Decide(OctetsAll(ls), qtype, Octets(tld)) != Dns.Refused <==> HostIsUnderTld(Join(ls, '.'), tld)
  {
    SafeTldHasNoDot(tld);
    DnsReadsLastLabel(ls, tld);
    GuardReadsLastLabel(ls, tld);
  }

  lemma LabelReadings(l: string, tld: string)
    requires IsSafeTld(tld)
    ensures Lower(l) == tld ==> ScriptLower(l) == tld
    ensures (Lower(l) == tld <==> ScriptLower(l) == tld) <==> !IsKelvinSpelling(l, tld)
  {
    ScriptLowersAscii(l);
    LowerAsciiIsAscii(l, tld);
    AsciiHasNoKelvin(l);
    WithoutKelvin(l);
    forall i | 0 <= i < |tld| ensures tld[i] < '\U{80}' {
      assert IsSafeTldChar(tld[i]);
    }
  }

  lemma AsciiHasNoKelvin(s: string)
    ensures IsAscii(s) ==> !HasKelvin(s)
  {
    forall i | 0 <= i < |s| && StartsKelvin(s[i..]) ensures !IsAscii(s) {
      assert s[i] == s[i..][0];
    }
  }

  /** Apart from the Kelvin sign, what the script lower-cases to ASCII was ASCII. */
  lemma {:induction false} WithoutKelvin(s: string)
    ensures !HasKelvin(s) && IsAscii(ScriptLower(s)) ==> ScriptLower(s) == Lower(s)
    decreases |s|
  {
    DottedIIsNotAscii(s);
    if s != "" && !HasKelvin(s) && IsAscii(ScriptLower(s)) {
      assert s[0..] == s;
      var rest := s[1..];
      KelvinLater(s);
      WithoutKelvin(rest);
      assert ScriptLower(s) == [LowerChar(s[0])] + ScriptLower(rest);
      assert ScriptLower(s)[1..] == ScriptLower(rest);
      assert forall i :: 0 <= i < |ScriptLower(rest)| ==> ScriptLower(rest)[i] == ScriptLower(s)[i + 1];
      assert Lower(s) == [LowerChar(s[0])] + Lower(rest);
    }
  }

  lemma DottedIIsNotAscii(s: string)
    ensures StartsDottedI(s) ==> !IsAscii(ScriptLower(s))
  {
    if StartsDottedI(s) {
      assert ScriptLower(s)[1] == '\U{CC}';
    }
  }

  lemma KelvinLater(s: string)
    requires s != ""
    ensures HasKelvin(s[1..]) ==> HasKelvin(s)
  {
    if i :| 0 <= i < |s[1..]| && StartsKelvin(s[1..][i..]) {
      assert s[1..][i..] == s[i + 1..];
    }
  }

  predicate IsAscii(s: string) {
    forall i :: 0 <= i < |s| ==> s[i] < '\U{80}'
  }

  lemma LowerAsciiIsAscii(s: string, tld: string)
    requires IsSafeTld(tld)
    ensures Lower(s) == tld ==> IsAscii(s)
  {
    if Lower(s) == tld {
      forall i | 0 <= i < |s| ensures s[i] < '\U{80}' {
        assert Lower(s)[i] == tld[i];
        assert IsSafeTldChar(tld[i]);
      }
    }
  }

  lemma {:induction false} ScriptLowersAscii(s: string)
    ensures IsAscii(s) ==> ScriptLower(s) == Lower(s)
    decreases |s|
  {
    if IsAscii(s) && s != "" {
      ScriptLowersAscii(s[1..]);
    }
  }

  lemma {:induction false} ScriptLowerDotted(init: string, last: string)
    ensures ScriptLower(init + "." + last) == ScriptLower(init) + "." + ScriptLower(last)
    decreases |init|
  {
    var s := init + "." + last;
    if init == "" {
      assert s[1..] == last;
      assert FirstLetter(s) == (1, ".");
    } else {
      DotEndsLetter(init, last);
      var (k, l) := FirstLetter(init);
      assert s[k..] == init[k..] + "." + last;
      ScriptLowerDotted(init[k..], last);
      Regroup(l, ScriptLower(init[k..]), ScriptLower(last));
    }
  }

  lemma Regroup(a: string, b: string, c: string)
    ensures a + (b + "." + c) == (a + b) + "." + c
  {
  }

  /** A dot ends every letter before it. */
  lemma DotEndsLetter(init: string, last: string)
    requires init != ""
    ensures FirstLetter(init + "." + last) == FirstLetter(init)
  {
    var s := init + "." + last;
    assert s[0] == init[0] && s[|init|] == '.';
    assert |init| > 1 ==> s[1] == init[1];
    assert |init| > 2 ==> s[2] == init[2];
  }

  lemma {:induction false} ScriptLowerHasNoDot(s: string)
    requires '.' !in s
    ensures '.' !in ScriptLower(s)
    decreases |s|
  {
    if s != "" {
      assert s[0] in s;
      ScriptLowerHasNoDot(s[FirstLetter(s).0..]);
    }
  }

  /** The script routes a name exactly when it reads the last label as the TLD. */
  lemma PacReadsLastLabel(ls: seq<string>, tld: string)
    requires AreNameLabels(ls) && IsSafeTld(tld)
    ensures PacRoutes(Join(ls, '.'), tld) <==> ScriptLower(ls[|ls| - 1]) == tld
  {
    SafeTldIsLower(tld);
    SafeTldHasNoDot(tld);
    var last := ls[|ls| - 1];
    var init := LastLabel(ls);
    assert IsNameLabel(last);
    ScriptLowerHasNoDot(last);
    if |ls| == 1 {
      assert Join(ls, '.') == last;
      LastOfSuffix(ScriptLower(last), "." + tld);
    } else {
      ScriptLowerDotted(init, last);
      SuffixAfterDot(ScriptLower(init), ScriptLower(last), tld);
      assert ScriptLower(Join(ls, '.'))[|ScriptLower(init)|] == '.';
    }
  }

  /** A one-label name that the script alone takes for the TLD `k`. */
  lemma KelvinIsRouted()
    ensures IsNameLabel(KELVIN) && IsSafeTld("k") && IsKelvinSpelling(KELVIN, "k")
    ensures PacRoutes(KELVIN, "k") && !HostIsUnderTld(KELVIN, "k")
  {
    KelvinIsLabel();
    KelvinSpells();
    ReadersAgree([KELVIN], "k", Dns.TYPE_A);
    assert Join([KELVIN], '.') == KELVIN;
  }

  lemma KelvinIsLabel()
    ensures IsNameLabel(KELVIN) && IsSafeTld("k")
  {
    var s := KELVIN;
    assert |s| == 3 && s[0] == '\U{E2}' && s[1] == '\U{84}' && s[2] == '\U{AA}';
    ThreeOctets(s);
  }

  lemma ThreeOctets(s: string)
    requires |s| == 3 && s[0] == '\U{E2}' && s[1] == '\U{84}' && s[2] == '\U{AA}'
    ensures IsNameLabel(s)
  {
    forall i | 0 <= i < 3 ensures LeadingSpace(s[i..]) == 0 {
      assert s[i..][0] == s[i];
      assert i == 0 ==> s[i..][1] == s[1];
    }
  }

  lemma KelvinSpells()
    ensures IsKelvinSpelling(KELVIN, "k")
  {
    assert KELVIN[3..] == "" && "k" + "" == "k";
    assert FirstLetter(KELVIN) == (3, "k") && KELVIN[0..] == KELVIN;
  }

  lemma DnsReadsLastLabel(ls: seq<string>, tld: string)
    requires AreNameLabels(ls) && IsSafeTld(tld) && IsText(tld)
    ensures Dns.UnderTld(OctetsAll(ls), Octets(tld)) <==> Lower(ls[|ls| - 1]) == tld
  {
    SafeTldIsLower(tld);
    assert IsNameLabel(ls[|ls| - 1]);
    EqIgnoreCaseIsLower(ls[|ls| - 1], tld);
  }

  lemma GuardReadsUnder(name: string, tld: string)
    requires EndsWell(name)
    ensures HostIsUnderTld(name, tld) <==> UnderLower(name, tld)
  {
    PlainName(name);
  }

  /** The guard drops dots at the end, any number of them, and what stands behind a colon. */
  lemma GuardDropsPort(name: string, tld: string, dots: string, port: string)
    requires EndsWell(name) && IsSolid(name[0]) && dots != "" && forall i :: 0 <= i < |dots| ==> dots[i] == '.'
    ensures HostIsUnderTld(name + dots, tld) <==> UnderLower(name, tld)
    ensures HostIsUnderTld(name + ":" + port, tld) <==> UnderLower(name, tld)
  {
    DottedCore(name, dots);
    PortedCore(name, port);
  }

  lemma DottedCore(name: string, dots: string)
    requires EndsWell(name) && IsSolid(name[0]) && dots != "" && forall i :: 0 <= i < |dots| ==> dots[i] == '.'
    ensures Before(TrimDots(Trim(name + dots)), ':') == name
  {
    var s := name + dots;
    SolidEndsAreTrimmed(s);
    TrimOfTrimmed(s);
    DotsAreTrimmed(name, dots);
    BeforeOf(name, ':', "");
    assert name + "" == name;
  }

  lemma DotsAreTrimmed(name: string, dots: string)
    requires name != "" && name[|name| - 1] != '.' && forall i :: 0 <= i < |dots| ==> dots[i] == '.'
    ensures TrimDots(name + dots) == name
  {
    var s, r := name + dots, TrimDots(name + dots);
    assert s[|name| - 1] == name[|name| - 1];
    assert |r| >= |name|;
    assert forall i :: |name| <= i < |s| ==> s[i] == '.';
    assert |r| == |name| && s[..|name|] == name;
  }

  lemma PortedCore(name: string, port: string)
    requires name != "" && ':' !in name && IsSolid(name[0])
    ensures Before(TrimDots(Trim(name + ":" + port)), ':') == name
  {
    var s := name + ":";
    SolidStart(s + port);
    TrimEndKeeps(s, port);
    assert TrimStart(s + port) == s + port;
    var h := Trim(s + port);
    var d := TrimDots(h);
    assert s <= h && h[|s| - 1] == ':';
    assert s <= d;
    var rest := d[|name|..];
    assert d == name + rest && rest[0] == ':';
    BeforeOf(name, ':', rest);
  }

  lemma PlainName(name: string)
    requires EndsWell(name)
    ensures Before(TrimDots(Trim(name)), ':') == name
  {
    TrimOfTrimmed(name);
    BeforeOf(name, ':', "");
    assert name + "" == name;
  }

  // -- the wire and the gateway ----------------------------------------------------------------

  lemma {:induction false} OctetsJoin(ls: seq<string>)
    requires AreNameLabels(ls)
    ensures IsText(Join(ls, '.'))
    ensures Octets(Join(ls, '.')) == Join(OctetsAll(ls), Dns.DOT)
  {
    if |ls| > 1 {
      OctetsJoin(ls[1..]);
      assert OctetsAll(ls)[1..] == OctetsAll(ls[1..]);
      assert Octets(Join(ls, '.')) == Octets(ls[0]) + [Dns.DOT] + Octets(Join(ls[1..], '.'));
    }
  }

  lemma {:induction false} ProbeLabelsOfLabels(parts: seq<seq<byte>>)
    requires Dns.AreLabels(parts)
    ensures Dns.ProbeLabels(parts) == parts
  {
    if parts != [] {
      ProbeLabelsOfLabels(parts[1..]);
    }
  }

  lemma DotInOctets(s: string)
    requires IsText(s)
    ensures Dns.DOT in Octets(s) ==> '.' in s
  {
    if Dns.DOT in Octets(s) {
      var j :| 0 <= j < |s| && Octets(s)[j] == Dns.DOT;
      assert s[j] == '.';
    }
  }

  lemma OctetLabels(ls: seq<string>)
    requires AreNameLabels(ls) && forall i :: 0 <= i < |ls| ==> |ls[i]| <= 63
    ensures Dns.AreLabels(OctetsAll(ls)) && NoneHas(OctetsAll(ls), Dns.DOT)
  {
    forall i | 0 <= i < |ls| ensures Dns.IsLabel(OctetsAll(ls)[i]) && Dns.DOT !in OctetsAll(ls)[i] {
      assert IsNameLabel(ls[i]);
      DotInOctets(ls[i]);
    }
  }

  /**
   End to end: asking the responder over TCP for a name of labels within 63 octets yields the
   loopback address exactly when the gateway would accept that name as a proxy target.
   */
  lemma ProbeAgreesWithGuard(ls: seq<string>, tld: string, ip: Ipv4, ttl: u32)
    requires AreNameLabels(ls) && IsSafeTld(tld) && forall i :: 0 <= i < |ls| ==> |ls[i]| <= 63
    ensures IsText(tld) && IsText(Join(ls, '.'))
    ensures var probe := Dns.ProbeQuery(Octets(Join(ls, '.')));
            && |probe| >= Dns.HEADER_LEN
            && (Dns.FirstA(Dns.Response(probe, ip, Octets(tld), ttl, Dns.Tcp)) == Some(ip)
                <==> HostIsUnderTld(Join(ls, '.'), tld))
  {
    DnsAgreesWithGuard(ls, tld, Dns.TYPE_A);
    OctetsJoin(ls);
    OctetLabels(ls);
    SplitOfJoin(OctetsAll(ls), Dns.DOT);
    ProbeLabelsOfLabels(OctetsAll(ls));
    Dns.ProbeRoundTrip(Octets(Join(ls, '.')), ip, Octets(tld), ttl);
  }

  /** Both cuts of a host keep the same core once the core ends in something other than a dot. */
  lemma CoresAgree(h: string)
    requires var c := Before(StripDot(h), ':'); c != "" && c[|c| - 1] != '.'
    ensures Before(TrimDots(h), ':') == Before(StripDot(h), ':')
  {
    var c := Before(StripDot(h), ':');
    var d := TrimDots(h);
    assert c <= d by {
      assert h[|c| - 1] == c[|c| - 1];
    }
    var rest := d[|c|..];
    assert d == c + rest;
    if |c| < |StripDot(h)| {
      assert h[|c|] == ':';
    } else {
      assert |d| == |c|;
    }
    BeforeOf(c, ':', rest);
  }

  predicate CoreEndsUnder(c: string, tld: string) {
    c != "" && c[|c| - 1] != '.' && UnderLower(c, tld)
  }

  lemma AcceptedCoreEnds(host: string, tld: string)
    requires IsSafeTld(tld) && ParseDigHost(host, tld).Ok?
    ensures CoreEndsUnder(Core(host), tld)
  {
    SafeTldIsLower(tld);
    var c := Core(host);
    LastOfSuffix(Lower(c), "." + tld);
    assert IsSafeTldChar(tld[|tld| - 1]);
    assert Lower(c)[|c| - 1] == LowerChar(c[|c| - 1]);
  }

  lemma CoreUnderIsUnder(host: string, tld: string)
    ensures CoreEndsUnder(Core(host), tld) ==> HostIsUnderTld(host, tld)
  {
    if CoreEndsUnder(Core(host), tld) {
      CoresAgree(Trim(host));
    }
  }

  /** Any host the gateway resolves to a store passes the open-proxy guard. */
  lemma AcceptedHostIsUnder(host: string, tld: string)
    requires IsSafeTld(tld) && ParseDigHost(host, tld).Ok?
    ensures HostIsUnderTld(host, tld)
  {
    AcceptedCoreEnds(host, tld);
    CoreUnderIsUnder(host, tld);
  }
}
