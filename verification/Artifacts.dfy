/**
 The files that wire the OS resolver: their texts, and readers of each format that take the address and
 the TLD back out of them.
 */
module Artifacts {
  import opened Prelude
  import opened Text
  import Config
  import Host

  const MARKER := "managed by dig-dns configure-os"
  const LEGACY_INSTALLER_MARKER := "managed by dig-installer " + "(dig-dns, task #177)"

  const MARKED := "# " + MARKER

  /** A text by its lines, each ending in a newline. */
  function Lines(ls: seq<string>): string {
    Join(ls + [""], '\n')
  }

  function ResolvedLines(ip: Ipv4, tld: string): seq<string> {
    [MARKED, "[Resolve]", "DNS=" + Config.PrintIp(ip), "Domains=~" + tld]
  }

  function SystemdResolvedDropin(ip: Ipv4, tld: string): string {
    Lines(ResolvedLines(ip, tld))
  }

  function NetworkManagerConf(ip: Ipv4, tld: string): string {
    Lines([MARKED, "server=/" + tld + "/" + Config.PrintIp(ip)])
  }

  function ResolverFile(ip: Ipv4): string {
    Lines([MARKED, "nameserver " + Config.PrintIp(ip)])
  }

  const ELEMENT := "\t\t<string>"
  const ELEMENT_END := "</string>"

  function Element(s: string): string {
    ELEMENT + s + ELEMENT_END
  }

  const DOCTYPE_START := "<!DOCTYPE plist PUBLIC " + "\"-//Apple//DTD PLIST 1.0//EN\" "
  const DOCTYPE_END := "\"http://www.apple.com/DTDs/" + "PropertyList-1.0.dtd\">"

  const PROLOGUE := [
    "<?xml version=\"1.0\" " + "encoding=\"UTF-8\"?>", DOCTYPE_START + DOCTYPE_END, "<plist version=\"1.0\">"]

  const NOTICE := "<!-- " + MARKER + " -->"

  const LABEL_LINE := "\t<string>" + "net.dignetwork.dig-dns-lo0</string>"
  const JOB_LABEL := ["<dict>", "\t<key>Label</key>", LABEL_LINE]
  const JOB_ARGUMENTS := ["\t<key>ProgramArguments</key>", "\t<array>"]
  const JOB_HEAD := JOB_LABEL + JOB_ARGUMENTS

  const JOB_TAIL := [
    "\t</array>", "\t<key>RunAtLoad</key>", "\t<true/>", "\t<key>KeepAlive</key>", "\t<false/>", "</dict>", "</plist>"]

  /** The command the alias daemon runs. */
  function AliasCommand(ip: Ipv4): seq<string> {
    ["/sbin/ifconfig", "lo0", "alias", Config.PrintIp(ip), "up"]
  }

  function Elements(args: seq<string>): (ls: seq<string>)
    ensures |ls| == |args| && forall i :: 0 <= i < |args| ==> ls[i] == Element(args[i])
  {
    seq(|args|, i requires 0 <= i < |args| => Element(args[i]))
  }

  /** The alias daemon: a marked comment, then a job that runs the alias command for the address. */
  function Lo0Plist(ip: Ipv4): string {
    Lines(PROLOGUE + [NOTICE] + JOB_HEAD + Elements(AliasCommand(ip)) + JOB_TAIL)
  }

  // -- readers ---------------------------------------------------------------------------------

  /** The lines behind a section header. */
  function Section(ls: seq<string>, header: string): seq<string> {
    if ls == [] then [] else if ls[0] == header then ls[1..] else Section(ls[1..], header)
  }

  /** The array elements of a property list laid out one to a line. */
  function ReadElements(ls: seq<string>): seq<string> {
    if ls == [] then []
    else if StartsWith(ls[0], ELEMENT) && |ls[0]| >= |ELEMENT| + |ELEMENT_END| then
      [ls[0][|ELEMENT|..|ls[0]| - |ELEMENT_END|]] + ReadElements(ls[1..])
    else ReadElements(ls[1..])
  }

  lemma LinesSplit(ls: seq<string>)
    requires NoneHas(ls, '\n')
    ensures Split(Lines(ls), '\n') == ls + [""]
  {
    SplitOfJoin(ls + [""], '\n');
  }

  lemma MarkedIsOneLine()
    ensures '\n' !in MARKED && MARKED[0] == '#'
  {
  }

  lemma AddressIsOneLine(ip: Ipv4)
    ensures '\n' !in Config.PrintIp(ip) && '/' !in Config.PrintIp(ip)
  {
    Config.IpText(ip);
  }

  lemma TldIsOneLine(tld: string)
    requires Host.IsSafeTld(tld)
    ensures '\n' !in tld && '/' !in tld
  {
    forall i | 0 <= i < |tld| ensures tld[i] != '\n' && tld[i] != '/' {
      assert Host.IsSafeTldChar(tld[i]);
    }
  }

  // -- what the readers find -------------------------------------------------------------------

  /** systemd-resolved reads, in the section for the resolver, the address and the routed TLD. */
  lemma ResolvedIsRead(ip: Ipv4, tld: string)
    requires Host.IsSafeTld(tld)
    ensures var section := Section(Split(SystemdResolvedDropin(ip, tld), '\n'), "[Resolve]");
            && Setting(section, "DNS=") == Some(Config.PrintIp(ip))
            && Setting(section, "Domains=~") == Some(tld)
  {
    var dns, domains := "DNS=" + Config.PrintIp(ip), "Domains=~" + tld;
    ResolvedSplits(ip, tld);
    ResolvedSection(dns, domains);
    SettingHere("DNS=", Config.PrintIp(ip), [domains, ""]);
    assert [dns, domains, ""] == [dns] + [domains, ""];
    NotDomains(Config.PrintIp(ip));
    SettingSkips(dns, [domains, ""], "Domains=~");
    SettingHere("Domains=~", tld, [""]);
    assert [domains, ""] == [domains] + [""];
  }

  lemma NotDomains(address: string)
    ensures !StartsWith("DNS=" + address, "Domains=~")
  {
    var line := "DNS=" + address;
    assert line[1] == 'N';
    assert |line| >= 9 ==> line[..9][1] == 'N';
    assert "Domains=~"[1] == 'o';
  }

  lemma ResolvedSplits(ip: Ipv4, tld: string)
    requires Host.IsSafeTld(tld)
    ensures Split(SystemdResolvedDropin(ip, tld), '\n')
            == [MARKED, "[Resolve]", "DNS=" + Config.PrintIp(ip), "Domains=~" + tld, ""]
  {
    MarkedIsOneLine();
    AddressIsOneLine(ip);
    TldIsOneLine(tld);
    var ls := ResolvedLines(ip, tld);
    assert '\n' !in ls[0] && '\n' !in ls[1] && '\n' !in ls[2] && '\n' !in ls[3];
    LinesSplit(ls);
  }

  lemma ResolvedSection(dns: string, domains: string)
    ensures Section([MARKED, "[Resolve]", dns, domains, ""], "[Resolve]") == [dns, domains, ""]
  {
    var ls := [MARKED, "[Resolve]", dns, domains, ""];
    MarkedIsOneLine();
    assert "[Resolve]"[0] == '[';
    assert ls[1..] == ["[Resolve]", dns, domains, ""];
    assert ls[1..][1..] == [dns, domains, ""];
  }

  /** dnsmasq reads the TLD and, behind a slash, the address it is routed to. */
  lemma DnsmasqIsRead(ip: Ipv4, tld: string)
    requires Host.IsSafeTld(tld)
    ensures var value := Setting(Split(NetworkManagerConf(ip, tld), '\n'), "server=/");
            value.Some? && Split(value.value, '/') == [tld, Config.PrintIp(ip)]
  {
    MarkedIsOneLine();
    AddressIsOneLine(ip);
    TldIsOneLine(tld);
    var rule := tld + "/" + Config.PrintIp(ip);
    var line := "server=/" + rule;
    assert line == "server=/" + tld + "/" + Config.PrintIp(ip);
    assert '\n' !in line;
    MarkedThen(line, "server=/", rule);
    var parts := [tld, Config.PrintIp(ip)];
    assert Join(parts, '/') == rule;
    SplitOfJoin(parts, '/');
  }

  /** The resolver file names the address. */
  lemma ResolverFileIsRead(ip: Ipv4)
    ensures Setting(Split(ResolverFile(ip), '\n'), "nameserver ") == Some(Config.PrintIp(ip))
  {
    AddressIsOneLine(ip);
    MarkedThen("nameserver " + Config.PrintIp(ip), "nameserver ", Config.PrintIp(ip));
  }

  lemma MarkedThen(line: string, key: string, value: string)
    requires line == key + value && '\n' !in line && key != "" && key[0] != '#'
    ensures Setting(Split(Lines([MARKED, line]), '\n'), key) == Some(value)
  {
    MarkedIsOneLine();
    LinesSplit([MARKED, line]);
    assert [MARKED, line] + [""] == [MARKED] + ([line] + [""]);
    OtherFirst(MARKED, key);
    SettingSkips(MARKED, [line] + [""], key);
    SettingHere(key, value, [""]);
  }

  // -- the property list -----------------------------------------------------------------------

  /** A line of the list that is no array element. */
  predicate IsPlistLine(line: string) {
    '\n' !in line && (|line| >= 2 ==> line[1] != '\t')
  }

  predicate ArePlistLines(ls: seq<string>) {
    forall i :: 0 <= i < |ls| ==> IsPlistLine(ls[i])
  }

  lemma {:induction false} ElementsConcat(s: seq<string>, t: seq<string>)
    ensures ReadElements(s + t) == ReadElements(s) + ReadElements(t)
    decreases |s|
  {
    if s == [] {
      assert s + t == t;
    } else {
      assert (s + t)[1..] == s[1..] + t;
      ElementsConcat(s[1..], t);
    }
  }

  lemma ElementSecond(line: string)
    ensures StartsWith(line, ELEMENT) ==> |line| >= 2 && line[1] == '\t'
  {
    if StartsWith(line, ELEMENT) {
      assert line[..|ELEMENT|][1] == line[1];
    }
  }

  lemma {:induction false} PlistLinesHaveNone(ls: seq<string>)
    requires ArePlistLines(ls)
    ensures ReadElements(ls) == []
    decreases |ls|
  {
    if ls != [] {
      assert IsPlistLine(ls[0]);
      ElementSecond(ls[0]);
      PlistLinesHaveNone(ls[1..]);
    }
  }

  lemma {:induction false} ElementsAreRead(args: seq<string>)
    ensures ReadElements(Elements(args)) == args
    decreases |args|
  {
    if args != [] {
      ElementIs(args[0]);
      assert Elements(args)[1..] == Elements(args[1..]);
      ElementsAreRead(args[1..]);
      assert args == [args[0]] + args[1..];
    }
  }

  lemma ElementIs(s: string)
    ensures var line := Element(s);
            && StartsWith(line, ELEMENT) && |line| >= |ELEMENT| + |ELEMENT_END|
            && line[|ELEMENT|..|line| - |ELEMENT_END|] == s
  {
    assert Element(s) == ELEMENT + (s + ELEMENT_END);
  }

  lemma PairIsFixed(a: string, b: string)
    requires IsPlistLine(a) && |a| >= 2 && '\n' !in b
    ensures IsPlistLine(a + b)
  {
  }

  lemma DoctypeStarts()
    ensures IsPlistLine(DOCTYPE_START) && |DOCTYPE_START| >= 2
  {
  }

  lemma DoctypeEnds()
    ensures '\n' !in DOCTYPE_END
  {
  }

  lemma PrologueIsFixed()
    ensures ArePlistLines(PROLOGUE)
  {
    DoctypeStarts();
    DoctypeEnds();
    PairIsFixed(DOCTYPE_START, DOCTYPE_END);
  }

  lemma NoticeIsFixed()
    ensures IsPlistLine(NOTICE)
  {
  }

  lemma JobLabelIsFixed()
    ensures ArePlistLines(JOB_LABEL)
  {
    PairIsFixed("\t<string>", "net.dignetwork.dig-dns-lo0</string>");
    assert IsPlistLine(JOB_LABEL[0]) && IsPlistLine(JOB_LABEL[1]) && IsPlistLine(JOB_LABEL[2]);
  }

  lemma JobArgumentsAreFixed()
    ensures ArePlistLines(JOB_ARGUMENTS)
  {
  }

  lemma JobHeadIsFixed()
    ensures ArePlistLines(JOB_HEAD)
  {
    JobLabelIsFixed();
    JobArgumentsAreFixed();
    PlistConcat(JOB_LABEL, JOB_ARGUMENTS);
  }

  lemma JobTailIsFixed()
    ensures ArePlistLines(JOB_TAIL)
  {
  }

  lemma CommandIsOneLined(ip: Ipv4)
    ensures NoneHas(Elements(AliasCommand(ip)), '\n')
  {
    AddressIsOneLine(ip);
    var args := AliasCommand(ip);
    assert '\n' !in args[0] && '\n' !in args[1] && '\n' !in args[2] && '\n' !in args[3] && '\n' !in args[4];
    assert '\n' !in ELEMENT && '\n' !in ELEMENT_END;
    forall i | 0 <= i < |args| ensures '\n' !in Elements(args)[i] {
      assert '\n' !in args[i];
    }
  }

  lemma PlistLinesAreLines(ls: seq<string>)
    requires ArePlistLines(ls)
    ensures NoneHas(ls, '\n')
  {
    forall i | 0 <= i < |ls| ensures '\n' !in ls[i] {
      assert IsPlistLine(ls[i]);
    }
  }

  lemma PlistConcat(s: seq<string>, t: seq<string>)
    requires ArePlistLines(s) && ArePlistLines(t)
    ensures ArePlistLines(s + t)
  {
  }

  lemma NoneHasConcat(s: seq<string>, t: seq<string>)
    requires NoneHas(s, '\n') && NoneHas(t, '\n')
    ensures NoneHas(s + t, '\n')
  {
  }

  /** The only array of the list is the alias command, with the address as its fourth word. */
  lemma PlistIsRead(ip: Ipv4)
    ensures ReadElements(Split(Lo0Plist(ip), '\n')) == ["/sbin/ifconfig", "lo0", "alias", Config.PrintIp(ip), "up"]
  {
    var head, args := PROLOGUE + [NOTICE] + JOB_HEAD, Elements(AliasCommand(ip));
    PlistHead();
    JobTailIsFixed();
    CommandIsOneLined(ip);
    PlistReads(head, args, JOB_TAIL);
    ElementsAreRead(AliasCommand(ip));
  }

  lemma PlistHead()
    ensures ArePlistLines(PROLOGUE + [NOTICE] + JOB_HEAD)
  {
    PrologueIsFixed();
    NoticeIsFixed();
    JobHeadIsFixed();
    PlistConcat(PROLOGUE, [NOTICE]);
    PlistConcat(PROLOGUE + [NOTICE], JOB_HEAD);
  }

  lemma PlistReads(head: seq<string>, args: seq<string>, tail: seq<string>)
    requires ArePlistLines(head) && ArePlistLines(tail) && NoneHas(args, '\n')
    ensures ReadElements(Split(Lines(head + args + tail), '\n')) == ReadElements(args)
  {
    PlistLinesAreLines(head);
    PlistLinesAreLines(tail);
    NoneHasConcat(head, args);
    NoneHasConcat(head + args, tail);
    LinesSplit(head + args + tail);
    assert IsPlistLine("");
    ElementsConcat(head + args + tail, [""]);
    ElementsConcat(head + args, tail);
    ElementsConcat(head, args);
    PlistLinesHaveNone(head);
    PlistLinesHaveNone(tail);
    PlistLinesHaveNone([""]);
  }

  // -- the marker ------------------------------------------------------------------------------

  lemma {:induction false} LineIsInText(ls: seq<string>, i: nat)
    returns (pre: string, post: string)
    requires i < |ls|
    ensures Lines(ls) == pre + ls[i] + post
    decreases i
  {
    var all := ls + [""];
    assert all[0] == ls[0] && all[1..] == ls[1..] + [""];
    if i == 0 {
      pre, post := "", "\n" + Join(all[1..], '\n');
      assert Lines(ls) == ls[0] + ['\n'] + Join(all[1..], '\n');
    } else {
      pre, post := LineIsInText(ls[1..], i - 1);
      pre := ls[0] + "\n" + pre;
      assert Lines(ls) == ls[0] + ['\n'] + Lines(ls[1..]);
    }
  }

  lemma MarkedLineIsMarked(ls: seq<string>, i: nat, a: string, b: string)
    requires i < |ls| && ls[i] == a + MARKER + b
    ensures Contains(Lines(ls), MARKER)
  {
    var pre, post := LineIsInText(ls, i);
    ContainsMiddle(pre + a, MARKER, b + post);
    assert pre + (a + MARKER + b) + post == (pre + a) + MARKER + (b + post);
  }

  /** Every artifact carries the marker. */
  lemma ArtifactsAreMarked(ip: Ipv4, tld: string)
    ensures Contains(SystemdResolvedDropin(ip, tld), MARKER) && Contains(NetworkManagerConf(ip, tld), MARKER)
    ensures Contains(ResolverFile(ip), MARKER) && Contains(Lo0Plist(ip), MARKER)
  {
    assert MARKED == "# " + MARKER + "";
    MarkedLineIsMarked(ResolvedLines(ip, tld), 0, "# ", "");
    MarkedLineIsMarked([MARKED, "server=/" + tld + "/" + Config.PrintIp(ip)], 0, "# ", "");
    MarkedLineIsMarked([MARKED, "nameserver " + Config.PrintIp(ip)], 0, "# ", "");
    var ls := PROLOGUE + [NOTICE] + JOB_HEAD + Elements(AliasCommand(ip)) + JOB_TAIL;
    assert ls[3] == NOTICE;
    MarkedLineIsMarked(ls, 3, "<!-- ", " -->");
  }
}
