/**
 The text of the systemd unit an install writes, its `Environment=` lines read back, literally and as
 systemd reads them, and the configuration loaded from them.
 */
module Unit {
  import opened Prelude
  import opened Text
  import Config
  import Decimal
  import Host
  import Systemd

  const ENVIRONMENT := "Environment="

  /** The fixed lines before the command line, between it and the environment, and after. */
  datatype Template = Template(head: seq<string>, body: seq<string>, wanted: seq<string>)

  predicate IsOther(line: string) {
    '\n' !in line && !StartsWith(line, ENVIRONMENT)
  }

  /** Lines that are lines, and none of them an environment assignment. */
  predicate Others(ls: seq<string>) {
    forall i :: 0 <= i < |ls| ==> IsOther(ls[i])
  }

  predicate IsTemplate(t: Template) {
    Others(t.head) && Others(t.body) && Others(t.wanted)
  }

  // -- the lines of this unit ------------------------------------------------------------------

  const DESCRIPTION_START := "Description=DIG NETWORK: DNS " + ("\U{E2}\U{80}\U{94}" + " local *.dig resolver ")
  const DESCRIPTION := DESCRIPTION_START + "(DNS responder + HTTP gateway)"
  const RUNS_START := "# Runs as root so ExecStart can " + "reach the root-owned binary "
  const RUNS_AS_ROOT := RUNS_START + "copy (#565); privilege is"
  const BOUNDED := "# then bounded to exactly the " + "loopback :53/:80 bind (#177)."
  const READ_ONLY_START := "# read-only: the service holds " + "no secret material and never "
  const READ_ONLY := READ_ONLY_START + "needs to write a home dir;"
  const BLOCKS_START := "# read-only blocks writes while " + "still allowing reads, a harmless "
  const BLOCKS := BLOCKS_START + "defensive default (#528)."
  const AMBIENT := "AmbientCapabilities=" + "CAP_NET_BIND_SERVICE"
  const BOUNDING := "CapabilityBoundingSet=" + "CAP_NET_BIND_SERVICE"

  const OPENING := ["[Unit]", DESCRIPTION, "Documentation=https://docs.dig.net"]
  const ORDERING := ["After=network-online.target", "Wants=network-online.target", "", "[Service]", "Type=simple"]
  const RESTARTING := ["Restart=on-failure", "RestartSec=5", RUNS_AS_ROOT, BOUNDED]
  const CAPABILITIES := [AMBIENT, BOUNDING]
  const PRIVILEGES := ["StateDirectory=dig-dns", "NoNewPrivileges=true", "ProtectSystem=full"]
  const PROTECTION := [READ_ONLY, BLOCKS, "ProtectHome=read-only", "PrivateTmp=true"]
  const WANTED := ["", "[Install]", "WantedBy=multi-user.target"]

  const UNIT := Template(OPENING + ORDERING, RESTARTING + CAPABILITIES + PRIVILEGES + PROTECTION, WANTED)

  /** The second letter tells a line from an environment assignment, and from the command line. */
  predicate IsFixed(line: string) {
    '\n' !in line && (|line| >= 2 ==> line[1] != 'n' && line[1] != 'x')
  }

  predicate AllFixed(ls: seq<string>) {
    forall i :: 0 <= i < |ls| ==> IsFixed(ls[i])
  }

  lemma FixedAreOthers(ls: seq<string>)
    requires AllFixed(ls)
    ensures Others(ls)
  {
    forall i | 0 <= i < |ls| ensures IsOther(ls[i]) {
      assert IsFixed(ls[i]);
      SecondChar(ls[i]);
    }
  }

  lemma FixedPair(a: string, b: string)
    requires IsFixed(a) && |a| >= 2 && '\n' !in b
    ensures IsFixed(a + b)
  {
  }

  lemma DescriptionStarts()
    ensures IsFixed(DESCRIPTION_START) && |DESCRIPTION_START| >= 2
  {
    FixedPair("Description=DIG NETWORK: DNS ", "\U{E2}\U{80}\U{94}" + " local *.dig resolver ");
  }

  lemma DescriptionIsFixed()
    ensures IsFixed(DESCRIPTION)
  {
    DescriptionStarts();
    FixedPair(DESCRIPTION_START, "(DNS responder + HTTP gateway)");
  }

  lemma RunsAsRootStarts()
    ensures IsFixed(RUNS_START) && |RUNS_START| >= 2
  {
    FixedPair("# Runs as root so ExecStart can ", "reach the root-owned binary ");
  }

  lemma RunsAsRootIsFixed()
    ensures IsFixed(RUNS_AS_ROOT)
  {
    RunsAsRootStarts();
    FixedPair(RUNS_START, "copy (#565); privilege is");
  }

  lemma BoundedIsFixed()
    ensures IsFixed(BOUNDED)
  {
    FixedPair("# then bounded to exactly the ", "loopback :53/:80 bind (#177).");
  }

  lemma ReadOnlyStarts()
    ensures IsFixed(READ_ONLY_START) && |READ_ONLY_START| >= 2
  {
    FixedPair("# read-only: the service holds ", "no secret material and never ");
  }

  lemma ReadOnlyIsFixed()
    ensures IsFixed(READ_ONLY)
  {
    ReadOnlyStarts();
    FixedPair(READ_ONLY_START, "needs to write a home dir;");
  }

  lemma BlocksStarts()
    ensures IsFixed(BLOCKS_START) && |BLOCKS_START| >= 2
  {
    FixedPair("# read-only blocks writes while ", "still allowing reads, a harmless ");
  }

  lemma BlocksIsFixed()
    ensures IsFixed(BLOCKS)
  {
    BlocksStarts();
    FixedPair(BLOCKS_START, "defensive default (#528).");
  }

  lemma AmbientIsFixed()
    ensures IsFixed(AMBIENT)
  {
    FixedPair("AmbientCapabilities=", "CAP_NET_BIND_SERVICE");
  }

  lemma BoundingIsFixed()
    ensures IsFixed(BOUNDING)
  {
    FixedPair("CapabilityBoundingSet=", "CAP_NET_BIND_SERVICE");
  }

  lemma OpeningIsFixed()
    ensures AllFixed(OPENING)
  {
    DescriptionIsFixed();
  }

  lemma OrderingIsFixed()
    ensures AllFixed(ORDERING)
  {
  }

  lemma RestartingIsFixed()
    ensures AllFixed(RESTARTING)
  {
    RunsAsRootIsFixed();
    BoundedIsFixed();
  }

  lemma PrivilegesAreFixed()
    ensures AllFixed(CAPABILITIES) && AllFixed(PRIVILEGES)
  {
    AmbientIsFixed();
    BoundingIsFixed();
  }

  lemma ProtectionIsFixed()
    ensures AllFixed(PROTECTION)
  {
    ReadOnlyIsFixed();
    BlocksIsFixed();
  }

  lemma WantedIsFixed()
    ensures AllFixed(WANTED)
  {
  }

  /** None of the unit's own lines is an environment assignment. */
  lemma UnitIsTemplate()
    ensures IsTemplate(UNIT)
  {
    OpeningIsFixed();
    OrderingIsFixed();
    RestartingIsFixed();
    PrivilegesAreFixed();
    ProtectionIsFixed();
    WantedIsFixed();
    FixedConcat(OPENING, ORDERING);
    FixedConcat(RESTARTING, CAPABILITIES);
    FixedConcat(RESTARTING + CAPABILITIES, PRIVILEGES);
    FixedConcat(RESTARTING + CAPABILITIES + PRIVILEGES, PROTECTION);
    FixedAreOthers(UNIT.head);
    FixedAreOthers(UNIT.body);
    FixedAreOthers(UNIT.wanted);
  }

  lemma FixedConcat(s: seq<string>, t: seq<string>)
    requires AllFixed(s) && AllFixed(t)
    ensures AllFixed(s + t)
  {
  }

  datatype InstallPlan = InstallPlan(program: string, arg: string, environment: seq<(string, string)>, autostart: bool)

  function EnvLine(pair: (string, string)): string {
    ENVIRONMENT + pair.0 + "=" + pair.1
  }

  function EnvLines(pairs: seq<(string, string)>): (ls: seq<string>)
    ensures |ls| == |pairs| && forall i :: 0 <= i < |pairs| ==> ls[i] == EnvLine(pairs[i])
  {
    seq(|pairs|, i requires 0 <= i < |pairs| => EnvLine(pairs[i]))
  }

  function ExecLine(plan: InstallPlan): string {
    "ExecStart=" + plan.program + " " + plan.arg
  }

  function Lines(t: Template, plan: InstallPlan): seq<string> {
    FrontOf(t, plan) + EnvLines(plan.environment) + BackOf(t, plan)
  }

  function FrontOf(t: Template, plan: InstallPlan): seq<string> {
    t.head + [ExecLine(plan)] + t.body
  }

  function BackOf(t: Template, plan: InstallPlan): seq<string> {
    (if plan.autostart then t.wanted else []) + [""]
  }

  /** Every line ends in a newline. */
  function Contents(t: Template, plan: InstallPlan): string {
    Join(Lines(t, plan), '\n')
  }

  // -- reading it back -------------------------------------------------------------------------

  function ReadLine(line: string): Option<(string, string)> {
    if !StartsWith(line, ENVIRONMENT) then None
    else Systemd.Assignment(line[|ENVIRONMENT|..])
  }

  function ReadLines(ls: seq<string>): seq<(string, string)> {
    if ls == [] then []
    else match ReadLine(ls[0])
      case None => ReadLines(ls[1..])
      case Some(pair) => [pair] + ReadLines(ls[1..])
  }

  /** The assignments of the `Environment=` lines of a text, in order. */
  function EnvironmentOf(text: string): seq<(string, string)> {
    ReadLines(Split(text, '\n'))
  }

  lemma {:induction false} ReadLinesConcat(s: seq<string>, t: seq<string>)
    ensures ReadLines(s + t) == ReadLines(s) + ReadLines(t)
  {
    if s == [] {
      assert s + t == t;
    } else {
      assert (s + t)[1..] == s[1..] + t;
      ReadLinesConcat(s[1..], t);
    }
  }

  lemma {:induction false} ReadLinesOfOthers(ls: seq<string>)
    requires Others(ls)
    ensures ReadLines(ls) == []
  {
    if ls != [] {
      ReadLinesOfOthers(ls[1..]);
      assert IsOther(ls[0]);
    }
  }

  lemma ReadEnvLine(pair: (string, string))
    requires '=' !in pair.0
    ensures ReadLine(EnvLine(pair)) == Some(pair)
  {
    var line := EnvLine(pair);
    var rest := "=" + pair.1;
    assert line == ENVIRONMENT + (pair.0 + rest);
    assert line[|ENVIRONMENT|..] == pair.0 + rest;
    BeforeOf(pair.0, '=', rest);
    assert (pair.0 + rest)[|pair.0| + 1..] == pair.1;
  }

  lemma {:induction false} ReadEnvLines(pairs: seq<(string, string)>)
    requires forall i :: 0 <= i < |pairs| ==> '=' !in pairs[i].0
    ensures ReadLines(EnvLines(pairs)) == pairs
  {
    if pairs != [] {
      ReadEnvLine(pairs[0]);
      assert EnvLines(pairs)[1..] == EnvLines(pairs[1..]);
      ReadEnvLines(pairs[1..]);
      assert pairs == [pairs[0]] + pairs[1..];
    }
  }

  predicate OneLine(s: string) {
    '\n' !in s
  }

  lemma EnvLineIsOneLine(pair: (string, string))
    requires OneLine(pair.0) && OneLine(pair.1)
    ensures OneLine(EnvLine(pair))
  {
    assert '\n' !in ENVIRONMENT;
  }

  lemma SecondChar(line: string)
    ensures StartsWith(line, ENVIRONMENT) ==> |line| >= 2 && line[1] == 'n'
  {
    if StartsWith(line, ENVIRONMENT) {
      assert line[..|ENVIRONMENT|][1] == line[1];
    }
  }

  lemma ExecLineIsOther(plan: InstallPlan)
    requires OneLine(plan.program) && OneLine(plan.arg)
    ensures IsOther(ExecLine(plan))
  {
    var line := ExecLine(plan);
    assert '\n' !in "ExecStart=" && '\n' !in " ";
    assert line[1] == 'x';
    SecondChar(line);
  }

  lemma OthersConcat(s: seq<string>, t: seq<string>)
    requires Others(s) && Others(t)
    ensures Others(s + t)
  {
  }

  lemma NoneHasConcat(s: seq<string>, t: seq<string>)
    requires NoneHas(s, '\n') && NoneHas(t, '\n')
    ensures NoneHas(s + t, '\n')
  {
  }

  lemma OthersAreLines(s: seq<string>)
    requires Others(s)
    ensures NoneHas(s, '\n')
  {
    forall i | 0 <= i < |s| ensures '\n' !in s[i] {
      assert IsOther(s[i]);
    }
  }

  predicate IsSingleLined(plan: InstallPlan) {
    && OneLine(plan.program) && OneLine(plan.arg)
    && forall i :: 0 <= i < |plan.environment| ==>
         OneLine(plan.environment[i].0) && OneLine(plan.environment[i].1) && '=' !in plan.environment[i].0
  }

  /** Joining the lines loses none: the text splits into them again. */
  lemma UnitLines(t: Template, plan: InstallPlan)
    requires IsTemplate(t) && IsSingleLined(plan)
    ensures Others(FrontOf(t, plan)) && Others(BackOf(t, plan))
    ensures Split(Contents(t, plan), '\n') == Lines(t, plan)
  {
    ExecLineIsOther(plan);
    OthersConcat(t.head, [ExecLine(plan)]);
    OthersConcat(t.head + [ExecLine(plan)], t.body);
    assert IsOther("");
    OthersConcat(if plan.autostart then t.wanted else [], [""]);
    var front, envs, back := FrontOf(t, plan), EnvLines(plan.environment), BackOf(t, plan);
    forall i | 0 <= i < |envs| ensures '\n' !in envs[i] {
      EnvLineIsOneLine(plan.environment[i]);
    }
    OthersAreLines(front);
    OthersAreLines(back);
    NoneHasConcat(front, envs);
    NoneHasConcat(front + envs, back);
    SplitOfJoin(front + envs + back, '\n');
  }

  /** Whatever single-line values the plan holds, its environment is read back from the unit text, in order. */
  lemma UnitRoundTrip(t: Template, plan: InstallPlan)
    requires IsTemplate(t) && IsSingleLined(plan)
    ensures EnvironmentOf(Contents(t, plan)) == plan.environment
  {
    UnitLines(t, plan);
    var front, envs, back := FrontOf(t, plan), EnvLines(plan.environment), BackOf(t, plan);
    ReadLinesConcat(front + envs, back);
    ReadLinesConcat(front, envs);
    ReadLinesOfOthers(front);
    ReadEnvLines(plan.environment);
    ReadLinesOfOthers(back);
    assert [] + plan.environment + [] == plan.environment;
  }

  // -- the plan of a configuration -------------------------------------------------------------

  function Named(pairs: seq<(Config.Key, string)>): (ps: seq<(string, string)>)
    ensures |ps| == |pairs| && forall i :: 0 <= i < |pairs| ==> ps[i] == (pairs[i].0.Name(), pairs[i].1)
  {
    seq(|pairs|, i requires 0 <= i < |pairs| => (pairs[i].0.Name(), pairs[i].1))
  }

  function BuildPlan(c: Config.Config, program: string): InstallPlan {
    InstallPlan(program, "serve", Named(Config.Environment(c)), true)
  }

  predicate IsNameText(s: string) {
    forall i :: 0 <= i < |s| ==> 'A' <= s[i] <= 'Z' || s[i] == '_'
  }

  lemma NameChars(key: Config.Key)
    ensures IsNameText(key.Name())
  {
    match key
    case NodeUrl => ServiceNameChars(key);
    case Ip => ServiceNameChars(key);
    case DnsPort => ServiceNameChars(key);
    case HttpPort => ServiceNameChars(key);
    case HttpFallbackPort => ServiceNameChars(key);
    case _ => OtherNameChars(key);
  }

  lemma ServiceNameChars(key: Config.Key)
    requires key.NodeUrl? || key.Ip? || key.DnsPort? || key.HttpPort? || key.HttpFallbackPort?
    ensures IsNameText(key.Name())
  {
  }

  lemma OtherNameChars(key: Config.Key)
    requires key.TldKey? || key.Ttl? || key.LocalIp? || key.LocalPort? || key.SecureUpstream?
    ensures IsNameText(key.Name())
  {
  }

  lemma KeyNames(key: Config.Key)
    ensures OneLine(key.Name()) && '=' !in key.Name()
  {
    NameChars(key);
  }

  lemma DigitsAreOneLine(s: string)
    requires Decimal.AllDigits(s)
    ensures OneLine(s)
  {
  }

  lemma BakedValuesAreOneLine(c: Config.Config)
    requires Config.IsValid(c)
    ensures forall i :: 0 <= i < |Config.Environment(c)| ==> OneLine(Config.Environment(c)[i].1)
  {
    Config.IpText(c.loopbackIp);
    assert OneLine(Config.PrintIp(c.loopbackIp));
    DigitsAreOneLine(Decimal.Print(c.dnsPort));
    DigitsAreOneLine(Decimal.Print(c.httpPort));
    DigitsAreOneLine(Decimal.Print(c.httpFallbackPort));
    DigitsAreOneLine(Decimal.Print(c.dnsTtlSecs));
    forall i | 0 <= i < |c.tld| ensures c.tld[i] != '\n' {
      assert Host.IsSafeTldChar(c.tld[i]);
    }
    if Config.BakedUrl(c).Some? {
      Config.TrimKeepsSafe(c.nodeUrl.value);
    }
  }

  lemma PlanIsOneLined(c: Config.Config, program: string)
    requires Config.IsValid(c) && OneLine(program)
    ensures IsSingleLined(BuildPlan(c, program))
  {
    BakedValuesAreOneLine(c);
    assert OneLine("serve");
    var env := BuildPlan(c, program).environment;
    forall i | 0 <= i < |env| ensures OneLine(env[i].0) && OneLine(env[i].1) && '=' !in env[i].0 {
      KeyNames(Config.Environment(c)[i].0);
      assert OneLine(Config.Environment(c)[i].1);
    }
  }

  /** No value a valid configuration bakes can add a line to the unit: what is read back is what was baked. */
  lemma BakedUnitRoundTrip(c: Config.Config, program: string)
    requires Config.IsValid(c) && OneLine(program)
    ensures EnvironmentOf(Contents(UNIT, BuildPlan(c, program))) == Named(Config.Environment(c))
  {
    UnitIsTemplate();
    PlanIsOneLined(c, program);
    UnitRoundTrip(UNIT, BuildPlan(c, program));
  }

  // -- what the unit runs ----------------------------------------------------------------------

  const COMMAND := "ExecStart="

  lemma NoCommand(line: string)
    requires IsFixed(line)
    ensures !StartsWith(line, COMMAND)
  {
    CommandSecond(line);
  }

  lemma CommandSecond(line: string)
    ensures StartsWith(line, COMMAND) ==> |line| >= 2 && line[1] == 'x'
  {
    if StartsWith(line, COMMAND) {
      assert line[..|COMMAND|][1] == line[1];
    }
  }

  /**
   What the installed unit runs, and when: its first command line is the staged program with the argument
   that serves, and it is wanted at boot.
   */
  lemma UnitRuns(c: Config.Config, program: string)
    requires Config.IsValid(c) && OneLine(program)
    ensures var lines := Split(Contents(UNIT, BuildPlan(c, program)), '\n');
            && Setting(lines, "ExecStart=") == Some(program + " serve")
            && "WantedBy=multi-user.target" in lines
  {
    var plan := BuildPlan(c, program);
    UnitIsTemplate();
    PlanIsOneLined(c, program);
    UnitLines(UNIT, plan);
    HeadIsFixed();
    CommandIsFound(UNIT, plan);
    assert program + " " + "serve" == program + " serve";
    WantedIsLast(plan);
  }

  lemma CommandIsFound(t: Template, plan: InstallPlan)
    requires AllFixed(t.head)
    ensures Setting(Lines(t, plan), COMMAND) == Some(plan.program + " " + plan.arg)
  {
    forall i | 0 <= i < |t.head| ensures !StartsWith(t.head[i], COMMAND) {
      NoCommand(t.head[i]);
    }
    var rest := t.body + EnvLines(plan.environment) + BackOf(t, plan);
    assert Lines(t, plan) == t.head + ([ExecLine(plan)] + rest);
    SettingPast(t.head, [ExecLine(plan)] + rest, COMMAND);
    assert ExecLine(plan) == COMMAND + (plan.program + " " + plan.arg);
    SettingHere(COMMAND, plan.program + " " + plan.arg, rest);
  }

  lemma HeadIsFixed()
    ensures AllFixed(UNIT.head)
  {
    OpeningIsFixed();
    OrderingIsFixed();
    FixedConcat(OPENING, ORDERING);
  }

  lemma WantedIsLast(plan: InstallPlan)
    requires plan.autostart
    ensures "WantedBy=multi-user.target" in Lines(UNIT, plan)
  {
    assert WANTED[2] == "WantedBy=multi-user.target";
    assert BackOf(UNIT, plan)[2] == WANTED[2];
  }

  // -- loading it again ------------------------------------------------------------------------

  /** A later assignment to a name replaces an earlier one. */
  function Assigned(pairs: seq<(string, string)>, name: string): Option<string> {
    if pairs == [] then None
    else
      var last := pairs[|pairs| - 1];
      if last.0 == name then Some(last.1) else Assigned(pairs[..|pairs| - 1], name)
  }

  function EnvNamed(pairs: seq<(string, string)>): Config.Env {
    (key: Config.Key) => Assigned(pairs, key.Name())
  }

  lemma NamesDiffer(k: Config.Key, l: Config.Key)
    ensures k.Name() == l.Name() ==> k == l
  {
    assert Config.Key.TldKey.Name()[9] != Config.Key.Ttl.Name()[9];
    assert Config.Key.DnsPort.Name()[8] != Config.Key.LocalIp.Name()[8];
  }

  predicate DistinctKeys(pairs: seq<(Config.Key, string)>) {
    forall i, j :: 0 <= i < j < |pairs| ==> pairs[i].0 != pairs[j].0
  }

  lemma {:induction false} LookupAtEnd(pairs: seq<(Config.Key, string)>, key: Config.Key)
    requires pairs != [] && DistinctKeys(pairs)
    ensures var n := |pairs| - 1;
            Config.Lookup(pairs, key) == if pairs[n].0 == key then Some(pairs[n].1) else Config.Lookup(pairs[..n], key)
  {
    var n := |pairs| - 1;
    if n > 0 {
      assert pairs[0].0 == key ==> pairs[n].0 != key;
      LookupAtEnd(pairs[1..], key);
      assert pairs[1..][..n - 1] == pairs[..n][1..];
    } else {
      assert pairs[1..] == [];
    }
  }

  lemma {:induction false} AssignedIsLookup(pairs: seq<(Config.Key, string)>, key: Config.Key)
    requires DistinctKeys(pairs)
    ensures Assigned(Named(pairs), key.Name()) == Config.Lookup(pairs, key)
  {
    if pairs != [] {
      var n := |pairs| - 1;
      assert Named(pairs)[..n] == Named(pairs[..n]);
      AssignedIsLookup(pairs[..n], key);
      LookupAtEnd(pairs, key);
      NamesDiffer(pairs[n].0, key);
    }
  }

  lemma EnvironmentKeysDiffer(c: Config.Config)
    ensures DistinctKeys(Config.Environment(c))
  {
  }

  lemma NamedLoads(c: Config.Config)
    requires Config.IsValid(c)
    ensures Config.Loaded(EnvNamed(Named(Config.Environment(c)))) == Ok(Config.Installed(c))
  {
    var env := EnvNamed(Named(Config.Environment(c)));
    EnvironmentKeysDiffer(c);
    forall key ensures env(key) == Config.LookupBaked(c, key) {
      AssignedIsLookup(Config.Environment(c), key);
      Config.LookupIs(c, key);
    }
    Config.BakesAll(env, c);
    Config.BakedLoads(c, env);
  }

  /**
   Installation end to end: from the text of the unit written for a valid configuration, read line by
   line, the same configuration is loaded, the node override trimmed and the un-baked fields at their
   defaults.
   */
  lemma UnitLoads(c: Config.Config, program: string)
    requires Config.IsValid(c) && OneLine(program)
    ensures Config.Loaded(EnvNamed(EnvironmentOf(Contents(UNIT, BuildPlan(c, program))))) == Ok(Config.Installed(c))
  {
    BakedUnitRoundTrip(c, program);
    NamedLoads(c);
  }

  // -- as systemd reads it ---------------------------------------------------------------------

  function SystemdLines(r: Systemd.Reader, ls: seq<string>): seq<(string, string)> {
    if ls == [] then []
    else
      (if StartsWith(ls[0], ENVIRONMENT) then Systemd.Assignments(r, ls[0][|ENVIRONMENT|..]) else [])
      + SystemdLines(r, ls[1..])
  }

  function SystemdEnvironmentOf(r: Systemd.Reader, text: string): seq<(string, string)> {
    SystemdLines(r, Split(text, '\n'))
  }

  ghost predicate PlainLine(r: Systemd.Reader, line: string) {
    StartsWith(line, ENVIRONMENT) ==> Systemd.IsPlain(r, line[|ENVIRONMENT|..])
  }

  ghost predicate PlainLines(r: Systemd.Reader, ls: seq<string>) {
    forall i :: 0 <= i < |ls| ==> PlainLine(r, ls[i])
  }

  lemma {:induction false} PlainLinesAgree(r: Systemd.Reader, ls: seq<string>)
    requires PlainLines(r, ls)
    ensures SystemdLines(r, ls) == ReadLines(ls)
  {
    if ls != [] {
      assert PlainLine(r, ls[0]);
      if StartsWith(ls[0], ENVIRONMENT) {
        Systemd.PlainAssignment(r, ls[0][|ENVIRONMENT|..]);
      }
      PlainLinesAgree(r, ls[1..]);
    }
  }

  /** A character that is nothing special to systemd. */
  predicate IsWordChar(c: char) {
    !Systemd.IsSpecial(c) && c != '%'
  }

  predicate IsWordText(s: string) {
    forall i :: 0 <= i < |s| ==> IsWordChar(s[i])
  }

  /** In front of a value, such characters change nothing. */
  lemma WordTextInFront(r: Systemd.Reader, s: string, v: string)
    requires IsWordText(s)
    ensures Systemd.IsPlain(r, s + v) <==> Systemd.IsPlain(r, v)
  {
    var all := s + v;
    assert forall i :: 0 <= i < |v| ==> all[|s| + i] == v[i];
    if i :| 0 <= i < |v| && Systemd.IsSpecial(v[i]) {
      assert Systemd.IsSpecial(all[|s| + i]);
    }
    if i :| 0 <= i < |all| && Systemd.IsSpecial(all[i]) {
      assert i >= |s|;
      assert Systemd.IsSpecial(v[i - |s|]);
    }
    forall i | 0 <= i < |s| ensures !Systemd.SpecifierAt(r, all, i) {
      assert IsWordChar(s[i]);
    }
    Systemd.SpecifierLater(r, all, |s|);
    assert all[|s|..] == v;
  }

  lemma WordTextIsPlain(r: Systemd.Reader, s: string)
    requires IsWordText(s)
    ensures Systemd.IsPlain(r, s)
  {
    forall i ensures !Systemd.SpecifierAt(r, s, i) {
      assert 0 <= i < |s| ==> IsWordChar(s[i]);
    }
  }

  lemma NamesAreWords(key: Config.Key)
    ensures IsWordText(key.Name() + "=")
  {
    NameChars(key);
  }

  lemma AddressIsWord(ip: Ipv4)
    ensures IsWordText(Config.PrintIp(ip))
  {
    Config.IpText(ip);
  }

  lemma NumeralIsWord(n: nat)
    ensures IsWordText(Decimal.Print(n))
  {
  }

  lemma TldIsWord(tld: string)
    requires Host.IsSafeTld(tld)
    ensures IsWordText(tld)
  {
    forall j | 0 <= j < |tld| ensures IsWordChar(tld[j]) {
      assert Host.IsSafeTldChar(tld[j]);
    }
  }

  /** Every value but the node override is made of plain characters. */
  lemma BakedValuesAreWords(c: Config.Config, i: nat)
    requires Config.IsValid(c) && i < |Config.Environment(c)|
    ensures Config.Environment(c)[i].0 != Config.Key.NodeUrl ==> IsWordText(Config.Environment(c)[i].1)
  {
    AddressIsWord(c.loopbackIp);
    NumeralIsWord(c.dnsPort);
    NumeralIsWord(c.httpPort);
    NumeralIsWord(c.httpFallbackPort);
    TldIsWord(c.tld);
    NumeralIsWord(c.dnsTtlSecs);
  }

  /** What stands to the right of `Environment=`. */
  function SettingOf(pair: (Config.Key, string)): string {
    pair.0.Name() + "=" + pair.1
  }

  /** The condition on the override: absent, or without blanks, quotes, backslashes and specifiers. */
  ghost predicate OverrideIsPlain(r: Systemd.Reader, c: Config.Config) {
    Config.BakedUrl(c).Some? ==> Systemd.IsPlain(r, Config.BakedUrl(c).value)
  }

  lemma SettingIsPlain(r: Systemd.Reader, c: Config.Config, i: nat)
    requires Config.IsValid(c) && i < |Config.Environment(c)|
    ensures var pair := Config.Environment(c)[i];
            && (Systemd.IsPlain(r, SettingOf(pair)) <==> Systemd.IsPlain(r, pair.1))
            && (pair.0 != Config.Key.NodeUrl ==> Systemd.IsPlain(r, pair.1))
  {
    var pair := Config.Environment(c)[i];
    NamesAreWords(pair.0);
    WordTextInFront(r, pair.0.Name() + "=", pair.1);
    BakedValuesAreWords(c, i);
    if pair.0 != Config.Key.NodeUrl {
      WordTextIsPlain(r, pair.1);
    }
  }

  lemma OverrideIsLast(c: Config.Config)
    ensures var env := Config.Environment(c);
            && (forall i :: 0 <= i < |env| && env[i].0 == Config.Key.NodeUrl ==>
                  i == 6 && Config.BakedUrl(c) == Some(env[i].1))
            && (Config.BakedUrl(c).Some? ==> |env| == 7 && env[6] == (Config.Key.NodeUrl, Config.BakedUrl(c).value))
  {
  }

  /**
   systemd takes every setting of the unit literally, as one word that expands to itself, exactly when
   the override is plain: any other override is cut, unquoted or expanded.
   */
  lemma TakenLiterally(r: Systemd.Reader, c: Config.Config)
    requires Config.IsValid(c)
    ensures (forall i :: 0 <= i < |Config.Environment(c)| ==> Systemd.IsLiteral(r, SettingOf(Config.Environment(c)[i])))
            <==> OverrideIsPlain(r, c)
  {
    var env := Config.Environment(c);
    OverrideIsLast(c);
    forall i | 0 <= i < |env|
      ensures Systemd.IsLiteral(r, SettingOf(env[i])) <==> Systemd.IsPlain(r, env[i].1)
      ensures env[i].0 != Config.Key.NodeUrl ==> Systemd.IsPlain(r, env[i].1)
    {
      SettingIsPlain(r, c, i);
      Systemd.LiteralIsPlain(r, SettingOf(env[i]));
    }
  }

  lemma EnvLineIsPlain(r: Systemd.Reader, c: Config.Config, i: nat)
    requires Config.IsValid(c) && OverrideIsPlain(r, c) && i < |Config.Environment(c)|
    ensures PlainLine(r, EnvLine(Named(Config.Environment(c))[i]))
  {
    var pair := Config.Environment(c)[i];
    OverrideIsLast(c);
    SettingIsPlain(r, c, i);
    EnvLineHolds(pair);
  }

  lemma EnvLineHolds(pair: (Config.Key, string))
    ensures var line := EnvLine((pair.0.Name(), pair.1));
            StartsWith(line, ENVIRONMENT) && line[|ENVIRONMENT|..] == SettingOf(pair)
  {
    assert EnvLine((pair.0.Name(), pair.1)) == ENVIRONMENT + SettingOf(pair);
  }

  lemma OthersArePlain(r: Systemd.Reader, ls: seq<string>)
    requires Others(ls)
    ensures PlainLines(r, ls)
  {
    forall i | 0 <= i < |ls| ensures PlainLine(r, ls[i]) {
      assert IsOther(ls[i]);
    }
  }

  lemma PlainLinesConcat(r: Systemd.Reader, s: seq<string>, t: seq<string>)
    requires PlainLines(r, s) && PlainLines(r, t)
    ensures PlainLines(r, s + t)
  {
  }

  /** With a plain override, systemd hands the service the configuration it was installed with. */
  lemma SystemdLoads(r: Systemd.Reader, c: Config.Config, program: string)
    requires Config.IsValid(c) && OneLine(program) && OverrideIsPlain(r, c)
    ensures var text := Contents(UNIT, BuildPlan(c, program));
            && SystemdEnvironmentOf(r, text) == Named(Config.Environment(c))
            && Config.Loaded(EnvNamed(SystemdEnvironmentOf(r, text))) == Ok(Config.Installed(c))
  {
    BakedUnitRoundTrip(c, program);
    UnitLinesArePlain(r, c, program);
    PlainLinesAgree(r, Split(Contents(UNIT, BuildPlan(c, program)), '\n'));
    NamedLoads(c);
  }

  lemma UnitLinesArePlain(r: Systemd.Reader, c: Config.Config, program: string)
    requires Config.IsValid(c) && OneLine(program) && OverrideIsPlain(r, c)
    ensures PlainLines(r, Split(Contents(UNIT, BuildPlan(c, program)), '\n'))
  {
    var plan := BuildPlan(c, program);
    UnitIsTemplate();
    PlanIsOneLined(c, program);
    UnitLines(UNIT, plan);
    var front := FrontOf(UNIT, plan);
    var envs := EnvLines(plan.environment);
    forall i | 0 <= i < |envs| ensures PlainLine(r, envs[i]) {
      EnvLineIsPlain(r, c, i);
    }
    OthersArePlain(r, front);
    OthersArePlain(r, BackOf(UNIT, plan));
    PlainLinesConcat(r, front, envs);
    PlainLinesConcat(r, front + envs, BackOf(UNIT, plan));
  }

  lemma SettingAssigns(pair: (Config.Key, string))
    ensures Systemd.Assignment(SettingOf(pair)) == Some((pair.0.Name(), pair.1))
  {
    var name, rest := pair.0.Name(), "=" + pair.1;
    KeyNames(pair.0);
    assert SettingOf(pair) == name + rest;
    BeforeOf(name, '=', rest);
    assert (name + rest)[|name| + 1..] == pair.1;
  }

  lemma SettingOfPlain(r: Systemd.Reader, pair: (Config.Key, string))
    requires Systemd.IsPlain(r, pair.1)
    ensures Systemd.IsPlain(r, SettingOf(pair))
  {
    NamesAreWords(pair.0);
    WordTextInFront(r, pair.0.Name() + "=", pair.1);
  }

  /**
   What an override that is not plain can do: after a blank it may go on as a setting of its own. It
   passes validation, and systemd then assigns the other variable too.
   */
  lemma BlankOverrideAssigns(r: Systemd.Reader, url: string, other: (Config.Key, string))
    requires Systemd.IsPlain(r, url) && Systemd.IsPlain(r, other.1)
    requires Config.IsSafeNodeUrl(url) && Config.IsSafeNodeUrl(other.1)
    ensures var override := url + " " + SettingOf(other);
            && Config.IsSafeNodeUrl(override)
            && Systemd.Assignments(r, SettingOf((Config.Key.NodeUrl, override)))
               == [(Config.Key.NodeUrl.Name(), url), (other.0.Name(), other.1)]
  {
    var first, override := (Config.Key.NodeUrl, url), url + " " + SettingOf(other);
    SettingOfPlain(r, first);
    SettingOfPlain(r, other);
    SettingAssigns(first);
    SettingAssigns(other);
    assert SettingOf((Config.Key.NodeUrl, override)) == SettingOf(first) + " " + SettingOf(other);
    Systemd.BlankSplits(r, SettingOf(first), SettingOf(other));
    Systemd.TwoAssignments(r, SettingOf(first), SettingOf(other));
    NamesAreSafe(other.0);
  }

  lemma NamesAreSafe(key: Config.Key)
    ensures Config.IsSafeNodeUrl(key.Name() + "=")
  {
    NameChars(key);
  }
}
