/** Parsing a request host into the store, and the root if one is pinned, that it names. */
module Host {
  import opened Prelude
  import opened Text
  import opened Label

  datatype HostTarget = Latest(storeHex: string) | Pinned(storeHex: string, rootHex: string)

  datatype HostError =
    | NotDigTld(tld: string)
    | NoStoreLabel
    | TooManyLabels(count: nat)
    | BadLabel(error: LabelError)

  function StripDot(h: string): string {
    if h != [] && h[|h| - 1] == '.' then h[..|h| - 1] else h
  }

  /** The host without surrounding whitespace, one trailing dot and a port. */
  function Core(host: string): string {
    Before(StripDot(Trim(host)), ':')
  }

  function FromLabels(labels: seq<string>): Result<HostTarget, HostError> {
    if exists i :: 0 <= i < |labels| && labels[i] == "" then Err(NoStoreLabel)
    else if |labels| == 1 then
      match LabelToStoreHex(labels[0])
      case Ok(store) => Ok(Latest(store))
      case Err(e) => Err(BadLabel(e))
    else if |labels| == 2 then
      match LabelToStoreHex(labels[1])
      case Err(e) => Err(BadLabel(e))
      case Ok(store) =>
        match LabelToStoreHex(labels[0])
        case Ok(root) => Ok(Pinned(store, root))
        case Err(e) => Err(BadLabel(e))
    else Err(TooManyLabels(|labels|))
  }

  function ParseDigHost(host: string, tld: string): Result<HostTarget, HostError> {
    ParseCore(Core(host), tld)
  }

  function ParseCore(h: string, tld: string): Result<HostTarget, HostError> {
    var lower, tldLower := Lower(h), Lower(tld);
    var dotTld := "." + tldLower;
    if lower == tldLower then Err(NoStoreLabel)
    else if !EndsWith(lower, dotTld) then Err(NotDigTld(tld))
    else
      var remainder := h[..|h| - |dotTld|];
      if remainder == "" then Err(NoStoreLabel) else FromLabels(Split(remainder, '.'))
  }

  // -- printing --------------------------------------------------------------------------------

  /** What a host can name, by the ids themselves. */
  datatype Target = LatestOf(store: StoreId) | PinnedTo(store: StoreId, root: StoreId)

  function Rendered(t: Target): HostTarget {
    match t
    case LatestOf(store) => Latest(HexEncode(store))
    case PinnedTo(store, root) => Pinned(HexEncode(store), HexEncode(root))
  }

  /** The labels in front of the TLD. */
  function Labels(t: Target): (ls: seq<string>)
    ensures 1 <= |ls| <= 2
  {
    match t
    case LatestOf(store) => [StoreBytesToLabel(store)]
    case PinnedTo(store, root) => [StoreBytesToLabel(root), StoreBytesToLabel(store)]
  }

  /** The browsable host of a target. */
  function HostOf(t: Target, tld: string): string {
    Join(Labels(t), '.') + "." + tld
  }

  // -- parsing against printing ----------------------------------------------------------------

  lemma HexInjective(s: StoreId, t: StoreId)
    ensures HexEncode(s) == HexEncode(t) ==> s == t
  {
    HexRoundTrip(s);
    HexRoundTrip(t);
  }

  lemma LabelToHexIs(name: string, id: StoreId)
    ensures LabelToStoreHex(name) == Ok(HexEncode(id)) <==> Lower(name) == StoreBytesToLabel(id)
  {
    AcceptedLabel(name, id);
    if LabelToStoreBytes(name).Ok? {
      HexInjective(LabelToStoreBytes(name).value, id);
    }
  }

  lemma LabelsAreDotFree(t: Target)
    ensures NoneHas(Labels(t), '.')
    ensures forall i :: 0 <= i < |Labels(t)| ==> |Labels(t)[i]| == 52
  {
    LabelRoundTrip(t.store);
    if t.PinnedTo? {
      LabelRoundTrip(t.root);
    }
  }

  /** A list of labels is read as a target exactly when it is the labels of that target, up to case. */
  lemma LabelsParse(parts: seq<string>, t: Target)
    ensures FromLabels(parts) == Ok(Rendered(t)) <==> LowerAll(parts) == Labels(t)
  {
    LabelsAreDotFree(t);
    if |parts| == 1 && t.LatestOf? {
      OneLabelParses(parts, t.store);
    } else if |parts| == 2 && t.PinnedTo? {
      TwoLabelsParse(parts, t.store, t.root);
    }
  }

  lemma OneLabelParses(parts: seq<string>, store: StoreId)
    requires |parts| == 1
    ensures FromLabels(parts) == Ok(Latest(HexEncode(store))) <==> LowerAll(parts) == [StoreBytesToLabel(store)]
  {
    LabelRoundTrip(store);
    LabelToHexIs(parts[0], store);
    assert LowerAll(parts) == [Lower(parts[0])];
  }

  lemma TwoLabelsParse(parts: seq<string>, store: StoreId, root: StoreId)
    requires |parts| == 2
    ensures FromLabels(parts) == Ok(Pinned(HexEncode(store), HexEncode(root)))
            <==> LowerAll(parts) == [StoreBytesToLabel(root), StoreBytesToLabel(store)]
  {
    FromTwo(parts, HexEncode(store), HexEncode(root));
    LabelToHexIs(parts[0], root);
    LabelToHexIs(parts[1], store);
    PairIs(LowerAll(parts), StoreBytesToLabel(root), StoreBytesToLabel(store));
  }

  lemma PairIs(s: seq<string>, a: string, b: string)
    requires |s| == 2
    ensures s == [a, b] <==> s[0] == a && s[1] == b
  {
  }

  lemma FromTwo(parts: seq<string>, store: string, root: string)
    requires |parts| == 2
    ensures FromLabels(parts) == Ok(Pinned(store, root))
            <==> LabelToStoreHex(parts[0]) == Ok(root) && LabelToStoreHex(parts[1]) == Ok(store)
  {
    assert LabelToStoreHex("").Err?;
  }

  lemma PrefixParses(remainder: string, t: Target)
    ensures FromLabels(Split(remainder, '.')) == Ok(Rendered(t)) <==> Lower(remainder) == Join(Labels(t), '.')
  {
    LabelsParse(Split(remainder, '.'), t);
    LabelsAreDotFree(t);
    SpellsLabels(remainder, Labels(t));
  }

  lemma JoinIsLong(t: Target)
    ensures Join(Labels(t), '.') != ""
  {
    LabelsAreDotFree(t);
  }

  /**
   Host parsing and host printing are inverse: a host is read as a target exactly when, apart from
   letter case, whitespace, a trailing dot and a port, it is the printed host of that target.
   */
  lemma ParsesExactlyPrinted(host: string, tld: string, t: Target)
    ensures ParseDigHost(host, tld) == Ok(Rendered(t)) <==> Lower(Core(host)) == HostOf(t, Lower(tld))
  {
    CoreParses(Core(host), tld, t);
  }

  lemma CoreParses(h: string, tld: string, t: Target)
    ensures ParseCore(h, tld) == Ok(Rendered(t)) <==> Lower(h) == HostOf(t, Lower(tld))
  {
    JoinIsLong(t);
    HostCut(h, Join(Labels(t), '.'), Lower(tld));
    CoreIsCut(h, tld);
    var k := |h| - |tld| - 1;
    if k > 0 {
      PrefixParses(h[..k], t);
    }
  }

  /** The core is read label by label when it ends in the TLD and has something in front of it. */
  lemma CoreIsCut(h: string, tld: string)
    ensures var k := |h| - |tld| - 1;
            if k > 0 && EndsWith(Lower(h), "." + Lower(tld))
            then ParseCore(h, tld) == FromLabels(Split(h[..k], '.'))
            else ParseCore(h, tld).Err?
  {
  }

  lemma HostCut(h: string, prefix: string, low: string)
    ensures Lower(h) == prefix + "." + low
            <==> EndsWith(Lower(h), "." + low) && Lower(h[..|h| - |low| - 1]) == prefix
  {
    var dot := "." + low;
    assert prefix + "." + low == prefix + dot;
    if EndsWith(Lower(h), dot) {
      var k := |h| - |dot|;
      assert Lower(h)[..k] == Lower(h[..k]);
      assert Lower(h) == Lower(h)[..k] + dot;
    }
  }

  lemma AcceptedLabelsRender(parts: seq<string>) returns (t: Target)
    requires FromLabels(parts).Ok?
    ensures FromLabels(parts) == Ok(Rendered(t))
  {
    if |parts| == 1 {
      t := LatestOf(LabelToStoreBytes(parts[0]).value);
    } else {
      t := PinnedTo(LabelToStoreBytes(parts[1]).value, LabelToStoreBytes(parts[0]).value);
    }
  }

  lemma AcceptedCore(h: string, tld: string) returns (t: Target)
    requires ParseCore(h, tld).Ok?
    ensures ParseCore(h, tld) == Ok(Rendered(t))
  {
    t := AcceptedLabelsRender(Split(h[..|h| - |"." + Lower(tld)|], '.'));
  }

  /** Every accepted host is such a printing. */
  lemma AcceptedIsPrinted(host: string, tld: string) returns (t: Target)
    requires ParseDigHost(host, tld).Ok?
    ensures ParseDigHost(host, tld) == Ok(Rendered(t))
    ensures Lower(Core(host)) == HostOf(t, Lower(tld))
  {
    t := AcceptedCore(Core(host), tld);
    ParsesExactlyPrinted(host, tld, t);
  }

  // -- the tolerated forms ---------------------------------------------------------------------

  predicate IsSafeTldChar(c: char) {
    'a' <= c <= 'z' || '0' <= c <= '9' || c == '-'
  }

  predicate IsSafeTld(tld: string) {
    tld != "" && forall i :: 0 <= i < |tld| ==> IsSafeTldChar(tld[i])
  }

  /** A printed host in any letter case, on a safe TLD. */
  predicate IsPrinting(x: string, t: Target, tld: string) {
    IsSafeTld(tld) && Lower(x) == HostOf(t, tld)
  }

  lemma SafeTldIsLower(tld: string)
    requires IsSafeTld(tld)
    ensures Lower(tld) == tld
  {
    forall i | 0 <= i < |tld| ensures Lower(tld)[i] == tld[i] {
      assert IsSafeTldChar(tld[i]);
    }
  }

  lemma PrintingChars(x: string, t: Target, tld: string)
    requires IsPrinting(x, t, tld)
    ensures x != "" && ':' !in x && IsSolid(x[0]) && IsSolid(x[|x| - 1]) && x[|x| - 1] != '.'
  {
    var prefix := Join(Labels(t), '.');
    var n := |prefix|;
    PrefixChars(t);
    assert HostOf(t, tld) == prefix + ("." + tld);
    forall i | 0 <= i < |x| ensures x[i] != ':' && IsSolid(x[i]) {
      assert Lower(x)[i] == HostOf(t, tld)[i];
      if i > n {
        assert HostOf(t, tld)[i] == tld[i - n - 1];
        assert IsSafeTldChar(tld[i - n - 1]);
      }
    }
    var last := |x| - 1;
    assert Lower(x)[last] == HostOf(t, tld)[last] == tld[|tld| - 1];
    assert IsSafeTldChar(tld[|tld| - 1]);
  }

  lemma PrefixChars(t: Target)
    ensures Join(Labels(t), '.') != ""
    ensures forall i :: 0 <= i < |Join(Labels(t), '.')| ==>
              IsLabelChar(Join(Labels(t), '.')[i]) || Join(Labels(t), '.')[i] == '.'
  {
    LabelRoundTrip(t.store);
    if t.PinnedTo? {
      LabelRoundTrip(t.root);
      assert Labels(t)[1..] == [StoreBytesToLabel(t.store)];
    }
  }

  /** Whatever follows the first colon, and a dot at the end, is dropped. */
  lemma CoreOfPrinting(x: string, t: Target, tld: string, port: string)
    requires IsPrinting(x, t, tld)
    ensures Core(x) == x && Core(x + ".") == x && Core(x + ":" + port) == x
  {
    PrintingChars(x, t, tld);
    CoreOfPlain(x);
    CoreWithPort(x, port);
  }

  lemma CoreOfPlain(x: string)
    requires x != "" && ':' !in x && IsSolid(x[0]) && IsSolid(x[|x| - 1]) && x[|x| - 1] != '.'
    ensures Core(x) == x && Core(x + ".") == x
  {
    SolidEndsAreTrimmed(x);
    SolidEndsAreTrimmed(x + ".");
    TrimOfTrimmed(x);
    TrimOfTrimmed(x + ".");
    assert StripDot(x + ".") == x;
    BeforeOf(x, ':', "");
    assert x + "" == x;
  }

  lemma CoreWithPort(x: string, port: string)
    requires x != "" && ':' !in x && IsSolid(x[0])
    ensures Core(x + ":" + port) == x
  {
    var s := x + ":";
    TrimEndKeeps(s, port);
    var h := TrimEnd(s + port);
    SolidStart(s + port);
    assert TrimStart(s + port) == s + port;
    assert StripDot(h)[..|s|] == s;
    var rest := StripDot(h)[|x|..];
    assert StripDot(h) == x + rest && rest[0] == ':';
    BeforeOf(x, ':', rest);
  }

  /** A printed host, bare, dotted or with any port, is read back as the target it was printed from. */
  lemma PrintedHostParses(x: string, t: Target, tld: string, port: string)
    requires IsPrinting(x, t, tld)
    ensures ParseDigHost(x, tld) == Ok(Rendered(t))
    ensures ParseDigHost(x + ".", tld) == Ok(Rendered(t))
    ensures ParseDigHost(x + ":" + port, tld) == Ok(Rendered(t))
  {
    CoreOfPrinting(x, t, tld, port);
    SafeTldIsLower(tld);
    ParsesExactlyPrinted(x, tld, t);
    ParsesExactlyPrinted(x + ".", tld, t);
    ParsesExactlyPrinted(x + ":" + port, tld, t);
  }

  lemma DottedIsForeign(x: string, tld: string)
    requires IsSafeTld(tld)
    ensures Lower(x + ".") != tld && !EndsWith(Lower(x + "."), "." + tld)
  {
    var low, dot := Lower(x + "."), "." + tld;
    assert low[|low| - 1] == '.';
    assert IsSafeTldChar(tld[|tld| - 1]);
    LastOfSuffix(low, dot);
  }

  /** A trailing dot is only tolerated at the very end: in front of a port it is refused. */
  lemma DotBeforePortIsRefused(x: string, t: Target, tld: string, port: string)
    requires IsPrinting(x, t, tld)
    ensures ParseDigHost(x + "." + ":" + port, tld) == Err(NotDigTld(tld))
  {
    PrintingChars(x, t, tld);
    CoreWithPort(x + ".", port);
    SafeTldIsLower(tld);
    DottedIsForeign(x, tld);
  }

  /** And only one dot is: behind two of them the host is foreign. */
  lemma TwoDotsAreRefused(x: string, t: Target, tld: string)
    requires IsPrinting(x, t, tld)
    ensures ParseDigHost(x + "..", tld) == Err(NotDigTld(tld))
  {
    PrintingChars(x, t, tld);
    var h := x + "..";
    SolidEndsAreTrimmed(h);
    TrimOfTrimmed(h);
    assert StripDot(h) == x + ".";
    BeforeOf(x + ".", ':', "");
    assert (x + ".") + "" == x + ".";
    SafeTldIsLower(tld);
    DottedIsForeign(x, tld);
  }

  // -- the grammar, spelled out ----------------------------------------------------------------

  /** The labels of a host: the store's alone, or the root's in front of it. */
  lemma PrintedForms(store: StoreId, root: StoreId, tld: string)
    ensures HostOf(LatestOf(store), tld) == StoreBytesToLabel(store) + "." + tld
    ensures HostOf(PinnedTo(store, root), tld) == StoreBytesToLabel(root) + "." + StoreBytesToLabel(store) + "." + tld
    ensures Rendered(LatestOf(store)) == Latest(HexEncode(store))
    ensures Rendered(PinnedTo(store, root)) == Pinned(HexEncode(store), HexEncode(root))
  {
    var ls := Labels(PinnedTo(store, root));
    assert ls[1..] == [StoreBytesToLabel(store)];
  }

  /** Some label is no store label. */
  predicate HasBadLabel(pieces: seq<string>) {
    exists i :: 0 <= i < |pieces| && LabelToStoreBytes(pieces[i]).Err?
  }

  /** Each refusal of a core, by the labels in front of the TLD. */
  predicate IsRefusedFor(r: Result<HostTarget, HostError>, core: string, tld: string) {
    if !EndsWith(Lower(core), "." + Lower(tld)) then
      r == if Lower(core) == Lower(tld) then Err(NoStoreLabel) else Err(NotDigTld(tld))
    else ArePiecesRefusedFor(r, Split(core[..|core| - |tld| - 1], '.'))
  }

  predicate ArePiecesRefusedFor(r: Result<HostTarget, HostError>, pieces: seq<string>) {
    if "" in pieces then r == Err(NoStoreLabel)
    else if |pieces| > 2 then r == Err(TooManyLabels(|pieces|))
    else if HasBadLabel(pieces) then r.Err? && r.error.BadLabel?
    else r.Ok?
  }

  /**
   Why a host is refused: its core is not under the TLD; a label is missing in front of it; there are
   more than two; or one of them is no store label. Nothing else is refused.
   */
  lemma RefusalsAreExact(host: string, tld: string)
    ensures IsRefusedFor(ParseDigHost(host, tld), Core(host), tld)
  {
    CoreIsRefusedFor(Core(host), tld);
  }

  lemma CoreIsRefusedFor(core: string, tld: string)
    ensures IsRefusedFor(ParseCore(core, tld), core, tld)
  {
    if EndsWith(Lower(core), "." + Lower(tld)) {
      UnderIsPieces(core, tld);
      PiecesAreRefusedFor(Split(core[..|core| - |tld| - 1], '.'));
    } else {
      NotUnder(core, tld);
    }
  }

  lemma NotUnder(core: string, tld: string)
    requires !EndsWith(Lower(core), "." + Lower(tld))
    ensures ParseCore(core, tld) == if Lower(core) == Lower(tld) then Err(NoStoreLabel) else Err(NotDigTld(tld))
  {
  }

  lemma UnderIsPieces(core: string, tld: string)
    requires EndsWith(Lower(core), "." + Lower(tld))
    ensures Lower(core) != Lower(tld)
    ensures ParseCore(core, tld) == FromLabels(Split(core[..|core| - |tld| - 1], '.'))
  {
    var front := core[..|core| - |tld| - 1];
    if front == "" {
      assert Split(front, '.') == [""];
    }
  }

  lemma PiecesAreRefusedFor(pieces: seq<string>)
    requires pieces != []
    ensures ArePiecesRefusedFor(FromLabels(pieces), pieces)
  {
  }
}
