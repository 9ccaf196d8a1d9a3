/**
 The HTTP gateway: classifying a request, resolving the trusted root, fetching, verifying and
 decrypting a resource, the index fallback, and byte ranges.
 */
module Gateway {
  import opened Prelude
  import opened Text
  import opened Host
  import opened Node
  import opened ByteRange
  import Content
  import Tld
  import Label

  /** A header by what it says; the media type of a resource is inferred from its key. */
  datatype Header =
    | PlainText
    | ContentType(key: string)
    | PacType
    | JsonType
    | AcceptRanges
    | CacheControl(immutable: bool)
    | ContentRange(start: nat, end: nat, total: nat)
    | UnsatisfiedRange(total: nat)

  /** The fixed messages of the error responses. */
  datatype Notice =
    | InvalidRequestPath
    | NotFoundHere
    | UnreachableRoot
    | UnreachableNode
    | FailedVerification
    | NoConnect
    | NotAProxy
    | NoSuchHost
    | NoSuchEndpoint
    | NotAllowed

  /** Octets, a fixed message, or the health document, by what it says of the node. */
  datatype Body = Payload(bytes: seq<byte>) | Message(notice: Notice) | HealthReport(reachable: bool)

  datatype Response = Response(status: nat, headers: seq<Header>, body: Body)

  function TextResponse(status: nat, notice: Notice): Response {
    Response(status, [PlainText], Message(notice))
  }

  // -- bodies ----------------------------------------------------------------------------------

  function BaseHeaders(key: string, pinned: bool): seq<Header> {
    [ContentType(key), AcceptRanges, CacheControl(pinned)]
  }

  function OkBodyResponse(key: string, bytes: seq<byte>, range: Option<string>, pinned: bool): Response {
    var headers, total := BaseHeaders(key, pinned), |bytes|;
    match range
    case None => Response(200, headers, Payload(bytes))
    case Some(header) =>
      RangeIsInBounds(header, total);
      RangedResponse(ParseRange(header, total), bytes, headers)
  }

  function RangedResponse(spec: RangeSpec, bytes: seq<byte>, headers: seq<Header>): Response
    requires spec.Satisfiable? ==> spec.start <= spec.end < |bytes|
  {
    match spec
    case Satisfiable(start, end) =>
      Response(206, headers + [ContentRange(start, end, |bytes|)], Payload(bytes[start..end + 1]))
    case Unsatisfiable =>
      Response(416, headers + [UnsatisfiedRange(|bytes|)], Payload([]))
    case Whole => Response(200, headers, Payload(bytes))
  }

  // -- what a body answers to a range ----------------------------------------------------------

  /** The header asks for a range, by the standard's reading and in 64-bit numbers. */
  ghost predicate AsksFor(range: Option<string>, spec: Spec) {
    range.Some? && HeaderSpells(range.value, spec) && FitsU64(spec)
  }

  /** The positions from `start` to `end` are those the specifier selects. */
  ghost predicate SelectsFrom(spec: Spec, total: nat, start: nat, end: nat) {
    start <= end < total && forall i: nat :: start <= i <= end <==> Selects(spec, total, i)
  }

  /**
   The answer that a plaintext deserves. Without a range it is the plaintext; with one, the selected
   positions, or 416 when there is none. The headers name the resource's type, and a response is
   immutable exactly when the host pins its root.
   */
  ghost predicate AnswersWith(r: Response, key: string, bytes: seq<byte>, range: Option<string>, pinned: bool) {
    var headers := [ContentType(key), AcceptRanges, CacheControl(pinned)];
    && ((forall spec :: !AsksFor(range, spec)) ==> r == Response(200, headers, Payload(bytes)))
    && forall spec :: AsksFor(range, spec) ==> SpecIsAnswered(r, key, bytes, pinned, spec)
  }

  lemma BodyAnswers(key: string, bytes: seq<byte>, range: Option<string>, pinned: bool)
    ensures AnswersWith(OkBodyResponse(key, bytes, range, pinned), key, bytes, range, pinned)
  {
    var r, total := OkBodyResponse(key, bytes, range, pinned), |bytes|;
    if range.Some? {
      ReadsExactlySpelled(range.value, total);
      RangeIsInBounds(range.value, total);
      if ParseRange(range.value, total) != Whole {
        var spec :| HeaderSpells(range.value, spec) && FitsU64(spec);
        assert AsksFor(range, spec);
      }
      forall spec | AsksFor(range, spec)
        ensures SpecIsAnswered(r, key, bytes, pinned, spec)
      {
        DeliveredIsAnswered(key, bytes, pinned, spec, ParseRange(range.value, total));
      }
    }
  }

  ghost predicate SpecIsAnswered(r: Response, key: string, bytes: seq<byte>, pinned: bool, spec: Spec) {
    var headers, total := [ContentType(key), AcceptRanges, CacheControl(pinned)], |bytes|;
    && (forall start: nat, end: nat :: SelectsFrom(spec, total, start, end) ==>
          r == Response(206, headers + [ContentRange(start, end, total)], Payload(bytes[start..end + 1])))
    && ((forall i: nat :: !Selects(spec, total, i)) ==>
          r == Response(416, headers + [UnsatisfiedRange(total)], Payload([])))
    && (|| (exists start: nat, end: nat :: SelectsFrom(spec, total, start, end))
        || forall i: nat :: !Selects(spec, total, i))
  }

  lemma DeliveredIsAnswered(key: string, bytes: seq<byte>, pinned: bool, spec: Spec, r: RangeSpec)
    requires Delivers(spec, |bytes|, r)
    ensures SpecIsAnswered(RangedResponse(r, bytes, BaseHeaders(key, pinned)), key, bytes, pinned, spec)
  {
    match r
    case Satisfiable(start, end) =>
      assert SelectsFrom(spec, |bytes|, start, end);
      assert Selects(spec, |bytes|, start);
      forall a: nat, b: nat | SelectsFrom(spec, |bytes|, a, b) ensures a == start && b == end {
        SameSelection(spec, |bytes|, a, b, start, end);
      }
    case Unsatisfiable =>
      forall a: nat, b: nat ensures !SelectsFrom(spec, |bytes|, a, b) {
        FirstIsSelected(spec, |bytes|, a, b);
      }
  }

  lemma FirstIsSelected(spec: Spec, total: nat, a: nat, b: nat)
    ensures SelectsFrom(spec, total, a, b) ==> Selects(spec, total, a)
  {
  }

  lemma SameSelection(spec: Spec, total: nat, a: nat, b: nat, start: nat, end: nat)
    requires SelectsFrom(spec, total, a, b) && SelectsFrom(spec, total, start, end)
    ensures a == start && b == end
  {
    assert Selects(spec, total, a) && Selects(spec, total, b);
    assert Selects(spec, total, start) && Selects(spec, total, end);
  }

  /** Increasing cut positions from the start of a resource to its end. */
  predicate IsPartition(cuts: seq<nat>, total: nat) {
    && |cuts| >= 2 && cuts[0] == 0 && cuts[|cuts| - 1] == total
    && forall i, j :: 0 <= i < j < |cuts| ==> cuts[i] < cuts[j]
  }

  function PieceHeader(cuts: seq<nat>, i: nat): string
    requires i + 1 < |cuts| && cuts[i] < cuts[i + 1]
  {
    PrintHeader(From(cuts[i], Some(cuts[i + 1] - 1)))
  }

  lemma PieceResponse(key: string, bytes: seq<byte>, cuts: seq<nat>, pinned: bool, i: nat)
    requires |bytes| <= U64_MAX && IsPartition(cuts, |bytes|) && i + 1 < |cuts|
    ensures cuts[i] < cuts[i + 1] <= |bytes|
    ensures var r := OkBodyResponse(key, bytes, Some(PieceHeader(cuts, i)), pinned);
            && r.status == 206
            && r.body == Payload(bytes[cuts[i]..cuts[i + 1]])
            && ContentRange(cuts[i], cuts[i + 1] - 1, |bytes|) in r.headers
  {
    PieceIsRead(cuts, i, |bytes|);
    RangeResponse(key, bytes, PieceHeader(cuts, i), pinned);
  }

  lemma PieceIsRead(cuts: seq<nat>, i: nat, total: nat)
    requires total <= U64_MAX && IsPartition(cuts, total) && i + 1 < |cuts|
    ensures cuts[i] < cuts[i + 1] <= total
    ensures ParseRange(PieceHeader(cuts, i), total) == Satisfiable(cuts[i], cuts[i + 1] - 1)
  {
    CutsAreInside(cuts, i, total);
    var first, last := cuts[i], cuts[i + 1] - 1;
    InnerIsRead(first, last, total);
    assert PieceHeader(cuts, i) == PrintHeader(From(first, Some(last)));
  }

  lemma CutsAreInside(cuts: seq<nat>, i: nat, total: nat)
    requires IsPartition(cuts, total) && i + 1 < |cuts|
    ensures cuts[i] < cuts[i + 1] <= total
  {
    assert i + 2 < |cuts| ==> cuts[i + 1] < cuts[|cuts| - 1];
  }

  lemma InnerIsRead(first: nat, last: nat, total: nat)
    requires first <= last < total <= U64_MAX
    ensures ParseRange(PrintHeader(From(first, Some(last))), total) == Satisfiable(first, last)
  {
    PrintedIsEvaluated(From(first, Some(last)), total);
  }

  lemma RangeResponse(key: string, bytes: seq<byte>, header: string, pinned: bool)
    ensures var spec := ParseRange(header, |bytes|);
            spec.Satisfiable? ==>
              && spec.start <= spec.end < |bytes|
              && var r := OkBodyResponse(key, bytes, Some(header), pinned);
              && r.status == 206
              && r.body == Payload(bytes[spec.start..spec.end + 1])
              && ContentRange(spec.start, spec.end, |bytes|) in r.headers
  {
    RangeIsInBounds(header, |bytes|);
    SliceResponse(ParseRange(header, |bytes|), bytes, BaseHeaders(key, pinned));
  }

  lemma SliceResponse(spec: RangeSpec, bytes: seq<byte>, headers: seq<Header>)
    requires spec.Satisfiable? ==> spec.start <= spec.end < |bytes|
    ensures var r := RangedResponse(spec, bytes, headers);
            spec.Satisfiable? ==>
              && r.status == 206
              && r.body == Payload(bytes[spec.start..spec.end + 1])
              && ContentRange(spec.start, spec.end, |bytes|) in r.headers
  {
    var r := RangedResponse(spec, bytes, headers);
    if spec.Satisfiable? {
      assert r.headers[|headers|] in r.headers;
    }
  }

  predicate IsSlice(bytes: seq<byte>, cuts: seq<nat>, bodies: seq<seq<byte>>, k: nat)
    requires k < |bodies| && |bodies| < |cuts|
  {
    cuts[k] <= cuts[k + 1] <= |bytes| && bodies[k] == bytes[cuts[k]..cuts[k + 1]]
  }

  /** Consecutive slices between cut positions join to everything from the first of them on. */
  lemma {:induction false} SlicesJoin(bytes: seq<byte>, cuts: seq<nat>, bodies: seq<seq<byte>>, i: nat)
    requires IsPartition(cuts, |bytes|) && |bodies| == |cuts| - 1 && i < |cuts|
    requires forall k :: 0 <= k < |bodies| ==> IsSlice(bytes, cuts, bodies, k)
    ensures cuts[i] <= |bytes| && Content.Concat(bodies[i..]) == bytes[cuts[i]..]
    decreases |cuts| - i
  {
    if i < |bodies| {
      assert IsSlice(bytes, cuts, bodies, i);
      SlicesJoin(bytes, cuts, bodies, i + 1);
      assert bodies[i..][1..] == bodies[i + 1..];
      assert bytes[cuts[i]..cuts[i + 1]] + bytes[cuts[i + 1]..] == bytes[cuts[i]..];
    } else {
      assert bodies[i..] == [] && bytes[cuts[i]..] == [];
    }
  }

  function Bodies(rs: seq<Response>): (bs: seq<seq<byte>>)
    requires forall i :: 0 <= i < |rs| ==> rs[i].body.Payload?
    ensures |bs| == |rs| && forall i :: 0 <= i < |rs| ==> bs[i] == rs[i].body.bytes
  {
    seq(|rs|, i requires 0 <= i < |rs| => rs[i].body.bytes)
  }

  /** Fetching every piece of a partition by its printed range and joining the bodies gives the resource. */
  lemma PiecesReassemble(key: string, bytes: seq<byte>, cuts: seq<nat>, pinned: bool, rs: seq<Response>)
    requires |bytes| <= U64_MAX && IsPartition(cuts, |bytes|) && |rs| == |cuts| - 1
    requires forall i :: 0 <= i < |rs| ==> rs[i] == OkBodyResponse(key, bytes, Some(PieceHeader(cuts, i)), pinned)
    ensures forall i :: 0 <= i < |rs| ==> rs[i].status == 206 && rs[i].body.Payload?
    ensures Content.Concat(Bodies(rs)) == bytes
  {
    forall i | 0 <= i < |rs| ensures rs[i].status == 206 && rs[i].body.Payload? {
      PieceResponse(key, bytes, cuts, pinned, i);
    }
    forall i | 0 <= i < |rs| ensures IsSlice(bytes, cuts, Bodies(rs), i) {
      PieceResponse(key, bytes, cuts, pinned, i);
    }
    SlicesJoin(bytes, cuts, Bodies(rs), 0);
    assert Bodies(rs)[0..] == Bodies(rs) && bytes[0..] == bytes;
  }

  // -- fetching one resource -------------------------------------------------------------------

  datatype Fate = Found(bytes: seq<byte>) | NotFound | NodeUnreachable | IntegrityFail

  /** One attempt at a resource: what came of it and all node calls so far. */
  datatype Attempt = Attempt(fate: Fate, history: seq<Call>)

  function ClaimOf(store: string, key: string, root: string, f: FetchedContent): Content.Claim {
    Content.Claim(store, key, f.ciphertext, f.inclusionProof, root, f.chunkLens)
  }

  function FateOf(c: Content.Crypto, store: string, key: string, root: string, fetched: Result<FetchedContent,
                  NodeError>): Fate {
    match fetched
    case Err(e) => if e.IsNotFound() then NotFound else NodeUnreachable
    case Ok(f) =>
      match Content.Decrypted(c, ClaimOf(store, key, root, f))
      case Ok(plaintext) => Found(plaintext)
      case Err(e) => if e == Content.Decrypt then NotFound else IntegrityFail
  }

  function Attempted(c: Content.Crypto, node: Responder, history: seq<Call>, store: string, key: string,
                     root: string): Attempt {
    match Content.RetrievalKeyHex(c, store, key)
    case Err(_) => Attempt(IntegrityFail, history)
    case Ok(rk) =>
      var f := Fetched(node, history, Request(store, rk, Some(root)));
      Attempt(FateOf(c, store, key, root, f.result), f.history)
  }

  method FetchAndDecrypt(client: NodeClient, c: Content.Crypto, store: string, key: string, root: string)
    returns (fate: Fate)
    modifies client`history
    ensures Attempt(fate, client.history) == Attempted(c, client.node, old(client.history), store, key, root)
  {
    var rk := Content.RetrievalKeyHex(c, store, key);
    if rk.Err? {
      return IntegrityFail;
    }
    var fetched := client.GetContent(Request(store, rk.value, Some(root)));
    if fetched.Err? {
      return if fetched.error.IsNotFound() then NotFound else NodeUnreachable;
    }
    var plaintext := Content.VerifyAndDecrypt(c, ClaimOf(store, key, root, fetched.value));
    match plaintext {
      case Ok(bytes) => return Found(bytes);
      case Err(e) => return if e == Content.Decrypt then NotFound else IntegrityFail;
    }
  }

  // -- serving a store -------------------------------------------------------------------------

  /** A served request: the response and all node calls so far. */
  datatype Run = Run(response: Response, history: seq<Call>)

  function FateResponse(key: string, fate: Fate, range: Option<string>, pinned: bool): Response {
    match fate
    case Found(bytes) => OkBodyResponse(key, bytes, range, pinned)
    case NotFound => TextResponse(404, NotFoundHere)
    case NodeUnreachable => TextResponse(502, UnreachableNode)
    case IntegrityFail => TextResponse(502, FailedVerification)
  }

  /** The index fallback after a miss. */
  function SpaOr404(c: Content.Crypto, node: Responder, history: seq<Call>, store: string, root: string,
                    path: string, pinned: bool): Run {
    if !Content.IsExtensionless(path) then Run(TextResponse(404, NotFoundHere), history)
    else
      var a := Attempted(c, node, history, store, "index.html", root);
      Run(FateResponse("index.html", a.fate, None, pinned), a.history)
  }

  function ServeAt(c: Content.Crypto, node: Responder, history: seq<Call>, store: string, root: string,
                   key: string, path: string, range: Option<string>, pinned: bool): Run {
    var a := Attempted(c, node, history, store, key, root);
    if a.fate == NotFound then SpaOr404(c, node, a.history, store, root, path, pinned)
    else Run(FateResponse(key, a.fate, range, pinned), a.history)
  }

  /** Resolving the trusted root, then serving under it. */
  function ServeTarget(c: Content.Crypto, node: Responder, history: seq<Call>, target: HostTarget, key: string,
                       path: string, range: Option<string>): Run {
    match target
    case Pinned(store, root) => ServeAt(c, node, history, store, root, key, path, range, true)
    case Latest(store) =>
      var asked := history + [AnchoredRoot(store)];
      var answer := RootOf(Outcome(node(asked)));
      match answer
      case Ok(root) => ServeAt(c, node, asked, store, root, key, path, range, false)
      case Err(e) =>
        Run(if e.IsNotFound() then TextResponse(404, NotFoundHere) else TextResponse(502, UnreachableRoot), asked)
  }

  function ServeStore(c: Content.Crypto, node: Responder, history: seq<Call>, target: HostTarget, path: string,
                      range: Option<string>): Run {
    match Content.ResourceKeyForPath(path)
    case Err(_) => Run(TextResponse(400, InvalidRequestPath), history)
    case Ok(key) => ServeTarget(c, node, history, target, key, path, range)
  }

  method ServeFromStore(client: NodeClient, c: Content.Crypto, target: HostTarget, path: string, range: Option<string>)
    returns (response: Response)
    modifies client`history
    ensures var run := ServeStore(c, client.node, old(client.history), target, path, range);
            response == run.response && client.history == run.history
  {
    var key := Content.ResourceKeyForPath(path);
    if key.Err? {
      return TextResponse(400, InvalidRequestPath);
    }
    var store, root, pinned := target.storeHex, "", true;
    if target.Latest? {
      var answer := client.GetAnchoredRoot(store);
      if answer.Err? {
        return if answer.error.IsNotFound() then TextResponse(404, NotFoundHere)
               else TextResponse(502, UnreachableRoot);
      }
      root, pinned := answer.value, false;
    } else {
      root := target.rootHex;
    }
    var fate := FetchAndDecrypt(client, c, store, key.value, root);
    if fate == NotFound {
      response := SpaOrNotFound(client, c, store, root, path, pinned);
    } else {
      response := FateResponse(key.value, fate, range, pinned);
    }
  }

  method SpaOrNotFound(client: NodeClient, c: Content.Crypto, store: string, root: string, path: string, pinned: bool)
    returns (response: Response)
    modifies client`history
    ensures var run := SpaOr404(c, client.node, old(client.history), store, root, path, pinned);
            response == run.response && client.history == run.history
  {
    if !Content.IsExtensionless(path) {
      return TextResponse(404, NotFoundHere);
    }
    var fate := FetchAndDecrypt(client, c, store, "index.html", root);
    response := FateResponse("index.html", fate, None, pinned);
  }

  // -- what every served request satisfies -----------------------------------------------------

  /** The call a request makes before any content: for the anchored root, when the host pins none. */
  function RootCalls(target: HostTarget): seq<Call> {
    if target.Latest? then [AnchoredRoot(target.storeHex)] else []
  }

  /** The root a request trusts: the pinned one, or the anchored root the node answered. */
  function TrustedRoot(node: Responder, history: seq<Call>, target: HostTarget): Result<string, NodeError> {
    match target
    case Pinned(_, root) => Ok(root)
    case Latest(store) => RootOf(Outcome(node(history + [AnchoredRoot(store)])))
  }

  /** How a request went past the trusted root: two fetches at most, the second for the index. */
  datatype Trace = Trace(root: string, first: seq<Call>, firstFate: Fate, second: seq<Call>, secondFate: Fate)

  /** The node says that it does not have the resource, by a number or by a symbol. */
  predicate IsMiss(e: NodeError) {
    && e.Rpc?
    && (|| e.code == -32004 || e.code == -32005
        || e.dataCode == Some("RESOURCE_UNAVAILABLE") || e.dataCode == Some("ROOT_NOT_ANCHORED"))
  }

  /**
   What a fetch under a root comes to, by its own result. A failed fetch is a miss or an unreachable
   node. Content that is not committed under the root, or not cut by its lengths, is an integrity
   failure; sound content is a miss when some piece does not open, and else the opened pieces.
   */
  ghost predicate FateMeans(c: Content.Crypto, id: seq<byte>, key: string, root: string,
                            result: Result<FetchedContent, NodeError>, fate: Fate) {
    match result
    case Err(e) => fate == if IsMiss(e) then NotFound else NodeUnreachable
    case Ok(f) =>
      if !Content.IsSound(c, f.ciphertext, f.inclusionProof, root, f.chunkLens) then fate == IntegrityFail
      else
        forall pieces :: Content.IsCut(f.ciphertext, f.chunkLens, pieces) ==>
          if Content.SomeCloses(c, c.deriveKey(id, key), pieces) then fate == NotFound
          else exists plains :: Content.OpensTo(c, c.deriveKey(id, key), pieces, plains)
                                && fate == Found(Content.Concat(plains))
  }

  lemma FateIs(c: Content.Crypto, store: string, id: seq<byte>, key: string, root: string,
               result: Result<FetchedContent, NodeError>)
    requires Content.FromHex(store) == Some(id) && key != ""
    ensures FateMeans(c, id, key, root, result, FateOf(c, store, key, root, result))
  {
    match result
    case Err(e) =>
    case Ok(f) =>
      var claim := ClaimOf(store, key, root, f);
      Content.VerdictIs(c, claim, id);
      forall pieces | Content.IsCut(f.ciphertext, f.chunkLens, pieces) && Content.Decrypted(c, claim).Ok?
        ensures !Content.SomeCloses(c, c.deriveKey(id, key), pieces)
      {
        var plains :| Content.OpensTo(c, c.deriveKey(id, key), pieces, plains);
      }
  }

  /**
   The calls, made after `before`, are those of one fetch of a resource under a root: one run of the
   paging loop from offset zero for the key derived from the store and the resource, and the fate is
   what that run's result means. A store id that is not one is not asked for.
   */
  ghost predicate IsFetch(c: Content.Crypto, node: Responder, before: seq<Call>, store: string, key: string,
                          root: string, calls: seq<Call>, fate: Fate) {
    match Content.FromHex(store)
    case None => calls == [] && fate == IntegrityFail
    case Some(id) =>
      var req := Request(store, c.retrievalKey(id, key), Some(root));
      var f := Fetched(node, before, req);
      && 1 <= |calls| <= 100_000 && Paging(calls, req, 0)
      && f.history == before + calls
      && FateMeans(c, id, key, root, f.result, fate)
  }

  /** The index is fetched exactly after a miss on a path without an extension, and nothing else is. */
  ghost predicate FetchesWell(c: Content.Crypto, node: Responder, before: seq<Call>, store: string, key: string,
                              path: string, t: Trace) {
    && IsFetch(c, node, before, store, key, t.root, t.first, t.firstFate)
    && (t.second != [] <==> t.firstFate == NotFound && Content.EndsDotless(path))
    && (t.second != [] ==> IsFetch(c, node, before + t.first, store, "index.html", t.root, t.second, t.secondFate))
  }

  /** A plaintext is delivered, a miss is 404, and a node that failed is 502. */
  ghost predicate IsAnswered(r: Response, key: string, fate: Fate, range: Option<string>, pinned: bool) {
    match fate
    case Found(bytes) => AnswersWith(r, key, bytes, range, pinned)
    case NotFound => r.status == 404 && r.body == Message(NotFoundHere)
    case NodeUnreachable => r.status == 502 && r.body == Message(UnreachableNode)
    case IntegrityFail => r.status == 502 && r.body == Message(FailedVerification)
  }

  /** The last fetch decides; the index is served whole. */
  ghost predicate TraceIsAnswered(r: Response, key: string, range: Option<string>, pinned: bool, t: Trace) {
    if t.second == [] then IsAnswered(r, key, t.firstFate, range, pinned)
    else IsAnswered(r, "index.html", t.secondFate, None, pinned)
  }

  lemma FateIsAnswered(key: string, fate: Fate, range: Option<string>, pinned: bool)
    ensures IsAnswered(FateResponse(key, fate, range, pinned), key, fate, range, pinned)
  {
    if fate.Found? {
      BodyAnswers(key, fate.bytes, range, pinned);
    }
  }

  lemma AttemptIsFetch(c: Content.Crypto, node: Responder, history: seq<Call>, store: string, key: string,
                       root: string)
    returns (calls: seq<Call>)
    requires key != ""
    ensures var a := Attempted(c, node, history, store, key, root);
            a.history == history + calls && IsFetch(c, node, history, store, key, root, calls, a.fate)
  {
    calls := [];
    var id := Content.FromHex(store);
    if id.Some? {
      var req := Request(store, c.retrievalKey(id.value, key), Some(root));
      FetchIsBounded(node, history, req);
      FetchAsks(node, history, req);
      calls := Fetched(node, history, req).history[|history|..];
      FateIs(c, store, id.value, key, root, Fetched(node, history, req).result);
    }
  }

  lemma ServeAtTrace(c: Content.Crypto, node: Responder, history: seq<Call>, store: string, root: string,
                     key: string, path: string, range: Option<string>, pinned: bool)
    returns (t: Trace)
    requires key != ""
    ensures t.root == root && FetchesWell(c, node, history, store, key, path, t)
    ensures var r := ServeAt(c, node, history, store, root, key, path, range, pinned);
            r.history == history + t.first + t.second && TraceIsAnswered(r.response, key, range, pinned, t)
  {
    var a := Attempted(c, node, history, store, key, root);
    var first := AttemptIsFetch(c, node, history, store, key, root);
    Content.ExtensionlessMeans(path);
    t := Trace(root, first, a.fate, [], NotFound);
    if a.fate == NotFound && Content.IsExtensionless(path) {
      var b := Attempted(c, node, a.history, store, "index.html", root);
      var second := AttemptIsFetch(c, node, a.history, store, "index.html", root);
      t := Trace(root, first, a.fate, second, b.fate);
      FateIsAnswered("index.html", b.fate, None, pinned);
    } else {
      FateIsAnswered(key, a.fate, range, pinned);
      assert history + first + [] == history + first;
    }
  }

  /** What a request does with a path that names a resource key. */
  ghost predicate ServesWell(c: Content.Crypto, node: Responder, history: seq<Call>, target: HostTarget, key: string,
                             path: string, range: Option<string>, run: Run, t: Trace) {
    var head := RootCalls(target);
    match TrustedRoot(node, history, target)
    case Err(e) => run.history == history + head && run.response.status == if IsMiss(e) then 404 else 502
    case Ok(root) =>
      && t.root == root
      && run.history == history + head + t.first + t.second
      && FetchesWell(c, node, history + head, target.storeHex, key, path, t)
      && TraceIsAnswered(run.response, key, range, target.Pinned?, t)
  }

  /**
   A request in full. A path that names no resource key is refused without any call. Otherwise the
   calls are: for a latest host one call for its root; under the root this trusts, one fetch of the
   key the path names; and one fetch of the index, exactly after a miss on a path without an
   extension. The last fetch decides the answer: a plaintext is delivered, whole or by its range, a
   miss is 404, and an unreachable or inconsistent node is 502.
   */
  lemma RequestDiscipline(c: Content.Crypto, node: Responder, history: seq<Call>, target: HostTarget, path: string,
                          range: Option<string>)
    returns (t: Trace)
    ensures var run := ServeStore(c, node, history, target, path, range);
            && ((forall key :: !Content.Addresses(path, key)) ==> run.response.status == 400 && run.history == history)
            && forall key :: Content.Addresses(path, key) ==>
                 ServesWell(c, node, history, target, key, path, range, run, t)
  {
    t := Trace("", [], NotFound, [], NotFound);
    Content.PathNamesKey(path, "");
    var run := ServeStore(c, node, history, target, path, range);
    if Content.ResourceKeyForPath(path).Ok? {
      var key := Content.ResourceKeyForPath(path).value;
      Content.PathNamesKey(path, key);
      t := ServeTrace(c, node, history, target, key, path, range);
      forall k | Content.Addresses(path, k) ensures ServesWell(c, node, history, target, k, path, range, run, t) {
        Content.PathNamesKey(path, k);
      }
    }
  }

  lemma ServeTrace(c: Content.Crypto, node: Responder, history: seq<Call>, target: HostTarget, key: string,
                   path: string, range: Option<string>)
    returns (t: Trace)
    requires key != ""
    ensures ServesWell(c, node, history, target, key, path, range,
                       ServeTarget(c, node, history, target, key, path, range), t)
  {
    t := Trace("", [], NotFound, [], NotFound);
    var root := TrustedRoot(node, history, target);
    if root.Ok? {
      assert history + [] == history;
      t := ServeAtTrace(c, node, history + RootCalls(target), target.storeHex, root.value, key, path, range,
                        target.Pinned?);
    }
  }

  /** What stands behind a body: a fetch from the node, and a plaintext accepted under the root. */
  datatype Evidence = Evidence(key: string, history: seq<Call>, fetched: FetchedContent, plaintext: seq<byte>)

  /** The fetch is the one that brought the node calls from `e.history` to `final`. */
  predicate Backs(c: Content.Crypto, node: Responder, store: string, root: string, e: Evidence, final: seq<Call>) {
    var rk := Content.RetrievalKeyHex(c, store, e.key);
    && rk.Ok?
    && var f := Fetched(node, e.history, Request(store, rk.value, Some(root)));
    && f.result == Ok(e.fetched) && f.history == final
    && Content.Decrypted(c, ClaimOf(store, e.key, root, e.fetched)) == Result.Ok(e.plaintext)
    && Content.Committed(c, e.fetched.ciphertext, e.fetched.inclusionProof, root)
  }

  /** The body is the plaintext, or the slice of it that the range header asks for. */
  predicate Carries(r: Response, plaintext: seq<byte>, range: Option<string>) {
    match r.status
    case 200 => r.body == Payload(plaintext)
    case 206 =>
      && range.Some?
      && var spec := ParseRange(range.value, |plaintext|);
      && spec.Satisfiable?
      && spec.start <= spec.end < |plaintext|
      && r.body == Payload(plaintext[spec.start..spec.end + 1])
      && ContentRange(spec.start, spec.end, |plaintext|) in r.headers
    case _ => false
  }

  lemma AttemptEvidence(c: Content.Crypto, node: Responder, history: seq<Call>, store: string, key: string,
                        root: string)
    returns (e: Evidence)
    requires Attempted(c, node, history, store, key, root).fate.Found?
    ensures e.key == key && e.plaintext == Attempted(c, node, history, store, key, root).fate.bytes
    ensures e.history == history
    ensures Backs(c, node, store, root, e, Attempted(c, node, history, store, key, root).history)
  {
    var rk := Content.RetrievalKeyHex(c, store, key).value;
    var f := Fetched(node, history, Request(store, rk, Some(root))).result.value;
    e := Evidence(key, history, f, Attempted(c, node, history, store, key, root).fate.bytes);
    var _ := Content.AcceptedMeans(c, ClaimOf(store, key, root, f));
  }

  lemma OkBodyCarries(key: string, bytes: seq<byte>, range: Option<string>, pinned: bool)
    ensures var r := OkBodyResponse(key, bytes, range, pinned); r.status in {200, 206} ==> Carries(r, bytes, range)
  {
    if range.Some? {
      RangeResponse(key, bytes, range.value, pinned);
    }
  }

  lemma IndexEvidence(c: Content.Crypto, node: Responder, history: seq<Call>, store: string, root: string,
                      path: string, pinned: bool)
    returns (e: Evidence)
    requires SpaOr404(c, node, history, store, root, path, pinned).response.status in {200, 206}
    ensures e.history == history && e.key == "index.html"
    ensures Backs(c, node, store, root, e, SpaOr404(c, node, history, store, root, path, pinned).history)
    ensures Carries(SpaOr404(c, node, history, store, root, path, pinned).response, e.plaintext, None)
  {
    var b := Attempted(c, node, history, store, "index.html", root);
    assert b.fate.Found?;
    e := AttemptEvidence(c, node, history, store, "index.html", root);
    OkBodyCarries("index.html", b.fate.bytes, None, pinned);
  }

  lemma ServeAtEvidence(c: Content.Crypto, node: Responder, history: seq<Call>, store: string, root: string,
                        key: string, path: string, range: Option<string>, pinned: bool)
    returns (e: Evidence, used: Option<string>)
    requires key != "" && ServeAt(c, node, history, store, root, key, path, range, pinned).response.status in {200, 206}
    ensures history <= e.history
    ensures Backs(c, node, store, root, e, ServeAt(c, node, history, store, root, key, path, range, pinned).history)
    ensures Carries(ServeAt(c, node, history, store, root, key, path, range, pinned).response, e.plaintext, used)
    ensures (e.key == key && used == range) || (e.key == "index.html" && used == None)
  {
    var a := Attempted(c, node, history, store, key, root);
    if a.fate.Found? {
      e := AttemptEvidence(c, node, history, store, key, root);
      used := range;
      OkBodyCarries(key, a.fate.bytes, range, pinned);
    } else {
      var _ := AttemptIsFetch(c, node, history, store, key, root);
      e := IndexEvidence(c, node, a.history, store, root, path, pinned);
      used := None;
    }
  }

  /**
   Whatever the node does, a 200 or 206 carries all of, or the requested slice of, a plaintext that
   the last fetch of this very request brought and that was accepted under the request's one trusted
   root.
   */
  lemma ServedBytesAreVerified(c: Content.Crypto, node: Responder, history: seq<Call>, target: HostTarget,
                               path: string, range: Option<string>)
    returns (root: string, e: Evidence, used: Option<string>)
    requires ServeStore(c, node, history, target, path, range).response.status in {200, 206}
    ensures TrustedRoot(node, history, target) == Result.Ok(root)
    ensures history + RootCalls(target) <= e.history
    ensures Backs(c, node, target.storeHex, root, e, ServeStore(c, node, history, target, path, range).history)
    ensures Carries(ServeStore(c, node, history, target, path, range).response, e.plaintext, used)
    ensures (Content.Addresses(path, e.key) && used == range) || (e.key == "index.html" && used == None)
  {
    var key := Content.ResourceKeyForPath(path).value;
    Content.PathNamesKey(path, key);
    match target {
      case Pinned(store, pinnedRoot) =>
        root := pinnedRoot;
        e, used := ServeAtEvidence(c, node, history, store, root, key, path, range, true);
      case Latest(store) =>
        var asked := history + [AnchoredRoot(store)];
        root := RootOf(Outcome(node(asked))).value;
        e, used := ServeAtEvidence(c, node, asked, store, root, key, path, range, false);
    }
  }

  // -- the node calls themselves ---------------------------------------------------------------

  predicate ContentCallsFor(calls: seq<Call>, store: string, root: string) {
    forall i :: 0 <= i < |calls| ==> calls[i].Content? && calls[i].store == store && calls[i].root == Some(root)
  }

  lemma FetchCalls(c: Content.Crypto, node: Responder, before: seq<Call>, store: string, key: string, root: string,
                   calls: seq<Call>, fate: Fate)
    requires IsFetch(c, node, before, store, key, root, calls, fate)
    ensures |calls| <= 100_000 && ContentCallsFor(calls, store, root)
  {
  }

  lemma Associates(a: seq<Call>, b: seq<Call>, c: seq<Call>)
    ensures a + b + c == a + (b + c)
  {
  }

  lemma TraceCalls(c: Content.Crypto, node: Responder, before: seq<Call>, store: string, key: string, path: string,
                   t: Trace)
    requires FetchesWell(c, node, before, store, key, path, t)
    ensures |t.first + t.second| <= 200_000 && ContentCallsFor(t.first + t.second, store, t.root)
  {
    FetchCalls(c, node, before, store, key, t.root, t.first, t.firstFate);
    if t.second != [] {
      FetchCalls(c, node, before + t.first, store, "index.html", t.root, t.second, t.secondFate);
    }
  }

  /**
   At most 200001 calls: the root call of a latest host, then content calls that all name the host's
   store and carry the one root it trusts.
   */
  lemma CallsOfRequest(c: Content.Crypto, node: Responder, history: seq<Call>, target: HostTarget, path: string,
                       range: Option<string>)
    returns (head: seq<Call>, calls: seq<Call>)
    ensures ServeStore(c, node, history, target, path, range).history == history + head + calls
    ensures (head == RootCalls(target) || (head == [] && calls == [])) && |calls| <= 200_000
    ensures calls != [] ==> && TrustedRoot(node, history, target).Ok?
                            && ContentCallsFor(calls, target.storeHex, TrustedRoot(node, history, target).value)
  {
    var t := RequestDiscipline(c, node, history, target, path, range);
    head, calls := [], [];
    if key :| Content.Addresses(path, key) {
      head := RootCalls(target);
      if TrustedRoot(node, history, target).Ok? {
        TraceCalls(c, node, history + head, target.storeHex, key, path, t);
        calls := t.first + t.second;
        Associates(history + head, t.first, t.second);
      } else {
        assert history + head + [] == history + head;
      }
    } else {
      assert history + [] + [] == history;
    }
  }

  // -- classification and the whole request ----------------------------------------------------

  /** A request target; `authority` is the host of an absolute form. */
  datatype Uri = Uri(scheme: Option<string>, authority: Option<string>, path: string)

  datatype ControlEndpoint = Health | ProxyPac | ResolveProbe | Unknown

  datatype Classified =
    | Control(endpoint: ControlEndpoint)
    | NonDigProxy
    | BadHost
    | Store(target: HostTarget, path: string)

  function ControlEndpointFor(path: string): Option<ControlEndpoint> {
    if path == "/.dig/health" then Some(Health)
    else if path == "/.dig/proxy.pac" then Some(ProxyPac)
    else if path == "/.dig/resolve-probe" then Some(ResolveProbe)
    else if path == "/.dig" || StartsWith(path, "/.dig/") then Some(Unknown)
    else None
  }

  predicate IsProxy(uri: Uri) {
    uri.scheme.Some? && uri.authority.Some?
  }

  function RequestHost(uri: Uri, hostHeader: Option<string>): Option<string> {
    if IsProxy(uri) then uri.authority else hostHeader
  }

  function Classify(uri: Uri, hostHeader: Option<string>, tld: string): Classified {
    var host := RequestHost(uri, hostHeader);
    if IsProxy(uri) && !Tld.HostIsUnderTld(host.value, tld) then NonDigProxy
    else match ControlEndpointFor(uri.path)
      case Some(endpoint) => Control(endpoint)
      case None =>
        if host.None? then BadHost
        else match ParseDigHost(host.value, tld)
          case Ok(target) => Store(target, uri.path)
          case Err(_) => BadHost
  }

  /** The configured TLD, and the generated proxy script. */
  datatype Ctx = Ctx(tld: string, pacBody: seq<byte>)

  /** A control endpoint; only the health document needs the node. */
  function ControlRun(node: Responder, history: seq<Call>, endpoint: ControlEndpoint, ctx: Ctx): Run {
    match endpoint
    case ResolveProbe => Run(Response(204, [], Payload([])), history)
    case ProxyPac => Run(Response(200, [PacType], Payload(ctx.pacBody)), history)
    case Health =>
      var asked := history + [HealthProbe];
      Run(Response(200, [JsonType], HealthReport(Responds(node(asked)))), asked)
    case Unknown => Run(TextResponse(404, NoSuchEndpoint), history)
  }

  method ControlResponse(client: NodeClient, endpoint: ControlEndpoint, ctx: Ctx) returns (response: Response)
    modifies client`history
    ensures Run(response, client.history) == ControlRun(client.node, old(client.history), endpoint, ctx)
  {
    match endpoint {
      case ResolveProbe =>
        response := Response(204, [], Payload([]));
      case ProxyPac =>
        response := Response(200, [PacType], Payload(ctx.pacBody));
      case Health =>
        var reachable := client.Healthy();
        response := Response(200, [JsonType], HealthReport(reachable));
      case Unknown =>
        response := TextResponse(404, NoSuchEndpoint);
    }
  }

  datatype HttpRequest = HttpRequest(verb: string, uri: Uri, host: Option<string>, range: Option<string>)

  predicate IsRead(verb: string) {
    Lower(verb) == "get" || Lower(verb) == "head"
  }

  function Dispatched(c: Content.Crypto, node: Responder, history: seq<Call>, ctx: Ctx, req: HttpRequest,
                      kind: Classified): Run {
    match kind
    case NonDigProxy => Run(TextResponse(403, NotAProxy), history)
    case BadHost => Run(TextResponse(404, NoSuchHost), history)
    case Control(endpoint) =>
      if IsRead(req.verb) then ControlRun(node, history, endpoint, ctx)
      else Run(TextResponse(405, NotAllowed), history)
    case Store(target, path) =>
      if IsRead(req.verb) then ServeStore(c, node, history, target, path, req.range)
      else Run(TextResponse(405, NotAllowed), history)
  }

  function Handled(c: Content.Crypto, node: Responder, history: seq<Call>, ctx: Ctx, req: HttpRequest): Run {
    if Lower(req.verb) == "connect" then Run(TextResponse(405, NoConnect), history)
    else Dispatched(c, node, history, ctx, req, Classify(req.uri, req.host, ctx.tld))
  }

  method Handle(client: NodeClient, c: Content.Crypto, ctx: Ctx, req: HttpRequest) returns (response: Response)
    modifies client`history
    ensures var run := Handled(c, client.node, old(client.history), ctx, req);
            response == run.response && client.history == run.history
  {
    if Lower(req.verb) == "connect" {
      return TextResponse(405, NoConnect);
    }
    match Classify(req.uri, req.host, ctx.tld) {
      case NonDigProxy =>
        response := TextResponse(403, NotAProxy);
      case BadHost =>
        response := TextResponse(404, NoSuchHost);
      case Control(endpoint) =>
        if IsRead(req.verb) {
          response := ControlResponse(client, endpoint, ctx);
        } else {
          response := TextResponse(405, NotAllowed);
        }
      case Store(target, path) =>
        if IsRead(req.verb) {
          response := ServeFromStore(client, c, target, path, req.range);
        } else {
          response := TextResponse(405, NotAllowed);
        }
    }
  }

  // -- every contact with the node -------------------------------------------------------------

  predicate Names(call: Call, store: string) {
    match call
    case HealthProbe => false
    case AnchoredRoot(s) => s == store
    case Content(s, _, _, _) => s == store
  }

  predicate AllName(calls: seq<Call>, store: string) {
    forall i :: 0 <= i < |calls| ==> Names(calls[i], store)
  }

  /** A proxy request for a foreign authority. */
  predicate IsForeign(ctx: Ctx, req: HttpRequest) {
    IsProxy(req.uri) && !Tld.HostIsUnderTld(req.uri.authority.value, ctx.tld)
  }

  /** A read of the health document, under any host. */
  predicate AsksHealth(ctx: Ctx, req: HttpRequest) {
    IsRead(req.verb) && !IsForeign(ctx, req) && req.uri.path == "/.dig/health"
  }

  /** A read, outside the reserved paths, of an acceptable path of a host that spells a store. */
  ghost predicate AsksStore(ctx: Ctx, req: HttpRequest, t: Target) {
    && IsRead(req.verb)
    && req.uri.path != "/.dig" && !StartsWith(req.uri.path, "/.dig/")
    && (exists key :: Content.Addresses(req.uri.path, key))
    && var host := NamedHost(req);
    && host.Some? && Lower(Core(host.value)) == HostOf(t, ctx.tld)
  }

  /** An absolute request names its host itself; for any other the header does. */
  function NamedHost(req: HttpRequest): Option<string> {
    match (req.uri.scheme, req.uri.authority)
    case (Some(_), Some(authority)) => Some(authority)
    case _ => req.host
  }

  lemma NamedIsRequested(req: HttpRequest)
    ensures NamedHost(req) == RequestHost(req.uri, req.host)
    ensures NamedHost(req) != req.host ==> IsProxy(req.uri)
  {
  }

  lemma ReadIsNotConnect(verb: string)
    ensures IsRead(verb) ==> Lower(verb) != "connect"
  {
    assert |"connect"| == 7;
  }

  lemma ReadsAre(verb: string)
    ensures IsRead(verb) <==> SameIgnoringCase(verb, "GET") || SameIgnoringCase(verb, "HEAD")
  {
    assert Lower("GET") == "get" && Lower("HEAD") == "head";
  }

  lemma ReservedPaths(path: string)
    ensures ControlEndpointFor(path).None? <==> path != "/.dig" && !StartsWith(path, "/.dig/")
    ensures ControlEndpointFor(path) == Some(Health) <==> path == "/.dig/health"
    ensures ControlEndpointFor(path) == Some(ProxyPac) <==> path == "/.dig/proxy.pac"
    ensures ControlEndpointFor(path) == Some(ResolveProbe) <==> path == "/.dig/resolve-probe"
  {
    var reserved := "/.dig/";
    assert "/.dig/health"[..6] == reserved;
    assert "/.dig/proxy.pac"[..6] == reserved;
    assert "/.dig/resolve-probe"[..6] == reserved;
  }

  /** What a classification means, by the parts of the request. */
  lemma ClassifiedMeans(uri: Uri, host: Option<string>, tld: string)
    ensures var kind, name := Classify(uri, host, tld), RequestHost(uri, host);
            var foreign := IsProxy(uri) && !Tld.HostIsUnderTld(uri.authority.value, tld);
            && (kind == NonDigProxy <==> foreign)
            && (forall e :: kind == Control(e) <==> !foreign && ControlEndpointFor(uri.path) == Some(e))
            && (kind == BadHost <==> && !foreign && ControlEndpointFor(uri.path).None?
                                     && (name.None? || ParseDigHost(name.value, tld).Err?))
            && (kind.Store? ==> ControlEndpointFor(uri.path).None? && name.Some?
                                && ParseDigHost(name.value, tld) == Ok(kind.target) && kind.path == uri.path)
            && (!foreign && ControlEndpointFor(uri.path).None? && name.Some? && ParseDigHost(name.value, tld).Ok?
                ==> kind == Store(ParseDigHost(name.value, tld).value, uri.path))
  {
  }

  lemma SpelledIsParsed(ctx: Ctx, req: HttpRequest, t: Target)
    requires IsSafeTld(ctx.tld) && AsksStore(ctx, req, t)
    ensures !IsForeign(ctx, req)
    ensures RequestHost(req.uri, req.host).Some?
    ensures ParseDigHost(RequestHost(req.uri, req.host).value, ctx.tld) == Ok(Rendered(t))
  {
    NamedIsRequested(req);
    var host := RequestHost(req.uri, req.host).value;
    SafeTldIsLower(ctx.tld);
    ParsesExactlyPrinted(host, ctx.tld, t);
    Tld.AcceptedHostIsUnder(host, ctx.tld);
  }

  /** What the whole handler does with a host that spells a store. */
  lemma StoreIsServed(c: Content.Crypto, node: Responder, history: seq<Call>, ctx: Ctx, req: HttpRequest, t: Target)
    requires IsSafeTld(ctx.tld) && AsksStore(ctx, req, t)
    ensures Handled(c, node, history, ctx, req) == ServeStore(c, node, history, Rendered(t), req.uri.path, req.range)
  {
    SpelledIsParsed(ctx, req, t);
    ReadIsNotConnect(req.verb);
    ReservedPaths(req.uri.path);
    ClassifiedMeans(req.uri, req.host, ctx.tld);
  }

  /** A store that a host spells is asked about, and every call names it. */
  lemma StoreIsAsked(c: Content.Crypto, node: Responder, history: seq<Call>, t: Target, path: string,
                     range: Option<string>)
    returns (calls: seq<Call>)
    requires exists key :: Content.Addresses(path, key)
    ensures ServeStore(c, node, history, Rendered(t), path, range).history == history + calls
    ensures calls != [] && AllName(calls, Rendered(t).storeHex)
  {
    var target := Rendered(t);
    var head, rest := CallsOfRequest(c, node, history, target, path, range);
    calls := head + rest;
    Associates(history, head, rest);
    AsksSomething(c, node, history, t, path, range);
  }

  lemma AsksSomething(c: Content.Crypto, node: Responder, history: seq<Call>, t: Target, path: string,
                      range: Option<string>)
    requires exists key :: Content.Addresses(path, key)
    ensures |ServeStore(c, node, history, Rendered(t), path, range).history| > |history|
  {
    var target := Rendered(t);
    var trace := RequestDiscipline(c, node, history, target, path, range);
    var key :| Content.Addresses(path, key);
    if target.Pinned? {
      FetchIsMade(c, node, history + [], t.store, key, trace);
    }
  }

  lemma FetchIsMade(c: Content.Crypto, node: Responder, before: seq<Call>, store: Label.StoreId, key: string, t: Trace)
    requires IsFetch(c, node, before, Label.HexEncode(store), key, t.root, t.first, t.firstFate)
    ensures t.first != []
  {
    Label.HexRoundTrip(store);
  }

  lemma HealthIsProbed(c: Content.Crypto, node: Responder, history: seq<Call>, ctx: Ctx, req: HttpRequest)
    requires AsksHealth(ctx, req)
    ensures Handled(c, node, history, ctx, req) == ControlRun(node, history, Health, ctx)
  {
    ReadIsNotConnect(req.verb);
    ReservedPaths(req.uri.path);
    ClassifiedMeans(req.uri, req.host, ctx.tld);
  }

  /** No other request reaches the node. */
  lemma ContactIsRead(c: Content.Crypto, node: Responder, history: seq<Call>, ctx: Ctx, req: HttpRequest)
    requires IsSafeTld(ctx.tld) && !AsksHealth(ctx, req) && forall t :: !AsksStore(ctx, req, t)
    ensures Handled(c, node, history, ctx, req).history == history
  {
    NamedIsRequested(req);
    var kind := Classify(req.uri, req.host, ctx.tld);
    ClassifiedMeans(req.uri, req.host, ctx.tld);
    ReservedPaths(req.uri.path);
    if kind.Store? && Content.ResourceKeyForPath(kind.path).Ok? {
      Content.PathNamesKey(kind.path, Content.ResourceKeyForPath(kind.path).value);
      var t := StoreOfHost(RequestHost(req.uri, req.host).value, ctx.tld);
      assert !AsksStore(ctx, req, t);
    }
    QuietDispatch(c, node, history, ctx, req, kind);
  }

  lemma QuietDispatch(c: Content.Crypto, node: Responder, history: seq<Call>, ctx: Ctx, req: HttpRequest,
                      kind: Classified)
    requires IsRead(req.verb) ==>
               kind != Control(Health) && (kind.Store? ==> Content.ResourceKeyForPath(kind.path).Err?)
    ensures Dispatched(c, node, history, ctx, req, kind).history == history
  {
  }

  /**
   Every contact with the node, exactly: a read of the health document makes one health probe and
   reports its outcome; a read of an acceptable path of a host that spells a store makes at least one
   call, all naming that store; no other request makes any. A foreign proxy request is refused.
   */
  lemma ContactIsExact(c: Content.Crypto, node: Responder, history: seq<Call>, ctx: Ctx, req: HttpRequest)
    returns (calls: seq<Call>)
    requires IsSafeTld(ctx.tld)
    ensures Handled(c, node, history, ctx, req).history == history + calls
    ensures calls != [] <==> AsksHealth(ctx, req) || exists t :: AsksStore(ctx, req, t)
    ensures AsksHealth(ctx, req) ==>
              && calls == [HealthProbe]
              && Handled(c, node, history, ctx, req).response
                 == Response(200, [JsonType], HealthReport(Responds(node(history + [HealthProbe]))))
    ensures forall t :: AsksStore(ctx, req, t) ==> AllName(calls, Rendered(t).storeHex)
    ensures IsForeign(ctx, req) ==>
              Handled(c, node, history, ctx, req).response.status == if Lower(req.verb) == "connect" then 405 else 403
  {
    calls := [];
    if AsksHealth(ctx, req) {
      HealthIsProbed(c, node, history, ctx, req);
      calls := [HealthProbe];
      HealthIsNoStore(ctx, req);
    } else if t :| AsksStore(ctx, req, t) {
      StoreIsServed(c, node, history, ctx, req, t);
      calls := StoreIsAsked(c, node, history, t, req.uri.path, req.range);
      forall u | AsksStore(ctx, req, u) ensures AllName(calls, Rendered(u).storeHex) {
        SameHostSameStore(ctx, req, t, u);
      }
    } else {
      ContactIsRead(c, node, history, ctx, req);
      assert history + [] == history;
    }
    ClassifiedMeans(req.uri, req.host, ctx.tld);
  }

  lemma HealthIsNoStore(ctx: Ctx, req: HttpRequest)
    requires AsksHealth(ctx, req)
    ensures forall t :: !AsksStore(ctx, req, t)
  {
    ReservedPaths(req.uri.path);
  }

  /** A host spells one target only. */
  lemma SameHostSameStore(ctx: Ctx, req: HttpRequest, t: Target, u: Target)
    requires IsSafeTld(ctx.tld) && AsksStore(ctx, req, t) && AsksStore(ctx, req, u)
    ensures Rendered(t) == Rendered(u)
  {
    SpelledIsParsed(ctx, req, t);
    SpelledIsParsed(ctx, req, u);
  }

  lemma StoreOfHost(host: string, tld: string) returns (t: Target)
    requires IsSafeTld(tld) && ParseDigHost(host, tld).Ok?
    ensures ParseDigHost(host, tld) == Ok(Rendered(t)) && Lower(Core(host)) == HostOf(t, tld)
  {
    SafeTldIsLower(tld);
    t := AcceptedIsPrinted(host, tld);
  }

  // -- the answers that need no store ----------------------------------------------------------

  predicate IsConnect(verb: string) {
    Lower(verb) == "connect"
  }

  predicate IsReserved(path: string) {
    path == "/.dig" || StartsWith(path, "/.dig/")
  }

  /** The host of the request spells some target. */
  ghost predicate SpellsStore(ctx: Ctx, req: HttpRequest) {
    var host := NamedHost(req);
    host.Some? && exists t :: Lower(Core(host.value)) == HostOf(t, ctx.tld)
  }

  lemma ParsedIsSpelled(ctx: Ctx, req: HttpRequest)
    requires IsSafeTld(ctx.tld)
    ensures SpellsStore(ctx, req)
            <==> var host := RequestHost(req.uri, req.host); host.Some? && ParseDigHost(host.value, ctx.tld).Ok?
  {
    NamedIsRequested(req);
    var host := RequestHost(req.uri, req.host);
    SafeTldIsLower(ctx.tld);
    if host.Some? && ParseDigHost(host.value, ctx.tld).Ok? {
      var t := StoreOfHost(host.value, ctx.tld);
    }
    if host.Some? {
      forall t | Lower(Core(host.value)) == HostOf(t, ctx.tld) ensures ParseDigHost(host.value, ctx.tld).Ok? {
        ParsesExactlyPrinted(host.value, ctx.tld, t);
      }
    }
  }

  /**
   Every answer that does not come from a store: a tunnel is refused, a foreign proxy request is
   forbidden, the reserved paths are answered to reads alone, each in its own way, and a host that
   spells no store is not found.
   */
  lemma OtherAnswers(c: Content.Crypto, node: Responder, history: seq<Call>, ctx: Ctx, req: HttpRequest)
    requires IsSafeTld(ctx.tld)
    ensures var r, path := Handled(c, node, history, ctx, req).response, req.uri.path;
            && (IsConnect(req.verb) ==> r == Response(405, [PlainText], Message(NoConnect)))
            && (!IsConnect(req.verb) && IsForeign(ctx, req) ==> r == Response(403, [PlainText], Message(NotAProxy)))
            && (!IsConnect(req.verb) && !IsForeign(ctx, req) && IsReserved(path) && !IsRead(req.verb) ==>
                  r == Response(405, [PlainText], Message(NotAllowed)))
            && (!IsForeign(ctx, req) && IsRead(req.verb) && path == "/.dig/resolve-probe" ==>
                  r == Response(204, [], Payload([])))
            && (!IsForeign(ctx, req) && IsRead(req.verb) && path == "/.dig/proxy.pac" ==>
                  r == Response(200, [PacType], Payload(ctx.pacBody)))
            && (!IsForeign(ctx, req) && IsRead(req.verb) && IsReserved(path)
                && path !in {"/.dig/health", "/.dig/resolve-probe", "/.dig/proxy.pac"} ==>
                  r == Response(404, [PlainText], Message(NoSuchEndpoint)))
            && (!IsConnect(req.verb) && !IsForeign(ctx, req) && !IsReserved(path) && !SpellsStore(ctx, req) ==>
                  r == Response(404, [PlainText], Message(NoSuchHost)))
            && (!IsConnect(req.verb) && !IsForeign(ctx, req) && !IsReserved(path) && SpellsStore(ctx, req)
                && !IsRead(req.verb) ==>
                  r == Response(405, [PlainText], Message(NotAllowed)))
  {
    ClassifiedMeans(req.uri, req.host, ctx.tld);
    ReservedPaths(req.uri.path);
    ReadIsNotConnect(req.verb);
    ParsedIsSpelled(ctx, req);
  }

  // -- an honest node, end to end --------------------------------------------------------------

  /** What an honest node holds: the chunks sealed under the resource's key, with a proof under the root. */
  ghost predicate HoldsSealed(c: Content.Crypto, seal: (seq<byte>, seq<byte>) -> seq<byte>, s: Served, store: seq<byte>,
                              key: string, root: string, chunks: seq<seq<byte>>) {
    var seals := Content.SealAll(seal, c.deriveKey(store, key), chunks);
    && chunks != []
    && s.bytes == Content.Concat(seals) && s.lens == Content.Lengths(seals)
    && Content.Committed(c, s.bytes, s.proof, root)
  }

  lemma SealedIsFound(c: Content.Crypto, seal: (seq<byte>, seq<byte>) -> seq<byte>, s: Served, store: seq<byte>,
                      key: string, root: string, chunks: seq<seq<byte>>, fate: Fate)
    requires forall k, x :: c.open(k, seal(k, x)) == Some(x)
    requires |s.bytes| <= U64_MAX && HoldsSealed(c, seal, s, store, key, root, chunks)
    requires FateMeans(c, store, key, root, Ok(s.Whole()), fate)
    ensures fate == Found(Content.Concat(chunks))
  {
    var k := c.deriveKey(store, key);
    var seals := Content.SealAll(seal, k, chunks);
    assert Content.IsCut(s.bytes, s.lens, seals);
    forall i | 0 <= i < |seals| ensures c.open(k, seals[i]) == Some(chunks[i]) {
      assert seals[i] == seal(k, chunks[i]);
    }
    var plains :| Content.OpensTo(c, k, seals, plains) && fate == Found(Content.Concat(plains));
    forall i | 0 <= i < |chunks| ensures plains[i] == chunks[i] {
      assert c.open(k, seals[i]) == Some(plains[i]);
    }
    assert plains == chunks;
  }

  /**
   A plain read of a host that spells a store, against a node that answers this request's calls
   honestly about sealed chunks under the trusted root: 200 with the chunks laid end to end.
   */
  lemma HonestRead(c: Content.Crypto, node: Responder, history: seq<Call>, ctx: Ctx, req: HttpRequest, t: Target,
                   key: string, root: string, seal: (seq<byte>, seq<byte>) -> seq<byte>, chunks: seq<seq<byte>>,
                   s: Served)
    requires IsSafeTld(ctx.tld) && AsksStore(ctx, req, t) && Content.Addresses(req.uri.path, key) && req.range == None
    requires forall k, x :: c.open(k, seal(k, x)) == Some(x)
    requires TrustedRoot(node, history, Rendered(t)) == Ok(root) && HoldsSealed(c, seal, s, t.store, key, root, chunks)
    requires Honest(node, history + RootCalls(Rendered(t)),
                    Request(Label.HexEncode(t.store), c.retrievalKey(t.store, key), Some(root)), s)
    requires s.Count(0) <= 100_000
    ensures Handled(c, node, history, ctx, req).response
            == Response(200, [ContentType(key), AcceptRanges, CacheControl(t.PinnedTo?)],
                        Payload(Content.Concat(chunks)))
  {
    StoreIsServed(c, node, history, ctx, req, t);
    HonestServe(c, node, history, t, req.uri.path, key, root, seal, chunks, s);
  }

  lemma HonestServe(c: Content.Crypto, node: Responder, history: seq<Call>, t: Target, path: string, key: string,
                    root: string, seal: (seq<byte>, seq<byte>) -> seq<byte>, chunks: seq<seq<byte>>, s: Served)
    requires Content.Addresses(path, key)
    requires forall k, x :: c.open(k, seal(k, x)) == Some(x)
    requires TrustedRoot(node, history, Rendered(t)) == Ok(root) && HoldsSealed(c, seal, s, t.store, key, root, chunks)
    requires Honest(node, history + RootCalls(Rendered(t)),
                    Request(Label.HexEncode(t.store), c.retrievalKey(t.store, key), Some(root)), s)
    requires s.Count(0) <= 100_000
    ensures ServeStore(c, node, history, Rendered(t), path, None).response
            == Response(200, [ContentType(key), AcceptRanges, CacheControl(t.PinnedTo?)],
                        Payload(Content.Concat(chunks)))
  {
    var target := Rendered(t);
    var trace := RequestDiscipline(c, node, history, target, path, None);
    Label.HexRoundTrip(t.store);
    FetchHonest(node, history + RootCalls(target),
                Request(target.storeHex, c.retrievalKey(t.store, key), Some(root)), s);
    SealedIsFound(c, seal, s, t.store, key, root, chunks, trace.firstFate);
    NoRangeIsWhole(ServeStore(c, node, history, target, path, None).response, key, trace.firstFate, target.Pinned?);
  }

  lemma NoRangeIsWhole(r: Response, key: string, fate: Fate, pinned: bool)
    requires fate.Found? && IsAnswered(r, key, fate, None, pinned)
    ensures r == Response(200, [ContentType(key), AcceptRanges, CacheControl(pinned)], Payload(fate.bytes))
  {
  }
}
