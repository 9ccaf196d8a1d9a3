/**
 The read contract with a dig-node: the reply shapes, the reassembly of a resource from its
 windows, and the paging loop that fetches them.

 A node is an arbitrary responder: a function from the whole history of calls, the current one
 last, to a reply. Quantifying over it covers every node, whatever it remembers and however it
 misbehaves.
 */
module Node {
  import opened Prelude

  const MAX_CONTENT_WINDOWS: nat := 100_000

  datatype Ciphertext = NoCiphertext | NotBase64 | Bytes(bytes: seq<byte>)
  datatype ChunkLens = NoChunkLens | NotArray | Entries(entries: seq<Option<u64>>)

  /** The `result` object of a reply, by the fields this program reads. */
  datatype Value = Value(
    root: Option<string>,
    ciphertext: Ciphertext,
    complete: Option<bool>,
    nextOffset: Option<u64>,
    inclusionProof: Option<string>,
    chunkLens: ChunkLens)

  datatype Defect =
    | NoResult
    | NoWindows
    | NoInclusionProof
    | ChunkLensEntry
    | ChunkLensShape
    | ChunkLensMissing
    | NoRoot
    | RootNotHex
    | CiphertextMissing
    | CiphertextNotBase64
    | FinalNotComplete
    | EarlyComplete
    | WindowCap
    | NotAdvancing

  datatype NodeError = Rpc(code: int, dataCode: Option<string>) | Malformed(defect: Defect) | Transport {
    /** "The resource is not at this store and root", by numeric or by symbolic code. */
    predicate IsNotFound() {
      match this
      case Rpc(code, dataCode) =>
        || code in {-32004, -32005}
        || dataCode in {Some("RESOURCE_UNAVAILABLE"), Some("ROOT_NOT_ANCHORED")}
      case Malformed(_) => false
      case Transport => false
    }
  }

  datatype FetchedContent = FetchedContent(
    ciphertext: seq<byte>, rootHex: string, inclusionProof: string, chunkLens: seq<u64>)

  datatype Call =
    | HealthProbe
    | AnchoredRoot(store: string)
    | Content(store: string, retrievalKey: string, root: Option<string>, offset: u64)

  /** What one HTTP round trip yields: a result, an error object, neither of them, or nothing. */
  datatype Reply = Answer(value: Value) | RpcError(code: int, dataCode: Option<string>) | Neither | Unreachable

  type Responder = seq<Call> -> Reply

  /** Any HTTP response at all to a health probe means that the node is there. */
  predicate Responds(reply: Reply) {
    !reply.Unreachable?
  }

  function Outcome(reply: Reply): Result<Value, NodeError> {
    match reply
    case Answer(value) => Ok(value)
    case RpcError(code, dataCode) => Err(Rpc(code, dataCode))
    case Neither => Err(Malformed(NoResult))
    case Unreachable => Err(Transport)
  }

  predicate IsComplete(w: Value) {
    w.complete == Some(true)
  }

  // -- reassembly ------------------------------------------------------------------------------

  function Lens(entries: seq<Option<u64>>): Option<seq<u64>> {
    if entries == [] then Some([])
    else
      var rest := Lens(entries[1..]);
      if entries[0].None? || rest.None? then None else Some([entries[0].value] + rest.value)
  }

  function FirstLens(lens: ChunkLens): Result<seq<u64>, NodeError> {
    match lens
    case NoChunkLens => Err(Malformed(ChunkLensMissing))
    case NotArray => Err(Malformed(ChunkLensShape))
    case Entries(entries) =>
      match Lens(entries)
      case None => Err(Malformed(ChunkLensEntry))
      case Some(ls) => Ok(ls)
  }

  /** The defect of window `i`, if it has one. */
  function WindowDefect(windows: seq<Value>, i: nat): Option<Defect>
    requires i < |windows|
  {
    var w := windows[i];
    if w.ciphertext.NoCiphertext? then Some(CiphertextMissing)
    else if w.ciphertext.NotBase64? then Some(CiphertextNotBase64)
    else if i == |windows| - 1 && !IsComplete(w) then Some(FinalNotComplete)
    else if i != |windows| - 1 && IsComplete(w) then Some(EarlyComplete)
    else None
  }

  /** The ciphertext of the windows from `i` on, or the first defect among them. */
  function Gather(windows: seq<Value>, i: nat): Result<seq<byte>, NodeError>
    requires i <= |windows|
    decreases |windows| - i
  {
    if i == |windows| then Ok([])
    else match WindowDefect(windows, i)
      case Some(d) => Err(Malformed(d))
      case None =>
        match Gather(windows, i + 1)
        case Err(e) => Err(e)
        case Ok(rest) => Ok(windows[i].ciphertext.bytes + rest)
  }

  function Assembled(windows: seq<Value>): Result<FetchedContent, NodeError> {
    if windows == [] then Err(Malformed(NoWindows))
    else
      var first := windows[0];
      if first.inclusionProof.None? then Err(Malformed(NoInclusionProof))
      else match FirstLens(first.chunkLens)
        case Err(e) => Err(e)
        case Ok(lens) =>
          if first.root.None? then Err(Malformed(NoRoot))
          else match Gather(windows, 0)
            case Err(e) => Err(e)
            case Ok(ciphertext) =>
              Ok(FetchedContent(ciphertext, first.root.value, first.inclusionProof.value, lens))
  }

  function Append(head: seq<byte>, rest: Result<seq<byte>, NodeError>): Result<seq<byte>, NodeError> {
    match rest
    case Err(e) => Err(e)
    case Ok(bytes) => Ok(head + bytes)
  }

  method GatherWindows(windows: seq<Value>) returns (r: Result<seq<byte>, NodeError>)
    ensures r == Gather(windows, 0)
  {
    var ciphertext: seq<byte> := [];
    assert Append([], Gather(windows, 0)) == Gather(windows, 0) by {
      if Gather(windows, 0).Ok? {
        assert [] + Gather(windows, 0).value == Gather(windows, 0).value;
      }
    }
    for i := 0 to |windows|
      invariant Gather(windows, 0) == Append(ciphertext, Gather(windows, i))
    {
      var w := windows[i];
      if w.ciphertext.NoCiphertext? {
        return Err(Malformed(CiphertextMissing));
      }
      if w.ciphertext.NotBase64? {
        return Err(Malformed(CiphertextNotBase64));
      }
      if i == |windows| - 1 && !IsComplete(w) {
        return Err(Malformed(FinalNotComplete));
      }
      if i != |windows| - 1 && IsComplete(w) {
        return Err(Malformed(EarlyComplete));
      }
      ghost var rest := Gather(windows, i + 1);
      if rest.Ok? {
        assert ciphertext + (w.ciphertext.bytes + rest.value) == ciphertext + w.ciphertext.bytes + rest.value;
      }
      ciphertext := ciphertext + w.ciphertext.bytes;
    }
    assert ciphertext + [] == ciphertext;
    return Ok(ciphertext);
  }

  method AssembleWindows(windows: seq<Value>) returns (r: Result<FetchedContent, NodeError>)
    ensures r == Assembled(windows)
  {
    if windows == [] {
      return Err(Malformed(NoWindows));
    }
    var first := windows[0];
    if first.inclusionProof.None? {
      return Err(Malformed(NoInclusionProof));
    }
    var lens := FirstLens(first.chunkLens);
    if lens.Err? {
      return Err(lens.error);
    }
    if first.root.None? {
      return Err(Malformed(NoRoot));
    }
    var ciphertext := GatherWindows(windows);
    if ciphertext.Err? {
      return Err(ciphertext.error);
    }
    return Ok(FetchedContent(ciphertext.value, first.root.value, first.inclusionProof.value, lens.value));
  }

  // -- paging ----------------------------------------------------------------------------------

  /** What a fetch asks for. */
  datatype Request = Request(store: string, retrievalKey: string, root: Option<string>)

  function CallAt(req: Request, offset: u64): Call {
    Content(req.store, req.retrievalKey, req.root, offset)
  }

  /** A finished fetch: its result, all calls so far, and the windows it holds. */
  datatype Fetch = Fetch(result: Result<FetchedContent, NodeError>, history: seq<Call>, windows: seq<Value>)

  /** The rest of a paging run that holds `windows` and is about to ask for `offset`. */
  function Page(node: Responder, history: seq<Call>, req: Request, windows: seq<Value>, offset: u64): Fetch
    decreases MAX_CONTENT_WINDOWS - |windows|
  {
    if |windows| >= MAX_CONTENT_WINDOWS then Fetch(Err(Malformed(WindowCap)), history, windows)
    else
      var asked := history + [CallAt(req, offset)];
      match Outcome(node(asked))
      case Err(e) => Fetch(Err(e), asked, windows)
      case Ok(w) =>
        if IsComplete(w) then Fetch(Assembled(windows + [w]), asked, windows + [w])
        else if w.nextOffset.Some? && w.nextOffset.value > offset
          then Page(node, asked, req, windows + [w], w.nextOffset.value)
        else Fetch(Err(Malformed(NotAdvancing)), asked, windows + [w])
  }

  function Fetched(node: Responder, history: seq<Call>, req: Request): Fetch {
    Page(node, history, req, [], 0)
  }

  /** A client bound to one node, with the calls it has made. */
  class NodeClient {
    const node: Responder
    var history: seq<Call>

    constructor (node: Responder)
      ensures this.node == node && history == []
    {
      this.node := node;
      history := [];
    }

    method Send(call: Call) returns (r: Result<Value, NodeError>)
      modifies this`history
      ensures history == old(history) + [call]
      ensures r == Outcome(node(history))
    {
      history := history + [call];
      return Outcome(node(history));
    }

    method Healthy() returns (reachable: bool)
      modifies this`history
      ensures history == old(history) + [HealthProbe]
      ensures reachable == Responds(node(history))
    {
      history := history + [HealthProbe];
      return Responds(node(history));
    }

    method GetAnchoredRoot(store: string) returns (r: Result<string, NodeError>)
      modifies this`history
      ensures history == old(history) + [AnchoredRoot(store)]
      ensures r == RootOf(Outcome(node(history)))
    {
      var value := Send(AnchoredRoot(store));
      return RootOf(value);
    }

    method GetContent(req: Request) returns (r: Result<FetchedContent, NodeError>)
      modifies this`history
      ensures var f := Fetched(node, old(history), req);
              r == f.result && history == f.history
    {
      var windows: seq<Value> := [];
      var offset: u64 := 0;
      while true
        invariant Page(node, history, req, windows, offset) == Fetched(node, old(history), req)
        decreases MAX_CONTENT_WINDOWS - |windows|
      {
        if |windows| >= MAX_CONTENT_WINDOWS {
          return Err(Malformed(WindowCap));
        }
        var result := Send(CallAt(req, offset));
        if result.Err? {
          return Err(result.error);
        }
        var complete := IsComplete(result.value);
        var nextOffset := result.value.nextOffset;
        windows := windows + [result.value];
        if complete {
          break;
        }
        if nextOffset.Some? && nextOffset.value > offset {
          offset := nextOffset.value;
        } else {
          return Err(Malformed(NotAdvancing));
        }
      }
      r := AssembleWindows(windows);
    }
  }

  predicate IsHex(c: char) {
    '0' <= c <= '9' || 'a' <= c <= 'f' || 'A' <= c <= 'F'
  }

  predicate Is64Hex(s: string) {
    |s| == 64 && forall i :: 0 <= i < 64 ==> IsHex(s[i])
  }

  function RootOf(value: Result<Value, NodeError>): (r: Result<string, NodeError>)
    ensures r.Ok? ==> Is64Hex(r.value)
  {
    match value
    case Err(e) => Err(e)
    case Ok(v) =>
      if v.root.None? then Err(Malformed(NoRoot))
      else if !Is64Hex(v.root.value) then Err(Malformed(RootNotHex))
      else Ok(v.root.value)
  }

  // -- every run of the paging loop ------------------------------------------------------------

  /** The calls are content calls for one request at strictly increasing offsets from `offset`. */
  predicate Paging(calls: seq<Call>, req: Request, offset: u64) {
    && (calls != [] ==> calls[0] == Content(req.store, req.retrievalKey, req.root, offset))
    && (forall i :: 0 <= i < |calls| ==>
          calls[i].Content? && calls[i] == Content(req.store, req.retrievalKey, req.root, calls[i].offset))
    && (forall i, j :: 0 <= i < j < |calls| ==> calls[i].offset < calls[j].offset)
  }

  predicate AllIncomplete(windows: seq<Value>) {
    forall i :: 0 <= i < |windows| ==> !IsComplete(windows[i])
  }

  /** Incomplete windows and then, at most, one complete window. */
  predicate WellPaged(windows: seq<Value>) {
    windows != [] ==> AllIncomplete(windows[..|windows| - 1])
  }

  lemma PagingCons(req: Request, offset: u64, next: u64, rest: seq<Call>)
    requires offset < next && Paging(rest, req, next)
    ensures Paging([CallAt(req, offset)] + rest, req, offset)
  {
    var calls := [CallAt(req, offset)] + rest;
    forall i, j | 0 <= i < j < |calls|
      ensures calls[i].Content? && calls[j].Content? && calls[i].offset < calls[j].offset
    {
      assert calls[j] == rest[j - 1];
      assert rest[0].offset <= rest[j - 1].offset;
    }
  }

  lemma {:induction false} PageCalls(node: Responder, history: seq<Call>, req: Request, windows: seq<Value>,
                                     offset: u64)
    requires |windows| <= MAX_CONTENT_WINDOWS
    ensures var f := Page(node, history, req, windows, offset);
            && history <= f.history
            && |f.history| - |history| <= MAX_CONTENT_WINDOWS - |windows|
            && Paging(f.history[|history|..], req, offset)
    decreases MAX_CONTENT_WINDOWS - |windows|
  {
    if |windows| < MAX_CONTENT_WINDOWS {
      var asked := history + [CallAt(req, offset)];
      assert asked[|history|..] == [CallAt(req, offset)];
      var outcome := Outcome(node(asked));
      if outcome.Ok? && !IsComplete(outcome.value)
         && outcome.value.nextOffset.Some? && outcome.value.nextOffset.value > offset {
        var next := outcome.value.nextOffset.value;
        PageCalls(node, asked, req, windows + [outcome.value], next);
        var calls := Page(node, asked, req, windows + [outcome.value], next).history;
        PagingCons(req, offset, next, calls[|asked|..]);
        assert calls[|history|..] == [CallAt(req, offset)] + calls[|asked|..];
      }
    }
  }

  /** The windows stop at a complete one on success, and no completeness check ever fails. */
  predicate Settled(f: Fetch) {
    && WellPaged(f.windows)
    && (f.result.Ok? ==> f.windows != [] && IsComplete(f.windows[|f.windows| - 1]))
    && (f.result.Ok? ==> f.result == Assembled(f.windows))
    && f.result != Err(Malformed(FinalNotComplete))
    && f.result != Err(Malformed(EarlyComplete))
  }

  lemma {:induction false} PageWindows(node: Responder, history: seq<Call>, req: Request, windows: seq<Value>,
                                       offset: u64)
    requires |windows| <= MAX_CONTENT_WINDOWS && AllIncomplete(windows)
    ensures Settled(Page(node, history, req, windows, offset))
    decreases MAX_CONTENT_WINDOWS - |windows|
  {
    if |windows| < MAX_CONTENT_WINDOWS {
      var asked := history + [CallAt(req, offset)];
      var outcome := Outcome(node(asked));
      if outcome.Ok? {
        var held := windows + [outcome.value];
        assert held[..|held| - 1] == windows;
        if IsComplete(outcome.value) {
          CompleteRun(windows, outcome.value);
        } else if outcome.value.nextOffset.Some? && outcome.value.nextOffset.value > offset {
          PageWindows(node, asked, req, held, outcome.value.nextOffset.value);
        }
      }
    }
  }

  /** Windows that are incomplete up to a complete last one pass both completeness checks. */
  lemma CompleteRun(windows: seq<Value>, w: Value)
    requires AllIncomplete(windows) && IsComplete(w)
    ensures Assembled(windows + [w]) != Err(Malformed(FinalNotComplete))
    ensures Assembled(windows + [w]) != Err(Malformed(EarlyComplete))
  {
    GatherFromCompleteRun(windows, w, 0);
  }

  lemma {:induction false} GatherFromCompleteRun(windows: seq<Value>, w: Value, i: nat)
    requires AllIncomplete(windows) && IsComplete(w) && i <= |windows| + 1
    ensures Gather(windows + [w], i) != Err(Malformed(FinalNotComplete))
    ensures Gather(windows + [w], i) != Err(Malformed(EarlyComplete))
    decreases |windows| + 1 - i
  {
    if i <= |windows| {
      GatherFromCompleteRun(windows, w, i + 1);
      var all := windows + [w];
      assert i < |windows| ==> all[i] == windows[i];
    }
  }

  /**
   Against every node: at most 100000 calls, all for the same request, at strictly increasing
   offsets from zero; and what is handed to reassembly never fails its completeness checks.
   */
  lemma FetchIsBounded(node: Responder, history: seq<Call>, req: Request)
    ensures var f := Fetched(node, history, req);
            && history <= f.history
            && |f.history| - |history| <= 100_000
            && Paging(f.history[|history|..], req, 0)
            && Settled(f)
  {
    PageCalls(node, history, req, [], 0);
    PageWindows(node, history, req, [], 0);
  }

  /** A fetch asks at least once. */
  lemma FetchAsks(node: Responder, history: seq<Call>, req: Request)
    ensures |Fetched(node, history, req).history| > |history|
  {
    var asked := history + [CallAt(req, 0)];
    var outcome := Outcome(node(asked));
    if outcome.Ok? && outcome.value.nextOffset.Some? {
      PageCalls(node, asked, req, [] + [outcome.value], outcome.value.nextOffset.value);
    }
  }

  // -- an honest node --------------------------------------------------------------------------

  /** A resource, and where the window that starts at an offset ends. */
  datatype Served = Served(
    bytes: seq<byte>, next: nat -> nat, root: string, proof: string, lens: seq<u64>)
  {
    predicate Valid() {
      && |bytes| <= U64_MAX
      && (forall o: nat :: o <= |bytes| ==> o <= next(o) <= |bytes| && (o < |bytes| ==> o < next(o)))
    }

    /** How many windows remain from `o` on. */
    function Count(o: nat): nat
      requires Valid() && o <= |bytes|
      decreases |bytes| - o
    {
      if next(o) == |bytes| then 1 else 1 + Count(next(o))
    }

    /** What reassembly takes from the first window. */
    predicate Heads(w: Value) {
      w.root == Some(root) && w.inclusionProof == Some(proof) && FirstLens(w.chunkLens) == Ok(lens)
    }

    /** The window that starts at `o`; only the first one need carry the proof, the lengths and the root. */
    predicate IsWindow(w: Value, o: nat)
      requires Valid() && o <= |bytes|
    {
      && w.ciphertext == Bytes(bytes[o..next(o)])
      && (IsComplete(w) <==> next(o) == |bytes|)
      && (next(o) != |bytes| ==> w.nextOffset == Some(next(o)))
      && (o == 0 ==> Heads(w))
    }

    /** What the fetch should return. */
    function Whole(): FetchedContent {
      FetchedContent(bytes, root, proof, lens)
    }
  }

  /**
   After `n` windows, the node answers the calls this fetch still makes, at window boundaries and
   within the cap, by the resource's windows. Nothing is asked of any other call.
   */
  ghost predicate HonestFrom(node: Responder, history: seq<Call>, req: Request, s: Served, o: nat, n: nat)
    requires s.Valid() && o <= |s.bytes|
    decreases |s.bytes| - o
  {
    n < MAX_CONTENT_WINDOWS ==>
      var asked := history + [CallAt(req, o)];
      && node(asked).Answer? && s.IsWindow(node(asked).value, o)
      && (s.next(o) != |s.bytes| ==> HonestFrom(node, asked, req, s, s.next(o), n + 1))
  }

  ghost predicate Honest(node: Responder, history: seq<Call>, req: Request, s: Served) {
    s.Valid() && HonestFrom(node, history, req, s, 0, 0)
  }

  predicate AllBytes(windows: seq<Value>) {
    forall i :: 0 <= i < |windows| ==> windows[i].ciphertext.Bytes?
  }

  function CipherFrom(windows: seq<Value>, i: nat): seq<byte>
    requires AllBytes(windows) && i <= |windows|
    decreases |windows| - i
  {
    if i == |windows| then [] else windows[i].ciphertext.bytes + CipherFrom(windows, i + 1)
  }

  lemma {:induction false} CipherAppend(windows: seq<Value>, w: Value, i: nat)
    requires AllBytes(windows) && w.ciphertext.Bytes? && i <= |windows|
    ensures CipherFrom(windows + [w], i) == CipherFrom(windows, i) + w.ciphertext.bytes
    decreases |windows| - i
  {
    var all := windows + [w];
    if i == |windows| {
      assert CipherFrom(all, i + 1) == [] && w.ciphertext.bytes + [] == [] + w.ciphertext.bytes;
    } else {
      CipherAppend(windows, w, i + 1);
      assert all[i] == windows[i];
    }
  }

  lemma {:induction false} GatherIsCipher(windows: seq<Value>, w: Value, i: nat)
    requires AllIncomplete(windows) && IsComplete(w) && AllBytes(windows + [w]) && i <= |windows| + 1
    ensures Gather(windows + [w], i) == Ok(CipherFrom(windows + [w], i))
    decreases |windows| + 1 - i
  {
    if i <= |windows| {
      GatherIsCipher(windows, w, i + 1);
      var all := windows + [w];
      assert i < |windows| ==> all[i] == windows[i];
    }
  }

  /** Windows that hold the resource up to `o`. */
  predicate HoldUpTo(windows: seq<Value>, s: Served, o: nat) {
    && AllIncomplete(windows) && AllBytes(windows)
    && o <= |s.bytes| && CipherFrom(windows, 0) == s.bytes[..o]
    && if windows == [] then o == 0 else s.Heads(windows[0])
  }

  lemma HoldNext(windows: seq<Value>, s: Served, o: nat, w: Value)
    requires s.Valid() && HoldUpTo(windows, s, o) && s.IsWindow(w, o)
    ensures var all := windows + [w];
            && AllBytes(all) && CipherFrom(all, 0) == s.bytes[..s.next(o)] && s.Heads(all[0])
    ensures !IsComplete(w) ==> HoldUpTo(windows + [w], s, s.next(o))
    ensures IsComplete(w) ==> Assembled(windows + [w]) == Ok(s.Whole())
  {
    CipherAppend(windows, w, 0);
    assert s.bytes[..o] + s.bytes[o..s.next(o)] == s.bytes[..s.next(o)];
    if IsComplete(w) {
      GatherIsCipher(windows, w, 0);
      assert s.bytes[..|s.bytes|] == s.bytes;
    }
  }

  lemma {:induction false} PageHonest(node: Responder, history: seq<Call>, req: Request, s: Served,
                                      windows: seq<Value>, o: nat)
    requires s.Valid() && HoldUpTo(windows, s, o) && HonestFrom(node, history, req, s, o, |windows|)
    ensures Page(node, history, req, windows, o).result
            == if |windows| + s.Count(o) <= MAX_CONTENT_WINDOWS then Ok(s.Whole()) else Err(Malformed(WindowCap))
    decreases |s.bytes| - o
  {
    if |windows| < MAX_CONTENT_WINDOWS {
      var asked := history + [CallAt(req, o)];
      var w := node(asked).value;
      HoldNext(windows, s, o, w);
      if !IsComplete(w) {
        PageHonest(node, asked, req, s, windows + [w], s.next(o));
      }
    }
  }

  /**
   Against a node that is honest about a resource in the calls of this fetch, the fetch returns
   exactly that resource when it has at most 100000 windows, and refuses it otherwise.
   */
  lemma FetchHonest(node: Responder, history: seq<Call>, req: Request, s: Served)
    requires Honest(node, history, req, s)
    ensures Fetched(node, history, req).result
            == if s.Count(0) <= 100_000 then Ok(s.Whole()) else Err(Malformed(WindowCap))
  {
    assert s.bytes[..0] == [];
    PageHonest(node, history, req, s, [], 0);
  }

  // -- what is accepted, and how a fetch fails -------------------------------------------------

  /** All windows but the last are incomplete and the last is complete. */
  predicate CompletesLast(windows: seq<Value>) {
    windows != [] && AllIncomplete(windows[..|windows| - 1]) && IsComplete(windows[|windows| - 1])
  }

  lemma {:induction false} GathersExactly(windows: seq<Value>, i: nat)
    requires i <= |windows|
    ensures Gather(windows, i).Ok?
            <==> forall k :: i <= k < |windows| ==>
                   windows[k].ciphertext.Bytes? && (IsComplete(windows[k]) <==> k == |windows| - 1)
    decreases |windows| - i
  {
    if i < |windows| {
      GathersExactly(windows, i + 1);
    }
  }

  /**
   Reassembly in full: windows are accepted exactly when the first carries the proof, the lengths and
   the root, each carries a ciphertext, and the last and only the last is complete; what comes out is
   the first window's fields with the ciphertexts end to end.
   */
  lemma AssemblesExactly(windows: seq<Value>, f: FetchedContent)
    ensures Assembled(windows) == Ok(f)
            <==> && CompletesLast(windows) && AllBytes(windows)
                 && windows[0].inclusionProof == Some(f.inclusionProof)
                 && FirstLens(windows[0].chunkLens) == Ok(f.chunkLens)
                 && windows[0].root == Some(f.rootHex)
                 && f.ciphertext == CipherFrom(windows, 0)
  {
    if windows != [] {
      var n := |windows| - 1;
      GathersExactly(windows, 0);
      assert windows == windows[..n] + [windows[n]];
      if CompletesLast(windows) && AllBytes(windows) {
        GatherIsCipher(windows[..n], windows[n], 0);
      }
      if Gather(windows, 0).Ok? {
        assert CompletesLast(windows) && AllBytes(windows);
      }
    }
  }

  /** The lengths are an array of numbers, all of them. */
  lemma {:induction false} LensAre(entries: seq<Option<u64>>, lens: seq<u64>)
    ensures Lens(entries) == Some(lens)
            <==> |entries| == |lens| && forall i :: 0 <= i < |lens| ==> entries[i] == Some(lens[i])
    decreases |entries|
  {
    if entries != [] && lens != [] {
      LensAre(entries[1..], lens[1..]);
      assert lens == [lens[0]] + lens[1..];
      assert |entries| == |lens| ==> forall i :: 0 <= i < |lens| - 1 ==> entries[1..][i] == entries[i + 1];
      assert forall i :: 0 <= i < |lens| - 1 ==> lens[1..][i] == lens[i + 1];
    }
  }

  /** The result by the last reply: what was answered instead of a window, or what the windows make. */
  predicate EndsAsAnswered(f: Fetch, reply: Reply) {
    match reply
    case RpcError(code, dataCode) => f.result == Err(Rpc(code, dataCode))
    case Neither => f.result == Err(Malformed(NoResult))
    case Unreachable => f.result == Err(Transport)
    case Answer(w) =>
      if IsComplete(w) then
        f.windows != [] && f.windows[|f.windows| - 1] == w && f.result == Assembled(f.windows)
      else f.result == Err(Malformed(NotAdvancing)) || f.result == Err(Malformed(WindowCap))
  }

  lemma {:induction false} PageEnds(node: Responder, history: seq<Call>, req: Request, windows: seq<Value>, offset: u64)
    requires |windows| < MAX_CONTENT_WINDOWS
    ensures var f := Page(node, history, req, windows, offset); EndsAsAnswered(f, node(f.history))
    decreases MAX_CONTENT_WINDOWS - |windows|
  {
    var asked := history + [CallAt(req, offset)];
    var outcome := Outcome(node(asked));
    if outcome.Ok? && !IsComplete(outcome.value)
       && outcome.value.nextOffset.Some? && outcome.value.nextOffset.value > offset
       && |windows| + 1 < MAX_CONTENT_WINDOWS {
      PageEnds(node, asked, req, windows + [outcome.value], outcome.value.nextOffset.value);
    }
  }

  /**
   How a fetch ends: when the last call was not answered by a window, with exactly what it was answered
   by; when it was answered by an incomplete one, as malformed; and else by reassembly.
   */
  lemma FetchEnds(node: Responder, history: seq<Call>, req: Request)
    ensures var f := Fetched(node, history, req); EndsAsAnswered(f, node(f.history))
  {
    PageEnds(node, history, req, [], 0);
  }

  /** A root is read exactly from a reply that carries 64 hexadecimal digits as its root. */
  lemma RootIsRead(reply: Reply, root: string)
    ensures RootOf(Outcome(reply)) == Ok(root)
            <==> && reply.Answer? && reply.value.root == Some(root)
                 && |root| == 64 && forall i :: 0 <= i < 64 ==> IsHex(root[i])
    ensures reply.RpcError? ==> RootOf(Outcome(reply)) == Err(Rpc(reply.code, reply.dataCode))
    ensures reply.Unreachable? ==> RootOf(Outcome(reply)) == Err(Transport)
  {
  }
}
