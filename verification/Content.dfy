/**
 The read path over served ciphertext: verify it against the trusted root, then decrypt it chunk
 by chunk. Hashing, proof folding, key derivation and the cipher belong to another library; they
 are the functions of a `Crypto` value, so every statement holds for all of them.
 */
module Content {
  import opened Prelude
  import Label
  import Text

  const DEFAULT_RESOURCE_KEY := "index.html"

  datatype Proof = Proof(leaf: seq<byte>, root: seq<byte>, path: seq<seq<byte>>)

  datatype Crypto = Crypto(
    resourceLeaf: seq<byte> -> seq<byte>,
    decodeProof: string -> Option<Proof>,
    folds: Proof -> bool,
    retrievalKey: (seq<byte>, string) -> string,
    deriveKey: (seq<byte>, string) -> seq<byte>,
    open: (seq<byte>, seq<byte>) -> Option<seq<byte>>)

  datatype ContentError =
    | InvalidPath
    | BadStoreId
    | BadRoot
    | BadProof
    | ProofLeafMismatch
    | ProofFoldMismatch
    | RootMismatch
    | ChunkLenMismatch(got: nat, expected: nat)
    | Decrypt

  // -- paths -----------------------------------------------------------------------------------

  predicate BadPathChar(c: char) {
    c == '\\' || c as int < 0x20
  }

  function ResourceKeyForPath(path: string): Result<string, ContentError> {
    KeyForRest(if path != "" && path[0] == '/' then path[1..] else path)
  }

  function KeyForRest(trimmed: string): Result<string, ContentError> {
    if trimmed == "" then Ok(DEFAULT_RESOURCE_KEY)
    else if exists i :: 0 <= i < |trimmed| && BadPathChar(trimmed[i]) then Err(InvalidPath)
    else if "." in Text.Split(trimmed, '/') || ".." in Text.Split(trimmed, '/') then Err(InvalidPath)
    else Ok(trimmed)
  }

  /** The last piece of the path has no dot. */
  predicate IsExtensionless(path: string) {
    var pieces := Text.Split(path, '/');
    '.' !in pieces[|pieces| - 1]
  }

  /** Between slashes, or an end and a slash, the text has this piece. */
  ghost predicate HasPiece(s: string, piece: string) {
    exists pre, post :: IsBetween(s, pre, piece, post)
  }

  predicate IsBetween(s: string, pre: string, piece: string, post: string) {
    s == pre + piece + post && EndsAtSlash(pre) && StartsAtSlash(post)
  }

  predicate EndsAtSlash(pre: string) {
    pre == "" || pre[|pre| - 1] == '/'
  }

  predicate StartsAtSlash(post: string) {
    post == "" || post[0] == '/'
  }

  /** A resource key a path may name: no backslash, no control character, no dot or dot-dot piece. */
  ghost predicate IsKey(key: string) {
    && key != ""
    && (forall i :: 0 <= i < |key| ==> key[i] != '\\' && key[i] as int >= 0x20)
    && !HasPiece(key, ".") && !HasPiece(key, "..")
  }

  /** The path is the text, with at most one slash in front. */
  predicate Strips(path: string, rest: string) {
    path == "/" + rest || (path == rest && (rest == "" || rest[0] != '/'))
  }

  /** The path names the resource key; the empty path names the index. */
  ghost predicate Addresses(path: string, key: string) {
    (Strips(path, "") && key == "index.html") || (Strips(path, key) && IsKey(key))
  }

  lemma {:induction false} PieceIsInSplit(s: string, piece: string)
    requires '/' !in piece
    ensures piece in Text.Split(s, '/') <==> HasPiece(s, piece)
    decreases |s|
  {
    var first := Text.Before(s, '/');
    if '/' !in s {
      WholeIsPiece(s, piece);
    } else {
      var rest := s[|first| + 1..];
      PieceIsInSplit(rest, piece);
      assert s == first + "/" + rest;
      FirstOrLater(first, rest, piece);
    }
  }

  lemma WholeIsPiece(s: string, piece: string)
    requires '/' !in s
    ensures Text.Split(s, '/') == [s]
    ensures HasPiece(s, piece) <==> s == piece
  {
    if HasPiece(s, piece) {
      var pre, post :| IsBetween(s, pre, piece, post);
      SlashIsIn(s, pre, piece, post);
    }
    assert s == piece ==> IsBetween(s, "", piece, "");
  }

  lemma SlashIsIn(s: string, pre: string, piece: string, post: string)
    requires IsBetween(s, pre, piece, post)
    ensures pre != "" || post != "" ==> '/' in s
  {
    if pre != "" {
      assert s[|pre| - 1] == '/';
    } else if post != "" {
      assert s[|piece|] == '/';
    }
  }

  /** A piece of a text is what stands before its first slash, or a piece of what stands behind. */
  lemma FirstOrLater(first: string, rest: string, piece: string)
    requires '/' !in first && '/' !in piece
    ensures HasPiece(first + "/" + rest, piece) <==> piece == first || HasPiece(rest, piece)
  {
    var s := first + "/" + rest;
    if HasPiece(s, piece) {
      var pre, post :| IsBetween(s, pre, piece, post);
      PieceSplits(first, rest, piece, pre, post);
    }
    if piece == first {
      assert IsBetween(s, "", piece, "/" + rest);
    }
    if HasPiece(rest, piece) {
      var pre, post :| IsBetween(rest, pre, piece, post);
      assert s == (first + "/" + pre) + piece + post;
      assert IsBetween(s, first + "/" + pre, piece, post);
    }
  }

  lemma PieceSplits(first: string, rest: string, piece: string, pre: string, post: string)
    requires '/' !in first && '/' !in piece && EndsAtSlash(pre) && StartsAtSlash(post)
    requires first + "/" + rest == pre + piece + post
    ensures piece == first || HasPiece(rest, piece)
  {
    var s := first + "/" + rest;
    if pre == "" {
      FirstSlash(first, rest, piece, post);
    } else {
      assert s[|pre| - 1] == '/';
      assert |pre| > |first|;
      var behind := pre[|first| + 1..];
      assert pre == s[..|pre|] && s[|first| + 1..] == rest;
      assert rest == behind + piece + post;
      assert IsBetween(rest, behind, piece, post);
    }
  }

  lemma FirstSlash(first: string, rest: string, piece: string, post: string)
    requires '/' !in first && '/' !in piece && StartsAtSlash(post) && first + "/" + rest == "" + piece + post
    ensures piece == first
  {
    var s := piece + post;
    assert s == first + "/" + rest;
    assert s[|first|] == '/' && (post != "" ==> s[|piece|] == '/');
    assert forall i :: 0 <= i < |first| ==> s[i] == first[i];
    assert forall i :: 0 <= i < |piece| ==> s[i] == piece[i];
    assert piece == s[..|piece|] && first == s[..|first|];
  }

  /**
   Paths and resource keys: a path names a key exactly when it is the key with at most one slash in
   front, the key being free of what is refused, or names nothing and so the index; every other path
   is refused.
   */
  lemma PathNamesKey(path: string, key: string)
    ensures ResourceKeyForPath(path) == Ok(key) <==> Addresses(path, key)
    ensures ResourceKeyForPath(path).Err? <==> forall k :: !Addresses(path, k)
  {
    var rest := Stripped(path);
    RestIsKey(rest);
    assert ResourceKeyForPath(path).Ok? ==> Addresses(path, if rest == "" then "index.html" else rest);
  }

  function Stripped(path: string): (rest: string)
    ensures forall k :: Strips(path, k) <==> k == rest
    ensures ResourceKeyForPath(path) == KeyForRest(rest)
  {
    if path != "" && path[0] == '/' then
      assert forall k :: path == "/" + k ==> k == path[1..];
      assert path == "/" + path[1..];
      path[1..]
    else path
  }

  lemma RestIsKey(rest: string)
    ensures KeyForRest(rest)
            == if rest == "" then Ok("index.html") else if IsKey(rest) then Ok(rest) else Err(InvalidPath)
  {
    PieceIsInSplit(rest, ".");
    PieceIsInSplit(rest, "..");
    if i :| 0 <= i < |rest| && BadPathChar(rest[i]) {
      assert !IsKey(rest);
    } else {
      assert forall i :: 0 <= i < |rest| ==> !BadPathChar(rest[i]);
    }
  }

  /** Every dot of the path has a slash behind it. */
  ghost predicate EndsDotless(path: string) {
    forall i :: 0 <= i < |path| && path[i] == '.' ==> exists j :: i < j < |path| && path[j] == '/'
  }

  lemma {:induction false} ExtensionlessMeans(path: string)
    ensures IsExtensionless(path) <==> EndsDotless(path)
    decreases |path|
  {
    if '/' in path {
      var rest := LastIsBehind(path);
      ExtensionlessMeans(rest);
    } else {
      DotlessWithoutSlash(path);
    }
  }

  /** What stands behind the first slash decides. */
  lemma LastIsBehind(path: string) returns (rest: string)
    requires '/' in path
    ensures |rest| < |path|
    ensures IsExtensionless(path) <==> IsExtensionless(rest)
    ensures EndsDotless(path) <==> EndsDotless(rest)
  {
    var first := Text.Before(path, '/');
    Text.SplitStep(path, '/');
    rest := path[|first| + 1..];
    LastOfSplit(path, first, rest);
    DotlessBehind(path, first, rest);
  }

  lemma LastOfSplit(path: string, first: string, rest: string)
    requires Text.Split(path, '/') == [first] + Text.Split(rest, '/')
    ensures IsExtensionless(path) <==> IsExtensionless(rest)
  {
  }

  lemma DotlessWithoutSlash(path: string)
    requires '/' !in path
    ensures IsExtensionless(path) <==> EndsDotless(path)
  {
    assert Text.Split(path, '/') == [path];
  }

  lemma DotlessBehind(path: string, first: string, rest: string)
    requires path == first + ['/'] + rest
    ensures EndsDotless(path) <==> EndsDotless(rest)
  {
    var k := |first| + 1;
    assert forall i :: 0 <= i < |rest| ==> path[k + i] == rest[i];
    if EndsDotless(path) {
      forall i | 0 <= i < |rest| && rest[i] == '.' ensures exists j :: i < j < |rest| && rest[j] == '/' {
        assert path[k + i] == '.';
        var j :| k + i < j < |path| && path[j] == '/';
        assert rest[j - k] == '/';
      }
    }
    if EndsDotless(rest) {
      forall i | 0 <= i < |path| && path[i] == '.' ensures exists j :: i < j < |path| && path[j] == '/' {
        if i < |first| {
          assert path[|first|] == '/';
        } else {
          assert rest[i - k] == '.';
          var j :| i - k < j < |rest| && rest[j] == '/';
          assert path[k + j] == '/';
        }
      }
    }
  }

  // -- keys ------------------------------------------------------------------------------------

  function FromHex(s: string): Option<seq<byte>> {
    if |s| != 64 then None else Label.HexDecode(s)
  }

  /** An empty key names the default resource. */
  function CanonicalKey(resourceKey: string): string {
    if resourceKey == "" then DEFAULT_RESOURCE_KEY else resourceKey
  }

  function RetrievalKeyHex(c: Crypto, store: string, resourceKey: string): Result<string, ContentError> {
    match FromHex(store)
    case None => Err(BadStoreId)
    case Some(id) => Ok(c.retrievalKey(id, CanonicalKey(resourceKey)))
  }

  // -- verify, then decrypt --------------------------------------------------------------------

  /** What is asked of a served ciphertext. */
  datatype Claim = Claim(
    store: string, resourceKey: string, ciphertext: seq<byte>, proof: string, trustedRoot: string, chunkLens: seq<u64>)

  /** The integrity gate: the first check that fails. */
  function GateError(c: Crypto, claim: Claim): Option<ContentError> {
    var trusted := FromHex(claim.trustedRoot);
    var proof := c.decodeProof(claim.proof);
    if FromHex(claim.store).None? then Some(BadStoreId)
    else if trusted.None? then Some(BadRoot)
    else if proof.None? then Some(BadProof)
    else if c.resourceLeaf(claim.ciphertext) != proof.value.leaf then Some(ProofLeafMismatch)
    else if !c.folds(proof.value) then Some(ProofFoldMismatch)
    else if proof.value.root != trusted.value then Some(RootMismatch)
    else None
  }

  function Sum(plan: seq<nat>): nat {
    if plan == [] then 0 else plan[0] + Sum(plan[1..])
  }

  function Plan(claim: Claim): (plan: seq<nat>)
    ensures plan != []
  {
    if claim.chunkLens == [] then [|claim.ciphertext|]
    else seq(|claim.chunkLens|, i requires 0 <= i < |claim.chunkLens| => claim.chunkLens[i])
  }

  /** Cutting the ciphertext by the plan and opening each piece under one key. */
  function OpenAll(c: Crypto, key: seq<byte>, ct: seq<byte>, plan: seq<nat>): Option<seq<byte>>
    requires Sum(plan) == |ct|
  {
    if plan == [] then Some([])
    else
      var head := c.open(key, ct[..plan[0]]);
      var rest := OpenAll(c, key, ct[plan[0]..], plan[1..]);
      if head.None? || rest.None? then None else Some(head.value + rest.value)
  }

  function KeyOf(c: Crypto, claim: Claim): seq<byte>
    requires FromHex(claim.store).Some?
  {
    c.deriveKey(FromHex(claim.store).value, CanonicalKey(claim.resourceKey))
  }

  /** The plaintext of a claim, or why there is none. */
  function Decrypted(c: Crypto, claim: Claim): Result<seq<byte>, ContentError> {
    var gate := GateError(c, claim);
    if gate.Some? then Err(gate.value)
    else if Sum(Plan(claim)) > U64_MAX then Err(ChunkLenMismatch(|claim.ciphertext|, U64_MAX))
    else if Sum(Plan(claim)) != |claim.ciphertext| then
      Err(ChunkLenMismatch(|claim.ciphertext|, Sum(Plan(claim))))
    else match OpenAll(c, KeyOf(c, claim), claim.ciphertext, Plan(claim))
      case None => Err(Decrypt)
      case Some(plaintext) => Ok(plaintext)
  }

  lemma {:induction false} SumSplit(plan: seq<nat>, i: nat)
    requires i <= |plan|
    ensures Sum(plan) == Sum(plan[..i]) + Sum(plan[i..])
  {
    if i == 0 {
      assert plan[..0] == [] && plan[0..] == plan;
    } else {
      SumSplit(plan[1..], i - 1);
      assert plan[1..][..i - 1] == plan[..i][1..];
      assert plan[1..][i - 1..] == plan[i..];
    }
  }

  lemma SumStep(plan: seq<nat>, i: nat)
    requires i < |plan|
    ensures Sum(plan[..i + 1]) == Sum(plan[..i]) + plan[i]
    ensures Sum(plan[i..]) == plan[i] + Sum(plan[i + 1..])
    ensures Sum(plan[..i + 1]) <= Sum(plan)
  {
    SumSplit(plan[..i + 1], i);
    assert plan[..i + 1][..i] == plan[..i];
    assert plan[..i + 1][i..] == [plan[i]];
    assert Sum([plan[i]]) == plan[i];
    assert plan[i..][1..] == plan[i + 1..];
    SumSplit(plan, i + 1);
  }

  /** The running sum with a check at each addition. */
  method CheckedTotal(plan: seq<nat>) returns (total: Option<nat>)
    ensures total == if Sum(plan) > U64_MAX then None else Some(Sum(plan))
  {
    var t: nat := 0;
    for i := 0 to |plan|
      invariant t == Sum(plan[..i]) <= U64_MAX
    {
      SumStep(plan, i);
      if t + plan[i] > U64_MAX {
        return None;
      }
      t := t + plan[i];
    }
    assert plan[..|plan|] == plan;
    return Some(t);
  }

  function Prefixed(head: seq<byte>, rest: Option<seq<byte>>): Option<seq<byte>> {
    if rest.None? then None else Some(head + rest.value)
  }

  /** The decryption loop. */
  method OpenChunks(c: Crypto, key: seq<byte>, ct: seq<byte>, plan: seq<nat>) returns (r: Option<seq<byte>>)
    requires Sum(plan) == |ct|
    ensures r == OpenAll(c, key, ct, plan)
  {
    var plaintext: seq<byte> := [];
    var p: nat := 0;
    assert plan[0..] == plan && ct[0..] == ct;
    ghost var all := OpenAll(c, key, ct, plan);
    assert all.Some? ==> [] + all.value == all.value;
    for i := 0 to |plan|
      invariant p + Sum(plan[i..]) == |ct|
      invariant all == Prefixed(plaintext, OpenAll(c, key, ct[p..], plan[i..]))
    {
      SumStep(plan, i);
      var len := plan[i];
      var piece := ct[p..p + len];
      var pt := c.open(key, piece);
      assert ct[p..][..len] == piece && ct[p..][len..] == ct[p + len..] && plan[i..][1..] == plan[i + 1..];
      if pt.None? {
        return None;
      }
      ghost var rest := OpenAll(c, key, ct[p + len..], plan[i + 1..]);
      assert rest.Some? ==> plaintext + (pt.value + rest.value) == (plaintext + pt.value) + rest.value;
      p := p + len;
      plaintext := plaintext + pt.value;
    }
    assert plaintext + [] == plaintext;
    return Some(plaintext);
  }

  method VerifyAndDecrypt(c: Crypto, claim: Claim) returns (r: Result<seq<byte>, ContentError>)
    ensures r == Decrypted(c, claim)
  {
    var gate := GateError(c, claim);
    if gate.Some? {
      return Err(gate.value);
    }
    var key := KeyOf(c, claim);
    var plan := Plan(claim);
    var total := CheckedTotal(plan);
    if total.None? {
      return Err(ChunkLenMismatch(|claim.ciphertext|, U64_MAX));
    }
    if total.value != |claim.ciphertext| {
      return Err(ChunkLenMismatch(|claim.ciphertext|, total.value));
    }
    var plain := OpenChunks(c, key, claim.ciphertext, plan);
    if plain.None? {
      return Err(Decrypt);
    }
    return Ok(plain.value);
  }

  // -- what acceptance means -------------------------------------------------------------------

  /** Pieces of the given lengths, end to end, are the whole. */
  function Pieces(ct: seq<byte>, plan: seq<nat>): (ps: seq<seq<byte>>)
    requires Sum(plan) == |ct|
    ensures |ps| == |plan|
  {
    if plan == [] then [] else [ct[..plan[0]]] + Pieces(ct[plan[0]..], plan[1..])
  }

  function Concat(parts: seq<seq<byte>>): seq<byte> {
    if parts == [] then [] else parts[0] + Concat(parts[1..])
  }

  lemma {:induction false} PiecesPartition(ct: seq<byte>, plan: seq<nat>)
    requires Sum(plan) == |ct|
    ensures Concat(Pieces(ct, plan)) == ct
    ensures forall i :: 0 <= i < |plan| ==> |Pieces(ct, plan)[i]| == plan[i]
  {
    if plan != [] {
      PiecesPartition(ct[plan[0]..], plan[1..]);
      assert Pieces(ct, plan)[1..] == Pieces(ct[plan[0]..], plan[1..]);
      assert ct[..plan[0]] + ct[plan[0]..] == ct;
      forall i | 0 <= i < |plan| ensures |Pieces(ct, plan)[i]| == plan[i] {
        if i > 0 {
          assert Pieces(ct, plan)[i] == Pieces(ct[plan[0]..], plan[1..])[i - 1];
        }
      }
    }
  }

  /** Every piece opens, to the plaintext listed beside it. */
  ghost predicate OpensTo(c: Crypto, key: seq<byte>, pieces: seq<seq<byte>>, plains: seq<seq<byte>>) {
    |plains| == |pieces| && forall i :: 0 <= i < |pieces| ==> c.open(key, pieces[i]) == Some(plains[i])
  }

  lemma {:induction false} OpenAllIs(c: Crypto, key: seq<byte>, ct: seq<byte>, plan: seq<nat>, plains: seq<seq<byte>>)
    requires Sum(plan) == |ct| && OpensTo(c, key, Pieces(ct, plan), plains)
    ensures OpenAll(c, key, ct, plan) == Some(Concat(plains))
  {
    if plan != [] {
      var pieces, rest := Pieces(ct, plan), Pieces(ct[plan[0]..], plan[1..]);
      assert pieces[0] == ct[..plan[0]];
      forall i | 0 <= i < |rest| ensures c.open(key, rest[i]) == Some(plains[1..][i]) {
        assert rest[i] == pieces[i + 1];
      }
      OpenAllIs(c, key, ct[plan[0]..], plan[1..], plains[1..]);
    }
  }

  lemma {:induction false} OpenAllOpens(c: Crypto, key: seq<byte>, ct: seq<byte>, plan: seq<nat>)
    returns (plains: seq<seq<byte>>)
    requires Sum(plan) == |ct| && OpenAll(c, key, ct, plan).Some?
    ensures OpensTo(c, key, Pieces(ct, plan), plains)
    ensures OpenAll(c, key, ct, plan) == Some(Concat(plains))
  {
    if plan == [] {
      plains := [];
    } else {
      var rest := OpenAllOpens(c, key, ct[plan[0]..], plan[1..]);
      var head := c.open(key, ct[..plan[0]]).value;
      plains := [head] + rest;
      var pieces := Pieces(ct, plan);
      forall i | 0 <= i < |pieces| ensures c.open(key, pieces[i]) == Some(plains[i]) {
        assert i > 0 ==> pieces[i] == Pieces(ct[plan[0]..], plan[1..])[i - 1] && plains[i] == rest[i - 1];
      }
      assert plains[1..] == rest;
    }
  }

  /** The served octets are the leaf of a proof that folds to the trusted root. */
  predicate Committed(c: Crypto, ct: seq<byte>, proof: string, trustedRoot: string) {
    var p := c.decodeProof(proof);
    && p.Some?
    && c.resourceLeaf(ct) == p.value.leaf
    && c.folds(p.value)
    && FromHex(trustedRoot) == Some(p.value.root)
  }

  /**
   Acceptance is fail-closed: a plaintext comes out only if the ciphertext is committed under the
   trusted root, the chunk lengths partition it exactly, and every piece opens under the one key;
   the plaintext is then the opened pieces end to end.
   */
  lemma AcceptedMeans(c: Crypto, claim: Claim) returns (plains: seq<seq<byte>>)
    requires Decrypted(c, claim).Ok?
    ensures FromHex(claim.store).Some?
    ensures Committed(c, claim.ciphertext, claim.proof, claim.trustedRoot)
    ensures Sum(Plan(claim)) == |claim.ciphertext|
    ensures Concat(Pieces(claim.ciphertext, Plan(claim))) == claim.ciphertext
    ensures OpensTo(c, KeyOf(c, claim), Pieces(claim.ciphertext, Plan(claim)), plains)
    ensures Decrypted(c, claim) == Ok(Concat(plains))
  {
    PiecesPartition(claim.ciphertext, Plan(claim));
    plains := OpenAllOpens(c, KeyOf(c, claim), claim.ciphertext, Plan(claim));
  }

  /** A chunk plan whose lengths do not add up to the ciphertext, by overflow or otherwise, is refused. */
  lemma BadPlanIsRefused(c: Crypto, claim: Claim)
    requires GateError(c, claim).None? && |claim.ciphertext| <= U64_MAX
    ensures Decrypted(c, claim).Err? && Decrypted(c, claim).error.ChunkLenMismatch?
            <==> Sum(Plan(claim)) != |claim.ciphertext|
  {
    var plan := Plan(claim);
    if Sum(plan) == |claim.ciphertext| {
      assert Decrypted(c, claim).Ok? || Decrypted(c, claim) == Err(Decrypt);
    }
  }

  // -- sealing ---------------------------------------------------------------------------------

  function SealAll(seal: (seq<byte>, seq<byte>) -> seq<byte>, key: seq<byte>,
                   chunks: seq<seq<byte>>): (ss: seq<seq<byte>>)
    ensures |ss| == |chunks| && forall i :: 0 <= i < |chunks| ==> ss[i] == seal(key, chunks[i])
  {
    seq(|chunks|, i requires 0 <= i < |chunks| => seal(key, chunks[i]))
  }

  function Lengths(parts: seq<seq<byte>>): (ls: seq<nat>)
    ensures |ls| == |parts| && forall i :: 0 <= i < |parts| ==> ls[i] == |parts[i]|
  {
    seq(|parts|, i requires 0 <= i < |parts| => |parts[i]|)
  }

  lemma {:induction false} PiecesOfConcat(parts: seq<seq<byte>>)
    ensures Sum(Lengths(parts)) == |Concat(parts)|
    ensures Pieces(Concat(parts), Lengths(parts)) == parts
  {
    if parts != [] {
      PiecesOfConcat(parts[1..]);
      assert Lengths(parts)[1..] == Lengths(parts[1..]);
      var all := Concat(parts);
      assert all[..|parts[0]|] == parts[0] && all[|parts[0]|..] == Concat(parts[1..]);
      assert parts == [parts[0]] + parts[1..];
    }
  }

  /**
   Decryption inverts sealing: a non-empty list of chunks sealed under the resource's key and laid
   end to end, with its lengths and a proof accepted under the trusted root, decrypts to the chunks
   laid end to end.
   */
  lemma DecryptInvertsSeal(c: Crypto, seal: (seq<byte>, seq<byte>) -> seq<byte>, claim: Claim, chunks: seq<seq<byte>>)
    requires forall k, x :: c.open(k, seal(k, x)) == Some(x)
    requires chunks != [] && FromHex(claim.store).Some?
    requires claim.ciphertext == Concat(SealAll(seal, KeyOf(c, claim), chunks))
    requires |claim.ciphertext| <= U64_MAX
    requires claim.chunkLens == Lengths(SealAll(seal, KeyOf(c, claim), chunks))
    requires Committed(c, claim.ciphertext, claim.proof, claim.trustedRoot)
    ensures Decrypted(c, claim) == Ok(Concat(chunks))
  {
    var key := KeyOf(c, claim);
    var seals := SealAll(seal, key, chunks);
    PiecesOfConcat(seals);
    assert Plan(claim) == Lengths(seals);
    forall i | 0 <= i < |seals| ensures c.open(key, seals[i]) == Some(chunks[i]) {
      assert seals[i] == seal(key, chunks[i]);
    }
    OpenAllIs(c, key, claim.ciphertext, Plan(claim), chunks);
  }

  /** Without lengths the whole ciphertext is one chunk. */
  lemma DecryptInvertsOneSeal(c: Crypto, seal: (seq<byte>, seq<byte>) -> seq<byte>, claim: Claim, chunk: seq<byte>)
    requires forall k, x :: c.open(k, seal(k, x)) == Some(x)
    requires FromHex(claim.store).Some? && claim.chunkLens == []
    requires claim.ciphertext == seal(KeyOf(c, claim), chunk) && |claim.ciphertext| <= U64_MAX
    requires Committed(c, claim.ciphertext, claim.proof, claim.trustedRoot)
    ensures Decrypted(c, claim) == Ok(chunk)
  {
    var ct := claim.ciphertext;
    assert Plan(claim) == [|ct|];
    PiecesOfConcat([ct]);
    assert Concat([ct]) == ct && Lengths([ct]) == [|ct|];
    OpenAllIs(c, KeyOf(c, claim), ct, [|ct|], [chunk]);
    assert Concat([chunk]) == chunk;
  }

  // -- the verdict on a claim, by what it is about ---------------------------------------------

  /** The ciphertext cut by the given lengths; without lengths it is one piece. */
  predicate IsCut(ct: seq<byte>, lens: seq<u64>, pieces: seq<seq<byte>>) {
    && Concat(pieces) == ct
    && if lens == [] then |pieces| == 1
       else |pieces| == |lens| && forall i :: 0 <= i < |lens| ==> |pieces[i]| == lens[i]
  }

  /** The ciphertext is committed under the root and the lengths cut it. */
  ghost predicate IsSound(c: Crypto, ct: seq<byte>, proof: string, root: string, lens: seq<u64>) {
    && Committed(c, ct, proof, root)
    && |ct| <= U64_MAX && exists pieces :: IsCut(ct, lens, pieces)
  }

  predicate SomeCloses(c: Crypto, key: seq<byte>, pieces: seq<seq<byte>>) {
    exists i :: 0 <= i < |pieces| && c.open(key, pieces[i]) == None
  }

  lemma CutIsPieces(claim: Claim, pieces: seq<seq<byte>>)
    requires IsCut(claim.ciphertext, claim.chunkLens, pieces)
    ensures Sum(Plan(claim)) == |claim.ciphertext| && Pieces(claim.ciphertext, Plan(claim)) == pieces
  {
    PiecesOfConcat(pieces);
    if claim.chunkLens == [] {
      assert pieces == [pieces[0]] && Concat([pieces[0]]) == pieces[0];
    }
    assert Lengths(pieces) == Plan(claim);
  }

  lemma PlanCuts(claim: Claim)
    requires Sum(Plan(claim)) == |claim.ciphertext|
    ensures IsCut(claim.ciphertext, claim.chunkLens, Pieces(claim.ciphertext, Plan(claim)))
  {
    PiecesPartition(claim.ciphertext, Plan(claim));
  }

  lemma GatePasses(c: Crypto, claim: Claim)
    requires FromHex(claim.store).Some?
    ensures GateError(c, claim).None? <==> Committed(c, claim.ciphertext, claim.proof, claim.trustedRoot)
    ensures GateError(c, claim) != Some(Decrypt)
  {
  }

  /**
   The verdict in full: refused for its integrity exactly when it is not sound; otherwise refused as
   not to be decrypted exactly when some piece does not open under the key derived for the store and
   the resource, and else the opened pieces end to end.
   */
  lemma VerdictIs(c: Crypto, claim: Claim, id: seq<byte>)
    requires FromHex(claim.store) == Some(id) && claim.resourceKey != ""
    ensures var r, key := Decrypted(c, claim), c.deriveKey(id, claim.resourceKey);
            && (r.Err? && r.error != Decrypt
                <==> !IsSound(c, claim.ciphertext, claim.proof, claim.trustedRoot, claim.chunkLens))
            && (r == Err(Decrypt) ==>
                  forall pieces :: IsCut(claim.ciphertext, claim.chunkLens, pieces) ==> SomeCloses(c, key, pieces))
            && (r.Ok? ==>
                  forall pieces :: IsCut(claim.ciphertext, claim.chunkLens, pieces) ==>
                    exists plains :: OpensTo(c, key, pieces, plains) && r == Ok(Concat(plains)))
  {
    var key := c.deriveKey(id, claim.resourceKey);
    GatePasses(c, claim);
    SoundMeansPlanned(c, claim);
    forall pieces | IsCut(claim.ciphertext, claim.chunkLens, pieces) && Decrypted(c, claim) == Err(Decrypt)
      ensures SomeCloses(c, key, pieces)
    {
      CutIsPieces(claim, pieces);
      if !SomeCloses(c, key, pieces) {
        AllOpen(c, key, pieces, claim);
      }
    }
    forall pieces | IsCut(claim.ciphertext, claim.chunkLens, pieces) && Decrypted(c, claim).Ok?
      ensures exists plains :: OpensTo(c, key, pieces, plains) && Decrypted(c, claim) == Ok(Concat(plains))
    {
      CutIsPieces(claim, pieces);
      var plains := AcceptedMeans(c, claim);
    }
  }

  lemma SoundMeansPlanned(c: Crypto, claim: Claim)
    ensures IsSound(c, claim.ciphertext, claim.proof, claim.trustedRoot, claim.chunkLens)
            <==> && Committed(c, claim.ciphertext, claim.proof, claim.trustedRoot)
                 && Sum(Plan(claim)) == |claim.ciphertext| <= U64_MAX
  {
    if pieces :| IsCut(claim.ciphertext, claim.chunkLens, pieces) {
      CutIsPieces(claim, pieces);
    }
    if Sum(Plan(claim)) == |claim.ciphertext| {
      PlanCuts(claim);
    }
  }

  lemma AllOpen(c: Crypto, key: seq<byte>, pieces: seq<seq<byte>>, claim: Claim)
    requires Sum(Plan(claim)) == |claim.ciphertext| && pieces == Pieces(claim.ciphertext, Plan(claim))
    requires !SomeCloses(c, key, pieces)
    ensures OpenAll(c, key, claim.ciphertext, Plan(claim)).Some?
  {
    var plains := seq(|pieces|, i requires 0 <= i < |pieces| =>
      if c.open(key, pieces[i]).Some? then c.open(key, pieces[i]).value else []);
    assert OpensTo(c, key, pieces, plains);
    OpenAllIs(c, key, claim.ciphertext, Plan(claim), plains);
  }
}
