/**
 The codec between a 32-octet store id and its DNS name: unpadded lowercase base32, section 6
 of RFC 4648, as a regrouping of bits, with the decoder refusing non-zero trailing bits (section
 3.5 of RFC 4648).
 */
module Label {
  import opened Prelude
  import opened Text

  const STORE_ID_LEN: nat := 32
  const LABEL_LEN: nat := 52

  datatype LabelError =
    | WrongLabelLength(got: nat)
    | NotBase32
    | WrongDecodedLength(got: nat)
    | WrongHexLength(got: nat)
    | NotHex

  type StoreId = id: seq<byte> | |id| == 32 witness seq(32, _ => 0)

  // -- regrouping bits -------------------------------------------------------------------------

  type Bits = seq<bool>

  function Bit(b: bool): nat {
    if b then 1 else 0
  }

  function Pow2(w: nat): nat {
    if w == 0 then 1 else 2 * Pow2(w - 1)
  }

  /** The `w` low bits of `v`, the most significant first. */
  function ToBits(v: nat, w: nat): (bs: Bits)
    ensures |bs| == w
  {
    if w == 0 then [] else ToBits(v / 2, w - 1) + [v % 2 == 1]
  }

  function FromBits(bs: Bits): (v: nat)
    ensures v < Pow2(|bs|)
  {
    if bs == [] then 0 else 2 * FromBits(bs[..|bs| - 1]) + Bit(bs[|bs| - 1])
  }

  lemma {:induction false} FromToBits(v: nat, w: nat)
    requires v < Pow2(w)
    ensures FromBits(ToBits(v, w)) == v
  {
    if w > 0 {
      FromToBits(v / 2, w - 1);
      assert ToBits(v, w)[..w - 1] == ToBits(v / 2, w - 1);
    }
  }

  lemma {:induction false} ToFromBits(bs: Bits)
    ensures ToBits(FromBits(bs), |bs|) == bs
  {
    if bs != [] {
      var init := bs[..|bs| - 1];
      ToFromBits(init);
      assert FromBits(bs) / 2 == FromBits(init);
      assert bs == init + [bs[|bs| - 1]];
    }
  }

  /** `n * w` by repeated addition, so that lengths are compared without multiplying. */
  function Times(n: nat, w: nat): nat {
    if n == 0 then 0 else w + Times(n - 1, w)
  }

  lemma {:induction false} TimesIsProduct(n: nat)
    ensures Times(n, 5) == 5 * n && Times(n, 8) == 8 * n
  {
    if n > 0 {
      TimesIsProduct(n - 1);
    }
  }

  /** Values of `w` bits each, laid end to end, and the inverse cutting. */
  function Flat(vs: seq<nat>, w: nat): (bs: Bits)
    ensures |bs| == Times(|vs|, w)
  {
    if vs == [] then [] else ToBits(vs[0], w) + Flat(vs[1..], w)
  }

  function Cut(bs: Bits, w: nat): (vs: seq<nat>)
    requires w > 0
    ensures forall i :: 0 <= i < |vs| ==> vs[i] < Pow2(w)
    decreases |bs|
  {
    if |bs| < w then [] else [FromBits(bs[..w])] + Cut(bs[w..], w)
  }

  predicate Fit(vs: seq<nat>, w: nat) {
    forall i :: 0 <= i < |vs| ==> vs[i] < Pow2(w)
  }

  lemma {:induction false} CutOfFlat(vs: seq<nat>, w: nat)
    requires w > 0 && Fit(vs, w)
    ensures Cut(Flat(vs, w), w) == vs
  {
    if vs != [] {
      var bs := Flat(vs, w);
      assert bs[..w] == ToBits(vs[0], w) && bs[w..] == Flat(vs[1..], w);
      FromToBits(vs[0], w);
      CutOfFlat(vs[1..], w);
    }
  }

  lemma FlatHead(head: nat, rest: seq<nat>, w: nat)
    ensures Flat([head] + rest, w) == ToBits(head, w) + Flat(rest, w)
  {
    assert ([head] + rest)[1..] == rest;
  }

  lemma CutStep(bs: Bits, w: nat)
    requires 0 < w <= |bs|
    ensures |Cut(bs, w)| == 1 + |Cut(bs[w..], w)|
    ensures Flat(Cut(bs, w), w) == bs[..w] + Flat(Cut(bs[w..], w), w)
  {
    ToFromBits(bs[..w]);
    FlatHead(FromBits(bs[..w]), Cut(bs[w..], w), w);
  }

  lemma {:induction false} FlatOfCut(bs: Bits, w: nat, n: nat)
    requires w > 0 && |bs| == Times(n, w)
    ensures |Cut(bs, w)| == n && Flat(Cut(bs, w), w) == bs
    decreases n
  {
    if n > 0 {
      CutStep(bs, w);
      FlatOfCut(bs[w..], w, n - 1);
      assert bs[..w] + bs[w..] == bs;
    }
  }

  // -- base32 ----------------------------------------------------------------------------------

  const PADDING: Bits := [false, false, false, false]

  function Values(id: seq<byte>): (vs: seq<nat>)
    ensures |vs| == |id| && forall i :: 0 <= i < |id| ==> vs[i] == id[i] as int
  {
    seq(|id|, i requires 0 <= i < |id| => id[i] as nat)
  }

  lemma Pow2Values()
    ensures Pow2(8) == 256 && Pow2(5) == 32
  {
    assert Pow2(3) == 8;
    assert Pow2(5) == 4 * Pow2(3);
    assert Pow2(7) == 4 * Pow2(5);
  }

  function OctetsOf(vs: seq<nat>): (id: seq<byte>)
    requires Fit(vs, 8)
    ensures |id| == |vs| && forall i :: 0 <= i < |vs| ==> id[i] as nat == vs[i]
  {
    Pow2Values();
    seq(|vs|, i requires 0 <= i < |vs| => vs[i] as byte)
  }

  function IdBits(id: StoreId): (bs: Bits)
    ensures |bs| == 256
  {
    TimesIsProduct(|id|);
    Flat(Values(id), 8)
  }

  /** The 52 five-bit groups of an id: its 256 bits and four zero bits. */
  function Symbols(id: StoreId): (vs: seq<nat>)
    ensures |vs| == LABEL_LEN && Fit(vs, 5)
  {
    TimesIsProduct(LABEL_LEN);
    FlatOfCut(IdBits(id) + PADDING, 5, LABEL_LEN);
    Cut(IdBits(id) + PADDING, 5)
  }

  function LabelBits(vs: seq<nat>): (bs: Bits)
    requires |vs| == LABEL_LEN
    ensures |bs| == 260
  {
    TimesIsProduct(|vs|);
    Flat(vs, 5)
  }

  /** The id whose groups these are, when the trailing bits are zero. */
  function Unsymbols(vs: seq<nat>): Option<StoreId>
    requires |vs| == LABEL_LEN
  {
    var bs := LabelBits(vs);
    if bs[256..] != PADDING then None
    else
      TimesIsProduct(STORE_ID_LEN);
      FlatOfCut(bs[..256], 8, STORE_ID_LEN);
      Some(OctetsOf(Cut(bs[..256], 8)))
  }

  lemma UnsymbolsOfSymbols(id: StoreId)
    ensures Unsymbols(Symbols(id)) == Some(id)
  {
    var bs := IdBits(id) + PADDING;
    TimesIsProduct(LABEL_LEN);
    FlatOfCut(bs, 5, LABEL_LEN);
    assert LabelBits(Symbols(id)) == bs;
    assert bs[..256] == IdBits(id) && bs[256..] == PADDING;
    Pow2Values();
    CutOfFlat(Values(id), 8);
    assert OctetsOf(Values(id)) == id;
  }

  lemma SymbolsOfUnsymbols(vs: seq<nat>)
    requires |vs| == LABEL_LEN && Fit(vs, 5) && Unsymbols(vs).Some?
    ensures Symbols(Unsymbols(vs).value) == vs
  {
    var bs := LabelBits(vs);
    var cut := Cut(bs[..256], 8);
    TimesIsProduct(STORE_ID_LEN);
    FlatOfCut(bs[..256], 8, STORE_ID_LEN);
    assert Values(OctetsOf(cut)) == cut;
    assert IdBits(OctetsOf(cut)) == bs[..256];
    assert bs[..256] + PADDING == bs;
    CutOfFlat(vs, 5);
  }

  /** The upper-case alphabet the library encodes with. */
  function SymbolChar(v: nat): char
    requires v < 32
  {
    if v < 26 then 'A' + v as char else '2' + (v - 26) as char
  }

  function CharSymbol(c: char): Option<nat> {
    if 'A' <= c <= 'Z' then Some(c as int - 'A' as int)
    else if '2' <= c <= '7' then Some(c as int - '2' as int + 26)
    else None
  }

  function StoreBytesToLabel(id: StoreId): (name: string)
    ensures |name| == LABEL_LEN
  {
    Pow2Values();
    var vs := Symbols(id);
    Lower(seq(LABEL_LEN, i requires 0 <= i < LABEL_LEN => SymbolChar(vs[i])))
  }

  predicate InAlphabet(s: string) {
    forall i :: 0 <= i < |s| ==> CharSymbol(s[i]).Some?
  }

  function SymbolsIn(s: string): (vs: seq<nat>)
    requires InAlphabet(s)
    ensures |vs| == |s| && forall i :: 0 <= i < |s| ==> vs[i] == CharSymbol(s[i]).value < 32
  {
    seq(|s|, i requires 0 <= i < |s| => CharSymbol(s[i]).value)
  }

  function LabelToStoreBytes(name: string): Result<StoreId, LabelError> {
    if |name| != LABEL_LEN then Err(WrongLabelLength(|name|))
    else
      var upper := Upper(name);
      if !InAlphabet(upper) then Err(NotBase32)
      else match Unsymbols(SymbolsIn(upper))
        case None => Err(NotBase32)
        case Some(id) => Ok(id)
  }

  predicate IsLabelChar(c: char) {
    'a' <= c <= 'z' || '2' <= c <= '7'
  }

  /** An encoding is 52 characters of `a-z2-7`, and decodes to the id it was made from. */
  lemma LabelRoundTrip(id: StoreId)
    ensures var name := StoreBytesToLabel(id);
            && |name| == 52
            && (forall i :: 0 <= i < 52 ==> IsLabelChar(name[i]))
            && LabelToStoreBytes(name) == Ok(id)
  {
    Pow2Values();
    var name := StoreBytesToLabel(id);
    var vs := Symbols(id);
    forall i | 0 <= i < 52 ensures IsLabelChar(name[i]) && CharSymbol(Upper(name)[i]) == Some(vs[i]) {
      assert name[i] == LowerChar(SymbolChar(vs[i]));
      SymbolCharReads(vs[i]);
    }
    assert SymbolsIn(Upper(name)) == vs;
    UnsymbolsOfSymbols(id);
  }

  lemma SymbolCharReads(v: nat)
    requires v < 32
    ensures var c := LowerChar(SymbolChar(v)); IsLabelChar(c) && CharSymbol(UpperChar(c)) == Some(v)
  {
  }

  lemma UpperOfLower(s: string)
    ensures Upper(Lower(s)) == Upper(s)
  {
    forall i | 0 <= i < |s| ensures Upper(Lower(s))[i] == Upper(s)[i] {
      assert Lower(s)[i] == LowerChar(s[i]);
    }
  }

  lemma SymbolsSpell(s: string)
    requires InAlphabet(Upper(s))
    ensures forall i :: 0 <= i < |s| ==> LowerChar(SymbolChar(SymbolsIn(Upper(s))[i])) == Lower(s)[i]
  {
    forall i | 0 <= i < |s| ensures LowerChar(SymbolChar(SymbolsIn(Upper(s))[i])) == Lower(s)[i] {
      assert Upper(s)[i] == UpperChar(s[i]);
    }
  }

  /** The only label an accepted label can stand for, up to case, is the encoding of its id. */
  lemma AcceptedLabel(name: string, id: StoreId)
    ensures LabelToStoreBytes(name) == Ok(id) <==> Lower(name) == StoreBytesToLabel(id)
  {
    if LabelToStoreBytes(name) == Ok(id) {
      Pow2Values();
      var vs := SymbolsIn(Upper(name));
      SymbolsOfUnsymbols(vs);
      SymbolsSpell(name);
      assert Lower(name) == StoreBytesToLabel(id);
    }
    if Lower(name) == StoreBytesToLabel(id) {
      LabelRoundTrip(id);
      UpperOfLower(name);
      UpperOfLower(Lower(name));
      assert LabelToStoreBytes(name) == LabelToStoreBytes(Lower(name));
    }
  }

  /** Two accepted labels name the same id exactly when they differ only in letter case. */
  lemma SameIdSameLabel(s: string, t: string)
    requires LabelToStoreBytes(s).Ok? && LabelToStoreBytes(t).Ok?
    ensures LabelToStoreBytes(s) == LabelToStoreBytes(t) <==> SameIgnoringCase(s, t)
  {
    AcceptedLabel(s, LabelToStoreBytes(s).value);
    AcceptedLabel(t, LabelToStoreBytes(t).value);
    LabelRoundTrip(LabelToStoreBytes(s).value);
    LabelRoundTrip(LabelToStoreBytes(t).value);
  }

  lemma AlphabetChars(s: string)
    ensures InAlphabet(Upper(s)) <==> forall i :: 0 <= i < |s| ==> IsLabelChar(LowerChar(s[i]))
  {
    forall i | 0 <= i < |s|
      ensures CharSymbol(Upper(s)[i]).Some? <==> IsLabelChar(LowerChar(s[i]))
    {
      assert Upper(s)[i] == UpperChar(s[i]);
    }
  }

  /** Acceptance in full: 52 characters of the alphabet, the last one carrying a single bit. */
  lemma LabelAccepted(name: string)
    ensures LabelToStoreBytes(name).Ok?
            <==> && |name| == 52
                 && (forall i :: 0 <= i < 52 ==> IsLabelChar(LowerChar(name[i])))
                 && LowerChar(name[51]) in {'a', 'q'}
  {
    AlphabetChars(name);
    if |name| == 52 && InAlphabet(Upper(name)) {
      LastGroup(SymbolsIn(Upper(name)));
      assert Upper(name)[51] == UpperChar(name[51]);
    }
  }

  lemma FourBits(v: nat)
    ensures ToBits(v, 4) == [v / 2 / 2 / 2 % 2 == 1, v / 2 / 2 % 2 == 1, v / 2 % 2 == 1, v % 2 == 1]
  {
    var v1, v2, v3 := v / 2, v / 2 / 2, v / 2 / 2 / 2;
    assert ToBits(v3, 1) == ToBits(v3 / 2, 0) + [v3 % 2 == 1] == [v3 % 2 == 1];
    assert ToBits(v2, 2) == [v3 % 2 == 1, v2 % 2 == 1];
    assert ToBits(v1, 3) == [v3 % 2 == 1, v2 % 2 == 1, v1 % 2 == 1];
  }

  lemma FiveBits(v: nat)
    requires v < 32
    ensures ToBits(v, 5)[1..] == PADDING <==> v == 0 || v == 16
  {
    var u := v / 2;
    FourBits(u);
    var low := [u / 2 / 2 % 2 == 1, u / 2 % 2 == 1, u % 2 == 1, v % 2 == 1];
    assert ToBits(v, 5)[1..] == low;
    assert low == PADDING <==> !low[0] && !low[1] && !low[2] && !low[3];
  }

  /** The four trailing bits are the low bits of the last group. */
  lemma LastGroup(vs: seq<nat>)
    requires |vs| == LABEL_LEN && forall i :: 0 <= i < LABEL_LEN ==> vs[i] < 32
    ensures LabelBits(vs)[256..] == PADDING <==> vs[51] == 0 || vs[51] == 16
  {
    var init, last := vs[..51], [vs[51]];
    FlatConcat(init, last, 5);
    TimesIsProduct(|init|);
    assert vs == init + last;
    assert last[1..] == [];
    assert Flat(last, 5) == ToBits(vs[51], 5);
    assert LabelBits(vs)[256..] == ToBits(vs[51], 5)[1..];
    FiveBits(vs[51]);
  }

  lemma {:induction false} FlatConcat(us: seq<nat>, vs: seq<nat>, w: nat)
    ensures Flat(us + vs, w) == Flat(us, w) + Flat(vs, w)
  {
    if us == [] {
      assert us + vs == vs;
    } else {
      assert (us + vs)[1..] == us[1..] + vs;
      FlatConcat(us[1..], vs, w);
    }
  }

  // -- hexadecimal -----------------------------------------------------------------------------

  function HexDigit(v: nat): char
    requires v < 16
  {
    if v < 10 then '0' + v as char else 'a' + (v - 10) as char
  }

  function HexValue(c: char): Option<nat> {
    if '0' <= c <= '9' then Some(c as int - '0' as int)
    else if 'a' <= c <= 'f' then Some(c as int - 'a' as int + 10)
    else if 'A' <= c <= 'F' then Some(c as int - 'A' as int + 10)
    else None
  }

  function HexEncode(bs: seq<byte>): (s: string)
    ensures |s| == 2 * |bs|
  {
    if bs == [] then [] else [HexDigit(bs[0] as nat / 16), HexDigit(bs[0] as nat % 16)] + HexEncode(bs[1..])
  }

  function HexDecode(s: string): Option<seq<byte>> {
    if s == [] then Some([])
    else if |s| == 1 then None
    else
      var rest := HexDecode(s[2..]);
      var hi, lo := HexValue(s[0]), HexValue(s[1]);
      if hi.None? || lo.None? || rest.None? then None
      else Some([(hi.value * 16 + lo.value) as byte] + rest.value)
  }

  lemma HexDigitReads(v: nat)
    requires v < 16
    ensures HexValue(HexDigit(v)) == Some(v)
  {
  }

  lemma {:induction false} HexRoundTrip(bs: seq<byte>)
    ensures HexDecode(HexEncode(bs)) == Some(bs)
  {
    if bs != [] {
      HexRoundTrip(bs[1..]);
      assert HexEncode(bs)[2..] == HexEncode(bs[1..]);
      HexDigitReads(bs[0] as nat / 16);
      HexDigitReads(bs[0] as nat % 16);
      assert bs == [bs[0]] + bs[1..];
    }
  }

  function StoreHexToLabel(hex: string): Result<string, LabelError> {
    if |hex| != 2 * STORE_ID_LEN then Err(WrongHexLength(|hex|))
    else match HexDecode(hex)
      case None => Err(NotHex)
      case Some(id) =>
        if |id| != STORE_ID_LEN then Err(WrongHexLength(2 * |id|)) else Ok(StoreBytesToLabel(id))
  }

  function LabelToStoreHex(name: string): Result<string, LabelError> {
    match LabelToStoreBytes(name)
    case Ok(id) => Ok(HexEncode(id))
    case Err(e) => Err(e)
  }

  /** The node's name for a store and the browser's name for it convert into each other. */
  lemma HexLabelRoundTrip(id: StoreId)
    ensures StoreHexToLabel(HexEncode(id)) == Ok(StoreBytesToLabel(id))
    ensures LabelToStoreHex(StoreBytesToLabel(id)) == Ok(HexEncode(id))
  {
    HexRoundTrip(id);
    LabelRoundTrip(id);
  }

  // -- the digits on the page ------------------------------------------------------------------

  const ALPHABET := "abcdefghijklmnop" + "qrstuvwxyz234567"
  const HEX_DIGITS := "0123456789abcdef"

  /** Digits read as a number, the most significant first. */
  function Number(ds: seq<nat>, radix: nat): nat {
    if ds == [] then 0 else Number(ds[..|ds| - 1], radix) * radix + ds[|ds| - 1]
  }

  lemma {:induction false} FromBitsConcat(a: Bits, b: Bits)
    ensures FromBits(a + b) == FromBits(a) * Pow2(|b|) + FromBits(b)
    decreases |b|
  {
    if b == [] {
      assert a + b == a;
    } else {
      var init, last := b[..|b| - 1], b[|b| - 1];
      FromBitsConcat(a, init);
      FromBitsEnd(a + init, last);
      FromBitsEnd(init, last);
      assert b == init + [last] && a + b == (a + init) + [last];
      Doubles(FromBits(a), Pow2(|init|), FromBits(init), Bit(last));
    }
  }

  lemma FromBitsEnd(init: Bits, last: bool)
    ensures FromBits(init + [last]) == 2 * FromBits(init) + Bit(last)
  {
    assert (init + [last])[..|init|] == init;
  }

  lemma Doubles(x: nat, p: nat, y: nat, bit: nat)
    ensures 2 * (x * p + y) + bit == x * (2 * p) + (2 * y + bit)
  {
  }

  lemma {:induction false} FlatIsNumber(vs: seq<nat>, w: nat)
    requires Fit(vs, w)
    ensures FromBits(Flat(vs, w)) == Number(vs, Pow2(w))
    decreases |vs|
  {
    if vs != [] {
      var init, last := vs[..|vs| - 1], vs[|vs| - 1];
      assert vs == init + [last] && [last][1..] == [];
      FlatConcat(init, [last], w);
      assert Flat([last], w) == ToBits(last, w);
      FlatIsNumber(init, w);
      FromBitsConcat(Flat(init, w), ToBits(last, w));
      FromToBits(last, w);
    }
  }

  lemma SymbolsAreNumber(id: StoreId)
    ensures Number(Symbols(id), 32) == 16 * Number(Values(id), 256)
  {
    var bs := IdBits(id) + PADDING;
    Pow2Values();
    TimesIsProduct(LABEL_LEN);
    FlatOfCut(bs, 5, LABEL_LEN);
    FlatIsNumber(Symbols(id), 5);
    FlatIsNumber(Values(id), 8);
    FromBitsConcat(IdBits(id), PADDING);
    PaddingIsZero();
  }

  lemma PaddingIsZero()
    ensures FromBits(PADDING) == 0 && Pow2(|PADDING|) == 16
  {
    assert PADDING[..3] == [false, false, false] && PADDING[..3][..2] == [false, false];
    assert [false, false][..1] == [false] && [false][..0] == [];
    assert Pow2(4) == 2 * Pow2(3) && Pow2(3) == 2 * Pow2(2) && Pow2(2) == 2 * Pow2(1);
  }

  lemma SymbolIs(v: nat)
    requires v < 32
    ensures LowerChar(SymbolChar(v)) == ALPHABET[v]
  {
    if v < 16 {
      LowSymbolIs(v);
    } else {
      HighSymbolIs(v);
    }
  }

  lemma LowSymbolIs(v: nat)
    requires v < 16
    ensures LowerChar(SymbolChar(v)) == "abcdefghijklmnop"[v]
  {
  }

  lemma HighSymbolIs(v: nat)
    requires 16 <= v < 32
    ensures LowerChar(SymbolChar(v)) == "qrstuvwxyz234567"[v - 16]
  {
  }

  /**
   Which label an id has: its characters are digits of base 32 in the standard's alphabet, and read as
   a number, the most significant first, they are sixteen times the number that the id's octets are.
   */
  lemma LabelSpells(id: StoreId) returns (ds: seq<nat>)
    ensures |ds| == 52 && (forall i :: 0 <= i < 52 ==> ds[i] < 32 && StoreBytesToLabel(id)[i] == ALPHABET[ds[i]])
    ensures Number(ds, 32) == 16 * Number(Values(id), 256)
  {
    ds := Symbols(id);
    Pow2Values();
    SymbolsAreNumber(id);
    forall i | 0 <= i < 52 ensures StoreBytesToLabel(id)[i] == ALPHABET[ds[i]] {
      SymbolIs(ds[i]);
    }
  }

  lemma HexDigitIs(v: nat)
    requires v < 16
    ensures HexDigit(v) == HEX_DIGITS[v]
  {
  }

  /** Two digits to an octet, the high one first. */
  lemma {:induction false} HexSpells(bs: seq<byte>, i: nat)
    requires i < |bs|
    ensures HexEncode(bs)[2 * i] == HEX_DIGITS[bs[i] as int / 16]
    ensures HexEncode(bs)[2 * i + 1] == HEX_DIGITS[bs[i] as int % 16]
  {
    if i == 0 {
      HexDigitIs(bs[0] as int / 16);
      HexDigitIs(bs[0] as int % 16);
    } else {
      HexSpells(bs[1..], i - 1);
    }
  }
}
