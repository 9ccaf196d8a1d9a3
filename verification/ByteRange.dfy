/** Single byte ranges: the header parser of the gateway against section 14.1.2 of RFC 9110. */
module ByteRange {
  import opened Prelude
  import opened Text
  import Decimal

  datatype RangeSpec = Satisfiable(start: nat, end: nat) | Unsatisfiable | Whole

  const BYTES := "bytes="

  function Min(a: nat, b: nat): nat {
    if a <= b then a else b
  }

  function SaturatingPred(n: nat): nat {
    if n == 0 then 0 else n - 1
  }

  function ParseU64(s: string): Option<nat> {
    Decimal.Parse(s, U64_MAX)
  }

  function ParseRange(header: string, total: nat): RangeSpec {
    var h := Trim(header);
    if !StartsWith(h, BYTES) || ',' in h[|BYTES|..] then Whole
    else
      var spec := Trim(h[|BYTES|..]);
      if '-' !in spec then Whole
      else
        var a := Before(spec, '-');
        ParseEnds(a, spec[|a| + 1..], total)
  }

  /** What stands before and after the dash. */
  function ParseEnds(a: string, b: string, total: nat): RangeSpec {
    if a == "" then
      match ParseU64(b)
      case None => Whole
      case Some(n) =>
        if n == 0 || total == 0 then Unsatisfiable
        else Satisfiable(total - Min(n, total), total - 1)
    else
      match ParseU64(a)
      case None => Whole
      case Some(start) =>
        if b == "" then IntRange(start, SaturatingPred(total), total)
        else match ParseU64(b)
          case None => Whole
          case Some(n) => IntRange(start, Min(n, SaturatingPred(total)), total)
  }

  function IntRange(start: nat, end: nat, total: nat): RangeSpec {
    if total == 0 || start >= total || start > end then Unsatisfiable else Satisfiable(start, end)
  }

  // -- the standard ----------------------------------------------------------------------------

  /** A range specifier: from a first position, to a last one or the end; or the last octets. */
  datatype Spec = From(first: nat, last: Option<nat>) | Suffix(count: nat)

  /** The position is among those the specifier names. */
  predicate Selects(spec: Spec, total: nat, i: nat) {
    i < total &&
    match spec
    case From(first, last) => first <= i && (last.Some? ==> i <= last.value)
    case Suffix(count) => i + count >= total
  }

  /** A last position below the first makes the specifier invalid. */
  predicate Inverted(spec: Spec) {
    spec.From? && spec.last.Some? && spec.last.value < spec.first
  }

  /** The result is exactly the positions the specifier names. */
  ghost predicate Delivers(spec: Spec, total: nat, r: RangeSpec) {
    match r
    case Satisfiable(start, end) =>
      && start <= end < total
      && forall i: nat :: start <= i <= end <==> Selects(spec, total, i)
    case Unsatisfiable => forall i: nat :: !Selects(spec, total, i)
    case Whole => false
  }

  /**
   A specifier taken at its word: a valid one is delivered, and an invalid one, as the parser's own
   contract has it for anything malformed, is ignored.
   */
  ghost predicate Honours(spec: Spec, total: nat, r: RangeSpec) {
    if Inverted(spec) then r == Whole else Delivers(spec, total, r)
  }

  /**
   What section 14.2 of RFC 9110 permits: the header may be ignored; an invalid specifier may also be
   rejected; otherwise a valid one is delivered.
   */
  ghost predicate Permitted(spec: Spec, total: nat, r: RangeSpec) {
    r == Whole || Delivers(spec, total, r) || (Inverted(spec) && r == Unsatisfiable)
  }

  predicate FitsU64(spec: Spec) {
    match spec
    case From(first, last) => first <= U64_MAX && (last.Some? ==> last.value <= U64_MAX)
    case Suffix(count) => count <= U64_MAX
  }

  function PrintSpec(spec: Spec): string {
    match spec
    case From(first, None) => Decimal.Print(first) + "-"
    case From(first, Some(last)) => Decimal.Print(first) + "-" + Decimal.Print(last)
    case Suffix(count) => "-" + Decimal.Print(count)
  }

  function PrintHeader(spec: Spec): string {
    BYTES + PrintSpec(spec)
  }

  // -- the parser against the standard ---------------------------------------------------------

  /** What the parser makes of a specifier. */
  function Evaluate(spec: Spec, total: nat): RangeSpec {
    match spec
    case Suffix(n) => if n == 0 || total == 0 then Unsatisfiable else Satisfiable(total - Min(n, total), total - 1)
    case From(first, None) => IntRange(first, SaturatingPred(total), total)
    case From(first, Some(last)) => IntRange(first, Min(last, SaturatingPred(total)), total)
  }

  lemma EvaluateDelivers(spec: Spec, total: nat)
    ensures Delivers(spec, total, Evaluate(spec, total))
  {
    var r := Evaluate(spec, total);
    if r.Satisfiable? {
      forall i: nat ensures r.start <= i <= r.end <==> Selects(spec, total, i) {
      }
    }
  }

  predicate PlainChar(c: char) {
    Decimal.IsDigit(c) || c == '-'
  }

  lemma SpecChars(spec: Spec)
    ensures var s := PrintSpec(spec);
            && |s| >= 1
            && (forall i :: 0 <= i < |s| ==> PlainChar(s[i]))
  {
    match spec
    case Suffix(n) =>
      Letters("-", Decimal.Print(n));
    case From(first, None) =>
      Letters(Decimal.Print(first), "-");
    case From(first, Some(last)) =>
      Letters(Decimal.Print(first), "-");
      Letters(Decimal.Print(first) + "-", Decimal.Print(last));
  }

  lemma Letters(s: string, t: string)
    requires forall i :: 0 <= i < |s| ==> PlainChar(s[i])
    requires forall i :: 0 <= i < |t| ==> PlainChar(t[i])
    ensures forall i :: 0 <= i < |s + t| ==> PlainChar((s + t)[i])
  {
  }

  lemma HeaderIsTrimmed(spec: Spec)
    ensures var h := PrintHeader(spec);
            && Trim(h) == h && StartsWith(h, BYTES)
            && h[|BYTES|..] == PrintSpec(spec)
            && ',' !in PrintSpec(spec)
            && Trim(PrintSpec(spec)) == PrintSpec(spec)
  {
    SpecChars(spec);
    var s, h := PrintSpec(spec), PrintHeader(spec);
    assert PlainChar(s[0]) && PlainChar(s[|s| - 1]);
    assert h[0] == 'b' && h[|h| - 1] == s[|s| - 1];
    SolidEndsAreTrimmed(s);
    SolidEndsAreTrimmed(h);
    TrimOfTrimmed(s);
    TrimOfTrimmed(h);
  }

  // -- what the parser reads -------------------------------------------------------------------

  /** The two sides of a dash spell a specifier. */
  predicate SidesSpell(a: string, b: string, spec: Spec) {
    match spec
    case Suffix(n) => a == "" && Decimal.Spells(b, n)
    case From(first, None) => Decimal.Spells(a, first) && b == ""
    case From(first, Some(last)) => Decimal.Spells(a, first) && Decimal.Spells(b, last)
  }

  /** The header is `bytes=` and two such sides around a dash, whitespace around either part aside. */
  ghost predicate HeaderSpells(header: string, spec: Spec) {
    var h := Trim(header);
    && StartsWith(h, BYTES) && ',' !in h[|BYTES|..]
    && exists a, b :: Trim(h[|BYTES|..]) == a + "-" + b && SidesSpell(a, b, spec)
  }

  lemma SpellsIsParsed(s: string, n: nat)
    ensures Decimal.Spells(s, n) && n <= U64_MAX <==> ParseU64(s) == Some(n)
    ensures Decimal.Spells(s, n) && n > U64_MAX ==> ParseU64(s) == None
    ensures Decimal.Spells(s, n) ==> '-' !in s && s != ""
  {
    if Decimal.Spells(s, n) && s[0] == '+' {
      assert s == ['+'] + s[1..];
    }
  }

  lemma CutAtDash(a: string, b: string)
    requires '-' !in a
    ensures var s := a + "-" + b;
            '-' in s && Before(s, '-') == a && s[|a| + 1..] == b
  {
    var s := a + "-" + b;
    assert s == a + ("-" + b);
    assert s[|a|] == '-';
    BeforeOf(a, '-', "-" + b);
  }

  lemma SidesAreRead(a: string, b: string, spec: Spec, total: nat)
    requires SidesSpell(a, b, spec)
    ensures '-' !in a
    ensures ParseEnds(a, b, total) == if FitsU64(spec) then Evaluate(spec, total) else Whole
  {
    match spec
    case Suffix(n) => SpellsIsParsed(b, n);
    case From(first, last) =>
      SpellsIsParsed(a, first);
      if last.Some? {
        SpellsIsParsed(b, last.value);
      }
  }

  lemma SpelledIsRead(header: string, spec: Spec, total: nat)
    requires HeaderSpells(header, spec)
    ensures ParseRange(header, total) == if FitsU64(spec) then Evaluate(spec, total) else Whole
  {
    var a, b := SpelledSides(header, spec);
    SidesAreRead(a, b, spec, total);
    CutAtDash(a, b);
  }

  lemma ReadSidesSpell(a: string, b: string, total: nat) returns (spec: Spec)
    requires ParseEnds(a, b, total) != Whole
    ensures SidesSpell(a, b, spec) && FitsU64(spec)
  {
    if a == "" {
      spec := Suffix(ParseU64(b).value);
      SpellsIsParsed(b, spec.count);
    } else {
      var first := ParseU64(a).value;
      SpellsIsParsed(a, first);
      if b == "" {
        spec := From(first, None);
      } else {
        spec := From(first, Some(ParseU64(b).value));
        SpellsIsParsed(b, spec.last.value);
      }
    }
  }

  lemma BeforeCuts(s: string)
    requires '-' in s
    ensures var a := Before(s, '-'); |a| < |s| && s == a + "-" + s[|a| + 1..]
  {
  }

  lemma ReadIsCut(header: string, total: nat) returns (a: string, b: string)
    requires ParseRange(header, total) != Whole
    ensures var h := Trim(header);
            StartsWith(h, BYTES) && ',' !in h[|BYTES|..] && Trim(h[|BYTES|..]) == a + "-" + b
    ensures ParseRange(header, total) == ParseEnds(a, b, total)
  {
    var s := Trim(Trim(header)[|BYTES|..]);
    BeforeCuts(s);
    a := Before(s, '-');
    b := s[|a| + 1..];
  }

  lemma ReadIsSpelled(header: string, total: nat) returns (spec: Spec)
    requires ParseRange(header, total) != Whole
    ensures HeaderSpells(header, spec) && FitsU64(spec)
  {
    var a, b := ReadIsCut(header, total);
    spec := ReadSidesSpell(a, b, total);
  }

  /**
   The parser in full. A header is read as a range exactly when it spells a specifier in 64-bit
   numbers, and the range is then the specifier's; any other header gets the whole resource.
   */
  lemma ReadsExactlySpelled(header: string, total: nat)
    ensures ParseRange(header, total) != Whole <==> exists spec :: HeaderSpells(header, spec) && FitsU64(spec)
    ensures forall spec :: HeaderSpells(header, spec) && FitsU64(spec) ==>
              ParseRange(header, total) == Evaluate(spec, total) && Delivers(spec, total, ParseRange(header, total))
  {
    if ParseRange(header, total) != Whole {
      var _ := ReadIsSpelled(header, total);
    }
    forall spec | HeaderSpells(header, spec) && FitsU64(spec)
      ensures ParseRange(header, total) == Evaluate(spec, total) && Delivers(spec, total, ParseRange(header, total))
    {
      SpelledIsRead(header, spec, total);
      EvaluateDelivers(spec, total);
    }
  }

  // -- beyond the grammar ----------------------------------------------------------------------

  predicate Digits(s: string, n: nat) {
    s != "" && Decimal.AllDigits(s) && Decimal.Value(s) == n
  }

  predicate SidesInGrammar(a: string, b: string, spec: Spec) {
    match spec
    case Suffix(n) => a == "" && Digits(b, n)
    case From(first, None) => Digits(a, first) && b == ""
    case From(first, Some(last)) => Digits(a, first) && Digits(b, last)
  }

  /** A range unit is compared without regard to case. */
  predicate IsUnit(unit: string) {
    Lower(unit) == BYTES
  }

  /** The field value is in the grammar of section 14.1 of RFC 9110: digits only, no whitespace inside. */
  ghost predicate HeaderInGrammar(header: string, spec: Spec) {
    exists unit, a, b :: Trim(header) == unit + (a + "-" + b) && IsUnit(unit) && SidesInGrammar(a, b, spec)
  }

  lemma DigitsHaveNoSign(s: string, n: nat)
    ensures Digits(s, n) <==> Decimal.Spells(s, n) && '+' !in s
  {
    if Decimal.Spells(s, n) && '+' !in s {
      assert s[0] != '+';
    }
  }

  lemma SignInSide(a: string, b: string)
    ensures '+' in a + "-" + b <==> '+' in a || '+' in b
  {
    var s := a + "-" + b;
    assert forall i :: 0 <= i < |a| ==> s[i] == a[i];
    assert forall i :: 0 <= i < |b| ==> s[|a| + 1 + i] == b[i];
  }

  lemma SidesWithoutSign(a: string, b: string, spec: Spec)
    ensures SidesInGrammar(a, b, spec) <==> SidesSpell(a, b, spec) && '+' !in a + "-" + b
  {
    SignInSide(a, b);
    match spec
    case Suffix(n) => DigitsHaveNoSign(b, n);
    case From(first, last) =>
      DigitsHaveNoSign(a, first);
      if last.Some? {
        DigitsHaveNoSign(b, last.value);
      }
  }

  lemma RestIsTrimmed(h: string)
    requires TrailingSpace(h) == 0 && StartsWith(h, BYTES)
    ensures LeadingSpace(h[|BYTES|..]) == 0 ==> Trim(h[|BYTES|..]) == h[|BYTES|..]
  {
    TrailingOfSuffix(h, |BYTES|);
    if LeadingSpace(h[|BYTES|..]) == 0 {
      TrimOfTrimmed(h[|BYTES|..]);
    }
  }

  lemma GrammarIsSpelled(header: string, spec: Spec)
    requires HeaderInGrammar(header, spec) && StartsWith(Trim(header), BYTES)
    ensures HeaderSpells(header, spec)
    ensures '+' !in Trim(header) && LeadingSpace(Trim(header)[|BYTES|..]) == 0
  {
    var h := Trim(header);
    var unit, a, b :| h == unit + (a + "-" + b) && IsUnit(unit) && SidesInGrammar(a, b, spec);
    CutIsUnit(h, unit, a + "-" + b);
    SidesWithoutSign(a, b, spec);
    SidesStartSolid(a, b, spec);
    SolidStart(a + "-" + b);
    TrimIsTrimmed(header);
    RestIsTrimmed(h);
    SidesHaveNoComma(a, b, spec);
  }

  lemma CutIsUnit(h: string, unit: string, s: string)
    requires h == unit + s && IsUnit(unit) && StartsWith(h, BYTES)
    ensures unit == BYTES && h[|BYTES|..] == s
    ensures '+' !in s ==> '+' !in h
  {
    assert h[..|BYTES|] == unit;
    assert '+' !in BYTES;
  }

  lemma SidesStartSolid(a: string, b: string, spec: Spec)
    requires SidesInGrammar(a, b, spec)
    ensures IsSolid((a + "-" + b)[0])
  {
  }

  lemma SidesHaveNoComma(a: string, b: string, spec: Spec)
    requires SidesInGrammar(a, b, spec)
    ensures ',' !in a + "-" + b
  {
  }

  lemma CutKeepsOut(h: string, c: char)
    requires StartsWith(h, BYTES) && c !in h
    ensures h == BYTES + h[|BYTES|..] && c !in h[|BYTES|..]
  {
  }

  lemma PlainIsInGrammar(header: string, spec: Spec)
    requires HeaderSpells(header, spec) && '+' !in Trim(header) && LeadingSpace(Trim(header)[|BYTES|..]) == 0
    ensures HeaderInGrammar(header, spec)
  {
    TrimIsTrimmed(header);
    RestIsTrimmed(Trim(header));
    CutKeepsOut(Trim(header), '+');
    var a, b := SpelledSides(header, spec);
    SidesWithoutSign(a, b, spec);
    BytesIsUnit();
    PartsInGrammar(header, BYTES, a, b, spec);
  }

  lemma SpelledSides(header: string, spec: Spec) returns (a: string, b: string)
    requires HeaderSpells(header, spec)
    ensures Trim(Trim(header)[|BYTES|..]) == a + "-" + b && SidesSpell(a, b, spec)
  {
    a, b :| Trim(Trim(header)[|BYTES|..]) == a + "-" + b && SidesSpell(a, b, spec);
  }

  lemma BytesIsUnit()
    ensures IsUnit(BYTES)
  {
  }

  lemma PartsInGrammar(header: string, unit: string, a: string, b: string, spec: Spec)
    requires Trim(header) == unit + (a + "-" + b) && IsUnit(unit) && SidesInGrammar(a, b, spec)
    ensures HeaderInGrammar(header, spec)
  {
  }

  /**
   The parser's language against the standard's grammar. A header in the grammar is read exactly when
   its unit is in lower case; and a header that is read is in the grammar exactly when it has no plus
   sign and no whitespace after `bytes=`.
   */
  lemma SpelledInGrammar(header: string, spec: Spec)
    ensures HeaderInGrammar(header, spec) ==> (HeaderSpells(header, spec) <==> StartsWith(Trim(header), BYTES))
    ensures HeaderSpells(header, spec) ==>
              (HeaderInGrammar(header, spec)
               <==> '+' !in Trim(header) && LeadingSpace(Trim(header)[|BYTES|..]) == 0)
  {
    var h := Trim(header);
    if HeaderInGrammar(header, spec) && StartsWith(h, BYTES) {
      GrammarIsSpelled(header, spec);
    }
    if HeaderSpells(header, spec) && '+' !in h && LeadingSpace(h[|BYTES|..]) == 0 {
      PlainIsInGrammar(header, spec);
    }
  }

  const CAPITAL := "Bytes="

  /** With a capital letter in the unit the header is in the grammar, and is ignored. */
  lemma CapitalUnitIsIgnored(spec: Spec, total: nat)
    ensures HeaderInGrammar(CAPITAL + PrintSpec(spec), spec)
    ensures ParseRange(CAPITAL + PrintSpec(spec), total) == Whole
  {
    var header := CAPITAL + PrintSpec(spec);
    var (a, b) := Ends(spec);
    PrintedInGrammar(spec);
    UnitIsTrimmed(CAPITAL, PrintSpec(spec));
    assert Lower(CAPITAL) == BYTES;
    PartsInGrammar(header, CAPITAL, a, b, spec);
    CapitalIsNoUnit(PrintSpec(spec));
  }

  lemma CapitalIsNoUnit(s: string)
    ensures !StartsWith(CAPITAL + s, BYTES)
  {
    var h := CAPITAL + s;
    assert h[0] == 'B';
    assert |h| >= 6 ==> h[..6][0] == 'B';
  }

  lemma UnitIsTrimmed(unit: string, s: string)
    requires unit != "" && IsSolid(unit[0]) && s != "" && IsSolid(s[|s| - 1])
    ensures Trim(unit + s) == unit + s
  {
    SolidEndsAreTrimmed(unit + s);
    TrimOfTrimmed(unit + s);
  }

  lemma PrintedInGrammar(spec: Spec)
    ensures var (a, b) := Ends(spec);
            && PrintSpec(spec) == a + "-" + b && SidesInGrammar(a, b, spec)
            && IsSolid(PrintSpec(spec)[|PrintSpec(spec)| - 1])
  {
    SpecChars(spec);
    match spec {
      case Suffix(n) => Decimal.ValueOfPrint(n);
      case From(first, last) =>
        Decimal.ValueOfPrint(first);
        if last.Some? {
          Decimal.ValueOfPrint(last.value);
        }
    }
    var s := PrintSpec(spec);
    assert PlainChar(s[|s| - 1]);
  }

  const SIGNED := "bytes=+0-+4"

  lemma SignedIsTrimmed()
    ensures Trim(SIGNED) == SIGNED && SIGNED[|BYTES|..] == "+0" + "-" + "+4"
    ensures Trim("+0" + "-" + "+4") == "+0" + "-" + "+4"
    ensures StartsWith(SIGNED, BYTES) && ',' !in "+0" + "-" + "+4"
  {
    SolidEndsAreTrimmed(SIGNED);
    TrimOfTrimmed(SIGNED);
    SolidEndsAreTrimmed("+0" + "-" + "+4");
    TrimOfTrimmed("+0" + "-" + "+4");
  }

  /** A plus sign in front of a number is outside the grammar, and is read all the same. */
  lemma SignedRangeIsRead()
    ensures ParseRange(SIGNED, 10) == Satisfiable(0, 4)
    ensures forall spec :: !HeaderInGrammar(SIGNED, spec)
  {
    SignedIsTrimmed();
    SignedSpells();
    SpelledIsRead(SIGNED, From(0, Some(4)), 10);
    assert SIGNED[6] == '+';
    forall spec ensures !HeaderInGrammar(SIGNED, spec) {
      SpelledInGrammar(SIGNED, spec);
    }
  }

  lemma SignedSpells()
    ensures HeaderSpells(SIGNED, From(0, Some(4)))
  {
    var a, b := "+0", "+4";
    SignedIsTrimmed();
    SignedSides();
    PartsSpell(SIGNED, a, b, From(0, Some(4)));
  }

  lemma PartsSpell(h: string, a: string, b: string, spec: Spec)
    requires Trim(h) == h && StartsWith(h, BYTES) && h[|BYTES|..] == a + "-" + b && ',' !in a + "-" + b
    requires Trim(a + "-" + b) == a + "-" + b && SidesSpell(a, b, spec)
    ensures HeaderSpells(h, spec)
  {
  }

  lemma SignedSides()
    ensures SidesSpell("+0", "+4", From(0, Some(4)))
  {
    SignedNumeral(0);
    SignedNumeral(4);
    assert "+" + Decimal.Print(0) == "+0" && "+" + Decimal.Print(4) == "+4";
  }

  lemma SignedNumeral(n: nat)
    ensures Decimal.Spells("+" + Decimal.Print(n), n)
  {
    Decimal.ValueOfPrint(n);
    assert ("+" + Decimal.Print(n))[1..] == Decimal.Print(n);
  }

  // -- printed specifiers ----------------------------------------------------------------------

  /** What a printed specifier has before and after its dash. */
  function Ends(spec: Spec): (string, string) {
    match spec
    case Suffix(n) => ("", Decimal.Print(n))
    case From(first, None) => (Decimal.Print(first), "")
    case From(first, Some(last)) => (Decimal.Print(first), Decimal.Print(last))
  }

  lemma PrintedSpells(spec: Spec)
    ensures HeaderSpells(PrintHeader(spec), spec)
  {
    HeaderIsTrimmed(spec);
    var (a, b) := Ends(spec);
    assert PrintSpec(spec) == a + "-" + b;
    match spec {
      case Suffix(n) => NumeralSpells(n);
      case From(first, last) =>
        NumeralSpells(first);
        if last.Some? {
          NumeralSpells(last.value);
        }
    }
    assert SidesSpell(a, b, spec);
  }

  lemma NumeralSpells(n: nat)
    ensures Decimal.Spells(Decimal.Print(n), n)
  {
    Decimal.ValueOfPrint(n);
    assert Decimal.IsDigit(Decimal.Print(n)[0]);
  }

  /** A printed specifier is read back and evaluated, or ignored when a number exceeds 64 bits. */
  lemma PrintedIsEvaluated(spec: Spec, total: nat)
    ensures ParseRange(PrintHeader(spec), total) == if FitsU64(spec) then Evaluate(spec, total) else Whole
  {
    PrintedSpells(spec);
    SpelledIsRead(PrintHeader(spec), spec, total);
  }

  /**
   Every specifier is answered as the standard permits. It is taken at its word exactly when it is
   not inverted and in 64-bit numbers, or inverted and beyond them: an inverted one is refused as
   unsatisfiable, and one with a number above 64 bits is ignored.
   */
  lemma RangeFollowsStandard(spec: Spec, total: nat)
    ensures Permitted(spec, total, ParseRange(PrintHeader(spec), total))
    ensures Honours(spec, total, ParseRange(PrintHeader(spec), total)) <==> (Inverted(spec) <==> !FitsU64(spec))
  {
    PrintedIsEvaluated(spec, total);
    EvaluateDelivers(spec, total);
  }

  /** The inverted range `bytes=5-3` of a ten-octet resource. */
  lemma InvertedRangeIsRefused()
    ensures ParseRange(PrintHeader(From(5, Some(3))), 10) == Unsatisfiable
    ensures !Honours(From(5, Some(3)), 10, ParseRange(PrintHeader(From(5, Some(3))), 10))
  {
    PrintedIsEvaluated(From(5, Some(3)), 10);
  }

  /** A last position above 64 bits, where the standard has the range end with the resource. */
  lemma HugeRangeIsIgnored()
    ensures var spec := From(5, Some(U64_MAX + 1));
            && ParseRange(PrintHeader(spec), 10) == Whole
            && !Honours(spec, 10, ParseRange(PrintHeader(spec), 10))
            && Delivers(spec, 10, Satisfiable(5, 9))
  {
    PrintedIsEvaluated(From(5, Some(U64_MAX + 1)), 10);
  }

  /** Whatever the header, a satisfiable result lies inside the resource. */
  lemma RangeIsInBounds(header: string, total: nat)
    ensures var r := ParseRange(header, total); r.Satisfiable? ==> r.start <= r.end < total
  {
    if ParseRange(header, total) != Whole {
      var a, b := ReadIsCut(header, total);
      EndsInBounds(a, b, total);
    }
  }

  lemma EndsInBounds(a: string, b: string, total: nat)
    ensures var r := ParseEnds(a, b, total); r.Satisfiable? ==> r.start <= r.end < total
  {
  }
}
