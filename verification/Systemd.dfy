/**
 How systemd reads the right-hand side of an `Environment=` line: it is cut into words at whitespace,
 quotes and escapes are resolved, and specifiers such as `%h` are expanded in each word. The escapes
 and the specifiers are parameters; of an escape only its size is known.
 */
module Systemd {
  import opened Prelude
  import opened Text

  /**
   The escape after a backslash, by how many characters it takes and what it stands for, and the
   texts of the specifiers by their letter.
   */
  datatype Reader = Reader(unescape: string -> Option<(nat, string)>, specifier: char -> Option<string>)

  /** An escape takes something, and stands for no more characters than it takes. */
  function Escape(r: Reader, s: string): (e: Option<(nat, string)>)
    ensures e.Some? ==> 1 <= e.value.0 <= |s| && |e.value.1| <= e.value.0
  {
    var e := r.unescape(s);
    if e.Some? && 1 <= e.value.0 <= |s| && |e.value.1| <= e.value.0 then e else None
  }

  /** `%%` stands for a percent sign; no other specifier brings one in. */
  function Specifier(r: Reader, c: char): (text: Option<string>)
    ensures text.Some? ==> Percents(text.value) <= if c == '%' then 1 else 0
    ensures c == '%' ==> text == Some("%")
  {
    if c == '%' then Some("%")
    else
      var text := r.specifier(c);
      if text.Some? && Percents(text.value) == 0 then text else None
  }

  function Percents(s: string): nat {
    if s == "" then 0 else (if s[0] == '%' then 1 else 0) + Percents(s[1..])
  }

  predicate IsBlank(c: char) {
    c == ' ' || c == '\t' || c == '\n' || c == '\r'
  }

  predicate IsQuote(c: char) {
    c == '"' || c == '\''
  }

  /** A character that ends a word or is not taken literally in one. */
  predicate IsSpecial(c: char) {
    IsBlank(c) || IsQuote(c) || c == '\\'
  }

  // -- words -----------------------------------------------------------------------------------

  /** A text being cut: what is left of it, the quotation and the word that are open, the words so far. */
  datatype Scan = Scan(left: string, quote: Option<char>, word: Option<string>, words: seq<string>) {
    function Open(): string {
      if word.Some? then word.value else ""
    }

    function Closed(): seq<string> {
      if word.Some? then words + [word.value] else words
    }

    function Total(): nat {
      Size(words) + |Open()| + |left|
    }
  }

  function Size(ws: seq<string>): nat {
    if ws == [] then 0 else Size(ws[..|ws| - 1]) + |ws[|ws| - 1]|
  }

  /** One step; none when what follows a backslash is no escape. */
  function Next(r: Reader, k: Scan): (n: Option<Scan>)
    requires k.left != ""
    ensures n.Some? ==> |n.value.left| < |k.left|
  {
    var c, rest := k.left[0], k.left[1..];
    if c == '\\' then
      match Escape(r, rest)
      case None => None
      case Some(e) => Some(k.(left := rest[e.0..], word := Some(k.Open() + e.1)))
    else if k.quote == Some(c) then Some(k.(left := rest, quote := None, word := Some(k.Open())))
    else if k.quote.None? && IsQuote(c) then Some(k.(left := rest, quote := Some(c), word := Some(k.Open())))
    else if k.quote.None? && IsBlank(c) then Some(Scan(rest, None, None, k.Closed()))
    else Some(k.(left := rest, word := Some(k.Open() + [c])))
  }

  /** The words in the end: at a false escape, or in a quotation left open, those completed before it. */
  function Finished(r: Reader, k: Scan): seq<string>
    decreases |k.left|
  {
    if k.left == "" then (if k.quote.Some? then k.words else k.Closed())
    else
      match Next(r, k)
      case None => k.words
      case Some(n) => Finished(r, n)
  }

  function Words(r: Reader, s: string): seq<string> {
    Finished(r, Scan(s, None, None, []))
  }

  lemma SizeOfClosed(k: Scan)
    ensures Size(k.Closed()) == Size(k.words) + |k.Open()|
  {
    if k.word.Some? {
      assert k.Closed()[..|k.words|] == k.words;
    }
  }

  /** No step makes a character up, and a special one outside quotations is lost. */
  lemma NextShrinks(r: Reader, k: Scan)
    requires k.left != "" && Next(r, k).Some?
    ensures Next(r, k).value.Total() <= k.Total()
    ensures k.quote.None? && IsSpecial(k.left[0]) ==> Next(r, k).value.Total() < k.Total()
  {
    var n, c := Next(r, k).value, k.left[0];
    if c != '\\' && k.quote.None? && IsBlank(c) {
      SizeOfClosed(k);
      assert |n.Open()| == 0 && Size(n.words) == Size(k.Closed());
    } else {
      assert n.words == k.words;
      assert |n.Open()| + |n.left| <= |k.Open()| + |k.left|;
    }
  }

  lemma {:induction false} FinishedShrinks(r: Reader, k: Scan)
    ensures Size(Finished(r, k)) <= k.Total()
    decreases |k.left|
  {
    SizeOfClosed(k);
    if k.left != "" && Next(r, k).Some? {
      NextShrinks(r, k);
      FinishedShrinks(r, Next(r, k).value);
    }
  }

  predicate HasSpecial(s: string) {
    exists i :: 0 <= i < |s| && IsSpecial(s[i])
  }

  lemma SpecialLater(s: string)
    requires s != "" && !IsSpecial(s[0])
    ensures HasSpecial(s) <==> HasSpecial(s[1..])
  {
    forall i | 0 <= i < |s| && IsSpecial(s[i]) ensures HasSpecial(s[1..]) {
      assert IsSpecial(s[1..][i - 1]);
    }
    forall i | 0 <= i < |s| - 1 && IsSpecial(s[1..][i]) ensures HasSpecial(s) {
      assert IsSpecial(s[i + 1]);
    }
  }

  lemma {:induction false} SpecialIsLost(r: Reader, k: Scan)
    requires k.quote.None? && HasSpecial(k.left)
    ensures Size(Finished(r, k)) < k.Total()
    decreases |k.left|
  {
    if Next(r, k).Some? {
      var n := Next(r, k).value;
      NextShrinks(r, k);
      if IsSpecial(k.left[0]) {
        FinishedShrinks(r, n);
      } else {
        SpecialLater(k.left);
        SpecialIsLost(r, n);
      }
    }
  }

  lemma {:induction false} PlainIsOneWord(r: Reader, k: Scan)
    requires k.quote.None? && !HasSpecial(k.left) && (k.left != "" || k.word.Some?)
    ensures Finished(r, k) == k.words + [k.Open() + k.left]
    decreases |k.left|
  {
    if k.left == "" {
      assert k.Open() + "" == k.Open();
    } else {
      var n := Next(r, k).value;
      assert !IsSpecial(k.left[0]);
      SpecialLater(k.left);
      PlainIsOneWord(r, n);
      assert n.Open() + n.left == k.Open() + k.left;
    }
  }

  // -- specifiers ------------------------------------------------------------------------------

  /** A letter that is no specifier leaves its percent sign, and so does one at the end. */
  function Expand(r: Reader, s: string): string
    decreases |s|
  {
    if |s| < 2 then s
    else if s[0] != '%' then [s[0]] + Expand(r, s[1..])
    else
      match Specifier(r, s[1])
      case Some(text) => text + Expand(r, s[2..])
      case None => s[..2] + Expand(r, s[2..])
  }

  ghost predicate HasSpecifier(r: Reader, s: string) {
    exists i :: SpecifierAt(r, s, i)
  }

  predicate SpecifierAt(r: Reader, s: string, i: int) {
    0 <= i < |s| - 1 && s[i] == '%' && Specifier(r, s[i + 1]).Some?
  }

  lemma {:induction false} PercentsConcat(s: string, t: string)
    ensures Percents(s + t) == Percents(s) + Percents(t)
  {
    if s == "" {
      assert s + t == t;
    } else {
      assert (s + t)[1..] == s[1..] + t;
      PercentsConcat(s[1..], t);
    }
  }

  lemma PercentsCut(s: string, k: nat)
    requires k <= |s|
    ensures Percents(s) == Percents(s[..k]) + Percents(s[k..])
  {
    assert s[..k] + s[k..] == s;
    PercentsConcat(s[..k], s[k..]);
  }

  lemma PercentsOfTwo(s: string)
    requires |s| == 2
    ensures Percents(s) == (if s[0] == '%' then 1 else 0) + (if s[1] == '%' then 1 else 0)
  {
    var t := s[1..];
    assert t[0] == s[1] && t[1..] == "";
    assert Percents(t) == (if t[0] == '%' then 1 else 0) + Percents(t[1..]);
  }

  /** Expanding never adds a percent sign, and an expanded specifier loses one. */
  lemma {:induction false} ExpandLosesPercents(r: Reader, s: string)
    ensures Percents(Expand(r, s)) <= Percents(s)
    ensures HasSpecifier(r, s) ==> Percents(Expand(r, s)) < Percents(s)
    decreases |s|
  {
    if |s| >= 2 {
      if s[0] != '%' {
        ExpandLosesPercents(r, s[1..]);
        assert ([s[0]] + Expand(r, s[1..]))[1..] == Expand(r, s[1..]);
        SpecifierLater(r, s, 1);
      } else {
        ExpandLosesPercents(r, s[2..]);
        PercentsCut(s, 2);
        PercentsOfTwo(s[..2]);
        var text := Specifier(r, s[1]);
        if text.Some? {
          PercentsConcat(text.value, Expand(r, s[2..]));
        } else {
          PercentsConcat(s[..2], Expand(r, s[2..]));
          SpecifierLater(r, s, 2);
        }
      }
    }
  }

  /** Where no specifier starts among the first characters, it starts later. */
  lemma SpecifierLater(r: Reader, s: string, k: nat)
    requires k <= |s| && forall i :: 0 <= i < k ==> !SpecifierAt(r, s, i)
    ensures HasSpecifier(r, s) <==> HasSpecifier(r, s[k..])
  {
    forall i | SpecifierAt(r, s, i) ensures HasSpecifier(r, s[k..]) {
      assert SpecifierAt(r, s[k..], i - k);
    }
    forall i | SpecifierAt(r, s[k..], i) ensures HasSpecifier(r, s) {
      assert SpecifierAt(r, s, i + k);
    }
  }

  lemma {:induction false} ExpandKeeps(r: Reader, s: string)
    requires !HasSpecifier(r, s)
    ensures Expand(r, s) == s
    decreases |s|
  {
    if |s| >= 2 {
      assert !SpecifierAt(r, s, 0) && !SpecifierAt(r, s, 1);
      if s[0] != '%' {
        SpecifierLater(r, s, 1);
        ExpandKeeps(r, s[1..]);
      } else {
        SpecifierLater(r, s, 2);
        ExpandKeeps(r, s[2..]);
      }
    }
  }

  // -- a whole right-hand side -----------------------------------------------------------------

  ghost predicate IsPlain(r: Reader, s: string) {
    !HasSpecial(s) && !HasSpecifier(r, s)
  }

  /** Both stages leave the text alone: it is one word, and expanding that word changes nothing. */
  ghost predicate IsLiteral(r: Reader, s: string)
  {
    Words(r, s) == [s] && Expand(r, s) == s
  }

  /** A text is taken literally exactly when it has no blank, quote or backslash, and no specifier. */
  lemma LiteralIsPlain(r: Reader, s: string)
    requires s != ""
    ensures IsLiteral(r, s) <==> IsPlain(r, s)
  {
    if IsPlain(r, s) {
      PlainIsOneWord(r, Scan(s, None, None, []));
      ExpandKeeps(r, s);
      assert "" + s == s;
      assert [] + [s] == [s];
    }
    if HasSpecial(s) {
      SpecialIsLost(r, Scan(s, None, None, []));
      SizeOfOne(s);
    }
    ExpandLosesPercents(r, s);
  }

  lemma SizeOfOne(s: string)
    ensures Size([s]) == |s|
  {
    assert [s][..0] == [];
  }

  function Assignment(word: string): Option<(string, string)> {
    var key := Before(word, '=');
    if key == word then None else Some((key, word[|key| + 1..]))
  }

  function AssignmentsIn(r: Reader, ws: seq<string>): seq<(string, string)> {
    if ws == [] then []
    else
      var rest := AssignmentsIn(r, ws[1..]);
      match Assignment(Expand(r, ws[0]))
      case None => rest
      case Some(pair) => [pair] + rest
  }

  function Assignments(r: Reader, s: string): seq<(string, string)> {
    AssignmentsIn(r, Words(r, s))
  }

  lemma PlainAssignment(r: Reader, s: string)
    requires IsPlain(r, s)
    ensures Assignments(r, s) == match Assignment(s) case None => [] case Some(pair) => [pair]
  {
    if s != "" {
      LiteralIsPlain(r, s);
      assert [s][1..] == [];
      assert AssignmentsIn(r, [s][1..]) == [];
    }
  }

  // -- a blank in a value ----------------------------------------------------------------------

  lemma {:induction false} PlainIsTaken(r: Reader, a: string, tail: string, word: string, words: seq<string>)
    requires !HasSpecial(a)
    ensures Finished(r, Scan(a + tail, None, Some(word), words)) == Finished(r, Scan(tail, None, Some(word + a), words))
    decreases |a|
  {
    if a == "" {
      assert "" + tail == tail && word + "" == word;
    } else {
      var rest := a[1..];
      assert !IsSpecial(a[0]);
      assert a + tail == [a[0]] + (rest + tail);
      PlainStep(r, a[0], rest + tail, Some(word), words);
      SpecialLater(a);
      PlainIsTaken(r, rest, tail, word + [a[0]], words);
      assert (word + [a[0]]) + rest == word + a;
    }
  }

  lemma PlainStep(r: Reader, c: char, rest: string, word: Option<string>, words: seq<string>)
    requires !IsSpecial(c)
    ensures var k := Scan([c] + rest, None, word, words);
            Finished(r, k) == Finished(r, Scan(rest, None, Some(k.Open() + [c]), words))
  {
    var k := Scan([c] + rest, None, word, words);
    assert k.left[0] == c && k.left[1..] == rest;
  }

  /** A blank makes two words of a plain text, and the second is an assignment of its own. */
  lemma BlankSplits(r: Reader, a: string, b: string)
    requires a != "" && b != "" && IsPlain(r, a) && IsPlain(r, b)
    ensures Words(r, a + " " + b) == [a, b]
    ensures Assignments(r, a + " " + b) == AssignmentsIn(r, [a, b])
  {
    var head, rest, end := a[0], a[1..], " " + b;
    assert !IsSpecial(a[0]);
    assert a + " " + b == [head] + (rest + end);
    PlainStep(r, head, rest + end, None, []);
    SpecialLater(a);
    assert "" + [head] == [head] && [head] + rest == a;
    PlainIsTaken(r, rest, end, [head], []);
    BlankStep(r, a, b);
    var n := Scan(b, None, None, [a]);
    PlainIsOneWord(r, n);
    assert n.Open() + b == b && n.words + [b] == [a, b];
  }

  lemma BlankStep(r: Reader, a: string, b: string)
    ensures Finished(r, Scan(" " + b, None, Some(a), [])) == Finished(r, Scan(b, None, None, [a]))
  {
    var k := Scan(" " + b, None, Some(a), []);
    assert k.left[0] == ' ' && k.left[1..] == b && [] + [a] == [a];
  }

  lemma TwoAssignments(r: Reader, a: string, b: string)
    requires IsPlain(r, a) && IsPlain(r, b) && Assignment(a).Some? && Assignment(b).Some?
    ensures AssignmentsIn(r, [a, b]) == [Assignment(a).value, Assignment(b).value]
  {
    ExpandKeeps(r, a);
    ExpandKeeps(r, b);
    assert [a, b][1..] == [b] && [b][1..] == [];
    assert AssignmentsIn(r, [b][1..]) == [];
    assert AssignmentsIn(r, [b]) == [Assignment(b).value];
  }
}
