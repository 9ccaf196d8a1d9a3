/**
 The text operations the program takes from its language's standard library. A string stands
 for the UTF-8 encoding of a text, one `char` per octet, so a length is a length in octets.
 */
module Text {
  import opened Prelude

  /** The octets of a text. */
  predicate IsText(s: string) {
    forall i :: 0 <= i < |s| ==> s[i] as int < 0x100
  }

  function Octets(s: string): (o: seq<byte>)
    requires IsText(s)
    ensures |o| == |s| && forall i :: 0 <= i < |s| ==> o[i] as int == s[i] as int
  {
    seq(|s|, i requires 0 <= i < |s| => s[i] as int as byte)
  }

  // -- case ------------------------------------------------------------------------------------

  function LowerChar(c: char): char {
    if 'A' <= c <= 'Z' then c - 'A' + 'a' else c
  }

  function UpperChar(c: char): char {
    if 'a' <= c <= 'z' then c - 'a' + 'A' else c
  }

  function Lower(s: string): (l: string)
    ensures |l| == |s| && forall i :: 0 <= i < |s| ==> l[i] == LowerChar(s[i])
  {
    seq(|s|, i requires 0 <= i < |s| => LowerChar(s[i]))
  }

  function Upper(s: string): (u: string)
    ensures |u| == |s| && forall i :: 0 <= i < |s| ==> u[i] == UpperChar(s[i])
  {
    seq(|s|, i requires 0 <= i < |s| => UpperChar(s[i]))
  }

  /** Two texts that differ at most in the case of ASCII letters. */
  predicate SameIgnoringCase(s: string, t: string) {
    Lower(s) == Lower(t)
  }

  lemma LowerConcat(s: string, t: string)
    ensures Lower(s + t) == Lower(s) + Lower(t)
  {
  }

  // -- trimming --------------------------------------------------------------------------------

  predicate IsAsciiSpace(c: char) {
    '\t' <= c <= '\r' || c == ' '
  }

  /** The whitespace characters that take two and three octets. */
  predicate IsSpace2(a: char, b: char) {
    a == '\U{C2}' && (b == '\U{85}' || b == '\U{A0}')
  }

  predicate IsSpace3(a: char, b: char, c: char) {
    || (a == '\U{E1}' && b == '\U{9A}' && c == '\U{80}')
    || (a == '\U{E2}' && b == '\U{80}'
        && ('\U{80}' <= c <= '\U{8A}' || c == '\U{A8}' || c == '\U{A9}' || c == '\U{AF}'))
    || (a == '\U{E2}' && b == '\U{81}' && c == '\U{9F}')
    || (a == '\U{E3}' && b == '\U{80}' && c == '\U{80}')
  }

  /** How many octets the whitespace character at the start or at the end takes; 0 for none. */
  function LeadingSpace(s: string): (k: nat)
    ensures k <= |s|
  {
    if |s| >= 1 && IsAsciiSpace(s[0]) then 1
    else if |s| >= 2 && IsSpace2(s[0], s[1]) then 2
    else if |s| >= 3 && IsSpace3(s[0], s[1], s[2]) then 3
    else 0
  }

  function TrailingSpace(s: string): (k: nat)
    ensures k <= |s|
  {
    var n := |s|;
    if n >= 1 && IsAsciiSpace(s[n - 1]) then 1
    else if n >= 2 && IsSpace2(s[n - 2], s[n - 1]) then 2
    else if n >= 3 && IsSpace3(s[n - 3], s[n - 2], s[n - 1]) then 3
    else 0
  }

  function TrimStart(s: string): string {
    if LeadingSpace(s) > 0 then TrimStart(s[LeadingSpace(s)..]) else s
  }

  function TrimEnd(s: string): string {
    if TrailingSpace(s) > 0 then TrimEnd(s[..|s| - TrailingSpace(s)]) else s
  }

  function Trim(s: string): string {
    TrimEnd(TrimStart(s))
  }

  /** Neither end of the text is whitespace, so trimming leaves it alone. */
  predicate Trimmed(s: string) {
    LeadingSpace(s) == 0 && TrailingSpace(s) == 0
  }

  /** An ASCII character that is not whitespace, and so no part of a whitespace character either. */
  predicate IsSolid(c: char) {
    c < '\U{80}' && !IsAsciiSpace(c)
  }

  lemma LeadingIsNotSolid(s: string, i: nat)
    requires i < LeadingSpace(s)
    ensures !IsSolid(s[i])
  {
  }

  lemma TrailingIsNotSolid(s: string, i: nat)
    requires |s| - TrailingSpace(s) <= i < |s|
    ensures !IsSolid(s[i])
  {
  }

  lemma SolidEndsAreTrimmed(s: string)
    requires s != "" && IsSolid(s[0]) && IsSolid(s[|s| - 1])
    ensures Trimmed(s)
  {
  }

  lemma SolidStart(s: string)
    requires s != "" && IsSolid(s[0])
    ensures LeadingSpace(s) == 0
  {
  }

  lemma {:induction false} TrimStartSplits(s: string) returns (pre: string)
    ensures s == pre + TrimStart(s)
    ensures LeadingSpace(TrimStart(s)) == 0
  {
    var k := LeadingSpace(s);
    pre := "";
    if k > 0 {
      var rest := TrimStartSplits(s[k..]);
      pre := s[..k] + rest;
    }
  }

  lemma {:induction false} TrimEndSplits(s: string)
    ensures TrimEnd(s) <= s
    ensures TrailingSpace(TrimEnd(s)) == 0
  {
    if TrailingSpace(s) > 0 {
      TrimEndSplits(s[..|s| - TrailingSpace(s)]);
    }
  }

  /** What trimming returns has no whitespace at either end. */
  lemma TrimIsTrimmed(s: string)
    ensures Trimmed(Trim(s))
  {
    var _ := TrimStartSplits(s);
    TrimEndSplits(TrimStart(s));
    StartOfPrefix(TrimEnd(TrimStart(s)), TrimStart(s));
  }

  lemma StartOfPrefix(p: string, s: string)
    requires p <= s
    ensures LeadingSpace(p) > 0 ==> LeadingSpace(s) > 0
  {
  }

  lemma TrailingOfSuffix(s: string, k: nat)
    requires k <= |s| && TrailingSpace(s) == 0
    ensures TrailingSpace(s[k..]) == 0
  {
  }

  /** What trimming returns is part of the text. */
  lemma TrimIsPart(s: string) returns (pre: string, post: string)
    ensures s == pre + Trim(s) + post
  {
    pre := TrimStartSplits(s);
    TrimEndSplits(TrimStart(s));
    post := SplitPrefix(pre, Trim(s), TrimStart(s));
  }

  lemma SplitPrefix(pre: string, p: string, s: string) returns (post: string)
    requires p <= s
    ensures pre + s == pre + p + post
  {
    post := s[|p|..];
    assert s == p + post;
  }

  lemma TrimOfTrimmed(s: string)
    requires Trimmed(s)
    ensures Trim(s) == s
  {
  }

  /** Trimming the end stops at an ASCII character that is not whitespace. */
  lemma {:induction false} TrimEndKeeps(s: string, tail: string)
    requires s != [] && IsSolid(s[|s| - 1])
    ensures s <= TrimEnd(s + tail) <= s + tail
    decreases |tail|
  {
    var whole := s + tail;
    var k := TrailingSpace(whole);
    TrailingStaysBehind(s, tail);
    if k > 0 {
      assert whole[..|whole| - k] == s + tail[..|tail| - k];
      TrimEndKeeps(s, tail[..|tail| - k]);
    }
  }

  lemma TrailingStaysBehind(s: string, tail: string)
    requires s != [] && IsSolid(s[|s| - 1])
    ensures TrailingSpace(s + tail) <= |tail|
  {
    var whole := s + tail;
    if TrailingSpace(whole) > |tail| {
      TrailingIsNotSolid(whole, |s| - 1);
    }
  }

  /** A dot is no part of a whitespace character. */
  lemma DottedIsTrimmed(first: string, rest: string)
    requires first != "" && Trimmed(first) && rest != "" && Trimmed(rest)
    ensures Trimmed(first + "." + rest)
  {
    DottedLeads(first, "." + rest);
    TrailingStaysBehind(first + ".", rest);
    TrailingOf(first + ".", rest);
    assert first + ("." + rest) == first + "." + rest;
  }

  lemma DottedLeads(first: string, tail: string)
    requires tail != "" && IsSolid(tail[0])
    ensures LeadingSpace(first + tail) > 0 ==> LeadingSpace(first) > 0
  {
    var s := first + tail;
    if LeadingSpace(s) > |first| {
      LeadingIsNotSolid(s, |first|);
    }
  }

  lemma TrailingOf(front: string, rest: string)
    requires TrailingSpace(front + rest) <= |rest|
    ensures TrailingSpace(front + rest) > 0 ==> TrailingSpace(rest) > 0
  {
  }

  // -- cutting ---------------------------------------------------------------------------------

  predicate EndsWith(s: string, suffix: string) {
    |suffix| <= |s| && s[|s| - |suffix|..] == suffix
  }

  lemma LastOfSuffix(s: string, suffix: string)
    requires suffix != ""
    ensures EndsWith(s, suffix) ==> s[|s| - 1] == suffix[|suffix| - 1]
    ensures EndsWith(s, suffix) ==> suffix[0] in s
  {
    if EndsWith(s, suffix) {
      var tail := s[|s| - |suffix|..];
      assert tail[|suffix| - 1] == s[|s| - 1];
      assert tail[0] == s[|s| - |suffix|];
    }
  }

  predicate StartsWith(s: string, prefix: string) {
    |prefix| <= |s| && s[..|prefix|] == prefix
  }

  predicate OccursAt(s: string, part: string, i: int) {
    0 <= i <= |s| - |part| && s[i..i + |part|] == part
  }

  predicate Contains(s: string, part: string) {
    exists i | 0 <= i <= |s| :: OccursAt(s, part, i)
  }

  lemma ContainsMiddle(a: string, m: string, b: string)
    ensures Contains(a + m + b, m)
  {
    assert (a + m + b)[|a|..|a| + |m|] == m;
    assert OccursAt(a + m + b, m, |a|);
  }

  lemma ContainsMeans(s: string, part: string)
    ensures Contains(s, part) <==> exists a, b :: s == a + part + b
  {
    if Contains(s, part) {
      var i :| 0 <= i <= |s| && OccursAt(s, part, i);
      assert s == s[..i] + part + s[i + |part|..];
    }
    forall a, b | s == a + part + b ensures Contains(s, part) {
      ContainsMiddle(a, part, b);
    }
  }

  /** Everything before the first `c`, or the whole text when there is none. */
  function Before<T(==)>(s: seq<T>, c: T): (r: seq<T>)
    ensures r <= s && c !in r
    ensures |r| < |s| ==> s[|r|] == c
  {
    if s == [] || s[0] == c then [] else [s[0]] + Before(s[1..], c)
  }

  lemma {:induction false} BeforeOf<T>(s: seq<T>, c: T, rest: seq<T>)
    requires c !in s
    requires rest == [] || rest[0] == c
    ensures Before(s + rest, c) == s
  {
    if s == [] {
      assert s + rest == rest;
    } else {
      BeforeOf(s[1..], c, rest);
      assert (s + rest)[1..] == s[1..] + rest;
    }
  }

  /** The pieces between separators; an empty text is one empty piece. */
  function Split<T(==)>(s: seq<T>, sep: T): (r: seq<seq<T>>)
    ensures |r| >= 1
    decreases |s|
  {
    var first := Before(s, sep);
    if first == s then [s] else [first] + Split(s[|first| + 1..], sep)
  }

  function Join<T>(parts: seq<seq<T>>, sep: T): seq<T>
    requires |parts| >= 1
  {
    if |parts| == 1 then parts[0] else parts[0] + [sep] + Join(parts[1..], sep)
  }

  predicate NoneHas<T(==)>(parts: seq<seq<T>>, sep: T) {
    forall i :: 0 <= i < |parts| ==> sep !in parts[i]
  }

  lemma NoneHasCons<T>(first: seq<T>, rest: seq<seq<T>>, sep: T)
    requires sep !in first && NoneHas(rest, sep)
    ensures NoneHas([first] + rest, sep)
  {
  }

  lemma SplitStep<T>(s: seq<T>, sep: T)
    requires sep in s
    ensures var first := Before(s, sep);
            && |first| < |s|
            && s == first + [sep] + s[|first| + 1..]
            && Split(s, sep) == [first] + Split(s[|first| + 1..], sep)
  {
    assert Before(s, sep) != s;
  }

  lemma {:induction false} JoinOfSplit<T>(s: seq<T>, sep: T)
    ensures Join(Split(s, sep), sep) == s
    decreases |s|
  {
    if sep in s {
      SplitStep(s, sep);
      var rest := s[|Before(s, sep)| + 1..];
      JoinOfSplit(rest, sep);
      assert Split(s, sep)[1..] == Split(rest, sep);
    } else {
      BeforeOf(s, sep, []);
      assert s + [] == s;
    }
  }

  lemma {:induction false} SplitPieces<T>(s: seq<T>, sep: T)
    ensures NoneHas(Split(s, sep), sep)
    decreases |s|
  {
    if sep in s {
      SplitStep(s, sep);
      var first := Before(s, sep);
      SplitPieces(s[|first| + 1..], sep);
      NoneHasCons(first, Split(s[|first| + 1..], sep), sep);
    } else {
      BeforeOf(s, sep, []);
      assert s + [] == s;
    }
  }

  lemma {:induction false} SplitOfJoin<T>(parts: seq<seq<T>>, sep: T)
    requires |parts| >= 1 && NoneHas(parts, sep)
    ensures Split(Join(parts, sep), sep) == parts
    decreases |parts|
  {
    var s := Join(parts, sep);
    if |parts| == 1 {
      BeforeOf(parts[0], sep, []);
      assert parts[0] + [] == s;
    } else {
      var rest := [sep] + Join(parts[1..], sep);
      assert s == parts[0] + rest;
      BeforeOf(parts[0], sep, rest);
      assert s[|parts[0]| + 1..] == Join(parts[1..], sep);
      SplitOfJoin(parts[1..], sep);
    }
  }

  function LowerAll(parts: seq<string>): (r: seq<string>)
    ensures |r| == |parts| && forall i :: 0 <= i < |parts| ==> r[i] == Lower(parts[i])
  {
    seq(|parts|, i requires 0 <= i < |parts| => Lower(parts[i]))
  }

  lemma {:induction false} LowerJoin(parts: seq<string>)
    requires |parts| >= 1
    ensures Lower(Join(parts, '.')) == Join(LowerAll(parts), '.')
  {
    if |parts| > 1 {
      LowerJoin(parts[1..]);
      assert LowerAll(parts)[1..] == LowerAll(parts[1..]);
      LowerConcat(parts[0] + ".", Join(parts[1..], '.'));
      LowerConcat(parts[0], ".");
    }
  }

  lemma LowerHasDot(s: string)
    ensures '.' in Lower(s) <==> '.' in s
  {
    if '.' in Lower(s) {
      var i :| 0 <= i < |s| && Lower(s)[i] == '.';
      assert s[i] == '.';
    }
    if '.' in s {
      var i :| 0 <= i < |s| && s[i] == '.';
      assert Lower(s)[i] == '.';
    }
  }

  /** A dotted text spells given dot-free labels, up to case, exactly when its pieces do. */
  lemma SpellsLabels(s: string, labels: seq<string>)
    requires |labels| >= 1 && NoneHas(labels, '.')
    ensures Lower(s) == Join(labels, '.') <==> LowerAll(Split(s, '.')) == labels
  {
    var parts := Split(s, '.');
    JoinOfSplit(s, '.');
    SplitPieces(s, '.');
    LowerJoin(parts);
    forall i | 0 <= i < |parts| ensures '.' !in LowerAll(parts)[i] {
      LowerHasDot(parts[i]);
    }
    SplitOfJoin(LowerAll(parts), '.');
    SplitOfJoin(labels, '.');
  }

  // -- settings --------------------------------------------------------------------------------

  /** What follows the key on the first line that starts with it. */
  function Setting(ls: seq<string>, key: string): Option<string> {
    if ls == [] then None
    else if StartsWith(ls[0], key) then Some(ls[0][|key|..])
    else Setting(ls[1..], key)
  }

  lemma StartsWithKey(key: string, rest: string)
    ensures StartsWith(key + rest, key) && (key + rest)[|key|..] == rest
  {
  }

  lemma OtherFirst(line: string, key: string)
    requires line != "" && key != "" && line[0] != key[0]
    ensures !StartsWith(line, key)
  {
    assert |key| <= |line| ==> line[..|key|][0] == line[0];
  }

  lemma SettingSkips(line: string, ls: seq<string>, key: string)
    requires !StartsWith(line, key)
    ensures Setting([line] + ls, key) == Setting(ls, key)
  {
    assert ([line] + ls)[1..] == ls;
  }

  lemma SettingHere(key: string, value: string, ls: seq<string>)
    ensures Setting([key + value] + ls, key) == Some(value)
  {
    StartsWithKey(key, value);
  }

  lemma {:induction false} SettingPast(ls: seq<string>, rest: seq<string>, key: string)
    requires forall i :: 0 <= i < |ls| ==> !StartsWith(ls[i], key)
    ensures Setting(ls + rest, key) == Setting(rest, key)
    decreases |ls|
  {
    if ls == [] {
      assert ls + rest == rest;
    } else {
      assert (ls + rest)[1..] == ls[1..] + rest;
      SettingPast(ls[1..], rest, key);
    }
  }
}
