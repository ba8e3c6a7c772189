/** The Scryfall search-link builder behind "!mtg".

A query text is taken apart in a fixed order: card types and supertypes are
peeled off by substring search, then the first power/toughness pair, then the
first mana-value criterion; what is left names the commander, whose colour
identity an outside lookup supplies.  The link is the search address followed
by '+'-separated terms.  `=` and `<` are written as the percent escapes "%3D"
and "%3C" of section 2.1 of RFC 3986; `>` is left as it is.
 */
module Magic {
  import opened Wrappers
  import opened Text
  import opened Patterns

  const BaseUri: string := "https://scryfall.com" + "/search?as=grid&order=name&q="

  const Help: string :=
    "\nGenerates a Scryfall search link based on specified criteria.\n"
    + "You can specify the name of a command (or most of the name) and then:\n"
    + "* Card types, including super types\n"
    + "* CMC, including <,=,> or combinations (defaults to = if no symbol specified)\n"
    + "* Power/Toughness\n"
    + "\n"
    + "Example 1:\n"
    + "Linvala, Keeper of Silence creature 2/2 cmc<5\n"
    + "\n"
    + "Will return a search to find all white or colours creatures which are 2/2 and cost less than 5 mana.\n"
    + "\n"
    + "Example 2:\n"
    + "child of alara legendary land 2\n"
    + "\n"
    + "Will return all legendary land with CMC equal to 2\n"

  const ValidTypes: seq<string> := ["artifact", "creature", "enchantment", "instant", "land", "planeswalker", "sorcery"]

  const ValidSuperTypes: seq<string> := ["legendary", "snow", "basic", "tribal"]

  // ---------------------------------------------------------------- types

  /** `a` is `b` with some elements left out, the rest kept in order. */
  predicate Subsequence<T(==)>(a: seq<T>, b: seq<T>)
    decreases |b|
  {
    if a == [] then true
    else if b == [] then false
    else (a[0] == b[0] && Subsequence(a[1..], b[1..])) || Subsequence(a, b[1..])
  }

  /** The loop of `getTypes`: each word of the list, in list order, is looked for in what is
      left of the text; when it occurs it is recorded and its first occurrence removed. */
  function Peel(words: seq<string>, c: string): (res: (seq<string>, string))
    ensures |res.0| <= |words| && |res.1| <= |c|
    decreases |words|
  {
    if words == [] then ([], c)
    else
      var w := words[0];
      if Contains(c, w) then
        var rest := Peel(words[1..], ReplaceFirst(c, w, ""));
        ([w] + rest.0, rest.1)
      else Peel(words[1..], c)
  }

  /** The words found are some of the list, in list order; together with what is left they
      are exactly the characters of the text; nothing is found exactly when no word
      occurs, and then the text is left as it was. */
  lemma {:induction false} PeelConserves(words: seq<string>, c: string)
    ensures var (found, rest) := Peel(words, c);
      && Subsequence(found, words)
      && |rest| + |Concat(found)| == |c|
      && multiset(rest) + multiset(Concat(found)) == multiset(c)
      && (found == [] <==> forall i | 0 <= i < |words| :: !Contains(c, words[i]))
      && (found == [] ==> rest == c)
    decreases |words|
  {
    if words != [] {
      var w := words[0];
      assert forall i | 1 <= i < |words| :: words[i] == words[1..][i - 1];
      if Contains(c, w) {
        var c1 := ReplaceFirst(c, w, "");
        PeelConserves(words[1..], c1);
        RemoveFirstKeepsRest(c, w);
        var rest := Peel(words[1..], c1);
        assert ([w] + rest.0)[0] == w && ([w] + rest.0)[1..] == rest.0;
        assert Concat([w] + rest.0) == w + Concat(rest.0);
      } else {
        PeelConserves(words[1..], c);
      }
    }
  }

  /** Peeling a list in two parts is peeling the first part and then the second part from
      what the first left: the words are tried strictly one after another. */
  lemma {:induction false} PeelAppend(a: seq<string>, b: seq<string>, c: string)
    ensures var first := Peel(a, c); var second := Peel(b, first.1);
      Peel(a + b, c) == (first.0 + second.0, second.1)
    decreases |a|
  {
    if a == [] {
      assert a + b == b;
      assert [] + Peel(b, c).0 == Peel(b, c).0;
    } else {
      assert (a + b)[0] == a[0] && (a + b)[1..] == a[1..] + b;
      var w := a[0];
      if Contains(c, w) {
        PeelAppend(a[1..], b, ReplaceFirst(c, w, ""));
        var r := Peel(a[1..], ReplaceFirst(c, w, ""));
        var second := Peel(b, r.1);
        assert [w] + (r.0 + second.0) == ([w] + r.0) + second.0;
      } else {
        PeelAppend(a[1..], b, c);
      }
    }
  }

  /** `getTypes`: the card types found, the supertypes found in what the types left, and
      the remaining text. */
  function GetTypes(c: string): (res: (seq<string>, seq<string>, string))
    ensures Subsequence(res.0, ValidTypes) && Subsequence(res.1, ValidSuperTypes)
    ensures multiset(res.2) + multiset(Concat(res.0)) + multiset(Concat(res.1)) == multiset(c)
  {
    var (types, c1) := Peel(ValidTypes, c);
    var (supers, c2) := Peel(ValidSuperTypes, c1);
    PeelConserves(ValidTypes, c);
    PeelConserves(ValidSuperTypes, c1);
    (types, supers, c2)
  }

  /** Looking for types and then supertypes is one pass over the list of types followed by
      the list of supertypes. */
  lemma GetTypesOnePass(c: string)
    ensures var (types, supers, rest) := GetTypes(c);
      Peel(ValidTypes + ValidSuperTypes, c) == (types + supers, rest)
  {
    PeelAppend(ValidTypes, ValidSuperTypes, c);
  }

  /** A text naming no type or supertype comes back unchanged, with nothing found. */
  lemma GetTypesNone(c: string)
    requires forall w | w in ValidTypes + ValidSuperTypes :: !Contains(c, w)
    ensures GetTypes(c) == ([], [], c)
  {
    assert forall i | 0 <= i < |ValidTypes| :: ValidTypes[i] in ValidTypes + ValidSuperTypes;
    PeelConserves(ValidTypes, c);
    assert forall i | 0 <= i < |ValidSuperTypes| :: ValidSuperTypes[i] in ValidTypes + ValidSuperTypes;
    PeelConserves(ValidSuperTypes, c);
  }

  // ---------------------------------------------------------------- escapes

  /** Go's `regexp.MustCompile(string(ch)).ReplaceAllString(s, rep)` for a character with no
      special meaning in a pattern. */
  function ReplaceAllChar(s: string, ch: char, rep: string): (r: string)
    ensures ch !in s ==> r == s
    decreases |s|
  {
    if s == [] then [] else (if s[0] == ch then rep else [s[0]]) + ReplaceAllChar(s[1..], ch, rep)
  }

  lemma {:induction false} ReplaceAllCharAppend(a: string, b: string, ch: char, rep: string)
    ensures ReplaceAllChar(a + b, ch, rep) == ReplaceAllChar(a, ch, rep) + ReplaceAllChar(b, ch, rep)
    decreases |a|
  {
    if a == [] {
      assert a + b == b;
    } else {
      assert (a + b)[0] == a[0] && (a + b)[1..] == a[1..] + b;
      ReplaceAllCharAppend(a[1..], b, ch, rep);
    }
  }

  /** The two passes of `getCmc`: every '=' becomes "%3D", then every '<' becomes "%3C". */
  function EscapeModifier(m: string): string {
    ReplaceAllChar(ReplaceAllChar(m, '=', "%3D"), '<', "%3C")
  }

  /** The escape of one character, as the link writes it. */
  function EscapeChar(ch: char): string {
    if ch == '=' then "%3D" else if ch == '<' then "%3C" else [ch]
  }

  function EscapeEach(m: string): (r: string)
    decreases |m|
  {
    if m == [] then "" else EscapeChar(m[0]) + EscapeEach(m[1..])
  }

  /** The two whole-text passes act as one character-by-character escape: the first pass
      writes no '<' for the second to rewrite. */
  lemma {:induction false} EscapeModifierEach(m: string)
    ensures EscapeModifier(m) == EscapeEach(m)
    decreases |m|
  {
    if m != [] {
      assert m == [m[0]] + m[1..];
      ReplaceAllCharAppend([m[0]], m[1..], '=', "%3D");
      var first := ReplaceAllChar([m[0]], '=', "%3D");
      assert ReplaceAllChar([m[0]][1..], '=', "%3D") == [];
      ReplaceAllCharAppend(first, ReplaceAllChar(m[1..], '=', "%3D"), '<', "%3C");
      if m[0] == '=' {
        assert first == "%3D";
        assert ReplaceAllChar("%3D", '<', "%3C") == "%3D" by {
          assert '<' !in "%3D";
        }
      } else {
        assert first == [m[0]];
        assert ReplaceAllChar([m[0]], '<', "%3C") == EscapeChar(m[0]) by {
          assert [m[0]][1..] == [];
        }
      }
      EscapeModifierEach(m[1..]);
    }
  }

  function HexDigit(d: nat): char
    requires d < 16
  {
    "0123456789ABCDEF"[d]
  }

  /** The percent escape of section 2.1 of RFC 3986 for a one-octet character. */
  function PercentEncoded(ch: char): string
    requires ch as int < 256
  {
    ['%', HexDigit(ch as int / 16), HexDigit(ch as int % 16)]
  }

  /** The escapes written for '=' and '<' are the standard percent escapes of those octets. */
  lemma EscapesAreStandard()
    ensures EscapeChar('=') == PercentEncoded('=')
    ensures EscapeChar('<') == PercentEncoded('<')
    ensures EscapeChar('>') == ">"
  {
  }

  /** Reads the two escapes back. */
  function PercentDecode(s: string): (r: string)
    decreases |s|
  {
    if s == [] then ""
    else if HasPrefix(s, "%3D") then "=" + PercentDecode(s[3..])
    else if HasPrefix(s, "%3C") then "<" + PercentDecode(s[3..])
    else [s[0]] + PercentDecode(s[1..])
  }

  /** Text without a '%' decodes as itself. */
  lemma {:induction false} PercentDecodePlain(s: string)
    requires '%' !in s
    ensures PercentDecode(s) == s
    decreases |s|
  {
    if s != [] {
      assert s[0] != '%';
      PercentDecodePlain(s[1..]);
    }
  }

  /** Decoding reads one escaped character back and continues after it. */
  lemma PercentDecodeStep(ch: char, rest: string)
    requires ch != '%'
    ensures PercentDecode(EscapeChar(ch) + rest) == [ch] + PercentDecode(rest)
  {
    var s := EscapeChar(ch) + rest;
    if ch == '=' {
      assert HasPrefix(s, "%3D") && s[3..] == rest;
      assert PercentDecode(s) == "=" + PercentDecode(rest);
    } else if ch == '<' {
      assert !HasPrefix(s, "%3D") && HasPrefix(s, "%3C") && s[3..] == rest;
      assert PercentDecode(s) == "<" + PercentDecode(rest);
    } else {
      assert s[0] == ch && s[1..] == rest;
      assert !HasPrefix(s, "%3D") && !HasPrefix(s, "%3C");
      assert PercentDecode(s) == [ch] + PercentDecode(rest);
    }
  }

  /** Escaping then decoding gives back any text without a '%'. */
  lemma {:induction false} EscapeRoundTrip(m: string, tail: string)
    requires '%' !in m && '%' !in tail
    ensures PercentDecode(EscapeEach(m) + tail) == m + tail
    decreases |m|
  {
    if m == [] {
      assert EscapeEach(m) + tail == tail && m + tail == tail;
      PercentDecodePlain(tail);
    } else {
      assert m[0] in m;
      assert forall x | x in m[1..] :: x in m;
      var rest := EscapeEach(m[1..]) + tail;
      assert EscapeEach(m) + tail == EscapeChar(m[0]) + rest;
      EscapeRoundTrip(m[1..], tail);
      PercentDecodeStep(m[0], rest);
      HeadThenRest(m, tail);
    }
  }

  lemma HeadThenRest(m: string, tail: string)
    requires m != []
    ensures m + tail == [m[0]] + (m[1..] + tail)
  {
  }

  // ---------------------------------------------------------------- criteria

  /** The power/toughness term of the first pair, "pow%3D<p>+tou%3D<t>", or "" when the text
      holds no pair. */
  function PtQuery(c: string): (q: string)
    ensures q == "" <==> First(PowerToughness, c).None?
  {
    match First(PowerToughness, c)
    case None => ""
    case Some(m) => "pow%3D" + m.groups[0] + "+tou%3D" + m.groups[1]
  }

  /** `getPowerToughtness`: the term of the first power/toughness pair and the text with
      every pair removed and trimmed; or nothing and the text unchanged. */
  function GetPowerToughness(c: string): (res: (string, string))
    ensures First(PowerToughness, c).None? <==> res == ("", c)
    ensures First(PowerToughness, c).Some? ==> res.1 == TrimSpace(RemoveAll(PowerToughness, c, 0))
    ensures res.0 == PtQuery(c)
  {
    if First(PowerToughness, c).None? then ("", c)
    else (PtQuery(c), TrimSpace(RemoveAll(PowerToughness, c, 0)))
  }

  lemma JoinPair(a: string, b: string, sep: string)
    ensures Join([a, b], sep) == a + sep + b
  {
    assert [a, b][1..] == [b];
  }

  /** The mana-value criterion of the first match: its comparison (or "=" when there is
      none), escaped, followed by its digits. */
  function CmcTerm(m: Match): string
    requires |m.groups| == 2
  {
    EscapeModifier(if m.groups[0] == "" then "=" else m.groups[0]) + m.groups[1]
  }

  /** `getCmc`: the criterion of the first mana-value match and the text with every match
      removed and trimmed; or nothing and the text unchanged. */
  function GetCmc(c: string): (res: (string, string))
    ensures First(Cmc, c).None? <==> res == ("", c)
    ensures First(Cmc, c).Some? ==>
      && res.0 == CmcTerm(First(Cmc, c).value)
      && res.1 == TrimSpace(RemoveAll(Cmc, c, 0))
  {
    match First(Cmc, c)
    case None => ("", c)
    case Some(m) =>
      assert |CmcTerm(m)| > 0 by {
        assert |m.groups[1]| >= 1 by {
          assert MatchAt(Cmc, c, m.start) == CmcAt(c, m.start);
        }
      }
      (CmcTerm(m), TrimSpace(RemoveAll(Cmc, c, 0)))
  }

  /** `getCmc` leaves the query alone, with no criterion, exactly when it holds no digit. */
  lemma GetCmcUnchangedIff(c: string)
    ensures GetCmc(c) == ("", c) <==> forall k | 0 <= k < |c| :: !IsDigit(c[k])
  {
    CmcFoundIff(c);
  }

  /** Decoding the criterion gives back the comparison that was typed ("=" when none was)
      followed by the digits. */
  lemma GetCmcDecodes(c: string)
    requires First(Cmc, c).Some?
    ensures var g := First(Cmc, c).value.groups;
      PercentDecode(GetCmc(c).0) == (if g[0] == "" then "=" else g[0]) + g[1]
  {
    var m := First(Cmc, c).value;
    assert MatchAt(Cmc, c, m.start) == CmcAt(c, m.start);
    var g := m.groups;
    var mod := if g[0] == "" then "=" else g[0];
    assert AllIn(mod, Comparisons);
    OutsideClass(mod, Comparisons, '%');
    OutsideClass(g[1], Digits, '%');
    EscapeModifierEach(mod);
    EscapeRoundTrip(mod, g[1]);
  }

  // ---------------------------------------------------------------- the link

  /** Text made of one class holds no character outside it. */
  lemma OutsideClass(s: string, cls: CharClass, ch: char)
    requires AllIn(s, cls) && !InClass(ch, cls)
    ensures ch !in s
  {
  }

  /** Text with no character of a class that excludes '+' holds no '+'. */
  lemma NoPlus(s: string, cls: CharClass)
    requires AllIn(s, cls)
    ensures '+' !in s
  {
  }

  /** What `mtgCommand` extracts, in its order: the types, then the power/toughness pair from
      what the types left, then the mana value from what that left.  `ptTerms` are the two
      '+'-separated halves of `pt`. */
  datatype Criteria = Criteria(types: seq<string>, supers: seq<string>, pt: string, ptTerms: seq<string>, cmc: string, rest: string)

  /** What every extraction satisfies: known type names only, a power/toughness term made
      of two '+'-free halves or absent, and a mana-value term without '+'. */
  predicate WellFormed(k: Criteria) {
    && Subsequence(k.types, ValidTypes) && Subsequence(k.supers, ValidSuperTypes)
    && k.pt == Join(k.ptTerms, "+") && (|k.ptTerms| == 0 || |k.ptTerms| == 2)
    && (forall i | 0 <= i < |k.ptTerms| :: '+' !in k.ptTerms[i])
    && '+' !in k.cmc
  }

  function Extract(c: string): (k: Criteria)
    ensures WellFormed(k)
  {
    var (types, supers, c1) := GetTypes(c);
    var (pt, c2) := GetPowerToughness(c1);
    var (cmc, c3) := GetCmc(c2);
    CmcTermNoPlus(c2);
    Criteria(types, supers, pt, PtTerms(c1), cmc, c3)
  }

  lemma PtGroupsNoPlus(c: string)
    requires First(PowerToughness, c).Some?
    ensures '+' !in "pow%3D" + First(PowerToughness, c).value.groups[0]
    ensures '+' !in "tou%3D" + First(PowerToughness, c).value.groups[1]
  {
    var m := First(PowerToughness, c).value;
    assert MatchAt(PowerToughness, c, m.start) == PowerToughnessAt(c, m.start);
    NoPlus(m.groups[0], PtChars);
    NoPlus(m.groups[1], PtChars);
  }

  /** The power and toughness terms of the first pair, or none. */
  function PtTerms(c: string): (t: seq<string>)
    ensures PtQuery(c) == Join(t, "+") && (|t| == 0 || |t| == 2)
    ensures forall i | 0 <= i < |t| :: '+' !in t[i]
  {
    if First(PowerToughness, c).None? then []
    else
      PtPairTerms(c);
      PtPair(c)
  }

  function PtPair(c: string): seq<string>
    requires First(PowerToughness, c).Some?
  {
    var m := First(PowerToughness, c).value;
    ["pow%3D" + m.groups[0], "tou%3D" + m.groups[1]]
  }

  lemma PtPairTerms(c: string)
    requires First(PowerToughness, c).Some?
    ensures PtQuery(c) == Join(PtPair(c), "+") && |PtPair(c)| == 2
    ensures forall i | 0 <= i < |PtPair(c)| :: '+' !in PtPair(c)[i]
  {
    var m := First(PowerToughness, c).value;
    JoinPair("pow%3D" + m.groups[0], "tou%3D" + m.groups[1], "+");
    PtGroupsNoPlus(c);
  }

  lemma {:induction false} EscapeEachNoPlus(m: string)
    requires '+' !in m
    ensures '+' !in EscapeEach(m)
    decreases |m|
  {
    if m != [] {
      assert m[0] in m;
      assert forall x | x in m[1..] :: x in m;
      EscapeEachNoPlus(m[1..]);
    }
  }

  lemma CmcTermNoPlus(c: string)
    ensures '+' !in GetCmc(c).0
  {
    if First(Cmc, c).Some? {
      var m := First(Cmc, c).value;
      assert MatchAt(Cmc, c, m.start) == CmcAt(c, m.start);
      var mod := if m.groups[0] == "" then "=" else m.groups[0];
      assert AllIn(mod, Comparisons);
      NoPlus(mod, Comparisons);
      NoPlus(m.groups[1], Digits);
      EscapeModifierEach(mod);
      EscapeEachNoPlus(mod);
    }
  }

  /** The supertype terms appended one at a time, as the first loop of `mtgCommand` does. */
  function AppendTypes(uri: string, types: seq<string>): string
    decreases |types|
  {
    if types == [] then uri else AppendTypes(uri + "+type%3A" + types[0], types[1..])
  }

  /** The second loop: each link added after a single space. */
  function SpaceJoin(acc: string, uris: seq<string>): string
    decreases |uris|
  {
    if uris == [] then acc else SpaceJoin(acc + " " + uris[0], uris[1..])
  }

  /** The link for the criteria before any card type is added. */
  function BaseLink(ci: string, pt: string, cmc: string, supers: seq<string>): string {
    AppendTypes(BaseUri + QueryHead(ci, pt, cmc), supers)
  }

  /** The commander, power/toughness and mana-value part of the query. */
  function QueryHead(ci: string, pt: string, cmc: string): string {
    "commander%3A" + ci + (if pt != "" then "+" + pt else "") + (if cmc != "" then "+cmc" + cmc else "")
  }

  /** One link per card type, each the base link followed by that type's term. */
  function TypeLinks(uri: string, types: seq<string>): (uris: seq<string>)
    ensures |uris| == |types|
  {
    seq(|types|, i requires 0 <= i < |types| => uri + "+type%3A" + types[i])
  }

  /** `mtgCommand` with the colour identity lookup given as a function of the remaining
      text.  A failed lookup gives an empty answer and no error. */
  function MtgCommand(c: string, colourIdentity: string -> Returned<string>): (out: Returned<string>)
    ensures out.err.None?
    ensures HasPrefix(c, "help") ==> out == Ok(Help)
    ensures !HasPrefix(c, "help") ==>
      var ci := colourIdentity(Extract(c).rest);
      out == if ci.err.Some? then Ok("") else Ok(Render(Extract(c), ci.value))
  {
    if HasPrefix(c, "help") then Ok(Help)
    else
      var k := Extract(c);
      var ci := colourIdentity(k.rest);
      if ci.err.Some? then Ok("") else Ok(Render(k, ci.value))
  }

  /** The answer for extracted criteria and a colour identity. */
  function Render(k: Criteria, ci: string): (r: string)
    ensures r == [] || (!IsSpace(r[0]) && !IsSpace(r[|r| - 1]))
  {
    var uri := BaseLink(ci, k.pt, k.cmc, k.supers);
    if |k.types| == 1 then TrimSpace(uri + "+type%3A" + k.types[0])
    else if |k.types| > 1 then TrimSpace(SpaceJoin("", TypeLinks(uri, k.types)))
    else TrimSpace(uri)
  }

  function TypeTerms(types: seq<string>): (terms: seq<string>)
    ensures |terms| == |types|
  {
    seq(|types|, i requires 0 <= i < |types| => "type%3A" + types[i])
  }

  /** The search terms of a link, in the order the link lists them. */
  function Terms(ci: string, ptTerms: seq<string>, cmc: string, supers: seq<string>): seq<string> {
    HeadTerms(ci, ptTerms, cmc) + TypeTerms(supers)
  }

  function HeadTerms(ci: string, ptTerms: seq<string>, cmc: string): seq<string> {
    ["commander%3A" + ci] + ptTerms + (if cmc != "" then ["cmc" + cmc] else [])
  }

  lemma HeadTermsJoin(ci: string, ptTerms: seq<string>, cmc: string)
    requires |ptTerms| == 0 || |ptTerms| == 2
    ensures Join(HeadTerms(ci, ptTerms, cmc), "+") == QueryHead(ci, Join(ptTerms, "+"), cmc)
  {
    var head := ["commander%3A" + ci];
    var cmcTerms := if cmc != "" then ["cmc" + cmc] else [];
    var pt := Join(ptTerms, "+");
    assert Join(head, "+") == "commander%3A" + ci;
    if ptTerms != [] {
      assert pt == ptTerms[0] + "+" + Join(ptTerms[1..], "+");
    }
    OptionalTerm(head, ptTerms);
    if cmc != "" {
      assert Join(cmcTerms, "+") == "cmc" + cmc;
    }
    OptionalTerm(head + ptTerms, cmcTerms);
    assert HeadTerms(ci, ptTerms, cmc) == head + ptTerms + cmcTerms;
    var front := "commander%3A" + ci + (if pt != "" then "+" + pt else "");
    assert Join(head + ptTerms, "+") == front;
    if cmc != "" {
      assert "+" + ("cmc" + cmc) == "+cmc" + cmc;
      assert Join(HeadTerms(ci, ptTerms, cmc), "+") == front + ("+cmc" + cmc);
    } else {
      assert Join(HeadTerms(ci, ptTerms, cmc), "+") == front;
    }
  }

  /** Appending more terms that join to a non-empty text adds "+" and that text. */
  lemma OptionalTerm(terms: seq<string>, more: seq<string>)
    requires |terms| >= 1 && (more == [] || Join(more, "+") != "")
    ensures var m := Join(more, "+");
      Join(terms + more, "+") == Join(terms, "+") + (if m != "" then "+" + m else "")
  {
    if more == [] {
      assert terms + more == terms;
    } else {
      JoinAppend(terms, more, "+");
    }
  }

  lemma {:induction false} AppendTypesJoin(prefix: string, terms: seq<string>, types: seq<string>)
    requires |terms| >= 1
    ensures AppendTypes(prefix + Join(terms, "+"), types) == prefix + Join(terms + TypeTerms(types), "+")
    decreases |types|
  {
    if types == [] {
      assert terms + TypeTerms(types) == terms;
    } else {
      var next := terms + ["type%3A" + types[0]];
      JoinAppend(terms, ["type%3A" + types[0]], "+");
      assert prefix + Join(terms, "+") + "+type%3A" + types[0] == prefix + Join(next, "+");
      AppendTypesJoin(prefix, next, types[1..]);
      assert next + TypeTerms(types[1..]) == terms + TypeTerms(types);
    }
  }

  /** The link before card types is the search address followed by the terms joined with
      '+': commander, power, toughness, mana value, then one term per supertype. */
  lemma BaseLinkTerms(ci: string, ptTerms: seq<string>, cmc: string, supers: seq<string>)
    requires |ptTerms| == 0 || |ptTerms| == 2
    ensures BaseLink(ci, Join(ptTerms, "+"), cmc, supers) == BaseUri + Join(Terms(ci, ptTerms, cmc, supers), "+")
  {
    HeadTermsJoin(ci, ptTerms, cmc);
    AppendTypesJoin(BaseUri, HeadTerms(ci, ptTerms, cmc), supers);
  }

  lemma {:induction false} SpaceJoinJoin(acc: string, uris: seq<string>)
    requires |uris| >= 1
    ensures SpaceJoin(acc, uris) == acc + " " + Join(uris, " ")
    decreases |uris|
  {
    if |uris| > 1 {
      SpaceJoinJoin(acc + " " + uris[0], uris[1..]);
    }
  }

  lemma {:induction false} JoinLast(parts: seq<string>, sep: string)
    requires |parts| >= 1 && |parts[|parts| - 1]| >= 1
    ensures |Join(parts, sep)| >= 1
    ensures Join(parts, sep)[|Join(parts, sep)| - 1] == parts[|parts| - 1][|parts[|parts| - 1]| - 1]
    decreases |parts|
  {
    if |parts| > 1 {
      JoinLast(parts[1..], sep);
    }
  }

  lemma {:induction false} SubsequenceMember<T>(a: seq<T>, b: seq<T>, i: nat)
    requires Subsequence(a, b) && i < |a|
    ensures a[i] in b
    decreases |b|
  {
    if a[0] == b[0] && Subsequence(a[1..], b[1..]) {
      if i > 0 {
        SubsequenceMember(a[1..], b[1..], i - 1);
      }
    } else {
      SubsequenceMember(a, b[1..], i);
    }
  }

  /** Every type or supertype name found is a non-empty word of lower-case letters. */
  lemma TypeNamesArePlain(types: seq<string>, valid: seq<string>)
    requires valid == ValidTypes || valid == ValidSuperTypes
    requires Subsequence(types, valid)
    ensures forall i | 0 <= i < |types| :: |types[i]| >= 1 && !IsSpace(types[i][|types[i]| - 1]) && '+' !in types[i]
  {
    forall i | 0 <= i < |types|
      ensures |types[i]| >= 1 && !IsSpace(types[i][|types[i]| - 1]) && '+' !in types[i]
    {
      SubsequenceMember(types, valid, i);
    }
  }

  /** With at most one card type the answer is the single link: the search address and the
      terms joined with '+', the type's term last.  With several, the answer is one such
      link per type, in type order, separated by single spaces. */
  lemma RenderLinks(k: Criteria, ci: string)
    requires WellFormed(k)
    ensures var query := BaseUri + Join(Terms(ci, k.ptTerms, k.cmc, k.supers), "+");
      && (|k.types| <= 1 ==> Render(k, ci) == TrimSpace(BaseUri + Join(Terms(ci, k.ptTerms, k.cmc, k.supers) + TypeTerms(k.types), "+")))
      && (|k.types| > 1 ==> Render(k, ci) == Join(TypeLinks(query, k.types), " "))
  {
    if |k.types| == 1 {
      RenderOneType(k, ci);
    } else if |k.types| == 0 {
      RenderNoType(k, ci);
    } else {
      RenderSeveralTypes(k, ci);
    }
  }

  lemma RenderOneType(k: Criteria, ci: string)
    requires WellFormed(k) && |k.types| == 1
    ensures Render(k, ci) == TrimSpace(BaseUri + Join(Terms(ci, k.ptTerms, k.cmc, k.supers) + TypeTerms(k.types), "+"))
  {
    var terms := Terms(ci, k.ptTerms, k.cmc, k.supers);
    BaseLinkTerms(ci, k.ptTerms, k.cmc, k.supers);
    var uri := BaseLink(ci, k.pt, k.cmc, k.supers);
    assert AppendTypes(uri, k.types) == uri + "+type%3A" + k.types[0] by {
      assert k.types[1..] == [];
    }
    AppendTypesJoin(BaseUri, terms, k.types);
  }

  lemma RenderNoType(k: Criteria, ci: string)
    requires WellFormed(k) && |k.types| == 0
    ensures Render(k, ci) == TrimSpace(BaseUri + Join(Terms(ci, k.ptTerms, k.cmc, k.supers) + TypeTerms(k.types), "+"))
  {
    var terms := Terms(ci, k.ptTerms, k.cmc, k.supers);
    BaseLinkTerms(ci, k.ptTerms, k.cmc, k.supers);
    assert terms + TypeTerms(k.types) == terms;
  }

  lemma RenderSeveralTypes(k: Criteria, ci: string)
    requires WellFormed(k) && |k.types| > 1
    ensures Render(k, ci) == Join(TypeLinks(BaseUri + Join(Terms(ci, k.ptTerms, k.cmc, k.supers), "+"), k.types), " ")
  {
    var terms := Terms(ci, k.ptTerms, k.cmc, k.supers);
    BaseLinkTerms(ci, k.ptTerms, k.cmc, k.supers);
    var uri := BaseLink(ci, k.pt, k.cmc, k.supers);
    TypeNamesArePlain(k.types, ValidTypes);
    StartsWithBaseUri(uri, Join(terms, "+"));
    SeveralLinks(uri, k.types);
  }

  lemma StartsWithBaseUri(uri: string, query: string)
    requires uri == BaseUri + query
    ensures |uri| >= 1 && !IsSpace(uri[0])
  {
    assert uri[0] == BaseUri[0] == 'h';
  }

  /** Several links separated by spaces, none starting or ending in white space, pass
      through the final trim unchanged. */
  lemma SeveralLinks(uri: string, types: seq<string>)
    requires |types| > 1 && |uri| >= 1 && !IsSpace(uri[0])
    requires forall i | 0 <= i < |types| :: |types[i]| >= 1 && !IsSpace(types[i][|types[i]| - 1])
    ensures TrimSpace(SpaceJoin("", TypeLinks(uri, types))) == Join(TypeLinks(uri, types), " ")
  {
    var uris := TypeLinks(uri, types);
    SpaceJoinJoin("", uris);
    var joined := Join(uris, " ");
    var last := uris[|uris| - 1];
    assert last == uri + "+type%3A" + types[|types| - 1];
    assert last[|last| - 1] == types[|types| - 1][|types[|types| - 1]| - 1];
    JoinLast(uris, " ");
    assert joined[0] == uri[0] by {
      assert joined == uris[0] + " " + Join(uris[1..], " ");
    }
    assert "" + " " + joined == " " + joined;
    TrimOneSpace(joined);
  }

  lemma TrimOneSpace(s: string)
    requires |s| >= 1 && !IsSpace(s[0]) && !IsSpace(s[|s| - 1])
    ensures TrimSpace(" " + s) == s
  {
    assert (" " + s)[1..] == s;
    assert TrimLeft(" " + s) == TrimLeft(s) == s;
  }

  /** When the commander's colour identity holds no '+', splitting the link's query on '+'
      gives back its terms one by one. */
  lemma QueryTermsRecovered(k: Criteria, ci: string)
    requires WellFormed(k) && '+' !in ci
    ensures var terms := Terms(ci, k.ptTerms, k.cmc, k.supers) + TypeTerms(k.types);
      Split(Join(terms, "+"), '+') == terms
  {
    var head := HeadTerms(ci, k.ptTerms, k.cmc);
    HeadNoPlus(ci, k.ptTerms, k.cmc);
    TypeTermsNoPlus(k.supers, ValidSuperTypes);
    TypeTermsNoPlus(k.types, ValidTypes);
    NoPlusAppend(head, TypeTerms(k.supers));
    NoPlusAppend(head + TypeTerms(k.supers), TypeTerms(k.types));
    SplitJoin(head + TypeTerms(k.supers) + TypeTerms(k.types), '+');
  }

  lemma HeadNoPlus(ci: string, ptTerms: seq<string>, cmc: string)
    requires '+' !in ci && '+' !in cmc
    requires forall i | 0 <= i < |ptTerms| :: '+' !in ptTerms[i]
    ensures forall i | 0 <= i < |HeadTerms(ci, ptTerms, cmc)| :: '+' !in HeadTerms(ci, ptTerms, cmc)[i]
  {
  }

  lemma TypeTermsNoPlus(types: seq<string>, valid: seq<string>)
    requires valid == ValidTypes || valid == ValidSuperTypes
    requires Subsequence(types, valid)
    ensures forall i | 0 <= i < |types| :: '+' !in TypeTerms(types)[i]
  {
    TypeNamesArePlain(types, valid);
  }

  lemma NoPlusAppend(a: seq<string>, b: seq<string>)
    requires forall i | 0 <= i < |a| :: '+' !in a[i]
    requires forall i | 0 <= i < |b| :: '+' !in b[i]
    ensures forall i | 0 <= i < |a + b| :: '+' !in (a + b)[i]
  {
  }
}
