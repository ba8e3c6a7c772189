/** The four regular expressions of the bot, with Go's leftmost-first semantics.

- `Interval`       `(?P<count>\d+)(?P<interval>m|[hH]|[dD]|M)`     (the reminder duration)
- `Cmc`            `(?:cmc)?(?P<modifier>[<=>]{0,2})(?P<cmc>\d+)`  (a mana-value criterion)
- `PowerToughness` `(?P<power>[\d\*]+)/(?P<toughness>[\d\*]+)`     (a power/toughness pair)
- `Dice`           `(?P<dice>\d+|c) ?(?P<again>8a|9a)?`            (a dice-roll request)

`MatchAt` says what the engine matches when it starts at one index: greedy
repetition and optional parts that are taken when they can be.  `FindFrom` is the
leftmost match at or after an index (the first element of
`FindAllStringSubmatch`), and `RemoveAll` is `ReplaceAllString(s, "")`.
`\d` is ASCII only, as in Go's RE2 syntax.  None of the patterns can match the
empty string, so every match is at least one character long.
 */
module Patterns {
  import opened Wrappers
  import opened Text

  datatype Pattern = Interval | Cmc | PowerToughness | Dice

  /** A match `s[start..end]` and its capture groups, in order. */
  datatype Match = Match(start: nat, end: nat, groups: seq<string>)

  datatype CharClass = Digits | Comparisons | PtChars

  predicate InClass(c: char, cls: CharClass) {
    match cls
    case Digits => IsDigit(c)
    case Comparisons => c == '<' || c == '=' || c == '>'
    case PtChars => IsDigit(c) || c == '*'
  }

  predicate AllIn(s: string, cls: CharClass) {
    forall k | 0 <= k < |s| :: InClass(s[k], cls)
  }

  /** The reminder units: minutes, hours, days and months. */
  predicate IsUnitChar(c: char) {
    c == 'm' || c == 'h' || c == 'H' || c == 'd' || c == 'D' || c == 'M'
  }

  lemma AllInSlice(s: string, i: nat, j: nat, cls: CharClass)
    requires i <= j <= |s|
    requires forall k | i <= k < j :: InClass(s[k], cls)
    ensures AllIn(s[i..j], cls)
    ensures cls == Digits ==> AllDigits(s[i..j])
  {
    assert forall k | 0 <= k < j - i :: s[i..j][k] == s[i + k];
  }

  /** The end of the longest run of `cls` characters starting at `i`. */
  function RunEnd(s: string, i: nat, cls: CharClass): (j: nat)
    requires i <= |s|
    ensures i <= j <= |s|
    ensures forall k | i <= k < j :: InClass(s[k], cls)
    ensures j == |s| || !InClass(s[j], cls)
    decreases |s| - i
  {
    if i < |s| && InClass(s[i], cls) then RunEnd(s, i + 1, cls) else i
  }

  /** A run is determined by where it starts: any `j` that closes a run from `i` is `RunEnd`. */
  lemma RunEndUnique(s: string, i: nat, j: nat, cls: CharClass)
    requires i <= j <= |s|
    requires forall k | i <= k < j :: InClass(s[k], cls)
    requires j == |s| || !InClass(s[j], cls)
    ensures RunEnd(s, i, cls) == j
  {
  }

  // ---------------------------------------------------------------- one start position

  function MatchAt(p: Pattern, s: string, i: nat): (r: Option<Match>)
    requires i <= |s|
    ensures r.Some? ==> r.value.start == i && i < r.value.end <= |s| && |r.value.groups| == 2
  {
    match p
    case Interval => IntervalAt(s, i)
    case Cmc => CmcAt(s, i)
    case PowerToughness => PowerToughnessAt(s, i)
    case Dice => DiceAt(s, i)
  }

  /** `\d+` then one unit letter: greedy digits, and backing off never helps because a
      shorter digit run is followed by a digit, not a unit. */
  function IntervalAt(s: string, i: nat): (r: Option<Match>)
    requires i <= |s|
    ensures r.Some? ==>
      var m := r.value;
      && m.start == i && i < m.end - 1 < |s|
      && m.groups == [s[i..m.end - 1], [s[m.end - 1]]]
      && AllDigits(m.groups[0]) && IsUnitChar(s[m.end - 1])
  {
    if i < |s| && IsDigit(s[i]) then
      var j := RunEnd(s, i, Digits);
      if j < |s| && IsUnitChar(s[j]) then Some(Match(i, j + 1, [s[i..j], [s[j]]])) else None
    else None
  }

  /** The plain regular-language reading of the interval pattern at `i`:
      some non-empty run of digits followed by a unit letter. */
  predicate IntervalMatchesAt(s: string, i: nat, k: nat) {
    1 <= k && i + k < |s| && AllDigits(s[i..i + k]) && IsUnitChar(s[i + k])
  }

  /** The scanner matches at `i` exactly when the regular expression can, and then the
      digit run it takes is the only one that works. */
  lemma IntervalAtIff(s: string, i: nat)
    requires i <= |s|
    ensures IntervalAt(s, i).Some? <==> exists k: nat :: IntervalMatchesAt(s, i, k)
    ensures forall k: nat :: IntervalMatchesAt(s, i, k) ==> IntervalAt(s, i).value.end == i + k + 1
  {
    forall k: nat | IntervalMatchesAt(s, i, k)
      ensures IntervalAt(s, i).Some? && IntervalAt(s, i).value.end == i + k + 1
    {
      assert forall q | i <= q < i + k :: s[q] == s[i..i + k][q - i];
      RunEndUnique(s, i, i + k, Digits);
    }
    if IntervalAt(s, i).Some? {
      var j := RunEnd(s, i, Digits);
      assert IntervalMatchesAt(s, i, j - i);
    }
  }

  /** `(?:cmc)?[<=>]{0,2}\d+`.  When the text at `i` starts with "cmc" only the branch
      that consumes it can match, because a 'c' is neither a comparison nor a digit. */
  function CmcAt(s: string, i: nat): (r: Option<Match>)
    requires i <= |s|
    ensures r.Some? ==>
      var m := r.value;
      var st := if OccursAt(s, "cmc", i) then i + 3 else i;
      && |m.groups| == 2 && st <= m.end <= |s|
      && st + |m.groups[0]| + |m.groups[1]| == m.end
      && m.groups == [s[st..st + |m.groups[0]|], s[st + |m.groups[0]|..m.end]]
      && |m.groups[0]| <= 2 && AllIn(m.groups[0], Comparisons)
      && |m.groups[1]| >= 1 && AllDigits(m.groups[1])
      && (m.end == |s| || !IsDigit(s[m.end]))
  {
    var st := if OccursAt(s, "cmc", i) then i + 3 else i;
    var r := RunEnd(s, st, Comparisons);
    if r - st <= 2 && r < |s| && IsDigit(s[r]) then
      var e := RunEnd(s, r, Digits);
      AllInSlice(s, st, r, Comparisons);
      AllInSlice(s, r, e, Digits);
      Some(Match(i, e, [s[st..r], s[r..e]]))
    else None
  }

  /** The plain regular-language reading of the mana-value pattern at `i`: the optional
      "cmc" (so `st` is `i` or `i + 3`), at most two comparisons `s[st..r]`, then the
      non-empty digits `s[r..e]`. */
  predicate CmcMatchesAt(s: string, i: nat, st: nat, r: nat, e: nat) {
    && (st == i || (st == i + 3 && OccursAt(s, "cmc", i)))
    && st <= r <= st + 2 && r < e <= |s|
    && AllIn(s[st..r], Comparisons) && AllDigits(s[r..e])
  }

  /** A run of `cls` characters from `i` to `e` ends no earlier than `e`. */
  lemma {:induction false} RunEndCovers(s: string, i: nat, e: nat, cls: CharClass)
    requires i <= e <= |s|
    requires forall k | i <= k < e :: InClass(s[k], cls)
    ensures e <= RunEnd(s, i, cls)
    decreases e - i
  {
    if i < e {
      RunEndCovers(s, i + 1, e, cls);
    }
  }

  /** Whichever reading matches, it starts its comparisons after "cmc" exactly when the
      text has "cmc" at `i`: a 'c' is neither a comparison nor a digit. */
  lemma CmcStart(s: string, i: nat, st: nat, r: nat, e: nat)
    requires CmcMatchesAt(s, i, st, r, e)
    ensures st == if OccursAt(s, "cmc", i) then i + 3 else i
  {
    if r == st {
      assert s[r..e][0] == s[r];
    } else {
      assert s[st..r][0] == s[st];
    }
    if OccursAt(s, "cmc", i) {
      assert s[i..i + 3][0] == s[i];
    }
  }

  /** The scanner matches at `i` exactly when the regular expression can; the comparisons
      it takes are the only ones that work, and its digit run is the longest. */
  lemma CmcAtIff(s: string, i: nat)
    requires i <= |s|
    ensures CmcAt(s, i).Some? <==> exists st: nat, r: nat, e: nat :: CmcMatchesAt(s, i, st, r, e)
    ensures forall st: nat, r: nat, e: nat :: CmcMatchesAt(s, i, st, r, e) ==>
      CmcAt(s, i).Some? && CmcAt(s, i).value.groups[0] == s[st..r] && e <= CmcAt(s, i).value.end
  {
    forall st: nat, r: nat, e: nat | CmcMatchesAt(s, i, st, r, e)
      ensures CmcAt(s, i).Some? && CmcAt(s, i).value.groups[0] == s[st..r] && e <= CmcAt(s, i).value.end
    {
      CmcStart(s, i, st, r, e);
      assert forall k | st <= k < r :: s[k] == s[st..r][k - st];
      assert forall k | r <= k < e :: s[k] == s[r..e][k - r];
      RunEndUnique(s, st, r, Comparisons);
      RunEndCovers(s, r, e, Digits);
    }
    if CmcAt(s, i).Some? {
      var st := if OccursAt(s, "cmc", i) then i + 3 else i;
      var r := RunEnd(s, st, Comparisons);
      var e := RunEnd(s, r, Digits);
      AllInSlice(s, st, r, Comparisons);
      AllInSlice(s, r, e, Digits);
      assert CmcMatchesAt(s, i, st, r, e);
    }
  }

  /** `[\d*]+/[\d*]+`: both runs are taken greedily; the first must end at the slash. */
  function PowerToughnessAt(s: string, i: nat): (r: Option<Match>)
    requires i <= |s|
    ensures r.Some? ==>
      var m := r.value;
      && |m.groups| == 2 && i < m.end <= |s|
      && m.end == i + |m.groups[0]| + 1 + |m.groups[1]|
      && s[i..m.end] == m.groups[0] + "/" + m.groups[1]
      && |m.groups[0]| >= 1 && AllIn(m.groups[0], PtChars)
      && |m.groups[1]| >= 1 && AllIn(m.groups[1], PtChars)
      && (m.end == |s| || !InClass(s[m.end], PtChars))
  {
    var a := RunEnd(s, i, PtChars);
    if a > i && a < |s| && s[a] == '/' then
      var b := RunEnd(s, a + 1, PtChars);
      if b > a + 1 then
        assert s[a..a + 1] == "/";
        assert s[i..b] == s[i..a] + s[a..a + 1] + s[a + 1..b];
        AllInSlice(s, i, a, PtChars);
        AllInSlice(s, a + 1, b, PtChars);
        Some(Match(i, b, [s[i..a], s[a + 1..b]]))
      else None
    else None
  }

  /** The plain regular-language reading of the power/toughness pattern at `i`. */
  predicate PowerToughnessMatchesAt(s: string, i: nat, a: nat, b: nat) {
    i < a && a + 1 < b <= |s| && s[a] == '/'
    && AllIn(s[i..a], PtChars) && AllIn(s[a + 1..b], PtChars)
  }

  /** The scanner matches at `i` exactly when the regular expression can. */
  lemma PowerToughnessAtIff(s: string, i: nat)
    requires i <= |s|
    ensures PowerToughnessAt(s, i).Some? <==> exists a: nat, b: nat :: PowerToughnessMatchesAt(s, i, a, b)
  {
    if a: nat, b: nat :| PowerToughnessMatchesAt(s, i, a, b) {
      assert forall q | i <= q < a :: s[q] == s[i..a][q - i];
      RunEndUnique(s, i, a, PtChars);
      assert s[a + 1..b][0] == s[a + 1];
    }
    if PowerToughnessAt(s, i).Some? {
      var a := RunEnd(s, i, PtChars);
      var b := RunEnd(s, a + 1, PtChars);
      assert PowerToughnessMatchesAt(s, i, a, b);
    }
  }

  /** What a dice match `m` found at `i` reads from `s`: the count is the whole digit run
      at `i` (or the chance letter), and the rule is "8a" or "9a" exactly when that text
      follows the count after at most one space, and empty otherwise. */
  predicate DiceReadAt(s: string, i: nat, m: Match) {
    && i < |s| && m.start == i && |m.groups| == 2
    && var d := i + |m.groups[0]|;
    && d <= |s|
    && var sp := if d < |s| && s[d] == ' ' then d + 1 else d;
    && (IsDigit(s[i]) ==> m.groups[0] == s[i..RunEnd(s, i, Digits)])
    && (s[i] == 'c' ==> m.groups[0] == "c")
    && (m.groups[1] == "8a" <==> OccursAt(s, "8a", sp))
    && (m.groups[1] == "9a" <==> OccursAt(s, "9a", sp))
    && (m.groups[1] == "" <==> !OccursAt(s, "8a", sp) && !OccursAt(s, "9a", sp))
  }

  /** `(\d+|c) ?(8a|9a)?`: the count (or the chance letter), an optional space, and the
      optional "again" rule; the optional parts are taken whenever they are present. */
  function DiceAt(s: string, i: nat): (r: Option<Match>)
    requires i <= |s|
    ensures r.Some? <==> i < |s| && (IsDigit(s[i]) || s[i] == 'c')
    ensures r.Some? ==>
      var m := r.value;
      && |m.groups| == 2
      && (m.groups[0] == "c" || (|m.groups[0]| >= 1 && AllDigits(m.groups[0])))
      && (m.groups[1] == "" || m.groups[1] == "8a" || m.groups[1] == "9a")
    ensures r.Some? ==> DiceReadAt(s, i, r.value)
  {
    if i < |s| && (IsDigit(s[i]) || s[i] == 'c') then
      var d := if IsDigit(s[i]) then RunEnd(s, i, Digits) else i + 1;
      var sp := if d < |s| && s[d] == ' ' then d + 1 else d;
      var rule := RuleAt(s, sp);
      assert forall q | i <= q < d :: s[i..d][q - i] == s[q];
      assert s[i..d][0] == s[i];
      Some(Match(i, sp + |rule|, [s[i..d], rule]))
    else None
  }

  /** The optional `(8a|9a)` group at `sp`: the rule text when it is there, else empty. */
  function RuleAt(s: string, sp: nat): (g: string)
    requires sp <= |s|
    ensures sp + |g| <= |s| && s[sp..sp + |g|] == g
    ensures g == "8a" <==> OccursAt(s, "8a", sp)
    ensures g == "9a" <==> OccursAt(s, "9a", sp)
    ensures g == "" <==> !OccursAt(s, "8a", sp) && !OccursAt(s, "9a", sp)
  {
    assert "8a"[0] != "9a"[0];
    if OccursAt(s, "8a", sp) then "8a"
    else if OccursAt(s, "9a", sp) then "9a"
    else ""
  }

  /** The request read by the dice pattern: the leftmost digit or 'c' starts it, the count
      is the whole digit run there (or the "c"), and the rule is "8a" or "9a" exactly when
      it follows the count, after at most one space. */
  lemma DiceFirst(s: string)
    ensures First(Dice, s).Some? <==> exists k | 0 <= k < |s| :: IsDigit(s[k]) || s[k] == 'c'
    ensures First(Dice, s).Some? ==> DiceRead(s, First(Dice, s).value)
  {
    match First(Dice, s)
    case Some(m) =>
      DiceFirstRead(s, m);
      assert IsDigit(s[m.start]) || s[m.start] == 'c';
    case None =>
      DiceNoneBefore(s, |s|);
  }

  /** What the leftmost dice match `m` reads from `s`: it starts at the first digit or
      'c' of the text. */
  predicate DiceRead(s: string, m: Match) {
    && DiceReadAt(s, m.start, m)
    && (IsDigit(s[m.start]) || s[m.start] == 'c')
    && forall j | 0 <= j < m.start :: !IsDigit(s[j]) && s[j] != 'c'
  }

  lemma DiceFirstRead(s: string, m: Match)
    requires First(Dice, s) == Some(m)
    ensures DiceRead(s, m)
  {
    assert MatchAt(Dice, s, m.start) == DiceAt(s, m.start);
    DiceNoneBefore(s, m.start);
  }

  /** No dice match before `k` means no digit and no 'c' before `k`. */
  lemma DiceNoneBefore(s: string, k: nat)
    requires k <= |s|
    requires forall j | 0 <= j < k :: MatchAt(Dice, s, j).None?
    ensures forall j | 0 <= j < k :: !IsDigit(s[j]) && s[j] != 'c'
  {
    forall j | 0 <= j < k ensures !IsDigit(s[j]) && s[j] != 'c' {
      assert MatchAt(Dice, s, j).None?;
    }
  }

  // ---------------------------------------------------------------- scanning

  /** The leftmost match that starts at or after `from`. */
  function FindFrom(p: Pattern, s: string, from: nat): (r: Option<Match>)
    requires from <= |s|
    ensures r.Some? ==> from <= r.value.start <= |s| && MatchAt(p, s, r.value.start) == r
    ensures r.Some? ==> forall j | from <= j < r.value.start :: MatchAt(p, s, j).None?
    ensures r.None? ==> forall j | from <= j <= |s| :: MatchAt(p, s, j).None?
    decreases |s| - from
  {
    match MatchAt(p, s, from)
    case Some(m) => Some(m)
    case None => if from == |s| then None else FindFrom(p, s, from + 1)
  }

  /** The leftmost match in the whole text: the first of `FindAllStringSubmatch`. */
  function First(p: Pattern, s: string): Option<Match> {
    FindFrom(p, s, 0)
  }

  /** `ReplaceAllString(s[from..], "")`: every match found by successive leftmost
      searches is cut out; the text between matches is kept in order. */
  function RemoveAll(p: Pattern, s: string, from: nat): (r: string)
    requires from <= |s|
    ensures FindFrom(p, s, from).None? ==> r == s[from..]
    ensures FindFrom(p, s, from).Some? ==> |r| < |s| - from
    ensures |r| <= |s| - from
    decreases |s| - from
  {
    match FindFrom(p, s, from)
    case None => s[from..]
    case Some(m) => s[from..m.start] + RemoveAll(p, s, m.end)
  }

  /** The mana-value pattern finds nothing exactly when the text holds no digit. */
  lemma CmcFoundIff(s: string)
    ensures First(Cmc, s).None? <==> forall k | 0 <= k < |s| :: !IsDigit(s[k])
  {
    if k :| 0 <= k < |s| && IsDigit(s[k]) {
      CmcAtDigit(s, k);
    }
    if First(Cmc, s).Some? {
      CmcFirstHasDigit(s);
    }
  }

  /** A lone digit is already a mana value. */
  lemma CmcAtDigit(s: string, k: nat)
    requires k < |s| && IsDigit(s[k])
    ensures MatchAt(Cmc, s, k).Some?
  {
    assert s[k..k + 1][0] == s[k];
    assert CmcMatchesAt(s, k, k, k, k + 1);
    CmcAtIff(s, k);
  }

  /** Every mana-value match ends in a digit of the text. */
  lemma CmcFirstHasDigit(s: string)
    requires First(Cmc, s).Some?
    ensures var m := First(Cmc, s).value; 0 < m.end <= |s| && IsDigit(s[m.end - 1])
  {
    var m := First(Cmc, s).value;
    assert MatchAt(Cmc, s, m.start) == CmcAt(s, m.start);
    var g := m.groups[1];
    assert g[|g| - 1] == s[m.end - 1];
  }

  /** Removing every match changes the text exactly when there is a match. */
  lemma RemoveAllChangesIff(p: Pattern, s: string)
    ensures RemoveAll(p, s, 0) == s <==> First(p, s).None?
  {
  }
}
