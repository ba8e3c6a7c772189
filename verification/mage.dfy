/** The Chronicles of Darkness dice roller behind "!roll".

A request is a number of dice (or "c" for a chance die) optionally followed by
an "again" rule, "8a" or "9a".  Each die that shows 0 (the ten) is rolled
again; under "8a" an 8 or 9 is too, and under "9a" a 9 is.  The random draws
are a supplied sequence, so a roll is a function of the draws; a roll that
would need more draws than supplied has no result (`None`), which is not an
outcome of the bot itself.  Dice showing 8, 9 or 0 are successes.
 */
module Mage {
  import opened Wrappers
  import opened Text
  import opened Decimal
  import opened Patterns

  /** The faces a die is drawn from, 0 to `DieFaces - 1`: ten, as the game's d10 has, 0
      standing for the ten.  `DieFacesAsWritten` is the nine of `rand.Intn(9)`. */
  const DieFaces: nat := 10
  const DieFacesAsWritten: nat := 9

  predicate FairDraws(draws: seq<nat>, faces: nat) {
    forall i | 0 <= i < |draws| :: draws[i] < faces
  }

  /** The reroll decision of `roll` for one die, in the order the source tests it. */
  predicate Triggers(again: string, die: nat) {
    if again == "8a" && (die == 8 || die == 9 || die == 0) then true
    else if again == "9a" && (die == 9 || die == 0) then true
    else die == 0
  }

  function TriggerCount(again: string, rs: seq<nat>): nat
    decreases |rs|
  {
    if rs == [] then 0 else (if Triggers(again, rs[0]) then 1 else 0) + TriggerCount(again, rs[1..])
  }

  /** After rolling `rs` from a pool of `pending` dice there are still dice to roll: every
      die removes one from the pool and every trigger adds one back. */
  predicate StillRolling(pending: nat, again: string, rs: seq<nat>) {
    |rs| < pending + TriggerCount(again, rs)
  }

  /** `roll`: draw dice from `draws` until the pool is empty. */
  function Roll(pending: nat, again: string, draws: seq<nat>): (r: Option<seq<nat>>)
    ensures pending == 0 <==> r == Some([])
    ensures r.Some? ==> |r.value| <= |draws| && r.value == draws[..|r.value|]
    decreases |draws|
  {
    if pending == 0 then Some([])
    else if draws == [] then None
    else
      var more := if Triggers(again, draws[0]) then pending else pending - 1;
      match Roll(more, again, draws[1..])
      case None => None
      case Some(rest) => Some([draws[0]] + rest)
  }

  lemma TriggerCountCons(again: string, d: nat, rs: seq<nat>)
    ensures TriggerCount(again, [d] + rs) == (if Triggers(again, d) then 1 else 0) + TriggerCount(again, rs)
  {
    assert ([d] + rs)[1..] == rs;
  }

  /** A completed roll is the shortest run of draws after which the pool is empty: its
      length is the starting pool plus the number of dice that triggered a reroll, and the
      pool was not empty after any shorter run.  No result means the pool never emptied
      within the draws supplied. */
  lemma {:induction false} RollCharacterised(pending: nat, again: string, draws: seq<nat>)
    ensures var r := Roll(pending, again, draws);
      && (r.Some? ==>
            && |r.value| <= |draws| && r.value == draws[..|r.value|]
            && |r.value| == pending + TriggerCount(again, r.value)
            && forall k | 0 <= k < |r.value| :: StillRolling(pending, again, draws[..k]))
      && (r.None? ==> forall k | 0 <= k <= |draws| :: StillRolling(pending, again, draws[..k]))
    decreases |draws|
  {
    if pending != 0 && draws != [] {
      var d := draws[0];
      var rest := draws[1..];
      var more := if Triggers(again, d) then pending else pending - 1;
      RollCharacterised(more, again, rest);
      forall k | 1 <= k <= |draws|
        ensures StillRolling(pending, again, draws[..k]) <==> StillRolling(more, again, rest[..k - 1])
      {
        assert draws[..k] == [d] + rest[..k - 1];
        TriggerCountCons(again, d, rest[..k - 1]);
      }
      match Roll(more, again, rest)
      case None =>
      case Some(rs) =>
        TriggerCountCons(again, d, rs);
        assert [d] + rs == draws[..1 + |rs|];
    }
  }

  /** An empty pool rolls nothing. */
  lemma RollNothing(again: string, draws: seq<nat>)
    ensures Roll(0, again, draws) == Some([])
  {
  }

  /** Every die shown is one of the draws, so a fair supply gives faces in range. */
  lemma RollFaces(pending: nat, again: string, draws: seq<nat>, faces: nat)
    requires FairDraws(draws, faces)
    ensures Roll(pending, again, draws).Some? ==> FairDraws(Roll(pending, again, draws).value, faces)
  {
    RollCharacterised(pending, again, draws);
  }

  function Prepend(p: seq<nat>, r: Option<seq<nat>>): Option<seq<nat>> {
    match r
    case None => None
    case Some(x) => Some(p + x)
  }

  /** One iteration of the loop: the die drawn moves from the roll still to come to the
      dice already shown. */
  lemma RollStep(results: seq<nat>, n: nat, more: nat, again: string, draws: seq<nat>, i: nat)
    requires n != 0 && i < |draws|
    requires more == if Triggers(again, draws[i]) then n else n - 1
    ensures Prepend(results, Roll(n, again, draws[i..]))
         == Prepend(results + [draws[i]], Roll(more, again, draws[i + 1..]))
  {
    assert draws[i..][0] == draws[i] && draws[i..][1..] == draws[i + 1..];
    match Roll(more, again, draws[i + 1..]) {
      case None =>
      case Some(x) => assert results + ([draws[i]] + x) == (results + [draws[i]]) + x;
    }
  }

  /** The loop of `roll` as written: one die per iteration, the pool counter going down
      by one and back up on a trigger, until the counter reaches zero. */
  method RollLoop(num: nat, again: string, draws: seq<nat>) returns (results: seq<nat>, complete: bool)
    ensures complete <==> Roll(num, again, draws).Some?
    ensures complete ==> results == Roll(num, again, draws).value
  {
    var n := num;
    var i := 0;
    results := [];
    assert draws[0..] == draws;
    match Roll(num, again, draws) {
      case None =>
      case Some(x) => assert [] + x == x;
    }
    while n != 0 && i < |draws|
      invariant 0 <= i <= |draws| && results == draws[..i]
      invariant Roll(num, again, draws) == Prepend(results, Roll(n, again, draws[i..]))
      decreases |draws| - i
    {
      var die := draws[i];
      var more := n - 1;
      if again == "8a" && (die == 8 || die == 9 || die == 0) {
        more := more + 1;
      } else if again == "9a" && (die == 9 || die == 0) {
        more := more + 1;
      } else if die == 0 {
        more := more + 1;
      }
      RollStep(results, n, more, again, draws, i);
      n := more;
      results := results + [die];
      i := i + 1;
    }
    complete := n == 0;
    if complete {
      assert results + [] == results;
    }
  }

  // ---------------------------------------------------------------- outcome

  predicate IsSuccess(die: nat) {
    die >= 8 || die == 0
  }

  function Successes(rs: seq<nat>): nat
    decreases |rs|
  {
    if rs == [] then 0 else (if IsSuccess(rs[0]) then 1 else 0) + Successes(rs[1..])
  }

  /** Successes count die by die: those of two runs of dice add up, and never exceed the
      number of dice. */
  lemma {:induction false} SuccessesAppend(a: seq<nat>, b: seq<nat>)
    ensures Successes(a + b) == Successes(a) + Successes(b)
    ensures Successes(a) <= |a|
    decreases |a|
  {
    if a == [] {
      assert a + b == b;
    } else {
      assert (a + b)[0] == a[0] && (a + b)[1..] == a[1..] + b;
      SuccessesAppend(a[1..], b);
    }
  }

  function Classify(successes: nat): string {
    if successes == 0 then "Failure"
    else if successes > 5 then "Exceptional Success"
    else "Success"
  }

  function ChanceLabel(first: nat): string {
    if first == 1 then "Dramatic Failure"
    else if first == 0 then "Success"
    else "Failure"
  }

  /** The dice of a roll as Go's `%v` prints an `[]int`: the numbers in brackets, separated
      by single spaces. */
  function ShowDice(rs: seq<nat>): (text: string)
    ensures |text| >= 2 && text[0] == '[' && text[|text| - 1] == ']'
  {
    "[" + Join(ShowAll(rs), " ") + "]"
  }

  function ShowAll(rs: seq<nat>): (parts: seq<string>)
    ensures |parts| == |rs|
  {
    seq(|rs|, i requires 0 <= i < |rs| => Show(rs[i]))
  }

  /** The printed dice read back as the dice rolled: between the brackets, the pieces
      between spaces are the numbers in order. */
  lemma ShowDiceRoundTrip(rs: seq<nat>)
    requires |rs| >= 1
    ensures var text := ShowDice(rs);
      var parts := Split(text[1..|text| - 1], ' ');
      && |parts| == |rs|
      && forall i | 0 <= i < |rs| :: AllDigits(parts[i]) && ParseDigits(parts[i]) == rs[i]
  {
    var text := ShowDice(rs);
    var parts := ShowAll(rs);
    assert text[1..|text| - 1] == Join(parts, " ");
    forall i | 0 <= i < |parts| ensures ' ' !in parts[i] {
      assert AllDigits(parts[i]);
    }
    SplitJoin(parts, ' ');
    forall i | 0 <= i < |rs| ensures AllDigits(parts[i]) && ParseDigits(parts[i]) == rs[i] {
      ParseShow(rs[i]);
    }
  }

  /** `rollDice`: `None` when the draws run out before the roll completes. */
  function RollDice(input: string, draws: seq<nat>): (out: Option<Returned<string>>)
    ensures out.Some? ==> (out.value.err.Some? <==> First(Dice, input).None?)
    ensures out.Some? && out.value.err.Some? ==>
      out.value == Returned("", Some("No number of dice specified: " + input))
  {
    match First(Dice, input)
    case None => Some(Returned("", Some("No number of dice specified: " + input)))
    case Some(m) =>
      assert MatchAt(Dice, input, m.start) == DiceAt(input, m.start);
      if m.groups[0] == "c" then
        match Roll(1, "", draws)
        case None => None
        case Some(res) =>
          RollCharacterised(1, "", draws);
          Some(Ok(ChanceLabel(res[0]) + " (" + ShowDice(res) + ")"))
      else
        // The count is all digits, so `strconv.Atoi` succeeds (`AtoiDigits`).
        match Roll(ParseDigits(m.groups[0]), m.groups[1], draws)
        case None => None
        case Some(res) => Some(Ok(Classify(Successes(res)) + " (" + ShowDice(res) + ")"))
  }

  /** A request is refused exactly when it holds neither a digit nor a 'c'. */
  lemma RollDiceRefusesIff(input: string, draws: seq<nat>)
    ensures First(Dice, input).None? <==> forall i | 0 <= i < |input| :: !IsDigit(input[i]) && input[i] != 'c'
    ensures First(Dice, input).None? ==> RollDice(input, draws) == Some(Returned("", Some("No number of dice specified: " + input)))
  {
    if First(Dice, input).None? {
      forall i | 0 <= i < |input| ensures !IsDigit(input[i]) && input[i] != 'c' {
        assert MatchAt(Dice, input, i) == DiceAt(input, i);
      }
    } else {
      var m := First(Dice, input).value;
      assert MatchAt(Dice, input, m.start) == DiceAt(input, m.start);
    }
  }

  /** A counted roll: the number of dice is the leftmost count in the request and the rule
      the "again" right after it; the reply names the outcome by the number of successes
      and lists every die rolled. */
  lemma RollDiceCounted(input: string, draws: seq<nat>)
    requires First(Dice, input).Some? && First(Dice, input).value.groups[0] != "c"
    requires RollDice(input, draws).Some?
    ensures var g := First(Dice, input).value.groups;
      && AllDigits(g[0]) && |g[0]| >= 1
      && Atoi(g[0]) == Some(ParseDigits(g[0]))
      && var res := Roll(ParseDigits(g[0]), g[1], draws).value;
      && |res| == ParseDigits(g[0]) + TriggerCount(g[1], res)
      && var reply := RollDice(input, draws).value;
      && reply.err.None?
      && (Successes(res) == 0 <==> HasPrefix(reply.value, "Failure ("))
      && (Successes(res) > 5 <==> HasPrefix(reply.value, "Exceptional Success ("))
      && (1 <= Successes(res) <= 5 <==> HasPrefix(reply.value, "Success ("))
      && HasSuffix(reply.value, " (" + ShowDice(res) + ")")
    ensures var m := First(Dice, input).value;
      && DiceRead(input, m)
      && IsDigit(input[m.start])
      && m.groups[0] == input[m.start..RunEnd(input, m.start, Digits)]
  {
    var m := First(Dice, input).value;
    CountRead(input);
    assert MatchAt(Dice, input, m.start) == DiceAt(input, m.start);
    AtoiDigits(m.groups[0]);
    var res := Roll(ParseDigits(m.groups[0]), m.groups[1], draws).value;
    RollCharacterised(ParseDigits(m.groups[0]), m.groups[1], draws);
    CountedReply(Successes(res), ShowDice(res), RollDice(input, draws).value.value);
  }

  /** The reply to a counted roll names its outcome and ends with the dice. */
  lemma CountedReply(n: nat, dice: string, reply: string)
    requires reply == Classify(n) + " (" + dice + ")"
    ensures n == 0 <==> HasPrefix(reply, "Failure (")
    ensures n > 5 <==> HasPrefix(reply, "Exceptional Success (")
    ensures 1 <= n <= 5 <==> HasPrefix(reply, "Success (")
    ensures HasSuffix(reply, " (" + dice + ")")
  {
    var tail := " (" + dice + ")";
    assert reply == Classify(n) + tail;
    assert tail[..2] == " (";
    ClassifyPrefixes(n, tail);
    HasSuffixAppend(Classify(n), tail);
  }

  /** A count other than "c" is the digit run where the leftmost match starts. */
  lemma CountRead(input: string)
    requires First(Dice, input).Some? && First(Dice, input).value.groups[0] != "c"
    ensures var m := First(Dice, input).value;
      && DiceRead(input, m)
      && IsDigit(input[m.start])
      && m.groups[0] == input[m.start..RunEnd(input, m.start, Digits)]
  {
    DiceFirst(input);
  }

  predicate IsLabel(name: string) {
    name == "Failure" || name == "Success" || name == "Exceptional Success" || name == "Dramatic Failure"
  }

  /** The labels start with four different letters, so a reply starts with a label and " ("
      exactly when it is that label's reply. */
  lemma LabelPrefix(name: string, other: string, tail: string)
    requires IsLabel(name) && IsLabel(other) && HasPrefix(tail, " (")
    ensures HasPrefix(name + tail, other + " (") <==> name == other
  {
    if name == other {
      assert (name + tail)[..|other + " ("|] == name + tail[..2];
    } else {
      assert (name + tail)[0] == name[0] && (other + " (")[0] == other[0];
    }
  }

  lemma HasSuffixAppend(name: string, tail: string)
    ensures HasSuffix(name + tail, tail)
  {
    assert (name + tail)[|name|..] == tail;
  }

  /** The outcome of a counted roll is read off the start of its reply. */
  lemma ClassifyPrefixes(n: nat, tail: string)
    requires HasPrefix(tail, " (")
    ensures n == 0 <==> HasPrefix(Classify(n) + tail, "Failure (")
    ensures n > 5 <==> HasPrefix(Classify(n) + tail, "Exceptional Success (")
    ensures 1 <= n <= 5 <==> HasPrefix(Classify(n) + tail, "Success (")
  {
    var name := Classify(n);
    LabelPrefix(name, "Failure", tail);
    assert "Failure" + " (" == "Failure (";
    LabelPrefix(name, "Exceptional Success", tail);
    assert "Exceptional Success" + " (" == "Exceptional Success (";
    LabelPrefix(name, "Success", tail);
    assert "Success" + " (" == "Success (";
  }

  /** The outcome of a chance roll is read off the start of its reply. */
  lemma ChancePrefixes(d: nat, tail: string)
    requires HasPrefix(tail, " (")
    ensures d == 1 <==> HasPrefix(ChanceLabel(d) + tail, "Dramatic Failure (")
    ensures d == 0 <==> HasPrefix(ChanceLabel(d) + tail, "Success (")
    ensures d != 0 && d != 1 <==> HasPrefix(ChanceLabel(d) + tail, "Failure (")
  {
    var name := ChanceLabel(d);
    LabelPrefix(name, "Dramatic Failure", tail);
    assert "Dramatic Failure" + " (" == "Dramatic Failure (";
    LabelPrefix(name, "Success", tail);
    assert "Success" + " (" == "Success (";
    LabelPrefix(name, "Failure", tail);
    assert "Failure" + " (" == "Failure (";
  }

  /** A chance die is one die with no "again" rule (a 0 is still rolled again); the first
      die decides: 1 is a dramatic failure, 0 a success, anything else a failure. */
  lemma RollDiceChance(input: string, draws: seq<nat>)
    requires First(Dice, input).Some? && First(Dice, input).value.groups[0] == "c"
    requires RollDice(input, draws).Some?
    ensures var res := Roll(1, "", draws).value;
      && |res| >= 1 && res[0] == draws[0]
      && var reply := RollDice(input, draws).value;
      && reply.err.None?
      && (draws[0] == 1 <==> HasPrefix(reply.value, "Dramatic Failure ("))
      && (draws[0] == 0 <==> HasPrefix(reply.value, "Success ("))
      && (draws[0] != 0 && draws[0] != 1 <==> HasPrefix(reply.value, "Failure ("))
      && HasSuffix(reply.value, " (" + ShowDice(res) + ")")
  {
    var m := First(Dice, input).value;
    assert MatchAt(Dice, input, m.start) == DiceAt(input, m.start);
    RollCharacterised(1, "", draws);
    var res := Roll(1, "", draws).value;
    assert res[0] == draws[..|res|][0];
    var tail := " (" + ShowDice(res) + ")";
    assert RollDice(input, draws).value.value == ChanceLabel(res[0]) + tail;
    assert tail[..2] == " (";
    ChancePrefixes(res[0], tail);
    HasSuffixAppend(ChanceLabel(res[0]), tail);
  }

  // ---------------------------------------------------------------- the nine-faced die

  /** With draws from `rand.Intn(9)` a 9 never shows, so the "9a" rule rolls exactly as no
      rule at all. */
  lemma {:induction false} NineAgainAsWritten(pending: nat, draws: seq<nat>)
    requires FairDraws(draws, DieFacesAsWritten)
    ensures Roll(pending, "9a", draws) == Roll(pending, "", draws)
    decreases |draws|
  {
    if pending != 0 && draws != [] {
      assert draws[0] < 9;
      assert FairDraws(draws[1..], DieFacesAsWritten) by {
        assert forall i | 0 <= i < |draws[1..]| :: draws[1..][i] == draws[i + 1];
      }
      var more := if Triggers("", draws[0]) then pending else pending - 1;
      NineAgainAsWritten(more, draws[1..]);
    }
  }

  /** With ten faces the "9a" rule takes effect: a 9 followed by a 1 is one die under no
      rule and two under "9a". */
  lemma NineAgainTenFaces()
    ensures FairDraws([9, 1], DieFaces)
    ensures Roll(1, "9a", [9, 1]) == Some([9, 1])
    ensures Roll(1, "", [9, 1]) == Some([9])
  {
    var draws: seq<nat> := [9, 1];
    assert draws[0] == 9 && draws[1..] == [1] && draws[1..][0] == 1 && draws[1..][1..] == [];
    assert Triggers("9a", 9) && !Triggers("9a", 1) && !Triggers("", 9);
    assert Roll(0, "", draws[1..]) == Some([]);
    assert Roll(1, "", draws) == Some([9] + []);
    assert Roll(0, "9a", draws[1..][1..]) == Some([]);
    assert Roll(1, "9a", draws[1..]) == Some([1] + []);
    assert [1] + [] == [1];
    assert Roll(1, "9a", draws) == Some([9] + [1]);
    assert [9] + [1] == draws && [9] + [] == [9];
  }

  /** Every die that rerolls with no rule rerolls under "9a" too. */
  lemma {:induction false} NineAgainTriggersMore(rs: seq<nat>)
    ensures TriggerCount("", rs) <= TriggerCount("9a", rs)
    decreases |rs|
  {
    if rs != [] {
      NineAgainTriggersMore(rs[1..]);
    }
  }

  /** With draws that can show a 9, "9a" changes a completed roll exactly when a 9 is rolled
      before the pool empties: without a 9 the two rules roll the same dice, and a 9 makes
      the "9a" roll at least one die longer. */
  lemma {:induction false} NineAgainDiffersIff(pending: nat, draws: seq<nat>)
    requires Roll(pending, "", draws).Some?
    ensures Roll(pending, "9a", draws) == Roll(pending, "", draws) <==> 9 !in Roll(pending, "", draws).value
    decreases |draws|
  {
    if pending != 0 {
      var d := draws[0];
      var rest := draws[1..];
      var plain := Roll(if d == 0 then pending else pending - 1, "", rest);
      assert Roll(pending, "", draws) == Some([d] + plain.value);
      if d == 9 {
        NineAgainLonger(pending, rest, plain.value);
      } else {
        NineAgainDiffersIff(if d == 0 then pending else pending - 1, rest);
        match Roll(if d == 0 then pending else pending - 1, "9a", rest)
        case None =>
        case Some(x) => ConsInjective(d, x, plain.value);
      }
    }
  }

  /** After a 9, "9a" keeps the whole pool while no rule drops one die, so the "9a" roll of
      the remaining draws cannot be the plain one. */
  lemma NineAgainLonger(pending: nat, rest: seq<nat>, plain: seq<nat>)
    requires pending != 0 && Roll(pending - 1, "", rest) == Some(plain)
    ensures Roll(pending, "9a", [9] + rest) != Some([9] + plain)
  {
    assert ([9] + rest)[0] == 9 && ([9] + rest)[1..] == rest;
    RollCharacterised(pending - 1, "", rest);
    RollCharacterised(pending, "9a", rest);
    NineAgainTriggersMore(plain);
    assert Roll(pending, "9a", rest) != Some(plain);
    match Roll(pending, "9a", rest)
    case None =>
    case Some(x) => ConsInjective(9, x, plain);
  }

  lemma ConsInjective(d: nat, x: seq<nat>, y: seq<nat>)
    ensures [d] + x == [d] + y ==> x == y
  {
    assert ([d] + x)[1..] == x && ([d] + y)[1..] == y;
  }
}
