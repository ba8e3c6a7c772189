/** The part of Go's `strings` package the bot relies on, over `seq<char>`.

Every function here mirrors one library routine: `HasPrefix`, `Index`,
`Contains`, `Replace(s, pat, rep, 1)`, `TrimSpace`, `ToLower`, `Split` and
`Join`.  Each comes with the property a caller relies on, and the inverse
pairs (`Split`/`Join`) come with their round trips.
 */
module Text {
  import opened Wrappers

  predicate IsDigit(c: char) {
    '0' <= c <= '9'
  }

  predicate AllDigits(s: string) {
    forall i | 0 <= i < |s| :: IsDigit(s[i])
  }

  /** Go's `unicode.IsSpace`: the Latin-1 spaces plus the other White_Space code points. */
  predicate IsSpace(c: char) {
    || c == ' ' || c == '\t' || c == '\n' || c == '\r'
    || c as int == 0x0B || c as int == 0x0C || c as int == 0x85 || c as int == 0xA0
    || c as int == 0x1680 || (0x2000 <= c as int <= 0x200A)
    || c as int == 0x2028 || c as int == 0x2029 || c as int == 0x202F
    || c as int == 0x205F || c as int == 0x3000
  }

  predicate AllSpace(s: string) {
    forall i | 0 <= i < |s| :: IsSpace(s[i])
  }

  predicate HasPrefix(s: string, p: string) {
    |p| <= |s| && s[..|p|] == p
  }

  predicate HasSuffix(s: string, p: string) {
    |p| <= |s| && s[|s| - |p|..] == p
  }

  /** Each piece of a five-piece concatenation sits where the lengths before it put it. */
  lemma ConcatPieces(a: string, x: string, b: string, y: string, z: string)
    ensures var s := a + x + b + y + z;
      var i := |a| + |x|;
      var j := i + |b|;
      && |s| == j + |y| + |z|
      && s[..|a|] == a
      && s[|a|..i] == x
      && s[i..j] == b
      && s[j..j + |y|] == y
      && s[|s| - |z|..] == z
  {
  }

  /** `p` occurs in `s` starting at index `k`. */
  predicate OccursAt(s: string, p: string, k: nat) {
    k + |p| <= |s| && s[k..k + |p|] == p
  }

  /** The first index at or after `from` where `p` occurs (Go's `strings.Index` for `from == 0`). */
  function IndexFrom(s: string, p: string, from: nat): (r: Option<nat>)
    ensures r.Some? ==> from <= r.value && OccursAt(s, p, r.value)
    ensures r.Some? ==> forall j | from <= j < r.value :: !OccursAt(s, p, j)
    ensures r.None? ==> forall j | from <= j :: !OccursAt(s, p, j)
    decreases |s| - from
  {
    if from + |p| > |s| then None
    else if OccursAt(s, p, from) then Some(from)
    else IndexFrom(s, p, from + 1)
  }

  function Index(s: string, p: string): Option<nat> {
    IndexFrom(s, p, 0)
  }

  predicate Contains(s: string, p: string) {
    Index(s, p).Some?
  }

  /** `Contains` is exactly "occurs somewhere". */
  lemma ContainsIff(s: string, p: string)
    ensures Contains(s, p) <==> exists k: nat :: OccursAt(s, p, k)
  {
    if Contains(s, p) {
      assert OccursAt(s, p, Index(s, p).value);
    }
  }

  /** Go's `strings.Replace(s, pat, rep, 1)`: the first occurrence of `pat` is replaced;
      an empty `pat` matches at the very start. */
  function ReplaceFirst(s: string, pat: string, rep: string): (r: string)
    ensures Index(s, pat).None? ==> r == s
    ensures Index(s, pat).Some? ==>
      var k := Index(s, pat).value;
      r == s[..k] + rep + s[k + |pat|..]
  {
    match Index(s, pat)
    case None => s
    case Some(k) => s[..k] + rep + s[k + |pat|..]
  }

  /** Removing the first occurrence of a string keeps every other character, in order:
      the removed piece and what is left make up the whole text again. */
  lemma RemoveFirstKeepsRest(s: string, pat: string)
    requires Contains(s, pat)
    ensures |ReplaceFirst(s, pat, "")| == |s| - |pat|
    ensures multiset(ReplaceFirst(s, pat, "")) + multiset(pat) == multiset(s)
    ensures exists k: nat :: OccursAt(s, pat, k) && ReplaceFirst(s, pat, "") == s[..k] + s[k + |pat|..]
  {
    var k := Index(s, pat).value;
    var r := ReplaceFirst(s, pat, "");
    assert r == s[..k] + s[k + |pat|..];
    assert s == s[..k] + pat + s[k + |pat|..];
    assert OccursAt(s, pat, k);
  }

  /** Cutting a slice out of a text keeps every other character. */
  lemma CutKeepsRest(s: string, i: nat, j: nat)
    requires i <= j <= |s|
    ensures |s[..i] + s[j..]| == |s| - (j - i)
    ensures multiset(s[..i] + s[j..]) + multiset(s[i..j]) == multiset(s)
  {
    assert s == s[..i] + s[i..j] + s[j..];
  }

  /** Replacing a string that does not occur changes nothing. */
  lemma ReplaceAbsent(s: string, pat: string, rep: string)
    requires forall k: nat :: !OccursAt(s, pat, k)
    ensures ReplaceFirst(s, pat, rep) == s
  {
  }

  // ---------------------------------------------------------------- trimming

  function TrimLeft(s: string): (r: string)
    ensures |r| <= |s| && r == s[|s| - |r|..]
    ensures AllSpace(s[..|s| - |r|])
    ensures r == [] || !IsSpace(r[0])
  {
    if |s| > 0 && IsSpace(s[0]) then
      var r := TrimLeft(s[1..]);
      assert s[1..][..|s| - 1 - |r|] == s[1..|s| - |r|];
      r
    else s
  }

  function TrimRight(s: string): (r: string)
    ensures |r| <= |s| && r == s[..|r|]
    ensures AllSpace(s[|r|..])
    ensures r == [] || !IsSpace(r[|r| - 1])
  {
    if |s| > 0 && IsSpace(s[|s| - 1]) then
      var r := TrimRight(s[..|s| - 1]);
      assert s[|r|..] == s[..|s| - 1][|r|..] + [s[|s| - 1]];
      r
    else s
  }

  /** Go's `strings.TrimSpace`: the text between the leading and the trailing white space. */
  function TrimSpace(s: string): (r: string)
    ensures exists i: nat, j: nat :: i <= j <= |s| && r == s[i..j] && AllSpace(s[..i]) && AllSpace(s[j..])
    ensures r == [] || (!IsSpace(r[0]) && !IsSpace(r[|r| - 1]))
  {
    var left := TrimLeft(s);
    var r := TrimRight(left);
    var i := |s| - |left|;
    assert r == s[i..i + |r|];
    assert s[i + |r|..] == left[|r|..];
    r
  }

  /** Text that neither starts nor ends with white space is left alone by `TrimSpace`. */
  lemma TrimSpaceNoop(s: string)
    requires s == [] || (!IsSpace(s[0]) && !IsSpace(s[|s| - 1]))
    ensures TrimSpace(s) == s
  {
  }

  // ---------------------------------------------------------------- case

  /** Go's `unicode.ToLower` restricted to ASCII letters. */
  function LowerChar(c: char): char {
    if 'A' <= c <= 'Z' then (c as int - 'A' as int + 'a' as int) as char else c
  }

  /** Go's `strings.ToLower`, ASCII letters only. */
  function ToLower(s: string): (r: string)
    ensures |r| == |s|
    ensures forall i | 0 <= i < |s| :: r[i] == LowerChar(s[i])
  {
    seq(|s|, i requires 0 <= i < |s| => LowerChar(s[i]))
  }

  lemma ToLowerIdempotent(s: string)
    ensures ToLower(ToLower(s)) == ToLower(s)
  {
  }

  // ---------------------------------------------------------------- split / join

  /** Go's `strings.Split(s, sep)` for a one-character separator. */
  function Split(s: string, sep: char): (parts: seq<string>)
    ensures |parts| >= 1
    ensures forall i | 0 <= i < |parts| :: sep !in parts[i]
    decreases |s|
  {
    match Index(s, [sep])
    case None =>
      assert forall k: nat | k < |s| :: s[k] != sep by {
        forall k: nat | k < |s| ensures s[k] != sep {
          assert s[k..k + 1] == [s[k]];
          assert !OccursAt(s, [sep], k);
        }
      }
      [s]
    case Some(k) =>
      assert OccursAt(s, [sep], k);
      assert forall j | 0 <= j < k :: s[j] != sep by {
        forall j | 0 <= j < k ensures s[j] != sep {
          assert s[j..j + 1] == [s[j]];
          assert !OccursAt(s, [sep], j);
        }
      }
      [s[..k]] + Split(s[k + 1..], sep)
  }

  /** Go's `strings.Join`. */
  function Join(parts: seq<string>, sep: string): string
    decreases |parts|
  {
    if |parts| == 0 then ""
    else if |parts| == 1 then parts[0]
    else parts[0] + sep + Join(parts[1..], sep)
  }

  /** The pieces written one after another, as repeated `+` or a `strings.Builder` gives. */
  function Concat(parts: seq<string>): (s: string)
    ensures |parts| == 1 ==> s == parts[0]
    decreases |parts|
  {
    if parts == [] then "" else parts[0] + Concat(parts[1..])
  }

  /** Joining two non-empty runs of pieces puts one separator between the two joins. */
  lemma {:induction false} JoinAppend(a: seq<string>, b: seq<string>, sep: string)
    requires |a| >= 1 && |b| >= 1
    ensures Join(a + b, sep) == Join(a, sep) + sep + Join(b, sep)
    decreases |a|
  {
    if |a| == 1 {
      assert (a + b)[0] == a[0] && (a + b)[1..] == b;
    } else {
      assert (a + b)[0] == a[0] && (a + b)[1..] == a[1..] + b;
      JoinAppend(a[1..], b, sep);
    }
  }

  /** Splitting on a character and joining with it gives back the text. */
  lemma {:induction false} JoinSplit(s: string, sep: char)
    ensures Join(Split(s, sep), [sep]) == s
    decreases |s|
  {
    match Index(s, [sep])
    case None =>
    case Some(k) =>
      assert OccursAt(s, [sep], k);
      JoinSplit(s[k + 1..], sep);
      var rest := Split(s[k + 1..], sep);
      assert Split(s, sep) == [s[..k]] + rest;
      assert ([s[..k]] + rest)[1..] == rest;
      assert s == s[..k] + [sep] + s[k + 1..];
  }

  /** Joining separator-free pieces and splitting again gives back the pieces. */
  lemma {:induction false} SplitJoin(parts: seq<string>, sep: char)
    requires |parts| >= 1
    requires forall i | 0 <= i < |parts| :: sep !in parts[i]
    ensures Split(Join(parts, [sep]), sep) == parts
    decreases |parts|
  {
    var p := parts[0];
    if |parts| == 1 {
      NoOccurrence(p, sep);
    } else {
      var rest := Join(parts[1..], [sep]);
      var s := p + [sep] + rest;
      assert Join(parts, [sep]) == s;
      assert OccursAt(s, [sep], |p|) by {
        assert s[|p|..|p| + 1] == [sep];
      }
      forall j | 0 <= j < |p| ensures !OccursAt(s, [sep], j) {
        assert s[j..j + 1] == [p[j]];
      }
      assert Index(s, [sep]) == Some(|p|);
      assert s[..|p|] == p;
      assert s[|p| + 1..] == rest;
      SplitJoin(parts[1..], sep);
    }
  }

  lemma NoOccurrence(s: string, sep: char)
    requires sep !in s
    ensures Index(s, [sep]).None?
  {
    forall j: nat | j + 1 <= |s| ensures !OccursAt(s, [sep], j) {
      assert s[j..j + 1] == [s[j]];
    }
  }
}
