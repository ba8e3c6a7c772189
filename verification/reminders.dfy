/** The reminder feature: parsing "!remindme" requests, storing them, the delivery
    poll, and listing what is still due.

The database is replaced by what it would hand back: a store write succeeds or
fails at one of its three steps, and a query is given the stored reminders (or
an error) and answers with those its filter accepts.  Clock readings are
parameters.  A Discord user name lookup is an oracle.
 */
module Reminders {
  import opened Wrappers
  import opened Text
  import opened Decimal
  import opened Patterns
  import opened Clock

  datatype Reminder = Reminder(
    due: Instant,
    message: string,
    server: string,
    creator: string,
    channel: string,
    sourceMessage: string,
    sourceTimestamp: Instant)

  /** The parts of a Discord message the reminder code reads.  `timestamp` is the
      outcome of parsing the message's timestamp text. */
  datatype Message = Message(
    id: string,
    content: string,
    guildId: string,
    channelId: string,
    authorId: string,
    timestamp: Result<Instant>)

  const NoInterval: string := "No interval specified"

  // ---------------------------------------------------------------- parsing

  /** The four reminder units; the letter case matters only for minutes against months. */
  datatype Unit = Minutes | Hours | Days | Months

  function UnitOf(c: char): (u: Unit)
    requires IsUnitChar(c)
    ensures u == Minutes <==> c == 'm'
    ensures u == Hours <==> c == 'h' || c == 'H'
    ensures u == Days <==> c == 'd' || c == 'D'
    ensures u == Months <==> c == 'M'
  {
    match c
    case 'm' => Minutes
    case 'h' => Hours
    case 'H' => Hours
    case 'd' => Days
    case 'D' => Days
    case _ => Months
  }

  /** The due time `count` units after `source`: minutes and hours are fixed durations,
      days and months are calendar steps. */
  function DueDate(source: Instant, count: nat, unit: Unit): (due: Instant)
    ensures unit == Minutes ==> due.ns == source.ns + count * 60 * Second
    ensures unit == Hours ==> due.ns == source.ns + count * 3600 * Second
    ensures unit == Days ==> due.ns == source.ns + count * 86400 * Second
    ensures unit == Months ==> due == AddDate(source, 0, count, 0)
  {
    match unit
    case Minutes => Add(source, count * Minute)
    case Hours => Add(source, count * Hour)
    case Days => AddDate(source, 0, 0, count)
    case Months => AddDate(source, 0, count, 0)
  }

  /** The leftmost interval token `<digits><unit>` of a text, with its shape spelled out. */
  function IntervalToken(s: string): (r: Option<Match>)
    ensures r == First(Interval, s)
    ensures r.Some? ==>
      var m := r.value;
      && m.start < m.end - 1 < |s|
      && m.groups == [s[m.start..m.end - 1], [s[m.end - 1]]]
      && |m.groups[0]| >= 1 && AllDigits(m.groups[0]) && IsUnitChar(s[m.end - 1])
      && forall j | 0 <= j < m.start :: IntervalAt(s, j).None?
    ensures r.None? ==> forall j | 0 <= j <= |s| :: IntervalAt(s, j).None?
  {
    IntervalMatchAt(s);
    First(Interval, s)
  }

  lemma IntervalMatchAt(s: string)
    ensures forall j | 0 <= j <= |s| :: MatchAt(Interval, s, j) == IntervalAt(s, j)
  {
  }

  /** The token's own text first occurs where the token was matched: an earlier copy of
      it would be an earlier match. */
  lemma TokenFirstOccurrence(s: string)
    requires IntervalToken(s).Some?
    ensures var m := IntervalToken(s).value; Index(s, s[m.start..m.end]) == Some(m.start)
  {
    var m := IntervalToken(s).value;
    var tok := s[m.start..m.end];
    assert OccursAt(s, tok, m.start);
    forall j: nat | j < m.start
      ensures !OccursAt(s, tok, j)
    {
      NoEarlierCopy(s, j);
    }
    match Index(s, tok)
    case None =>
    case Some(i) =>
  }

  lemma NoEarlierCopy(s: string, j: nat)
    requires IntervalToken(s).Some? && j < IntervalToken(s).value.start
    ensures var m := IntervalToken(s).value; !OccursAt(s, s[m.start..m.end], j)
  {
    var m := IntervalToken(s).value;
    var tok := s[m.start..m.end];
    if OccursAt(s, tok, j) {
      var k := |tok| - 1;
      assert s[j..j + k] == tok[..k] == m.groups[0];
      assert s[j + k] == tok[k] == s[m.end - 1];
      assert IntervalMatchesAt(s, j, k);
      IntervalAtIff(s, j);
      assert false;
    }
  }

  /** Cutting the token's text once out of the text removes the token itself. */
  lemma CutToken(s: string)
    requires IntervalToken(s).Some?
    ensures var m := IntervalToken(s).value;
      ReplaceFirst(s, m.groups[0] + m.groups[1], "") == s[..m.start] + s[m.end..]
  {
    var m := IntervalToken(s).value;
    assert m.groups[0] + m.groups[1] == s[m.start..m.end];
    TokenFirstOccurrence(s);
    assert s[..m.start] + "" + s[m.start + |s[m.start..m.end]|..] == s[..m.start] + s[m.end..];
  }

  /** `parseReminder`: the leftmost interval token gives the due time and is cut once out
      of the text, which becomes the message; the rest is copied from the Discord message. */
  function ParseReminder(msg: Message): (r: Result<Reminder>)
    ensures IntervalToken(msg.content).None? ==> r == Failure(NoInterval)
    ensures IntervalToken(msg.content).Some? && msg.timestamp.Failure? ==> r == Failure(msg.timestamp.error)
    ensures IntervalToken(msg.content).Some? && msg.timestamp.Success? ==>
      var m := IntervalToken(msg.content).value;
      var unit := msg.content[m.end - 1];
      && r.Success?
      && r.value.message == msg.content[..m.start] + msg.content[m.end..]
      && r.value.due == DueDate(msg.timestamp.value, ParseDigits(m.groups[0]), UnitOf(unit))
      && r.value.server == msg.guildId
      && r.value.creator == msg.authorId
      && r.value.channel == msg.channelId
      && r.value.sourceMessage == msg.id
      && r.value.sourceTimestamp == msg.timestamp.value
  {
    match IntervalToken(msg.content)
    case None => Failure(NoInterval)
    case Some(m) =>
      match msg.timestamp
      case Failure(e) => Failure(e)
      case Success(source) => Success(ReminderAt(msg, m, source))
  }

  /** The reminder for the token `m`, sent at `source`. */
  function ReminderAt(msg: Message, m: Match, source: Instant): (r: Reminder)
    requires IntervalToken(msg.content) == Some(m)
    ensures r.message == msg.content[..m.start] + msg.content[m.end..]
    ensures r.due == DueDate(source, ParseDigits(m.groups[0]), UnitOf(msg.content[m.end - 1]))
    ensures r.server == msg.guildId && r.creator == msg.authorId && r.channel == msg.channelId
    ensures r.sourceMessage == msg.id && r.sourceTimestamp == source
  {
    var count := m.groups[0];
    var unit := m.groups[1];
    var text := ReplaceFirst(msg.content, count + unit, "");
    CutToken(msg.content);
    AtoiDigits(count);
    var n := Atoi(count).GetOr(0);
    assert n == ParseDigits(count) && unit[0] == msg.content[m.end - 1];
    Reminder(DueDate(source, n, UnitOf(unit[0])), text, msg.guildId, msg.authorId, msg.channelId, msg.id, source)
  }

  /** The reminder text loses exactly the interval token and keeps every other character,
      in order. */
  lemma ParseReminderKeepsText(msg: Message)
    requires ParseReminder(msg).Success?
    ensures var m := IntervalToken(msg.content).value;
      multiset(ParseReminder(msg).value.message) + multiset(msg.content[m.start..m.end]) == multiset(msg.content)
    ensures |ParseReminder(msg).value.message| < |msg.content|
  {
    var m := IntervalToken(msg.content).value;
    CutKeepsRest(msg.content, m.start, m.end);
  }

  /** The unit letter decides the due time: 'm' counts minutes and 'M' months, while
      'h'/'H' and 'd'/'D' are the same unit whatever the case. */
  lemma ParseReminderUnit(msg: Message)
    requires ParseReminder(msg).Success?
    ensures var m := IntervalToken(msg.content).value;
      var unit := msg.content[m.end - 1];
      var n := ParseDigits(m.groups[0]);
      var source := msg.timestamp.value;
      var due := ParseReminder(msg).value.due;
      && (unit == 'm' ==> due == Add(source, n * Minute))
      && (unit == 'h' || unit == 'H' ==> due == Add(source, n * Hour))
      && (unit == 'd' || unit == 'D' ==> due == Add(source, n * Day))
      && (unit == 'M' ==> due == AddDate(source, 0, n, 0))
  {
  }

  // ---------------------------------------------------------------- storing

  /** What the three steps of a database write report: connect, insert, disconnect. */
  datatype StoreOutcome = StoreOutcome(connectErr: Option<string>, writeErr: Option<string>, disconnectErr: Option<string>)

  /** `storeReminder`: the error of the first failing step; the record is written
      once connecting and inserting succeed, even if disconnecting then fails. */
  function StoreReminder(r: Reminder, db: StoreOutcome): (res: (Option<Reminder>, Option<string>))
    ensures res.0 == (if db.connectErr.None? && db.writeErr.None? then Some(r) else None)
    ensures res.1.None? <==> db.connectErr.None? && db.writeErr.None? && db.disconnectErr.None?
    ensures db.connectErr.Some? ==> res.1 == db.connectErr
  {
    if db.connectErr.Some? then (None, db.connectErr)
    else if db.writeErr.Some? then (None, db.writeErr)
    else (Some(r), db.disconnectErr)
  }

  const ReminderAdded: string := "Reminder added."

  /** `createReminder`: the reply text and error, and the record it leaves in the store. */
  function CreateReminder(msg: Message, db: StoreOutcome): (res: (Returned<string>, Option<Reminder>))
    ensures ParseReminder(msg).Failure? ==>
      res.0 == Returned("", Some(ParseReminder(msg).error)) && res.1.None?
    ensures ParseReminder(msg).Success? ==>
      res.1 == StoreReminder(ParseReminder(msg).value, db).0
    ensures res.0.err.None? <==> ParseReminder(msg).Success? && StoreReminder(ParseReminder(msg).value, db).1.None?
    ensures res.0.err.None? ==> res.0.value == ReminderAdded
    ensures res.0.err.Some? ==> res.0.value == ""
  {
    match ParseReminder(msg)
    case Failure(e) => (Returned("", Some(e)), None)
    case Success(r) =>
      var (written, err) := StoreReminder(r, db);
      if err.Some? then (Returned("", err), written) else (Ok(ReminderAdded), written)
  }

  /** "Reminder added." is only ever said about a reminder that was written. */
  lemma AddedMeansWritten(msg: Message, db: StoreOutcome)
    ensures CreateReminder(msg, db).0 == Ok(ReminderAdded) ==>
      CreateReminder(msg, db).1 == Some(ParseReminder(msg).value)
  {
  }

  // ---------------------------------------------------------------- queries

  /** Go's integer division, which truncates toward zero. */
  function TruncDiv(a: int, b: int): (q: int)
    requires b > 0
    ensures a >= 0 ==> q == a / b
    ensures a < 0 ==> q == -((-a) / b)
  {
    if a >= 0 then a / b else -((-a) / b)
  }

  lemma TruncDivMonotone(a: int, c: int, b: int)
    requires b > 0 && a <= c
    ensures TruncDiv(a, b) <= TruncDiv(c, b)
  {
    if a < 0 && c >= 0 {
      DivMonotone(0, -a, b);
      DivMonotone(0, c, b);
    } else if a < 0 {
      DivMonotone(-c, -a, b);
    } else {
      DivMonotone(a, c, b);
    }
  }

  lemma DivMonotone(a: int, c: int, b: int)
    requires b > 0 && 0 <= a <= c
    ensures a / b <= c / b
  {
    var qa := a / b;
    var qc := c / b;
    assert a == qa * b + a % b && c == qc * b + c % b;
    if qc < qa {
      assert (qa - qc) * b == qa * b - qc * b;
      MulAtLeast(qa - qc, b);
    }
  }

  /** `t.UnixNano() / 1000000`: milliseconds since the epoch, truncated toward zero. */
  function UnixMillis(t: Instant): int {
    TruncDiv(t.ns, 1_000_000)
  }

  /** A due time as the database keeps it: whole milliseconds since the epoch, rounded down. */
  function StoredMillis(t: Instant): int {
    t.ns / 1_000_000
  }

  /** The filter of a query: due strictly after `dueAfter`, strictly before `dueBefore`
      when given, and on the given server and by the given creator when given. */
  datatype Query = Query(dueAfter: int, dueBefore: Option<int>, server: Option<string>, creator: Option<string>)

  predicate Matches(q: Query, r: Reminder) {
    && StoredMillis(r.due) > q.dueAfter
    && (q.dueBefore.Some? ==> StoredMillis(r.due) < q.dueBefore.value)
    && (q.server.Some? ==> r.server == q.server.value)
    && (q.creator.Some? ==> r.creator == q.creator.value)
  }

  /** The reminders of the store the query accepts, in store order. */
  function Select(q: Query, store: seq<Reminder>): (sel: seq<Reminder>)
    ensures |sel| <= |store|
    ensures forall r :: r in sel <==> r in store && Matches(q, r)
  {
    if store == [] then []
    else (if Matches(q, store[0]) then [store[0]] else []) + Select(q, store[1..])
  }

  lemma SelectNone(q: Query, store: seq<Reminder>)
    requires forall r | r in store :: !Matches(q, r)
    ensures Select(q, store) == []
  {
  }

  /** Selection distributes over a store split in two. */
  lemma {:induction false} SelectAppend(q: Query, a: seq<Reminder>, b: seq<Reminder>)
    ensures Select(q, a + b) == Select(q, a) + Select(q, b)
  {
    if a == [] {
      assert a + b == b;
    } else {
      assert (a + b)[1..] == a[1..] + b;
      assert (a + b)[0] == a[0];
      SelectAppend(q, a[1..], b);
      var head := if Matches(q, a[0]) then [a[0]] else [];
      assert Select(q, a + b) == head + (Select(q, a[1..]) + Select(q, b));
      assert Select(q, a) == head + Select(q, a[1..]);
      assert head + (Select(q, a[1..]) + Select(q, b)) == (head + Select(q, a[1..])) + Select(q, b);
    }
  }

  // ---------------------------------------------------------------- delivery

  const DefaultInterval: int := 5

  /** The poll interval in minutes: `REMINDER_INTERVAL` when it is an integer, else 5. */
  function ReminderInterval(env: string): (minutes: int)
    ensures IsInteger(env) ==> minutes == Atoi(env).value
    ensures !IsInteger(env) ==> minutes == DefaultInterval
  {
    match Atoi(env)
    case Some(v) => v
    case None => DefaultInterval
  }

  /** A setting written as a plain number is used as it is. */
  lemma ReminderIntervalShow(n: nat)
    ensures ReminderInterval(Show(n)) == n
  {
    AtoiShow(n);
  }

  /** The window `findReminders` asks for: due strictly between now and the end of the
      next interval, in milliseconds. */
  function WindowQuery(now: Instant, interval: int): Query {
    Query(UnixMillis(now), Some(UnixMillis(Add(now, interval * Minute))), None, None)
  }

  predicate InWindow(now: Instant, interval: int, r: Reminder) {
    UnixMillis(now) < StoredMillis(r.due) < UnixMillis(Add(now, interval * Minute))
  }

  /** `findReminders`: the stored reminders inside the window, or the store's error. */
  function FindReminders(now: Instant, interval: int, store: Result<seq<Reminder>>): (r: Result<seq<Reminder>>)
    ensures store.Failure? ==> r == store
    ensures store.Success? ==> r.Success? && forall x :: x in r.value <==> x in store.value && InWindow(now, interval, x)
  {
    match store
    case Failure(e) => Failure(e)
    case Success(all) => Success(Select(WindowQuery(now, interval), all))
  }

  /** With an interval of zero or fewer minutes the window is empty: nothing is ever found. */
  lemma NonPositiveIntervalFindsNothing(now: Instant, interval: int, store: seq<Reminder>)
    requires interval <= 0
    ensures FindReminders(now, interval, Success(store)) == Success([])
  {
    TruncDivMonotone(Add(now, interval * Minute).ns, now.ns, 1_000_000);
    SelectNone(WindowQuery(now, interval), store);
  }

  /** Both bounds are strict, so a reminder due exactly at the end of one window is not in
      that window, nor in any window that starts at or after that instant. */
  lemma BoundaryMissed(now: Instant, later: Instant, interval: int, r: Reminder)
    requires later.ns >= Add(now, interval * Minute).ns
    requires StoredMillis(r.due) == UnixMillis(Add(now, interval * Minute))
    ensures !InWindow(now, interval, r)
    ensures forall i: int :: !InWindow(later, i, r)
  {
    TruncDivMonotone(Add(now, interval * Minute).ns, later.ns, 1_000_000);
  }

  /** Polls that begin at least one interval apart leave reminders between them undelivered:
      one due after the first window and no later than the start of the next is in neither. */
  lemma GapBetweenPolls(now: Instant, later: Instant, interval: int, r: Reminder)
    requires later.ns >= Add(now, interval * Minute).ns
    requires UnixMillis(Add(now, interval * Minute)) <= StoredMillis(r.due) <= UnixMillis(later)
    ensures !InWindow(now, interval, r) && !InWindow(later, interval, r)
  {
  }

  /** The text a reminder is delivered as. */
  function DeliveryText(r: Reminder): (text: string)
    ensures HasPrefix(text, "Hey <@")
    ensures |text| == 18 + |r.creator| + |r.message|
    ensures text[6..6 + |r.creator|] == r.creator
    ensures text[6 + |r.creator|..|text| - |r.message|] == ">, remember "
    ensures text[|text| - |r.message|..] == r.message
  {
    "Hey <@" + r.creator + ">, remember " + r.message
  }

  /** For creator ids without a '>' (Discord ids are digits) the text determines both the
      creator and the message. */
  lemma DeliveryTextInjective(a: Reminder, b: Reminder)
    requires '>' !in a.creator && '>' !in b.creator
    requires DeliveryText(a) == DeliveryText(b)
    ensures a.creator == b.creator && a.message == b.message
  {
    var ta := DeliveryText(a);
    var tb := DeliveryText(b);
    DeliveryTextAt(a);
    DeliveryTextAt(b);
    assert a.creator == ta[6..6 + |a.creator|] == tb[6..6 + |b.creator|] == b.creator;
    assert a.message == ta[|ta| - |a.message|..] == b.message;
  }

  lemma DeliveryTextAt(r: Reminder)
    ensures |DeliveryText(r)| > 6 + |r.creator|
    ensures DeliveryText(r)[6 + |r.creator|] == '>'
    ensures forall i | 0 <= i < |r.creator| :: DeliveryText(r)[6 + i] == r.creator[i]
  {
  }

  datatype Delivery = Delivery(channel: string, text: string)

  /** One pass of the `sendReminders` loop: after a failed connect or query nothing is
      sent; otherwise every reminder in the window is sent to its channel. */
  function PollOnce(env: string, now: Instant, connectErr: Option<string>, store: Result<seq<Reminder>>): (out: seq<Delivery>)
    ensures connectErr.Some? || store.Failure? ==> out == []
    ensures connectErr.None? && store.Success? ==>
      var found := FindReminders(now, ReminderInterval(env), store).value;
      |out| == |found| && forall i | 0 <= i < |out| :: out[i] == Delivery(found[i].channel, DeliveryText(found[i]))
  {
    if connectErr.Some? then []
    else match FindReminders(now, ReminderInterval(env), store)
      case Failure(_) => []
      case Success(found) => seq(|found|, i requires 0 <= i < |found| => Delivery(found[i].channel, DeliveryText(found[i])))
  }

  /** Every delivery goes to a reminder in the window, in its own channel and naming its creator. */
  lemma PollDeliversOnlyDue(env: string, now: Instant, store: seq<Reminder>, d: Delivery)
    requires d in PollOnce(env, now, None, Success(store))
    ensures exists r :: (r in store && InWindow(now, ReminderInterval(env), r)
                         && d == Delivery(r.channel, DeliveryText(r)))
  {
    var out := PollOnce(env, now, None, Success(store));
    var found := FindReminders(now, ReminderInterval(env), Success(store)).value;
    var i :| 0 <= i < |out| && out[i] == d;
    assert found[i] in found;
  }

  // ---------------------------------------------------------------- listing

  const NoRemaining: string := "No remaining remidners"

  const HelpText: string :=
    "RemindMe Help:\n"
    + "\tWill at creator near specified time with requested message.\n"
    + "\tSupports (m)inutes, (h/H)ours, (d/D)ays, or (M)onths\n"
    + "\t\n"
    + "\te.g. !remindme post memes 1h \n"
    + "\n"
    + "\tList all outstanding reminders using either:\n"
    + "\t!remindme list\n"
    + "\tfor all remidners created by the user on the server\n"
    + "\t!remindme list all\n"
    + "\tfor all reminders created on the server by all users\n"
    + "\t"

  /** The query `listReminders` chooses: "list all" is everyone's reminders on the
      server, anything else only the author's; either way only those still to come. */
  function ListQuery(content: string, guildId: string, authorId: string, now: Instant): (q: Query)
    ensures q.dueAfter == UnixMillis(now) && q.dueBefore.None? && q.server == Some(guildId)
    ensures q.creator.None? <==> content == "list all"
    ensures q.creator.Some? ==> q.creator.value == authorId
  {
    if content == "list all" then Query(UnixMillis(now), None, Some(guildId), None)
    else Query(UnixMillis(now), None, Some(guildId), Some(authorId))
  }

  /** One line of the listing: the user name after "From: ", the due time as `Time.String`
      prints it after " Due: ", and the message after " Message: ", ended by a newline. */
  function ListLine(user: string, r: Reminder): (line: string)
    ensures HasPrefix(line, "From: ") && line[|line| - 1] == '\n'
    ensures var due := Clock.String(r.due);
      var k := 6 + |user|;
      && |line| == k + 6 + |due| + 10 + |r.message| + 1
      && line[6..k] == user
      && line[k..k + 6] == " Due: "
      && line[k + 6..k + 6 + |due|] == due
      && HasSuffix(line, " Message: " + r.message + "\n")
  {
    var due := Clock.String(r.due);
    var tail := " Message: " + r.message + "\n";
    var line := "From: " + user + " Due: " + due + tail;
    ConcatPieces("From: ", user, " Due: ", due, tail);
    line
  }

  /** The lines for the reminders in order, each drawn by `render` from the creator's user
      name and the reminder, stopping at the first failed user lookup. */
  function ListLines(rs: seq<Reminder>, username: (string, string) -> Returned<string>, render: (string, Reminder) -> string): (out: Returned<string>)
    ensures out.err.Some? ==> out.value == ""
    decreases |rs|
  {
    if rs == [] then Ok("")
    else
      var user := username(rs[0].server, rs[0].creator);
      if user.err.Some? then Returned("", user.err)
      else
        var rest := ListLines(rs[1..], username, render);
        if rest.err.Some? then rest else Ok(render(user.value, rs[0]) + rest.value)
  }

  predicate LookupOk(r: Reminder, username: (string, string) -> Returned<string>) {
    username(r.server, r.creator).err.None?
  }

  /** The listing fails exactly when some lookup fails, and then with the error of the
      first one that does. */
  lemma {:induction false} ListLinesError(rs: seq<Reminder>, username: (string, string) -> Returned<string>, render: (string, Reminder) -> string)
    ensures ListLines(rs, username, render).err.None? <==> forall i | 0 <= i < |rs| :: LookupOk(rs[i], username)
    ensures ListLines(rs, username, render).err.Some? ==>
      exists i | 0 <= i < |rs| :: && !LookupOk(rs[i], username)
                                 && (forall j | 0 <= j < i :: LookupOk(rs[j], username))
                                 && ListLines(rs, username, render).err == username(rs[i].server, rs[i].creator).err
    decreases |rs|
  {
    if rs != [] && LookupOk(rs[0], username) {
      ListLinesError(rs[1..], username, render);
      assert forall i | 1 <= i < |rs| :: rs[i] == rs[1..][i - 1];
      if ListLines(rs[1..], username, render).err.Some? {
        var i :| 0 <= i < |rs| - 1 && !LookupOk(rs[1..][i], username)
                 && (forall j | 0 <= j < i :: LookupOk(rs[1..][j], username))
                 && ListLines(rs[1..], username, render).err == username(rs[1..][i].server, rs[1..][i].creator).err;
        assert !LookupOk(rs[i + 1], username);
        assert forall j | 0 <= j < i + 1 :: LookupOk(rs[j], username);
      }
    }
  }

  /** A successful listing of at least one reminder, drawn with lines like `ListLine`'s,
      starts with "From: " and ends in a newline. */
  lemma {:induction false} ListLinesShape(rs: seq<Reminder>, username: (string, string) -> Returned<string>, render: (string, Reminder) -> string)
    requires forall u, r :: HasPrefix(render(u, r), "From: ") && render(u, r)[|render(u, r)| - 1] == '\n'
    requires rs != [] && ListLines(rs, username, render).err.None?
    ensures var text := ListLines(rs, username, render).value;
      HasPrefix(text, "From: ") && text[|text| - 1] == '\n'
    decreases |rs|
  {
    var user := username(rs[0].server, rs[0].creator);
    var line := render(user.value, rs[0]);
    var rest := ListLines(rs[1..], username, render).value;
    if |rs| > 1 {
      ListLinesShape(rs[1..], username, render);
    }
    assert (line + rest)[..6] == line[..6];
  }

  /** The listing of two runs of reminders is the two listings one after the other. */
  lemma {:induction false} ListLinesAppend(a: seq<Reminder>, b: seq<Reminder>, username: (string, string) -> Returned<string>, render: (string, Reminder) -> string)
    requires ListLines(a, username, render).err.None? && ListLines(b, username, render).err.None?
    ensures ListLines(a + b, username, render) == Ok(ListLines(a, username, render).value + ListLines(b, username, render).value)
    decreases |a|
  {
    if a == [] {
      assert a + b == b;
      assert "" + ListLines(b, username, render).value == ListLines(b, username, render).value;
    } else {
      assert (a + b)[1..] == a[1..] + b;
      assert (a + b)[0] == a[0];
      var user := username(a[0].server, a[0].creator);
      ListLinesAppend(a[1..], b, username, render);
      var line := render(user.value, a[0]);
      assert ListLines(a, username, render).value == line + ListLines(a[1..], username, render).value;
      assert ListLines(a + b, username, render) == Ok(line + ListLines(a[1..] + b, username, render).value);
      assert line + (ListLines(a[1..], username, render).value + ListLines(b, username, render).value)
          == (line + ListLines(a[1..], username, render).value) + ListLines(b, username, render).value;
    }
  }

  /** `listReminders`: the listing of the selected reminders, the fixed message when there
      are none, or the first error met (connecting, querying or looking up a user). */
  function ListReminders(content: string, guildId: string, authorId: string, now: Instant,
                         connectErr: Option<string>, store: Result<seq<Reminder>>,
                         username: (string, string) -> Returned<string>): (out: Returned<string>)
    ensures connectErr.Some? ==> out == Returned("", connectErr)
    ensures connectErr.None? && store.Failure? ==> out == Returned("", Some(store.error))
    ensures connectErr.None? && store.Success? ==>
      var sel := Select(ListQuery(content, guildId, authorId, now), store.value);
      && (sel == [] ==> out == Ok(NoRemaining))
      && (sel != [] ==> out == ListLines(sel, username, ListLine))
  {
    if connectErr.Some? then Returned("", connectErr)
    else match store
      case Failure(e) => Returned("", Some(e))
      case Success(all) =>
        var sel := Select(ListQuery(content, guildId, authorId, now), all);
        if sel == [] then Ok(NoRemaining) else ListLines(sel, username, ListLine)
  }

  /** A listing only ever shows reminders of the asking server that are still to come, and,
      unless "list all" was asked, only the author's own. */
  lemma ListShowsOnlyMatching(content: string, guildId: string, authorId: string, now: Instant,
                              store: seq<Reminder>, r: Reminder)
    requires r in Select(ListQuery(content, guildId, authorId, now), store)
    ensures r in store && r.server == guildId && StoredMillis(r.due) > UnixMillis(now)
    ensures content != "list all" ==> r.creator == authorId
  {
  }
}
