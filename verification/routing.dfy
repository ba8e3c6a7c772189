/** Which replies the bot sends for a message or a reaction.

`MessageRespond` ignores the bot's own messages and messages that do not start
with '!', takes the first word after the '!' (lower-cased) as the command and
the rest as its arguments, and `Dispatch` decides the replies.  Feature flags
are an oracle from flag name to state (for the message's author and roles),
and each outside handler is represented by the outcome it returns.  Replies are
the texts sent, in order; every reply goes to the message's channel.
 */
module Routing {
  import opened Wrappers
  import opened Text
  import Magic
  import Reminders

  const NotAllowed: string := "Command not allowed"

  const Help: string :=
    "Commands available:\n"
    + "\t\tping - returns pong if bot is running\n"
    + "\t\tcatfact - returns a random cat fact\n"
    + "\t\trelationships - returns a random relationship objective or synergy\n"
    + "\t\tmc - runs various minecraft commands if enabled for the user\n"
    + "\t\tmtg - returns a scryfall search link based on user criteria, see mtg help for more details.\n"
    + "\t\tsource - returns the source of the bot\n"
    + "\t\ttime <username> - returns the time in that users location. Not available everywhere.\n"
    + "\t\tremindme <text> <time> - sets a reminder for the future with a specified message.\n"
    + "\t\tkevin - returns a Home Alone Kevin! gif.\n"
    + "\t\t"

  const SourceReply: string := "You can find the source here: https://github.com/ChrisLGardner/go-discord-bot"

  /** The outcomes of the handlers a command may call.  `minecraft`, `mtg`, `time`,
      `listReminders` and `createReminder` see the arguments as the dispatcher passes them;
      `mtg` is `Magic.MtgCommand` for the bot's colour-identity lookup (see `MtgSendsTheLink`);
      `lunchLink` is the LUNCH_LINK environment variable. */
  datatype Handlers = Handlers(
    featureRequest: string,
    catFact: Returned<string>,
    relationship: Returned<(string, string)>,
    minecraft: string -> Returned<string>,
    mtg: string -> Returned<string>,
    time: string -> Returned<string>,
    lunchLink: string,
    kevin: string,
    language: string,
    listReminders: string -> Returned<string>,
    createReminder: string -> Returned<string>)

  datatype Command =
    | HelpCommand | Source | FeatureRequest | Ping | Test | SplitWords | Emoji | CatFact
    | Relationships | Minecraft | Mtg | Time | Link | Kevin | RemindMe | Language | Unknown

  /** The dispatch chain of `MessageRespond`, tested in the source's order. */
  function Route(command: string): (c: Command)
    ensures c != Link && c != Unknown ==> command == Name(c)
    ensures c == Link ==> Contains(command, "lunch") || HasPrefix(command, "link")
  {
    if command == "help" then HelpCommand
    else if command == "source" then Source
    else if command == "featurerequest" then FeatureRequest
    else if command == "ping" then Ping
    else if command == "test" then Test
    else if command == "split" then SplitWords
    else if command == "emoji" then Emoji
    else if command == "catfact" then CatFact
    else if command == "relationships" then Relationships
    else if command == "mc" then Minecraft
    else if command == "mtg" then Mtg
    else if command == "time" then Time
    else if Contains(command, "lunch") || HasPrefix(command, "link") then Link
    else if command == "kevin" then Kevin
    else if command == "remindme" then RemindMe
    else if command == "language" then Language
    else Unknown
  }

  /** The word that selects a command; the link command is chosen by a pattern instead. */
  function Name(c: Command): string
    requires c != Link && c != Unknown
  {
    match c
    case HelpCommand => "help"
    case Source => "source"
    case FeatureRequest => "featurerequest"
    case Ping => "ping"
    case Test => "test"
    case SplitWords => "split"
    case Emoji => "emoji"
    case CatFact => "catfact"
    case Relationships => "relationships"
    case Minecraft => "mc"
    case Mtg => "mtg"
    case Time => "time"
    case Kevin => "kevin"
    case RemindMe => "remindme"
    case Language => "language"
  }

  /** A text lacking one character of a pattern does not contain the pattern. */
  lemma MissingCharacter(s: string, p: string, j: nat)
    requires j < |p| && p[j] !in s
    ensures !Contains(s, p)
  {
    forall k: nat ensures !OccursAt(s, p, k) {
      if k + |p| <= |s| {
        assert s[k..k + |p|][j] == s[k + j];
      }
    }
    ContainsIff(s, p);
  }

  /** Every command word selects its own command, including the three that come after the
      link pattern in the chain, which none of them matches. */
  lemma RouteName(c: Command)
    requires c != Link && c != Unknown
    ensures Route(Name(c)) == c
  {
    if c == Kevin || c == RemindMe || c == Language {
      RouteNameLate(c);
    }
  }

  /** The three words after the link pattern in the chain do not match it. */
  lemma RouteNameLate(c: Command)
    requires c == Kevin || c == RemindMe || c == Language
    ensures Route(Name(c)) == c
  {
    if c == Kevin {
      RouteKevin();
    } else if c == RemindMe {
      RouteRemindMe();
    } else {
      RouteLanguage();
    }
  }

  lemma RouteKevin()
    ensures Route("kevin") == Kevin
  {
    LateWordsNotLink();
  }

  lemma RouteRemindMe()
    ensures Route("remindme") == RemindMe
  {
    LateWordsNotLink();
  }

  lemma RouteLanguage()
    ensures Route("language") == Language
  {
    LateWordsNotLink();
  }

  /** "kevin", "remindme" and "language" hold no "lunch" and do not start with "link". */
  lemma LateWordsNotLink()
    ensures !Contains("kevin", "lunch") && !HasPrefix("kevin", "link")
    ensures !Contains("remindme", "lunch") && !HasPrefix("remindme", "link")
    ensures !Contains("language", "lunch") && !HasPrefix("language", "link")
  {
    NeitherLunchNorLink("kevin");
    NeitherLunchNorLink("remindme");
    NeitherLunchNorLink("language");
  }

  lemma NeitherLunchNorLink(w: string)
    requires 'c' !in w && |w| >= 2 && w[1] != 'i'
    ensures !Contains(w, "lunch") && !HasPrefix(w, "link")
  {
    MissingCharacter(w, "lunch", 3);
  }

  /** A command that selects a branch other than the link one is that branch's word. */
  lemma RouteWord(command: string)
    requires Route(command) != Link && Route(command) != Unknown
    ensures command == Name(Route(command))
  {
  }

  /** A command no branch selects: no command word, no "lunch" inside and no "link" in front. */
  lemma RouteUnknownIff(command: string)
    ensures Route(command) == Unknown <==>
      && (forall c: Command | c != Link && c != Unknown :: command != Name(c))
      && !Contains(command, "lunch") && !HasPrefix(command, "link")
  {
    if Route(command) == Unknown {
      forall c: Command | c != Link && c != Unknown ensures command != Name(c) {
        if command == Name(c) {
          RouteName(c);
        }
      }
    } else if Route(command) != Link {
      RouteWord(command);
    }
  }

  function FlagOf(c: Command): Option<string> {
    match c
    case CatFact => Some("catfact-command")
    case Relationships => Some("relationship-command")
    case Time => Some("timezone-command")
    case Link => Some("lunch-command")
    case RemindMe => Some("reminder-command")
    case _ => None
  }

  /** Replies for a handler whose error is sent first and whose value is sent regardless. */
  function ErrorThenValue(r: Returned<string>): (replies: seq<string>)
    ensures |replies| == if r.err.Some? then 2 else 1
    ensures r.err.Some? ==> replies[0] == r.err.value
    ensures replies[|replies| - 1] == r.value
  {
    (if r.err.Some? then [r.err.value] else []) + [r.value]
  }

  /** Replies for a handler that sends either its error or its value: only the first
      reply of the error-then-value pair. */
  function ErrorOrValue(r: Returned<string>): (replies: seq<string>)
    ensures |replies| == 1
    ensures replies[0] == (if r.err.Some? then r.err.value else r.value)
    ensures replies == ErrorThenValue(r)[..1]
  {
    if r.err.Some? then [r.err.value] else [r.value]
  }

  /** The texts sent for a command and its arguments. */
  function Dispatch(command: string, args: string, flags: string -> bool, h: Handlers): (replies: seq<string>)
    ensures |replies| <= 2
    ensures Route(command) == Unknown ==> replies == []
  {
    match Route(command)
    case HelpCommand => [Help]
    case Source => [SourceReply]
    case FeatureRequest => [h.featureRequest]
    case Ping => ["pong"]
    case Test => ["test success"]
    case SplitWords => [Join(Split(args, ' ')[1..], "-")]
    case Emoji => ["<:emotest:788860836009345024>"]
    case CatFact =>
      if flags("catfact-command") then
        (if h.catFact.err.Some? then ["error getting cat fact"] else []) + [h.catFact.value]
      else [NotAllowed]
    case Relationships =>
      if flags("relationship-command") then
        (if h.relationship.err.Some? then ["error getting cat fact"] else [])
        + [if Contains(args, "objective") then h.relationship.value.0 else h.relationship.value.1]
      else [NotAllowed]
    case Minecraft =>
      if Contains(args, " whitelist ") then
        if flags("mc-commands") then ErrorThenValue(h.minecraft(args)) else []
      else if flags("mc-admin") then ErrorThenValue(h.minecraft(args))
      else [NotAllowed]
    case Mtg => ErrorOrValue(h.mtg(TrimSpace(ReplaceFirst(args, "mtg", ""))))
    case Time =>
      if flags("timezone-command") then ErrorOrValue(h.time(ToLower(ReplaceFirst(args, "time ", ""))))
      else [NotAllowed]
    case Link =>
      if flags("lunch-command") then [h.lunchLink + " please don't share this publicly"] else [NotAllowed]
    case Kevin => [h.kevin]
    case RemindMe =>
      var rest := ReplaceFirst(args, "remindme ", "");
      if !flags("reminder-command") then [NotAllowed]
      else if rest == "help" then [Reminders.HelpText]
      else if HasPrefix(rest, "list") then ErrorThenValue(h.listReminders(rest))
      else ErrorThenValue(h.createReminder(rest))
    case Language => [h.language]
    case Unknown => []
  }

  /** A command no branch selects gets no reply. */
  lemma UnknownIsSilent(command: string, args: string, flags: string -> bool, h: Handlers)
    requires forall c: Command | c != Link && c != Unknown :: command != Name(c)
    requires !Contains(command, "lunch") && !HasPrefix(command, "link")
    ensures Dispatch(command, args, flags, h) == []
  {
    RouteUnknownIff(command);
  }

  /** A gated command whose flag is off gets exactly one reply, "Command not allowed". */
  lemma GatedDenied(command: string, args: string, flags: string -> bool, h: Handlers)
    requires FlagOf(Route(command)).Some? && !flags(FlagOf(Route(command)).value)
    ensures Dispatch(command, args, flags, h) == [NotAllowed]
  {
  }

  /** With the corrected split the "split" handler still drops the first word of its
      arguments, written for text that began with the command word. */
  lemma SplitDropsFirstArgument(flags: string -> bool, h: Handlers)
    ensures Dispatch("split", "a b c", flags, h) == ["b-c"]
  {
    assert Route("split") == SplitWords;
    SplitDispatch("split", "a b c", flags, h);
    SplitABC();
  }

  lemma SplitABC()
    ensures Join(Split("a b c", ' ')[1..], "-") == "b-c"
  {
    var words := ["a", "b", "c"];
    assert Join(words, " ") == "a b c" by {
      assert Join(words[2..], " ") == "c";
      assert Join(words[1..], " ") == "b c";
    }
    SplitJoin(words, ' ');
    assert words[1..] == ["b", "c"];
    assert Join(["b", "c"], "-") == "b-c" by {
      assert Join(["b", "c"][1..], "-") == "c";
    }
  }

  lemma SplitDispatch(command: string, args: string, flags: string -> bool, h: Handlers)
    requires Route(command) == SplitWords
    ensures Dispatch(command, args, flags, h) == [Join(Split(args, ' ')[1..], "-")]
  {
  }

  /** "mc" without a whitelist request is gated by the "mc-admin" flag: with it off the
      only reply is "Command not allowed", with it on the handler's error and value. */
  lemma MinecraftAdminGate(command: string, args: string, flags: string -> bool, h: Handlers)
    requires Route(command) == Minecraft && !Contains(args, " whitelist ")
    ensures !flags("mc-admin") ==> Dispatch(command, args, flags, h) == [NotAllowed]
    ensures flags("mc-admin") ==> Dispatch(command, args, flags, h) == ErrorThenValue(h.minecraft(args))
  {
  }

  /** With the corrected split "mc whitelist add x" leaves "whitelist add x", which holds no
      " whitelist " with its leading space, so the request is gated by "mc-admin". */
  lemma WhitelistTakesAdminPath(flags: string -> bool, h: Handlers)
    ensures var args := "whitelist add x";
      Dispatch("mc", args, flags, h) ==
        if flags("mc-admin") then ErrorThenValue(h.minecraft(args)) else [NotAllowed]
  {
    NoSpacedWhitelist();
    assert Route("mc") == Minecraft;
    MinecraftAdminGate("mc", "whitelist add x", flags, h);
  }

  lemma NoSpacedWhitelist()
    ensures !Contains("whitelist add x", " whitelist ")
  {
    var args := "whitelist add x";
    ContainsIff(args, " whitelist ");
    forall k: nat ensures !OccursAt(args, " whitelist ", k) {
      if k + 11 <= |args| {
        assert args[k..k + 11][0] == args[k] != ' ';
      }
    }
  }

  /** No reply at all only for a command no branch selects, or for a whitelist request
      without its flag. */
  lemma SilentIff(command: string, args: string, flags: string -> bool, h: Handlers)
    ensures Dispatch(command, args, flags, h) == [] <==>
      || Route(command) == Unknown
      || (Route(command) == Minecraft && Contains(args, " whitelist ") && !flags("mc-commands"))
  {
  }

  /** Two replies only after a handler reported an error. */
  lemma TwoRepliesOnlyOnError(command: string, args: string, flags: string -> bool, h: Handlers)
    requires |Dispatch(command, args, flags, h)| == 2
    ensures var rest := ReplaceFirst(args, "remindme ", "");
      || (Route(command) == CatFact && h.catFact.err.Some?)
      || (Route(command) == Relationships && h.relationship.err.Some?)
      || (Route(command) == Minecraft && h.minecraft(args).err.Some?)
      || (Route(command) == RemindMe && (h.listReminders(rest).err.Some? || h.createReminder(rest).err.Some?))
  {
    match Route(command)
    case CatFact =>
    case Relationships =>
    case Minecraft =>
    case RemindMe =>
    case _ =>
  }

  /** On a handler error the four commands that report errors this way send an error text
      and then the value as a second reply. */
  lemma DoubleSendOnError(command: string, args: string, flags: string -> bool, h: Handlers)
    ensures Route(command) == CatFact && flags("catfact-command") && h.catFact.err.Some? ==>
      Dispatch(command, args, flags, h) == ["error getting cat fact", h.catFact.value]
    ensures Route(command) == Relationships && flags("relationship-command") && h.relationship.err.Some? ==>
      Dispatch(command, args, flags, h) == ["error getting cat fact",
        if Contains(args, "objective") then h.relationship.value.0 else h.relationship.value.1]
    ensures var allowed := if Contains(args, " whitelist ") then flags("mc-commands") else flags("mc-admin");
      Route(command) == Minecraft && allowed && h.minecraft(args).err.Some? ==>
      Dispatch(command, args, flags, h) == [h.minecraft(args).err.value, h.minecraft(args).value]
    ensures var rest := ReplaceFirst(args, "remindme ", "");
      var r := if HasPrefix(rest, "list") then h.listReminders(rest) else h.createReminder(rest);
      Route(command) == RemindMe && flags("reminder-command") && rest != "help" && r.err.Some? ==>
      Dispatch(command, args, flags, h) == [r.err.value, r.value]
  {
    if Route(command) == CatFact {
      CatFactTwice(command, args, flags, h);
    } else if Route(command) == Relationships {
      RelationshipsTwice(command, args, flags, h);
    } else if Route(command) == Minecraft {
      MinecraftTwice(command, args, flags, h);
    } else if Route(command) == RemindMe {
      RemindMeTwice(command, args, flags, h);
    }
  }

  lemma CatFactTwice(command: string, args: string, flags: string -> bool, h: Handlers)
    requires Route(command) == CatFact
    ensures flags("catfact-command") && h.catFact.err.Some? ==>
      Dispatch(command, args, flags, h) == ["error getting cat fact", h.catFact.value]
  {
  }

  lemma RelationshipsTwice(command: string, args: string, flags: string -> bool, h: Handlers)
    requires Route(command) == Relationships
    ensures flags("relationship-command") && h.relationship.err.Some? ==>
      Dispatch(command, args, flags, h) == ["error getting cat fact",
        if Contains(args, "objective") then h.relationship.value.0 else h.relationship.value.1]
  {
  }

  lemma MinecraftTwice(command: string, args: string, flags: string -> bool, h: Handlers)
    requires Route(command) == Minecraft
    ensures var allowed := if Contains(args, " whitelist ") then flags("mc-commands") else flags("mc-admin");
      allowed && h.minecraft(args).err.Some? ==>
      Dispatch(command, args, flags, h) == [h.minecraft(args).err.value, h.minecraft(args).value]
  {
  }

  lemma RemindMeTwice(command: string, args: string, flags: string -> bool, h: Handlers)
    requires Route(command) == RemindMe
    ensures var rest := ReplaceFirst(args, "remindme ", "");
      var r := if HasPrefix(rest, "list") then h.listReminders(rest) else h.createReminder(rest);
      flags("reminder-command") && rest != "help" && r.err.Some? ==>
      Dispatch(command, args, flags, h) == [r.err.value, r.value]
  {
  }

  /** "mtg" always gets exactly one reply, the link text for the arguments after the first
      "mtg", trimmed: the link builder reports no error, so its error branch is never taken. */
  lemma MtgSendsTheLink(command: string, args: string, flags: string -> bool, h: Handlers,
                        colourIdentity: string -> Returned<string>)
    requires Route(command) == Mtg
    requires forall c :: h.mtg(c) == Magic.MtgCommand(c, colourIdentity)
    ensures Dispatch(command, args, flags, h) ==
      [Magic.MtgCommand(TrimSpace(ReplaceFirst(args, "mtg", "")), colourIdentity).value]
  {
    var c := TrimSpace(ReplaceFirst(args, "mtg", ""));
    MtgDispatch(command, args, flags, h);
    assert h.mtg(c) == Magic.MtgCommand(c, colourIdentity);
  }

  lemma MtgDispatch(command: string, args: string, flags: string -> bool, h: Handlers)
    requires Route(command) == Mtg
    ensures Dispatch(command, args, flags, h) == ErrorOrValue(h.mtg(TrimSpace(ReplaceFirst(args, "mtg", ""))))
  {
  }

  /** "time" with its flag on sends one reply: the error or the answer, never both. */
  lemma TimeSendsOne(command: string, args: string, flags: string -> bool, h: Handlers)
    requires Route(command) == Time && flags("timezone-command")
    ensures var r := h.time(ToLower(ReplaceFirst(args, "time ", "")));
      Dispatch(command, args, flags, h) == if r.err.Some? then [r.err.value] else [r.value]
  {
    TimeDispatch(command, args, flags, h);
  }

  lemma TimeDispatch(command: string, args: string, flags: string -> bool, h: Handlers)
    requires Route(command) == Time && flags("timezone-command")
    ensures Dispatch(command, args, flags, h) == ErrorOrValue(h.time(ToLower(ReplaceFirst(args, "time ", ""))))
  {
  }

  /** "remindme": exactly "help" gives the help text, a "list" prefix lists, anything else
      creates; each handler's error is sent before its value. */
  lemma RemindMeSubcommands(command: string, args: string, flags: string -> bool, h: Handlers)
    requires Route(command) == RemindMe && flags("reminder-command")
    ensures var rest := ReplaceFirst(args, "remindme ", "");
      var replies := Dispatch(command, args, flags, h);
      && (rest == "help" ==> replies == [Reminders.HelpText])
      && (rest != "help" && HasPrefix(rest, "list") ==>
            replies[|replies| - 1] == h.listReminders(rest).value
            && (h.listReminders(rest).err.Some? <==> |replies| == 2))
      && (rest != "help" && !HasPrefix(rest, "list") ==>
            replies[|replies| - 1] == h.createReminder(rest).value
            && (h.createReminder(rest).err.Some? <==> |replies| == 2))
  {
  }

  // ---------------------------------------------------------------- the command word

  /** Go's `strings.SplitAfterN(s, sep, n)` for a one-character separator: at most `n`
      pieces (all of them when `n < 0`, none when `n == 0`), each but the last ending in
      the separator, the last holding the rest. */
  function SplitAfterN(s: string, sep: char, n: int): (parts: seq<string>)
    ensures n == 0 <==> parts == []
    ensures n > 0 ==> |parts| <= n
    decreases |s|
  {
    if n == 0 then []
    else if n == 1 then [s]
    else
      match Index(s, [sep])
      case None => [s]
      case Some(k) => [s[..k + 1]] + SplitAfterN(s[k + 1..], sep, if n < 0 then n else n - 1)
  }

  /** The pieces put back together give the text. */
  lemma {:induction false} SplitAfterNConcat(s: string, sep: char, n: int)
    requires n != 0
    ensures Concat(SplitAfterN(s, sep, n)) == s
    decreases |s|
  {
    if n != 1 {
      match Index(s, [sep])
      case None =>
      case Some(k) =>
        var rest := SplitAfterN(s[k + 1..], sep, if n < 0 then n else n - 1);
        SplitAfterNConcat(s[k + 1..], sep, if n < 0 then n else n - 1);
        assert ([s[..k + 1]] + rest)[0] == s[..k + 1] && ([s[..k + 1]] + rest)[1..] == rest;
        assert s == s[..k + 1] + s[k + 1..];
    }
  }

  /** The command word and arguments taken as the source does: the first two pieces of
      `SplitAfterN(content, " ", limit)`, where a missing second piece is an index out of
      range (`None`).  The source passes a limit of one. */
  function CommandAsWritten(content: string, limit: int): (r: Option<(string, string)>)
    ensures r.Some? ==> limit != 1
  {
    var split := SplitAfterN(content, ' ', limit);
    if |split| < 2 then None else Some((ToLower(split[0]), split[1]))
  }

  /** With a limit of one piece the split never yields a second piece, so every command
      message indexes past the end. */
  lemma SplitAsWrittenFails(content: string)
    ensures SplitAfterN(content, ' ', 1) == [content]
    ensures CommandAsWritten(content, 1).None?
  {
  }

  /** The command word (lower-cased) and the arguments: the text up to the first space and
      the text after it, or the whole text and no arguments. */
  function SplitCommand(content: string): (r: (string, string))
    ensures ' ' !in content ==> r == (ToLower(content), "")
  {
    match Index(content, " ")
    case None =>
      assert ' ' !in content by {
        forall k | 0 <= k < |content| ensures content[k] != ' ' {
          assert content[k..k + 1] == [content[k]];
          assert !OccursAt(content, " ", k);
        }
      }
      (ToLower(content), "")
    case Some(k) =>
      assert content[k..k + 1][0] == content[k];
      (ToLower(content[..k]), content[k + 1..])
  }

  /** A text with a space in it has a first space. */
  lemma SpaceFound(content: string)
    requires ' ' in content
    ensures Index(content, " ").Some?
  {
    var j :| 0 <= j < |content| && content[j] == ' ';
    assert content[j..j + 1] == " ";
    assert OccursAt(content, " ", j);
  }

  /** The command word is the lower-cased first word, and the text is that word, one space
      and the arguments. */
  lemma SplitCommandRoundTrip(content: string)
    requires ' ' in content
    ensures exists word: string ::
      && ' ' !in word
      && content == word + " " + SplitCommand(content).1
      && SplitCommand(content).0 == ToLower(word)
  {
    SpaceFound(content);
    var k := Index(content, " ").value;
    var word := content[..k];
    assert content[k..k + 1][0] == content[k];
    forall j | 0 <= j < k ensures word[j] != ' ' {
      assert content[j..j + 1] == [content[j]];
      assert !OccursAt(content, " ", j);
    }
    assert content == word + " " + content[k + 1..];
  }

  /** Taking the first two pieces of a two-piece `SplitAfterN` would still keep the space
      on the command word, so no command would match either. */
  lemma SplitAfterKeepsSpace(content: string)
    requires ' ' in content
    ensures CommandAsWritten(content, 2).Some?
    ensures var w := CommandAsWritten(content, 2).value.0; |w| >= 1 && w[|w| - 1] == ' '
  {
    SpaceFound(content);
    var k := Index(content, " ").value;
    assert content[k..k + 1][0] == content[k];
    assert SplitAfterN(content[k + 1..], ' ', 1) == [content[k + 1..]];
  }

  datatype Incoming = Incoming(authorId: string, content: string)

  /** `MessageRespond` with the command word taken by `SplitCommand`.  `member` and
      `guild` are the two lookups of `getMemberRoles` for the author (a failed lookup
      leaves no roles and is otherwise ignored), and `flagState(author, roles, flag)` is
      the feature-flag service. */
  function MessageRespond(m: Incoming, botId: string, member: Returned<seq<string>>, guild: Returned<seq<Role>>,
                          flagState: (string, seq<string>, string) -> bool, h: Handlers): (replies: seq<string>)
    ensures m.authorId == botId ==> replies == []
    ensures !HasPrefix(m.content, "!") ==> replies == []
  {
    if m.authorId == botId || !HasPrefix(m.content, "!") then []
    else
      var (command, args) := SplitCommand(ReplaceFirst(m.content, "!", ""));
      Dispatch(command, args, name => flagState(m.authorId, MemberRoles(member, guild).value, name), h)
  }

  /** A command message answers to the word right after its leading '!', with the flags
      of its author and roles. */
  lemma MessageRespondCommand(m: Incoming, botId: string, member: Returned<seq<string>>, guild: Returned<seq<Role>>,
                              flagState: (string, seq<string>, string) -> bool, h: Handlers)
    requires m.authorId != botId && HasPrefix(m.content, "!")
    ensures var (command, args) := SplitCommand(m.content[1..]);
      MessageRespond(m, botId, member, guild, flagState, h)
        == Dispatch(command, args, name => flagState(m.authorId, MemberRoles(member, guild).value, name), h)
  {
    assert OccursAt(m.content, "!", 0);
    assert Index(m.content, "!") == Some(0);
    assert m.content[..0] + "" + m.content[1..] == m.content[1..];
  }

  /** `MessageRespond` as written: every message from someone else that starts with '!'
      reaches the out-of-range `split[1]` (`None`). */
  function MessageRespondAsWritten(m: Incoming, botId: string, member: Returned<seq<string>>, guild: Returned<seq<Role>>,
                                   flagState: (string, seq<string>, string) -> bool, h: Handlers): (r: Option<seq<string>>)
  {
    if m.authorId == botId || !HasPrefix(m.content, "!") then Some([])
    else
      match CommandAsWritten(ReplaceFirst(m.content, "!", ""), 1)
      case None => None
      case Some((command, args)) => Some(Dispatch(command, args, name => flagState(m.authorId, MemberRoles(member, guild).value, name), h))
  }

  /** As written, no command is ever answered: only messages that are ignored anyway get
      through. */
  lemma NoCommandAnsweredAsWritten(m: Incoming, botId: string, member: Returned<seq<string>>, guild: Returned<seq<Role>>,
                                   flagState: (string, seq<string>, string) -> bool, h: Handlers)
    ensures MessageRespondAsWritten(m, botId, member, guild, flagState, h).None? <==>
      m.authorId != botId && HasPrefix(m.content, "!")
    ensures MessageRespondAsWritten(m, botId, member, guild, flagState, h).Some? ==>
      MessageRespondAsWritten(m, botId, member, guild, flagState, h).value == []
  {
    SplitAsWrittenFails(ReplaceFirst(m.content, "!", ""));
  }

  // ---------------------------------------------------------------- roles

  datatype Role = Role(id: string, name: string)

  /** The names of the guild roles whose id matches, for one member role. */
  function NamesOf(id: string, guildRoles: seq<Role>): (names: seq<string>)
    ensures |names| <= |guildRoles|
    decreases |guildRoles|
  {
    if guildRoles == [] then []
    else (if guildRoles[0].id == id then [guildRoles[0].name] else []) + NamesOf(id, guildRoles[1..])
  }

  /** The role join of `getMemberRoles`: for each member role in order, every guild role
      with that id, in guild order. */
  function JoinRoles(memberRoles: seq<string>, guildRoles: seq<Role>): (names: seq<string>)
    ensures |names| <= |memberRoles| * |guildRoles|
    decreases |memberRoles|
  {
    if memberRoles == [] then []
    else
      assert |memberRoles| * |guildRoles| == |guildRoles| + (|memberRoles| - 1) * |guildRoles|;
      NamesOf(memberRoles[0], guildRoles) + JoinRoles(memberRoles[1..], guildRoles)
  }

  lemma {:induction false} NamesOfIff(id: string, guildRoles: seq<Role>, n: string)
    ensures n in NamesOf(id, guildRoles) <==> exists j | 0 <= j < |guildRoles| :: guildRoles[j].id == id && guildRoles[j].name == n
    decreases |guildRoles|
  {
    if guildRoles != [] {
      NamesOfIff(id, guildRoles[1..], n);
      if exists j | 1 <= j < |guildRoles| :: guildRoles[j].id == id && guildRoles[j].name == n {
        var j :| 1 <= j < |guildRoles| && guildRoles[j].id == id && guildRoles[j].name == n;
        assert guildRoles[1..][j - 1] == guildRoles[j];
      }
    }
  }

  /** A name is in the join exactly when some member role id equals the id of a guild role
      of that name. */
  lemma {:induction false} JoinRolesIff(memberRoles: seq<string>, guildRoles: seq<Role>, n: string)
    ensures n in JoinRoles(memberRoles, guildRoles) <==>
      exists i, j | 0 <= i < |memberRoles| && 0 <= j < |guildRoles| ::
        memberRoles[i] == guildRoles[j].id && guildRoles[j].name == n
    decreases |memberRoles|
  {
    if memberRoles != [] {
      NamesOfIff(memberRoles[0], guildRoles, n);
      JoinRolesIff(memberRoles[1..], guildRoles, n);
      if exists i, j | 1 <= i < |memberRoles| && 0 <= j < |guildRoles| ::
          memberRoles[i] == guildRoles[j].id && guildRoles[j].name == n {
        var i, j :| 1 <= i < |memberRoles| && 0 <= j < |guildRoles| && memberRoles[i] == guildRoles[j].id && guildRoles[j].name == n;
        assert memberRoles[1..][i - 1] == memberRoles[i];
      }
    }
  }

  lemma NamesOfStep(id: string, guildRoles: seq<Role>, j: nat)
    requires j < |guildRoles|
    ensures NamesOf(id, guildRoles[j..]) ==
      (if guildRoles[j].id == id then [guildRoles[j].name] else []) + NamesOf(id, guildRoles[j + 1..])
  {
    assert guildRoles[j..][1..] == guildRoles[j + 1..];
  }

  /** The inner loop of `getMemberRoles`: the guild roles matching one member role. */
  method NamesOfLoop(id: string, guildRoles: seq<Role>) returns (found: seq<string>)
    ensures found == NamesOf(id, guildRoles)
  {
    found := [];
    var j := 0;
    assert guildRoles[0..] == guildRoles;
    while j < |guildRoles|
      invariant 0 <= j <= |guildRoles|
      invariant found + NamesOf(id, guildRoles[j..]) == NamesOf(id, guildRoles)
    {
      NamesOfStep(id, guildRoles, j);
      var step := if guildRoles[j].id == id then [guildRoles[j].name] else [];
      assert found + NamesOf(id, guildRoles[j..]) == (found + step) + NamesOf(id, guildRoles[j + 1..]);
      found := found + step;
      j := j + 1;
    }
    assert found + [] == found;
  }

  /** The two nested loops of `getMemberRoles`, appending as they go. */
  method JoinRolesLoop(memberRoles: seq<string>, guildRoles: seq<Role>) returns (names: seq<string>)
    ensures names == JoinRoles(memberRoles, guildRoles)
  {
    names := [];
    var i := 0;
    while i < |memberRoles|
      invariant 0 <= i <= |memberRoles|
      invariant names + JoinRoles(memberRoles[i..], guildRoles) == JoinRoles(memberRoles, guildRoles)
    {
      var found := NamesOfLoop(memberRoles[i], guildRoles);
      assert memberRoles[i..][1..] == memberRoles[i + 1..];
      assert names + JoinRoles(memberRoles[i..], guildRoles) == (names + found) + JoinRoles(memberRoles[i + 1..], guildRoles);
      names := names + found;
      i := i + 1;
    }
    assert names + [] == names;
  }

  /** `getMemberRoles`: a failed member or guild lookup gives no roles and the error. */
  function MemberRoles(member: Returned<seq<string>>, guild: Returned<seq<Role>>): (r: Returned<seq<string>>)
    ensures member.err.Some? ==> r == Returned([], member.err)
    ensures member.err.None? && guild.err.Some? ==> r == Returned([], guild.err)
    ensures r.err.None? ==> forall n :: n in r.value <==>
      exists i, j | 0 <= i < |member.value| && 0 <= j < |guild.value| ::
        member.value[i] == guild.value[j].id && guild.value[j].name == n
  {
    if member.err.Some? then Returned([], member.err)
    else if guild.err.Some? then Returned([], guild.err)
    else
      var names := JoinRoles(member.value, guild.value);
      assert forall n :: n in names <==>
        exists i, j | 0 <= i < |member.value| && 0 <= j < |guild.value| ::
          member.value[i] == guild.value[j].id && guild.value[j].name == n by {
        forall n ensures n in names <==>
          exists i, j | 0 <= i < |member.value| && 0 <= j < |guild.value| ::
            member.value[i] == guild.value[j].id && guild.value[j].name == n {
          JoinRolesIff(member.value, guild.value, n);
        }
      }
      Ok(names)
  }

  // ---------------------------------------------------------------- reactions

  datatype Reaction = Reaction(emoji: string, count: int)

  datatype Reference = Reference(messageId: string, channelId: string, guildId: string)

  datatype Reacted = Reacted(id: string, channelId: string, guildId: string,
                             reference: Option<Reference>, reactions: seq<Reaction>)

  /** What is sent: a plain message to a channel, or a reply to a message. */
  datatype Sent = ToChannel(channel: string, text: string) | AsReply(to: Reference, text: string)

  /** `MessageReact` for a reaction by `userId` with emoji `emoji` in `channel`; `fetched` is
      the looked-up message and `language` the text `languageResponse` gives. */
  function MessageReact(userId: string, botId: string, channel: string, emoji: string,
                        fetched: Returned<Reacted>, language: string): (sent: seq<Sent>)
    ensures userId == botId ==> sent == []
    ensures userId != botId && fetched.err.Some? ==>
      sent == [ToChannel(channel, "Failed to get message details for reaction")]
    ensures emoji != "language" && fetched.err.None? ==> sent == []
  {
    if userId == botId then []
    else if fetched.err.Some? then [ToChannel(channel, "Failed to get message details for reaction")]
    else
      var message := fetched.value;
      var target := message.reference.GetOr(Reference(message.id, message.channelId, message.guildId));
      if emoji != "language" then []
      else if AlreadyAnswered(message.reactions) then []
      else [AsReply(target, language)]
  }

  /** Some "language" reaction on the message is counted more than once. */
  function AlreadyAnswered(reactions: seq<Reaction>): (b: bool)
    decreases |reactions|
  {
    if reactions == [] then false
    else if reactions[0].emoji == "language" && reactions[0].count > 1 then true
    else AlreadyAnswered(reactions[1..])
  }

  lemma {:induction false} AlreadyAnsweredIff(reactions: seq<Reaction>)
    ensures AlreadyAnswered(reactions) <==>
      exists i | 0 <= i < |reactions| :: reactions[i].emoji == "language" && reactions[i].count > 1
    decreases |reactions|
  {
    if reactions != [] {
      AlreadyAnsweredIff(reactions[1..]);
      if exists i | 1 <= i < |reactions| :: reactions[i].emoji == "language" && reactions[i].count > 1 {
        var i :| 1 <= i < |reactions| && reactions[i].emoji == "language" && reactions[i].count > 1;
        assert reactions[1..][i - 1] == reactions[i];
      }
    }
  }

  /** A "language" reaction is answered once, as a reply to the message (or to what it
      already refers to), unless a "language" reaction is already counted more than once. */
  lemma LanguageAnsweredOnce(userId: string, botId: string, channel: string, fetched: Returned<Reacted>, language: string)
    requires userId != botId && fetched.err.None?
    ensures var m := fetched.value;
      var sent := MessageReact(userId, botId, channel, "language", fetched, language);
      && (sent == [] <==> exists i | 0 <= i < |m.reactions| :: m.reactions[i].emoji == "language" && m.reactions[i].count > 1)
      && (sent != [] ==> sent == [AsReply(m.reference.GetOr(Reference(m.id, m.channelId, m.guildId)), language)])
  {
    AlreadyAnsweredIff(fetched.value.reactions);
  }
}
