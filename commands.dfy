/**
 * The whispered-command handler and the module-level state it changes: the run
 * flag, the deposit and refill chests, the two bound corners and the
 * whitelist.
 */
module Commands {
  import opened Wrappers
  import opened Text
  import opened Bounds

  // ---------------------------------------------------------------------------
  // Reading a command
  // ---------------------------------------------------------------------------

  /** `message.trim().split(/ +/)`. */
  function Tokens(message: string): (ts: seq<string>)
    ensures |ts| >= 1
  {
    Split(Trim(message))
  }

  /** `args.shift().toLowerCase()`: the first token, lower-cased. */
  function CommandWord(message: string): string {
    Lower(Tokens(message)[0])
  }

  /** `args[0]` after the shift, when it is a non-empty string; arguments keep their case. */
  function Argument(message: string): Option<string> {
    var ts := Tokens(message);
    if |ts| >= 2 && ts[1] != "" then Some(ts[1]) else None
  }

  /** Since the message is trimmed first, the argument test only asks whether a second token exists. */
  lemma ArgumentIsSecondToken(message: string)
    ensures Argument(message) == if |Tokens(message)| >= 2 then Some(Tokens(message)[1]) else None
  {
    var t := Trim(message);
    if t != [] {
      SplitTrimmedWords(t);
    }
  }

  /** A non-empty string without whitespace: one word of a command line. */
  predicate IsCleanWord(t: string) {
    t != [] && forall k :: 0 <= k < |t| ==> !IsWhitespace(t[k])
  }

  /** A clean word has no space in it, since a space is whitespace. */
  lemma CleanIsWord(t: string)
    requires IsCleanWord(t)
    ensures IsWord(t)
  {
  }

  /**
   * A message made of clean words separated by runs of spaces, with any
   * whitespace before and after, tokenises into exactly those words.
   */
  lemma TokensOfLine(pre: string, ws: seq<string>, gaps: seq<nat>, post: string)
    requires AllWhitespace(pre) && AllWhitespace(post)
    requires |ws| >= 1 && |gaps| == |ws| - 1
    requires forall i :: 0 <= i < |ws| ==> IsCleanWord(ws[i])
    requires forall i :: 0 <= i < |gaps| ==> gaps[i] >= 1
    ensures Tokens(pre + JoinRuns(ws, gaps) + post) == ws
  {
    var j := JoinRuns(ws, gaps);
    JoinRunsEnds(ws, gaps);
    var last := ws[|ws| - 1];
    assert IsCleanWord(ws[0]) && IsCleanWord(last);
    assert !IsWhitespace(ws[0][0]) && !IsWhitespace(last[|last| - 1]);
    assert IsTrimmed(j);
    TrimPadded(pre, j, post);
    forall i | 0 <= i < |ws| ensures IsWord(ws[i]) {
      CleanIsWord(ws[i]);
    }
    SplitJoinRuns(ws, gaps);
  }

  /**
   * Such a message reads as its lower-cased first word, with the second word,
   * case kept, as the argument, however many spaces separate them.
   */
  lemma ParseCommandLine(pre: string, ws: seq<string>, gaps: seq<nat>, post: string)
    requires AllWhitespace(pre) && AllWhitespace(post)
    requires |ws| >= 1 && |gaps| == |ws| - 1
    requires forall i :: 0 <= i < |ws| ==> IsCleanWord(ws[i])
    requires forall i :: 0 <= i < |gaps| ==> gaps[i] >= 1
    ensures CommandWord(pre + JoinRuns(ws, gaps) + post) == Lower(ws[0])
    ensures Argument(pre + JoinRuns(ws, gaps) + post) == if |ws| >= 2 then Some(ws[1]) else None
  {
    TokensOfLine(pre, ws, gaps, post);
  }

  /** The command words the `switch` knows, and everything else. */
  datatype Command =
    | Start | Stop
    | SetDeposit | SetRefill | SetBound1 | SetBound2
    | AddWhitelist | RemoveWhitelist | ListWhitelist
    | Status | Help
    | Unknown

  /** The `case` label of each known command. */
  function CommandName(c: Command): string
    requires !c.Unknown?
  {
    match c
    case Start => "start"
    case Stop => "stop"
    case SetDeposit => "setdeposit"
    case SetRefill => "setrefill"
    case SetBound1 => "setbound1"
    case SetBound2 => "setbound2"
    case AddWhitelist => "addwhitelist"
    case RemoveWhitelist => "removewhitelist"
    case ListWhitelist => "whitelist"
    case Status => "status"
    case Help => "help"
  }

  /** The `switch (cmd)`: the command whose label is `word`, or `Unknown` (the `default` case). */
  function ParseCommand(word: string): (c: Command)
    ensures !c.Unknown? ==> CommandName(c) == word
  {
    if word == "start" then Start
    else if word == "stop" then Stop
    else if word == "setdeposit" then SetDeposit
    else if word == "setrefill" then SetRefill
    else if word == "setbound1" then SetBound1
    else if word == "setbound2" then SetBound2
    else if word == "addwhitelist" then AddWhitelist
    else if word == "removewhitelist" then RemoveWhitelist
    else if word == "whitelist" then ListWhitelist
    else if word == "status" then Status
    else if word == "help" then Help
    else Unknown
  }

  /** Every command is reached by its own label, so the labels are all distinct. */
  lemma ParseCommandName(c: Command)
    requires !c.Unknown?
    ensures ParseCommand(CommandName(c)) == c
  {
  }

  /** The command a whispered message asks for. */
  function CommandOf(message: string): Command {
    ParseCommand(CommandWord(message))
  }

  /** The commands that need the sender's position. */
  predicate NeedsPosition(c: Command) {
    c.SetDeposit? || c.SetRefill? || c.SetBound1? || c.SetBound2?
  }

  // ---------------------------------------------------------------------------
  // The whitelist
  // ---------------------------------------------------------------------------

  /** `whitelist.filter(p => p !== name)`: every occurrence of `name` removed, the rest in order. */
  function RemoveAll(whitelist: seq<string>, name: string): (r: seq<string>)
    ensures forall x :: x in r <==> x in whitelist && x != name
    decreases |whitelist|
  {
    if |whitelist| == 0 then []
    else (if whitelist[0] == name then [] else [whitelist[0]]) + RemoveAll(whitelist[1..], name)
  }

  /** Every other name keeps its number of copies, and `name` has none left. */
  lemma {:induction false} RemoveAllCounts(whitelist: seq<string>, name: string)
    ensures multiset(RemoveAll(whitelist, name)) == multiset(whitelist)[name := 0]
    decreases |whitelist|
  {
    if |whitelist| > 0 {
      RemoveAllCounts(whitelist[1..], name);
      assert whitelist == [whitelist[0]] + whitelist[1..];
    }
  }

  /** Removing a name that is not listed changes nothing. */
  lemma {:induction false} RemoveAbsent(whitelist: seq<string>, name: string)
    requires name !in whitelist
    ensures RemoveAll(whitelist, name) == whitelist
    decreases |whitelist|
  {
    if |whitelist| > 0 {
      RemoveAbsent(whitelist[1..], name);
      assert [whitelist[0]] + whitelist[1..] == whitelist;
    }
  }

  /** `filter` keeps the order: removing from a list in two parts removes from each part in turn. */
  lemma {:induction false} RemoveAllAppend(a: seq<string>, b: seq<string>, name: string)
    ensures RemoveAll(a + b, name) == RemoveAll(a, name) + RemoveAll(b, name)
    decreases |a|
  {
    if |a| == 0 {
      assert a + b == b;
    } else {
      var ab := a + b;
      var h: seq<string> := if a[0] == name then [] else [a[0]];
      assert ab[0] == a[0];
      assert ab[1..] == a[1..] + b;
      RemoveAllAppend(a[1..], b, name);
      var ra, rb := RemoveAll(a[1..], name), RemoveAll(b, name);
      calc {
        RemoveAll(ab, name);
        h + RemoveAll(ab[1..], name);
        h + (ra + rb);
        (h + ra) + rb;
        RemoveAll(a, name) + rb;
      }
    }
  }

  /** One entry is dropped exactly when it is the name removed. */
  lemma RemoveAllSingle(x: string, name: string)
    ensures RemoveAll([x], name) == if x == name then [] else [x]
  {
    assert [x][1..] == [];
  }

  /**
   * `whitelist.join(', ') || 'None'`: `None` for an empty whitelist (or one
   * holding only the empty name), otherwise the names in order, comma-separated.
   */
  function ListText(whitelist: seq<string>): (s: string)
    ensures s == if whitelist == [] || whitelist == [""] then "None" else Join(whitelist, ", ")
  {
    JoinEmpty(whitelist);
    var j := Join(whitelist, ", ");
    if j == "" then "None" else j
  }

  /** The joined list is empty exactly for an empty whitelist or one holding only the empty name. */
  lemma JoinEmpty(whitelist: seq<string>)
    ensures Join(whitelist, ", ") == "" <==> whitelist == [] || whitelist == [""]
  {
    if |whitelist| >= 2 {
      assert |Join(whitelist, ", ")| >= 2;
    }
  }

  const NotWhitelisted := "You are not whitelisted."
  const NoPosition := "Cannot detect your position."
  const HelpText := "Commands: start, stop, setDeposit, setRefill, setBound1, setBound2, addWhitelist <name>, removeWhitelist <name>, whitelist, status"
  const UnknownCommand := "Unknown command. Use /msg <botname> help"

  // ---------------------------------------------------------------------------
  // The handler
  // ---------------------------------------------------------------------------

  /** A snapshot of the state the handler changes. */
  datatype RunState = RunState(
    running: bool,
    depositChest: Option<Pos>,
    refillChest: Option<Pos>,
    whitelist: seq<string>,
    bound1: Option<Pos>,
    bound2: Option<Pos>)

  class Controller {
    /** `bot.username`. */
    const botName: string
    var running: bool
    var depositChest: Option<Pos>
    var refillChest: Option<Pos>
    var whitelist: seq<string>
    var bound1: Option<Pos>
    var bound2: Option<Pos>

    function State(): RunState
      reads this
    {
      RunState(running, depositChest, refillChest, whitelist, bound1, bound2)
    }

    /** The start-up state; the whitelist is `config.whitelist || []`. */
    constructor (botName: string, configWhitelist: Option<seq<string>>)
      ensures this.botName == botName
      ensures State() == RunState(false, None, None, configWhitelist.GetOr([]), None, None)
    {
      this.botName := botName;
      running := false;
      depositChest, refillChest := None, None;
      whitelist := configWhitelist.GetOr([]);
      bound1, bound2 := None, None;
    }

    /**
     * The handler gets past its three guards: the sender is not the bot
     * itself, is whitelisted, and is not asking for a position-dependent
     * command without a known position.
     */
    predicate Accepts(sender: string, message: string, senderPos: Option<Vec3>)
      reads this
    {
      && sender != botName
      && sender in whitelist
      && !(NeedsPosition(CommandOf(message)) && senderPos.None?)
    }

    /**
     * The `whisper` handler. `reply` is the private message sent back, if any;
     * `launch` says whether `mainLoop()` is called, which `start` does every
     * time, whether or not a loop is already running.
     */
    method HandleWhisper(sender: string, message: string, senderPos: Option<Vec3>)
      returns (reply: Option<string>, launch: bool)
      modifies this
      ensures sender == botName ==> reply == None
      ensures sender != botName && sender !in old(whitelist) ==> reply == Some(NotWhitelisted)
      ensures (sender != botName && sender in old(whitelist) && NeedsPosition(CommandOf(message))
               && senderPos.None?) ==> reply == Some(NoPosition)
      ensures !old(Accepts(sender, message, senderPos)) ==> State() == old(State()) && !launch
      ensures old(Accepts(sender, message, senderPos)) ==>
                Effect(CommandOf(message), Argument(message), senderPos, old(State()), State(), reply, launch)
    {
      if sender == botName {
        return None, false;
      }
      if sender !in whitelist {
        return Some(NotWhitelisted), false;
      }
      var cmd := CommandOf(message);
      if NeedsPosition(cmd) && senderPos.None? {
        return Some(NoPosition), false;
      }
      reply, launch := Execute(cmd, Argument(message), senderPos);
    }

    /** The `switch` over the command of an accepted message. */
    method Execute(cmd: Command, arg: Option<string>, senderPos: Option<Vec3>)
      returns (reply: Option<string>, launch: bool)
      requires NeedsPosition(cmd) ==> senderPos.Some?
      modifies this
      ensures Effect(cmd, arg, senderPos, old(State()), State(), reply, launch)
    {
      launch := false;
      match cmd
      case Start =>
        running := true;
        reply, launch := Some("Trading bot started."), true;
      case Stop =>
        running := false;
        reply := Some("Trading bot stopped.");
      case SetDeposit =>
        depositChest := Some(Floored(senderPos.value));
        reply := Some("Deposit chest set to " + PosText(depositChest.value));
      case SetRefill =>
        refillChest := Some(Floored(senderPos.value));
        reply := Some("Refill chest set to " + PosText(refillChest.value));
      case SetBound1 =>
        bound1 := Some(Floored(senderPos.value));
        reply := Some("Bound 1 set to " + PosText(bound1.value));
      case SetBound2 =>
        bound2 := Some(Floored(senderPos.value));
        reply := Some("Bound 2 set to " + PosText(bound2.value));
      case AddWhitelist =>
        reply := None;
        if arg.Some? {
          whitelist := whitelist + [arg.value];
          reply := Some(arg.value + " added to whitelist.");
        }
      case RemoveWhitelist =>
        reply := None;
        if arg.Some? {
          whitelist := RemoveAll(whitelist, arg.value);
          reply := Some(arg.value + " removed from whitelist.");
        }
      case ListWhitelist =>
        reply := Some("Whitelist: " + ListText(whitelist));
      case Status =>
        reply := Some(if running then "Bot is trading." else "Bot is idle.");
      case Help =>
        reply := Some(HelpText);
      case Unknown =>
        reply := Some(UnknownCommand);
    }
  }

  /**
   * What an accepted command does: `s` is the state before, `t` after. Each
   * `set` command overwrites its own field with the sender's block position;
   * `start` and `stop` set the run flag and only `start` launches the loop;
   * `addwhitelist` appends without removing duplicates and `removewhitelist`
   * drops every occurrence, both only with an argument; every other field, and
   * every field under `whitelist`, `status`, `help` and unknown commands,
   * stays as it was.
   */
  ghost predicate Effect(cmd: Command, arg: Option<string>, senderPos: Option<Vec3>,
                         s: RunState, t: RunState, reply: Option<string>, launch: bool)
    requires NeedsPosition(cmd) ==> senderPos.Some?
  {
    && launch == cmd.Start?
    && t.running == (if cmd.Start? then true else if cmd.Stop? then false else s.running)
    && t.depositChest == (if cmd.SetDeposit? then Some(Floored(senderPos.value)) else s.depositChest)
    && t.refillChest == (if cmd.SetRefill? then Some(Floored(senderPos.value)) else s.refillChest)
    && t.bound1 == (if cmd.SetBound1? then Some(Floored(senderPos.value)) else s.bound1)
    && t.bound2 == (if cmd.SetBound2? then Some(Floored(senderPos.value)) else s.bound2)
    && t.whitelist == (if cmd.AddWhitelist? && arg.Some? then s.whitelist + [arg.value]
                       else if cmd.RemoveWhitelist? && arg.Some? then RemoveAll(s.whitelist, arg.value)
                       else s.whitelist)
    && reply == match cmd
                case Start => Some("Trading bot started.")
                case Stop => Some("Trading bot stopped.")
                case SetDeposit => Some("Deposit chest set to " + PosText(Floored(senderPos.value)))
                case SetRefill => Some("Refill chest set to " + PosText(Floored(senderPos.value)))
                case SetBound1 => Some("Bound 1 set to " + PosText(Floored(senderPos.value)))
                case SetBound2 => Some("Bound 2 set to " + PosText(Floored(senderPos.value)))
                case AddWhitelist => if arg.Some? then Some(arg.value + " added to whitelist.") else None
                case RemoveWhitelist => if arg.Some? then Some(arg.value + " removed from whitelist.") else None
                case ListWhitelist => Some("Whitelist: " + ListText(s.whitelist))
                case Status => Some(if s.running then "Bot is trading." else "Bot is idle.")
                case Help => Some(HelpText)
                case Unknown => Some(UnknownCommand)
  }

  /** A message that is one clean word asks for the command named by that word lower-cased. */
  lemma BareWord(w: string)
    requires IsCleanWord(w)
    ensures CommandOf(w) == ParseCommand(Lower(w))
  {
    ParseCommandLine("", [w], [], "");
    assert "" + JoinRuns([w], []) + "" == w;
  }

  /** The bare word `start` reads as the `start` command. */
  lemma StartWord()
    ensures CommandOf("start") == Start
  {
    var w := "start";
    assert IsCleanWord(w);
    BareWord(w);
    assert Lower(w) == w;
  }

  /** The bare word `stop` reads as the `stop` command. */
  lemma StopWord()
    ensures CommandOf("stop") == Stop
  {
    var w := "stop";
    assert IsCleanWord(w);
    BareWord(w);
    assert Lower(w) == w;
  }

  /** Two words separated by `n` spaces. */
  lemma TwoWords(a: string, n: nat, b: string)
    requires IsCleanWord(a) && IsCleanWord(b) && n >= 1
    ensures CommandWord(a + Spaces(n) + b) == Lower(a)
    ensures Argument(a + Spaces(n) + b) == Some(b)
  {
    ParseCommandLine("", [a, b], [n], "");
    assert "" + JoinRuns([a, b], [n]) + "" == a + Spaces(n) + b;
  }

  lemma AddWhitelistWord()
    ensures IsCleanWord("addWhitelist") && Lower("addWhitelist") == "addwhitelist"
  {
    var w := "addWhitelist";
    assert IsCleanWord(w);
    assert Lower(w) == "addwhitelist";
  }

  /** `addWhitelist  Bob`, with two spaces, adds `Bob`: the word is lower-cased, the name keeps its case. */
  lemma AddWhitelistDoubleSpace()
    ensures CommandOf("addWhitelist  Bob") == AddWhitelist
    ensures Argument("addWhitelist  Bob") == Some("Bob")
  {
    var w, name := "addWhitelist", "Bob";
    AddWhitelistWord();
    assert IsCleanWord(name);
    TwoWords(w, 2, name);
    assert w + Spaces(2) + name == "addWhitelist  Bob";
  }

  /**
   * `start` is not idempotent: it launches the loop whether or not the flag
   * was already on, and changes nothing but the flag.
   */
  lemma StartAlwaysLaunches(arg: Option<string>, senderPos: Option<Vec3>,
                            s: RunState, t: RunState, reply: Option<string>, launch: bool)
    requires Effect(Start, arg, senderPos, s, t, reply, launch)
    ensures launch && t == s.(running := true)
    ensures reply == Some("Trading bot started.")
  {
  }

  /** `stop` only turns the flag off; it launches nothing and keeps every chest, bound and name. */
  lemma StopOnlyClearsFlag(arg: Option<string>, senderPos: Option<Vec3>,
                           s: RunState, t: RunState, reply: Option<string>, launch: bool)
    requires Effect(Stop, arg, senderPos, s, t, reply, launch)
    ensures !launch && t == s.(running := false)
  {
  }

  /**
   * The commands `start`, `start`, `stop` in a row: both starts launch a loop
   * (`first`, `second`), the stop does not (`third`), the flag ends off, and
   * nothing else changes.
   */
  method StartTwiceLaunchesTwice(c: Controller) returns (first: bool, second: bool, third: bool)
    modifies c
    ensures first && second && !third
    ensures !c.running && c.State() == old(c.State()).(running := false)
  {
    var r1, r2, r3;
    r1, first := c.Execute(Start, None, None);
    r2, second := c.Execute(Start, None, None);
    r3, third := c.Execute(Stop, None, None);
  }
}
