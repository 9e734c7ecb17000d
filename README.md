# Villager trading bot: a verified model of its decision logic

`bot.js` drives a Minecraft account that trades emeralds with villagers for
glass and experience bottles. This project models the decision logic of its
trading core:

- the whispered-command handler and the module-level state it changes (the run
  flag, deposit and refill chests, the two bound corners, the whitelist);
- the bounds filter `withinBounds`;
- the villager filter `getNearbyVillagers` and one scan pass of `mainLoop`;
- the offer-selection loop of `tradeWithVillager`;
- the deposit loop of `depositItems` and the withdrawal rule of
  `refillEmeralds`.

The Minecraft world is replaced by plain data:

- an inventory or a chest is a sequence of `(name, count)` stacks;
- a villager offer is `(disabled, inputCount?, outputName?)`;
- an entity is its type, display name, name and position;
- what the game decides is an input: whether each trade or deposit succeeds,
  whether a chest opens, and what the background loop observes of the shared
  state at each villager.

Modules:

| module | file | contents |
|---|---|---|
| `Wrappers` | wrappers.dfy | `Option` |
| `Text` | text.dfy | the JavaScript string built-ins the core relies on: `includes`, `trim`, `split(/ +/)`, `join`, `toLowerCase`, integer rendering |
| `Bounds` | bounds.dfy | positions, `floored()`, `withinBounds` |
| `Items` | items.dfy | stacks, `inventory.count`, the glass / experience-bottle matcher |
| `Trading` | trading.dfy | the trade loop and `tradeWithVillager` |
| `Containers` | containers.dfy | `depositItems`, `refillEmeralds` |
| `Villagers` | villagers.dfy | `getNearbyVillagers`, the scan pass of `mainLoop` |
| `Commands` | commands.dfy | command parsing and the `Controller` class holding the bot's state |

The handler is the method `Commands.Controller.HandleWhisper`. It applies the
three guards in the source's order, then hands the parsed command to
`Commands.Controller.Execute`, the `switch`. There the command word is a
closed datatype `Command`. `Commands.Effect` states what each command does to
the whole state and what it replies.

The trade loop is the method `Trading.TradeLoop`. It is proved to produce a
run satisfying `Trading.IsTradeRun`, the step-by-step description of what the
loop must do with each offer. `Trading.TradeRunUnique` shows that description
admits only one run per input, and `Trading.TradeRunFacts` reads the promised
properties off it.

## Behaviour worth noting

- The item matcher is fixed to `glass` and `experience_bottle` and is
  case-sensitive (`includes`).
- `start` calls `mainLoop()` every time, so it is not idempotent: a second
  `start` launches a second loop (`Commands.StartAlwaysLaunches`).
- `addwhitelist` appends without removing duplicates, and `removewhitelist`
  removes every copy.
- An empty offer list closes the window without depositing.
- The affordability test comes before the output-name test, so an
  unaffordable offer ends the loop even when its output is not wanted.
- `refillEmeralds` is never called from anywhere in `bot.js`. It is modelled
  on its own.
- Only the command word is lower-cased. The argument keeps its case.
- Commands are split at runs of spaces (`/ +/`), so extra spaces between
  words do not change what a message means (`Commands.ParseCommandLine`).

## Model

| member | source | states |
|---|---|---|
| `Text.Contains` | bot.js:257 | `includes` on strings, case-sensitive; `Text.ContainsIffOccurs` states its meaning |
| `Text.Join` | bot.js:112 | `join`: the items with the separator between neighbours; `Commands.JoinEmpty`, `Commands.ListText` and `Text.JoinSplit` state its properties |
| `Text.ContainsIffOccurs` | bot.js:257 | `includes` holds exactly when the keyword occurs at some index of the string |
| `Text.Trim` | bot.js:64 | `trim()` returns a slice of the input surrounded only by whitespace, neither end of it whitespace, and leaves a trimmed string unchanged |
| `Text.TrimIdempotent` | bot.js:64 | trimming twice is trimming once |
| `Text.Split` | bot.js:64 | `split(/ +/)` yields at least one token, none containing a space |
| `Text.SplitSpaceRun` | bot.js:64 | a run of one or more spaces after a word separates like a single space: the word is a token and splitting resumes after the run |
| `Text.SplitJoinRuns` | bot.js:64 | words separated by runs of spaces of any lengths split back into exactly those words |
| `Text.TrimPadded` | bot.js:64 | whatever whitespace surrounds a string whose ends are not whitespace, `trim()` returns that string |
| `Text.SplitAfterSpace` | bot.js:64 | a single leading space makes `split(/ +/)` return an empty first token before the tokens of the rest |
| `Text.JoinSplit` | bot.js:64 | a single-spaced string is rebuilt by joining its tokens with a space |
| `Text.SplitTrimmedWords` | bot.js:64 | every token of a trimmed, non-empty message is a non-empty word |
| `Text.Lower` | bot.js:65 | `toLowerCase()` keeps the length, maps each upper-case letter to its lower-case form and leaves every other character alone |
| `Text.LowerIdempotent` | bot.js:65 | lower-casing twice is lower-casing once |
| `Text.IntToString` | bot.js:85-97 | how a whole-block coordinate is printed in a reply; `Text.ParseIntToString` and `Bounds.CoordinateText` state that it reads back and contains no comma |
| `Text.ParseNatToString` | bot.js:85-97 | the decimal rendering of a coordinate reads back as the same number |
| `Text.NatToString` | bot.js:85-97 | a non-negative coordinate renders as decimal digits with no leading zero |
| `Text.ParseIntToString` | bot.js:85-97 | any coordinate renders as digits, after a minus sign when negative, and reads back as the same number |
| `Bounds.Floored` | bot.js:84-96 | `floored()` gives the block whose unit cube holds the position on every axis |
| `Bounds.FlooredAsVec3` | bot.js:84-96 | flooring a whole-block position returns that block |
| `Bounds.WithinBounds` | bot.js:190-201 | the bounds filter; `Bounds.UnsetAllowsAll`, `Bounds.WithinBoundsIsBox`, `Bounds.CornersCommute` and `Bounds.CornersInside` state its meaning |
| `Bounds.UnsetAllowsAll` | bot.js:191 | with either corner unset every position passes |
| `Bounds.CornersCommute` | bot.js:190-201 | swapping the two corners does not change the result |
| `Bounds.WithinBoundsIsBox` | bot.js:192-200 | with both corners set, the filter is closed-interval containment between the corners on x, y and z, in both directions |
| `Bounds.CornersInside` | bot.js:190-201 | both corners are inside the box they span |
| `Bounds.PosText` | bot.js:85-97 | the `${pos}` rendering is parenthesised |
| `Bounds.CoordinateText` | bot.js:85-97 | a rendered coordinate contains no comma and reads back as itself |
| `Bounds.ParsePosText` | bot.js:85-97 | the `(x, y, z)` reply text of a block position reads back as exactly that position |
| `Bounds.PosTextInjective` | bot.js:85-97 | two different block positions are never reported with the same text |
| `Items.CountOf` | bot.js:250 | `inventory.count`: the total over stacks with that name, zero when no such stack holds anything; `Items.CountOfAppend` states it is additive |
| `Items.Wanted` | bot.js:257 | the item-name test shared by trading and depositing; `Items.WantedIffOccurs` and the three examples state its meaning |
| `Items.CountOfAppend` | bot.js:250 | the count of an item over two lists of stacks is the sum of the two counts |
| `Items.WantedIffOccurs` | bot.js:257 | an item is wanted exactly when `glass` or `experience_bottle` occurs in its name |
| `Items.WantedGlass` | bot.js:257 | `glass_pane`, `red_stained_glass` and `experience_bottle` are wanted |
| `Items.NotWantedEmeraldBlock` | bot.js:257 | `emerald_block` is not wanted |
| `Items.NotWantedUpperCase` | bot.js:257 | the match is case-sensitive: `GLASS` is not wanted |
| `Trading.Cost` | bot.js:251 | `trade.inputItem1?.count`, or 0 without a first input, the emeralds an offer needs; used by `Trading.StepFor` |
| `Trading.Sell` | bot.js:256 | `trade.outputItem?.name`, or the empty name without an output, the name the wanted test reads; used by `Trading.StepFor` |
| `Trading.StepFor` | bot.js:247-257 | one iteration's choice: skip a disabled offer, stop when it costs more than is held, pass over an unwanted output, else trade; `Trading.TradeRunFacts` states the consequences |
| `Trading.Spent` | bot.js:250 | the emeralds spent by the successful trades so far; `Trading.SpentPrefix` and `Trading.SpentWithinBalance` state its properties |
| `Trading.BalanceAt` | bot.js:250 | the emerald count the loop reads before offer `j`; `Trading.BalanceExtend` states that later steps do not change it |
| `Trading.IsTradeRun` | bot.js:245-267 | a run of the loop, step by step; `Trading.TradeLoop` produces one and `Trading.TradeRunUnique` states there is only one |
| `Trading.SpentPrefix` | bot.js:250 | one more step adds the offer's cost to the emeralds spent exactly when it is a successful trade |
| `Trading.BalanceExtend` | bot.js:250 | recording one more step leaves the balance seen at every earlier offer unchanged |
| `Trading.TradeLoop` | bot.js:245-267 | the loop's record is a valid run over the offers and the emeralds left are the start less what successful trades spent |
| `Trading.TradeRunUnique` | bot.js:245-267 | two runs over the same offers, outcomes and starting emeralds are equal |
| `Trading.SpentWithinBalance` | bot.js:250-254 | at no point do the trades spend more emeralds than the bot started with |
| `Trading.TradeRunFacts` | bot.js:245-266 | an offer is traded exactly when it is enabled, affordable at that point and wanted; a traded offer's result is its outcome; the run ends at the first enabled unaffordable offer; a failed trade is followed by the next offer |
| `Trading.TradeWithVillager` | bot.js:226-275 | no window gives no session; an empty offer list gives no trades and no deposit; otherwise a valid run is recorded and the deposit follows exactly when a deposit chest is set |
| `Trading.ShortCircuitExample` | bot.js:250-254 | with 10 emeralds and offers costing 5, 20 and 1, the first is traded and the loop stops at the second, so the third is never reached |
| `Trading.SingleTradeExample` | bot.js:245-267 | a single affordable bottle offer is traded once and leaves 5 of 10 emeralds |
| `Containers.Moves` | bot.js:294-296 | a stack leaves the inventory when its name is wanted and its deposit succeeds; `Containers.KeptIsFilter` states the split it induces |
| `Containers.Kept` | bot.js:293-303 | every stack left in the inventory was in it before |
| `Containers.Moved` | bot.js:293-303 | every stack put in the chest came from the inventory and is wanted |
| `Containers.DepositItems` | bot.js:278-307 | an unavailable chest changes nothing; otherwise the inventory keeps exactly the stacks that did not move, the chest gains the moved stacks whole and in order, and "nothing deposited" is reported exactly when no deposit succeeded |
| `Containers.KeptMovedSplit` | bot.js:293-303 | for every item, the kept count and the moved count add up to the count before |
| `Containers.DepositConserves` | bot.js:296 | inventory plus chest holds the same count of every item before and after |
| `Containers.UnwantedUntouched` | bot.js:294 | the count of an item that is not wanted does not change |
| `Containers.KeptIsFilter` | bot.js:293-303 | a stack stays in the inventory exactly when it was there and did not move |
| `Containers.AllDepositedWhenAllSucceed` | bot.js:293-303 | when every deposit succeeds, no wanted item remains in the inventory |
| `Containers.FindNamed` | bot.js:336 | `find` gives the first stack named `emerald`, or none exactly when there is none |
| `Containers.Refill` | bot.js:315-346 | each outcome holds exactly in its case: no refill chest, chest unavailable, 16 or more held, no emerald stack; a withdrawal takes at most the stack, never brings the bot above 64, takes either the whole stack or exactly up to 64, and is positive when the stack is |
| `Containers.RefillStaysUnderCap` | bot.js:338 | after a withdrawal the inventory holds at most 64 emeralds |
| `Containers.RefillNotNeededExample` | bot.js:335-346 | holding 60 emeralds means nothing is withdrawn |
| `Containers.RefillExamples` | bot.js:338 | holding 10, it takes 54 of a stack of 100 and all of a stack of 20 |
| `Villagers.IsVillager` | bot.js:180-186 | the `filter` callback of `getNearbyVillagers`; `Villagers.IsVillagerSimplified` gives an equivalent form |
| `Villagers.IsVillagerSimplified` | bot.js:179-187 | an entity is a villager exactly when its type is `passive` or `villager`, it has a display name, and the name contains `Villager` or `name` is `villager` |
| `Villagers.NearbyVillagers` | bot.js:178-188 | the result holds only villagers, and each villager of the table as many times as the table does |
| `Villagers.NearbyVillagersAppend` | bot.js:179 | `filter` keeps table order: the villagers of two tables in a row are those of the first followed by those of the second |
| `Villagers.NearbyVillagersSingle` | bot.js:179-187 | a single entry is kept, as itself, exactly when it is a villager |
| `Villagers.StillRunning` | bot.js:146 | the run flag was on at every check so far; `Villagers.StopHaltsPass` states what a cleared flag does |
| `Villagers.Visits` | bot.js:145-151 | a villager is visited when it is reached while running and inside the bounds; `Villagers.ScanPass` lists exactly those |
| `Villagers.ScanPass` | bot.js:145-164 | villagers are visited in list order, exactly those reached while the flag was on and inside the bounds seen then |
| `Villagers.StopHaltsPass` | bot.js:146 | once the flag is seen off, no later villager is visited |
| `Commands.CommandWord` | bot.js:64-65 | the first token lower-cased; `Commands.ParseCommandLine`, `Commands.BareWord` and `Commands.TwoWords` state what it is for a given message |
| `Commands.Argument` | bot.js:64-100 | `args[0]` after the shift, when truthy; `Commands.ArgumentIsSecondToken` and `Commands.ParseCommandLine` state what it is |
| `Commands.CommandOf` | bot.js:64-73 | the command a message asks for; `Commands.StartWord`, `Commands.StopWord` and `Commands.AddWhitelistDoubleSpace` give instances |
| `Commands.NeedsPosition` | bot.js:68 | the four `set` commands need the sender's position; used by the guard in `Commands.Controller.HandleWhisper` |
| `Commands.Tokens` | bot.js:64 | a message always has at least a first token |
| `Commands.ArgumentIsSecondToken` | bot.js:64-100 | the argument is the second token whenever there is one, since a trimmed message never yields an empty second token |
| `Commands.TokensOfLine` | bot.js:64 | clean words separated by runs of spaces, with any whitespace before and after, tokenise into exactly those words |
| `Commands.ParseCommandLine` | bot.js:64-65 | such a message's command is its first word lower-cased, and its second word, case kept, is the argument, however many spaces separate them |
| `Commands.BareWord` | bot.js:64-65 | a message of one clean word asks for the command named by that word lower-cased |
| `Commands.TwoWords` | bot.js:64-65 | two clean words separated by any number of spaces give the first, lower-cased, as the command and the second as the argument |
| `Commands.AddWhitelistDoubleSpace` | bot.js:64-101 | `addWhitelist  Bob`, with two spaces, is the `addwhitelist` command with the argument `Bob` |
| `Commands.ParseCommand` | bot.js:73-122 | a known command is the one whose `case` label equals the word |
| `Commands.ParseCommandName` | bot.js:73-122 | every `case` label is reached by its own word |
| `Commands.RemoveAll` | bot.js:107 | an entry is in the result exactly when it was in the whitelist and is not the removed name |
| `Commands.RemoveAllCounts` | bot.js:107 | the removed name has no copies left and every other name keeps its number of copies |
| `Commands.RemoveAllAppend` | bot.js:107 | `filter` keeps the order: removing from two lists in a row is removing from each in turn |
| `Commands.RemoveAllSingle` | bot.js:107 | a single entry is dropped exactly when it is the removed name |
| `Commands.RemoveAbsent` | bot.js:107 | removing a name that is not listed changes nothing |
| `Commands.ListText` | bot.js:112 | the reply lists `None` for an empty whitelist or one holding only the empty name, and otherwise the names in order, separated by `, ` |
| `Commands.JoinEmpty` | bot.js:112 | the joined list is empty exactly when the whitelist is empty or holds only the empty name |
| `Commands.Effect` | bot.js:73-122 | every field of the new state and the reply of each command; `Commands.Controller.Execute` and `Commands.Controller.HandleWhisper` are proved against it |
| `Commands.Controller.constructor` | bot.js:24-29 | the start-up state: idle, no chests, no bounds, the configured whitelist or an empty one |
| `Commands.Controller.Accepts` | bot.js:57-71 | the three guards pass: not the bot itself, whitelisted, and not a position command without a position; `Commands.Controller.HandleWhisper` states what happens either way |
| `Commands.Controller.HandleWhisper` | bot.js:56-123 | the bot's own message gets no reply; a sender not on the whitelist gets "You are not whitelisted."; a position command without a position gets "Cannot detect your position."; in those three cases nothing changes and no loop starts; otherwise the command has its `Effect` |
| `Commands.Controller.Execute` | bot.js:73-122 | each command has its `Effect`: `start` and `stop` set the flag; each `set` command overwrites one field with the floored position; `addwhitelist` appends and `removewhitelist` removes every copy, only with an argument; every other field is unchanged; the reply is the command's own message |
| `Commands.StartWord` | bot.js:64-76 | the message `start` is the `start` command |
| `Commands.StopWord` | bot.js:64-80 | the message `stop` is the `stop` command |
| `Commands.StartAlwaysLaunches` | bot.js:74-77 | `start` launches the loop whatever the flag was, and changes nothing else |
| `Commands.StopOnlyClearsFlag` | bot.js:79-81 | `stop` launches nothing and changes nothing but the flag |
| `Commands.StartTwiceLaunchesTwice` | bot.js:74-81 | in `start`, `start`, `stop` both starts launch a loop and the stop does not, and the flag ends off with everything else unchanged |

## Left out

- The outer `while (running)` loop of `mainLoop`, the "bot not spawned" and "no villagers" waits, and the error backoff (bot.js:127-141, 166-173) are timing around the scan pass. Only one pass is modelled.
- `goToEntity` (bot.js:204-223) is left out: pathfinding raced against a timeout. A failed path does not stop the trade that follows, so the scan pass treats a visit as a single step.
- Connection, authentication and config loading (bot.js:1-22), `SafeMovements` (bot.js:37-53) and the anti-AFK timer (bot.js:355-359) are wrappers over the game client, or random jitter.
- `discord-webhook.js`, `test-bot.js` and `test-grim-v3-bot.js` hold no decision logic that the core uses.
- Game I/O is not modelled. `openVillager`, `trade`, `openChest`, `deposit` and `withdraw` become inputs: an optional window or chest, and a success flag per step. The log lines and the `/msg` transport of replies are not modelled either.
- `Trading.TradeLoop`: the source re-reads the live emerald count before every offer. The model assumes that a successful trade spends exactly its first input's count and a failed trade spends nothing.
- `Containers.DepositItems`: the chest's capacity and stack merging are not modelled. The moved stacks are appended to the chest's contents, and a deposit either moves the whole stack or fails.
- `Containers.Refill`: only the withdrawal amount is computed. The transfer itself and its failure are not modelled, and the amount is positive only when the chest's first emerald stack is non-empty (the game never holds an empty stack).
- `Villagers.ScanPass`: the concurrent command handler is represented by the per-villager snapshot of the flag and bounds that the pass reads. Several loops running at once after repeated `start` commands are not modelled.
- `Villagers.NearbyVillagers`: a display name is taken already rendered as a string. A display-name object whose text is empty still passes the source's truthiness test, and the model does not capture that.
- `Text.Lower`: lower-cases ASCII letters only and leaves other characters alone. In JavaScript the Kelvin sign is the only non-ASCII character whose lower case is pure ASCII (`k`), and no command word contains `k`. Any other non-ASCII character keeps the word off every `case` label in both, so dispatch is the same.
- Positions are reals, not IEEE doubles. Rounding is not modelled, and neither is exponent notation when very large coordinates are rendered.
