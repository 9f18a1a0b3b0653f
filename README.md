# Zgony death-log monitor: a Dafny model

Zgony is a Discord bot that watches the kill-statistics page of the Cyleria
game server. It parses each table row into a death record with a key, time,
victim, level and killer. It keeps only deaths of the characters on a watch
list, and it announces each new death in a chat channel at most once. It
remembers which deaths it has announced in a set of keys. When that set grows
beyond 300 keys it is cut back to 300. Chat commands add characters to the
watch list, remove them, and list them.

The model has six modules:

- `PyStr` (`pystr.dfy`) gives the parts of Python's `str` that the bot
  relies on, with Python's meaning: `isspace`, `strip()`, `lower()`,
  `startswith`, `find` / `in`, `split(sep)` (all pieces), `split(sep, 1)`,
  and the string order that `sorted` uses.
- `Killer` (`killer.dfy`) is `is_player`.
- `DeathLog` (`deathlog.dfy`) covers the row parser and the watch-list filter
  of `get_deaths`. It has two grammars:
  - the primary grammar, used when the description contains
    "śmierć na poziomie";
  - the fallback grammar, used otherwise.

  The `GetDeaths` method walks a page's rows as the source's loop does.
- `Monitor` (`monitor.dfy`) covers the alert text, the deaths a cycle
  announces, and the `DeathMonitor` class.
  - The class holds the set of seen keys as a field.
  - It has `Seed` (start-up), `ProcessCycle` (one poll, returning the alerts
    sent) and the cap step.
- `Commands` (`commands.dfy`) covers the `!dodaj` / `!usun` / `!lista` /
  `!info` commands. The `WatchList` class holds the watched names as a field.
- `Optional` (`optional.dfy`) defines `Option`.

The fetched page is an input to the model:

- `None` stands for a failed fetch (a network error, a status other than 200,
  or no table body). The source returns an empty list in all three cases.
- Otherwise the page is given as its rows, and each row as the texts of its
  cells.

Sending an alert is appending its text to the sequence that `ProcessCycle`
returns. A command's answer is a `Reply` value. `ReplyText` gives the exact
text sent for each reply.

Python sets have no defined iteration order, so the cap step
`set(list(last_seen)[-300:])` keeps some 300 keys of the old set and does not
say which ones. The model says exactly that: the new set is an arbitrary
subset of 300 keys. The cap can therefore drop the key of a death that is
still on the page, and the next cycle then announces that death again. For
this reason the "second cycle is silent" property (`AllSeenSilent`) only
holds under the precondition that the page's keys are still in the seen set.

## Model

| member | source | states |
|---|---|---|
| Killer.IsPlayer | bot.py:59-61 | `is_player`: the killer is a player unless its lower-cased, stripped text starts with "a ", "an " or "the "; `IsPlayerIgnoresPadding` and the examples below state what this means for concrete and padded killers |
| Killer.IsPlayerUnpadded | bot.py:59-61 | An unfolding of `IsPlayer` for the case where `strip()` has nothing to cut: the lower-cased killer itself is tested against "a ", "an " and "the " |
| Killer.IsPlayerIgnoresPadding | bot.py:60 | Whitespace before and after a killer's name never changes the verdict, because the text is stripped before the prefix test |
| Killer.ExampleTheDragon | bot.py:59-61 | "The Dragon" is not a player; the test ignores case |
| Killer.ExampleADragon | bot.py:59-61 | "a dragon" is not a player |
| Killer.ExampleTheSwampTroll | bot.py:59-61 | "the swamp troll" is not a player |
| Killer.ExampleAnOrc | bot.py:59-61 | "An orc" is not a player |
| Killer.ExampleAragorn | bot.py:59-61 | "Aragorn" is a player |
| Killer.ExampleBareArticle | bot.py:60-61 | "A  " is a player: after stripping it is "a", which lacks the space of the prefix "a " |
| PyStr.IsSpace | bot.py:60 | `isspace()` on one character: exactly the code points CPython treats as whitespace |
| PyStr.Strip | bot.py:60 | `strip()` gives a string no longer than its input, with no whitespace at either end |
| PyStr.StripSlice | bot.py:87-94 | `strip()` removes only whitespace: the result is the contiguous slice that starts after the leading whitespace, and only whitespace follows it |
| PyStr.StripUnique | bot.py:87-94 | A slice with no whitespace at its ends and only whitespace around it is the result of `strip()` |
| PyStr.StripStripped | bot.py:87-94 | `strip()` leaves a string with no whitespace at its ends unchanged |
| PyStr.StripPadded | bot.py:60 | Whitespace added at either end of a string does not change its `strip()` |
| PyStr.StripNoOccurrence | bot.py:87-98 | Stripping cannot create an occurrence of a pattern |
| PyStr.Lower | bot.py:60 | ASCII `lower()`, one character at a time: it keeps the length of the string |
| PyStr.StartsWith | bot.py:61 | `startswith(prefix)`: the string is at least as long as `prefix` and its first characters are `prefix` |
| PyStr.Find | bot.py:85-98 | `find(p)` gives -1 or a position where `p` occurs; `FindFirst` shows it is the first one |
| PyStr.Contains | bot.py:85-98 | `p in s`: `find` gives a position, which by `FindFirst` is exactly when `p` occurs somewhere in `s` |
| PyStr.FindFirst | bot.py:85-89 | `find` gives -1 exactly when the pattern does not occur; otherwise it gives an occurrence with none before it |
| PyStr.FindAtJoin | bot.py:85-98 | In `a + p + b`, where `p` does not occur before its own copy, the first `p` is found at `|a|` |
| PyStr.FindSpaced | bot.py:85-98 | In `a + " " + p + " " + b`, where `a` holds no `p`, the first `p` is the one between the spaces |
| PyStr.Split | bot.py:86 | `split(sep)` gives at least one piece, and exactly one piece when `sep` is absent |
| PyStr.SplitJoin | bot.py:86 | Joining the pieces of `split(sep)` with `sep` gives the string back |
| PyStr.SplitPiecesFree | bot.py:86 | No piece of `split(sep)` contains `sep` |
| PyStr.SplitFirst | bot.py:86-87 | Piece `[0]` of `split(sep)` is the text before the first `sep` (all of it when there is none) |
| PyStr.SplitSecond | bot.py:86-88 | When `sep` occurs, piece `[1]` of `split(sep)` is the text between the first `sep` and the next one (or the end) |
| PyStr.UpTo | bot.py:86-98 | The text before the first occurrence is a prefix that holds no occurrence and ends where the first occurrence starts |
| PyStr.SplitOnce | bot.py:90 | `split(sep, 1)` gives one piece when `sep` is absent and two pieces otherwise |
| PyStr.SplitOnceJoin | bot.py:90 | The two pieces of `split(sep, 1)` are the text before the first `sep` (which holds no `sep`) and everything after it, and they rejoin to the input |
| PyStr.Below | bot.py:190 | Python's `<` on strings: code points compared from the left, a proper prefix before the longer string; the three lemmas below make it a strict total order |
| PyStr.BelowIrreflexive | bot.py:190 | No string sorts below itself |
| PyStr.BelowTransitive | bot.py:190 | The string order is transitive |
| PyStr.BelowTotal | bot.py:190 | Any two different strings are ordered one way or the other |
| PyStr.SortedSet | bot.py:190 | `sorted(set)` lists every element exactly once, in strictly increasing order |
| DeathLog.LevelAndKiller | bot.py:89-94 | With "przez" in the remainder, the level is the stripped text before its first "przez" and the killer the stripped text after it; without it, the level is the stripped remainder and the killer is "Nieznany" |
| DeathLog.ParsePrimary | bot.py:85-94 | The primary grammar gives a name, level and killer with no whitespace at their ends; `PrimaryName`, `PrimaryWithBy` and `PrimaryWithoutBy` give their values |
| DeathLog.ParseFallback | bot.py:95-98 | The fallback grammar gives a name, level and killer with no whitespace at their ends; `ParseFallbackFields` gives their values |
| DeathLog.ParseRow | bot.py:82-104 | The key is the time followed by the raw description; the time field is the time cell; name, level and killer come out stripped |
| DeathLog.Remainder | bot.py:86-88 | The primary grammar's remainder (piece `[1]`, stripped) has no whitespace at its ends and holds no "śmierć na poziomie" |
| DeathLog.PrimaryName | bot.py:85-87 | Primary grammar: the name is the stripped text before the first "śmierć na poziomie" |
| DeathLog.PrimaryWithBy | bot.py:88-94 | Primary grammar with "przez" in the remainder: the level is the stripped text before the first "przez", the killer the stripped text after it |
| DeathLog.PrimaryWithoutBy | bot.py:88-94 | Primary grammar without "przez": the level is the whole remainder and the killer is "Nieznany" |
| DeathLog.ParseFallbackFields | bot.py:95-98 | Fallback grammar: the level is "?"; the name is the stripped text before the first "przez" (all of it without one); the killer is the stripped text between the first and second "przez", or "Nieznany" without any "przez" |
| DeathLog.ParseDescribed | bot.py:85-94 | Round trip: a description written as "name śmierć na poziomie level przez killer" parses back to that name, level and killer, with key time + text |
| DeathLog.ParseDescribedWithoutLevel | bot.py:95-98 | Round trip: "name przez killer" parses back to that name and killer, with level "?" |
| DeathLog.KeepRow | bot.py:78-104 | What one row contributes: its death when the row has two cells and the victim is watched, nothing otherwise; `ExtractMember` states it through `Yields` |
| DeathLog.Extract | bot.py:77-104 | The filter yields no more deaths than there are rows, and every death's victim is watched |
| DeathLog.ExtractMember | bot.py:77-104 | A death is kept exactly when some row has at least two cells, parses to it, and its victim is a member of the watch set |
| DeathLog.ExtractAppend | bot.py:77-104 | Page order is kept: the deaths of two runs of rows are the first run's deaths followed by the second's |
| DeathLog.PageDeaths | bot.py:63-110 | The deaths one fetch yields: nothing for a failed fetch, otherwise the filtered rows of `Extract` |
| DeathLog.GetDeaths | bot.py:63-110 | The loop over the rows yields exactly the filtered deaths in page order, and nothing when the fetch failed |
| Monitor.Header | bot.py:131 | The alert up to the killer: the clock mark and time, a line break, the green-marked bold victim, the level and "przez " |
| Monitor.KillerText | bot.py:132-135 | The killer as shown: bold after the red mark when `is_player` holds, verbatim otherwise; `MessageMarksPlayers` proves the mark tells the two apart |
| Monitor.Message | bot.py:131-135 | The alert is the header followed by the killer text; `MessageMarksPlayers` and `MessageDeterminesKiller` state what it shows |
| Monitor.MessageMarksPlayers | bot.py:130-135 | After the header, the alert starts with the red player mark exactly when the killer is a player |
| Monitor.MarkedIsPlayer | bot.py:130-135 | A killer whose own text starts with the red mark is classified as a player, so verbatim monster text never looks marked |
| Monitor.MessageDeterminesKiller | bot.py:131-135 | Two alerts with the same header and the same text name the same killer |
| Monitor.Reversed | bot.py:126 | `reversed(ds)` has the same length, with element `i` taken from position `|ds| - 1 - i` |
| Monitor.KeysMember | bot.py:118-119 | A key is among the keys of a run exactly when some death of the run has it |
| Monitor.Fresh | bot.py:126-138 | The deaths a walk announces, no more than it walks; `FreshPositions` and `NewPositionsSpec` say which ones and in what order |
| Monitor.FreshSnoc | bot.py:126-138 | An unfolding of `Fresh` at `ds + [d]`: one more death at the end is announced unless its key was seen before the cycle or met earlier in the walk |
| Monitor.FreshKeys | bot.py:126-138 | The keys announced in a walk are exactly its keys that were not seen before |
| Monitor.FreshKeysDistinct | bot.py:126-138 | At most once: no key is announced twice in one walk, even when it repeats |
| Monitor.FreshAllSeen | bot.py:127-128 | A walk whose keys were all seen announces nothing |
| Monitor.FreshAllNew | bot.py:126-138 | A walk of new deaths with distinct keys announces all of them, in walking order |
| Monitor.NewPositions | bot.py:126-138 | The positions of a walk whose death has an unseen key that no earlier death of the walk carries; every position is inside the walk |
| Monitor.NewPositionsSpec | bot.py:126-138 | `NewPositions` is strictly increasing and holds a position exactly when that test passes, which determines it |
| Monitor.FreshPositions | bot.py:126-138 | The announced deaths are the walk's deaths at `NewPositions`, in walk order |
| Monitor.FreshFromWalk | bot.py:126-138 | Every announced death is a death of the walk |
| Monitor.Announced | bot.py:126-138 | The deaths a cycle announces: the walk over the reversed page |
| Monitor.AnnouncedRows | bot.py:126-138 | The page rows a cycle announces, in sending order; each is a row of the page |
| Monitor.FirstNewReversed | bot.py:126-128 | Walking backwards, row `i` is first met with an unseen key exactly when no row below it carries its key and it was not seen |
| Monitor.AnnouncedOldestFirst | bot.py:126-137 | For any page and seen set: the alerts are the messages of the page's deaths at strictly decreasing rows, and row `i` is announced exactly when its key was not seen and no row below it has the same key |
| Monitor.AnnouncedAllNew | bot.py:126-137 | With new, distinct keys, the alerts are the page's deaths from the last row to the first |
| Monitor.AllSeenSilent | bot.py:118-128 | A cycle over deaths whose keys are all seen, such as the seeded page or a page the previous cycle announced with the cap step keeping its keys, sends no alert |
| Monitor.CycleStep | bot.py:126-138 | One step of the reversed walk: death `i` is announced after the deaths behind it unless its key was seen or met already, and its key joins the keys of the walk |
| Monitor.CycleStepSent | bot.py:126-138 | The same step for the alerts: a new death adds its own alert at the end, a seen one adds nothing |
| Monitor.CapStep | bot.py:141-142 | The cap step relation: above 300 keys the new set is some 300-key subset of the old one, otherwise the same set |
| Monitor.CapBounds | bot.py:141-142 | An unfolding of `CapStep`: after the cap step the seen set has at most 300 keys, is a subset of the old set, and is unchanged when the old set had at most 300 |
| Monitor.DeathMonitor.constructor | bot.py:23 | The monitor starts with no seen keys |
| Monitor.DeathMonitor.Seed | bot.py:118-119 | Seeding adds the key of every death on the page to the seen set and sends nothing |
| Monitor.DeathMonitor.MarkSeen | bot.py:118-119 | The seeding loop adds exactly the keys of the deaths it walks |
| Monitor.DeathMonitor.ProcessCycle | bot.py:125-142 | One poll sends the alerts of the page's fresh deaths, oldest first, then leaves the seen set as the cap step of the old set plus the page's keys |
| Monitor.DeathMonitor.Announce | bot.py:126-138 | The reversed walk sends an alert for each death not yet seen, in walking order, and ends with every key of the deaths seen |
| Monitor.DeathMonitor.Trim | bot.py:141-142 | Above 300 keys, the seen set becomes a 300-key subset of itself; otherwise it is unchanged |
| Commands.NickOf | bot.py:158 | Without a double quote there is no nick (the source's usage error); otherwise the nick has no whitespace at its ends and no double quote |
| Commands.NickOfQuoted | bot.py:158 | For `prefix "Nick" suffix` with no quote in the prefix, the nick is `Nick` |
| Commands.ListingLines | bot.py:190 | `"\n".join(f"🟢 {nick}" for nick in names)`: the listing text |
| Commands.ListingLinesSplit | bot.py:190 | Splitting a listing at line breaks gives one line per name, in order, each the green mark followed by the name, when no name holds a line break |
| Commands.ReplyText | bot.py:156-202 | The text sent for each reply, word for word as the source sends it, and nothing for the silent reply |
| Commands.WatchList.constructor | bot.py:26-46 | The watch list starts as the stored names, or as the ten default names when nothing could be read |
| Commands.WatchList.Add | bot.py:163-168 | An absent nick is added and reported as added; a present nick leaves the set unchanged and is reported as already there |
| Commands.WatchList.Remove | bot.py:178-183 | A present nick is removed and reported as removed; an absent nick leaves the set unchanged and is reported as not there |
| Commands.WatchList.Sorted | bot.py:190 | The listing holds every watched name exactly once, in increasing order |
| Commands.WatchList.Handle | bot.py:150-202 | Commands are dispatched in the source's order with its replies and errors; only `!dodaj` and `!usun` change the set, and the bot's own messages are ignored |

## Left out

- The HTTP request and its status check and timeout (bot.py:64-68, 108-110): network I/O. A failed fetch is the `None` page.
- The HTML parsing with `BeautifulSoup`, including `tbody` / `tr` / `td` and `get_text` with its whitespace handling (bot.py:70-83): a foreign library. The cell texts are given as input.
- The Discord client: `channel.send`, `wait_until_ready`, `get_channel`, the `on_ready` start-up notice and `client.run` (bot.py:19-21, 115-116, 137, 204-216). This is the chat platform. Sending is appending to the sequence `ProcessCycle` returns, and a command's answer is a `Reply`.
- `asyncio.sleep`, the endless `while True`, and the catch-all `except` around a cycle (bot.py:123, 144-147): scheduling. One cycle is one call to `ProcessCycle`.
- If a send raises part-way through a cycle, the rest of the walk and the cap step are skipped. The model assumes every send succeeds.
- Reading and writing the watch list as JSON (`load_watched` file access, `save_watched`; bot.py:26-34, 48-53): file I/O. The constructor takes the stored names, or `None` when there are none or they cannot be read.
- The environment variables and constants `DISCORD_TOKEN`, `CHANNEL_ID`, `URL` and `HEADERS` (bot.py:9-17): configuration.
- PyStr.Lower: only ASCII letters are lowered. Python lowers every cased character, but no other character lowers to an ASCII letter used in the prefixes "a ", "an " or "the " except U+0130 and U+212A (lowered to "i̇" and "k"), which those prefixes do not contain. The classifier's verdict is therefore the same.
- PyStr.Below: compares strings by Dafny `char` order, which is code-point order as in Python.
