/**
  The chat commands that maintain the watch list: `!dodaj "Nick"` adds a
  character, `!usun "Nick"` removes one, `!lista` lists them in sorted order
  and `!info` shows the help text. The nick is whatever stands between the
  first double quote and the next one (or the end), stripped.
 */
module Commands {
  import opened Optional
  import opened PyStr

  /** The characters watched when no stored list could be read. */
  const DefaultWatched: set<string> := {
    "Agnieszka",
    "Miekka Parowka",
    "Gazowany Kompot",
    "Tapczan'ed",
    "Negocjator",
    "Astma",
    "Mistrz Negocjacji",
    "Jestem Karma",
    "Pan Trezer",
    "Negocjatorka"
  }

  const Quote: string := "\""

  /** `content.split('"')[1].strip()`: the stripped text between the first
      double quote and the second one (or the end). Without any double quote
      there is no piece `[1]`, which the source reports as a usage error. */
  function NickOf(content: string): (nick: Option<string>)
    ensures nick.None? <==> !Contains(content, Quote)
    ensures nick.Some? ==> IsStripped(nick.value) && !Contains(nick.value, Quote)
  {
    var parts := Split(content, Quote);
    if |parts| < 2 then None
    else
      SplitPiecesFree(content, Quote);
      StripNoOccurrence(parts[1], Quote);
      Some(Strip(parts[1]))
  }

  /** A command written as `prefix "Nick" suffix`, with no quote before the
      nick's, yields that nick. */
  lemma NickOfQuoted(prefix: string, nick: string, suffix: string)
    requires !Contains(prefix, Quote)
    requires IsStripped(nick) && !Contains(nick, Quote)
    ensures NickOf(prefix + Quote + nick + Quote + suffix) == Some(nick)
  {
    var content := prefix + Quote + nick + Quote + suffix;
    var after := nick + Quote + suffix;
    assert prefix + Quote[..0] == prefix;
    assert content == prefix + Quote + after;
    FindAtJoin(prefix, Quote, after);
    assert content[|prefix| + 1..] == after;
    SplitSecond(content, Quote);
    assert nick + Quote[..0] == nick;
    FindAtJoin(nick, Quote, suffix);
    assert UpTo(after, Quote) == nick;
    StripStripped(nick);
  }

  /** What the bot answers to a message. */
  datatype Reply =
    | Silent                        // not a command, or the bot's own message
    | Usage(command: string)        // no quoted nick after `!dodaj` / `!usun`
    | AlreadyWatched(nick: string)
    | Added(nick: string)
    | NotWatched(nick: string)
    | Removed(nick: string)
    | NoneWatched
    | Listing(names: seq<string>)
    | Help

  const Newline: string := "\n"

  /** `"\n".join(f"🟢 {nick}" for nick in names)`: the lines of a listing,
      one per name, each after a green mark. */
  function ListingLines(names: seq<string>): string
    requires |names| >= 1
  {
    if |names| == 1 then "🟢 " + names[0] else "🟢 " + names[0] + Newline + ListingLines(names[1..])
  }

  /** A listing line holds a line break only when its name does. */
  lemma LineFree(name: string)
    requires !Contains(name, Newline)
    ensures !Contains("🟢 " + name, Newline)
  {
    ConsNoOccurrence(' ', name, Newline);
    assert [' '] + name == " " + name;
    ConsNoOccurrence('🟢', " " + name, Newline);
    assert ['🟢'] + (" " + name) == "🟢 " + name;
  }

  /** A listing splits back into its lines: line `i` is the green mark
      followed by name `i`, when no name holds a line break. */
  lemma {:induction false} ListingLinesSplit(names: seq<string>)
    requires |names| >= 1
    requires forall i :: 0 <= i < |names| ==> !Contains(names[i], Newline)
    ensures var lines := Split(ListingLines(names), Newline);
      |lines| == |names| && forall i :: 0 <= i < |names| ==> lines[i] == "🟢 " + names[i]
  {
    var first := "🟢 " + names[0];
    LineFree(names[0]);
    if |names| > 1 {
      ListingLinesSplit(names[1..]);
      SplitAfterFree(first, Newline, ListingLines(names[1..]));
    } else {
      SplitJoinFree(first, Newline);
    }
  }

  /** The text the bot sends for a reply; a silent reply sends nothing. */
  function ReplyText(r: Reply): Option<string> {
    match r
    case Silent => None
    case Usage(command) => Some("Błąd: użyj formatu `" + command + " \"Nick Postaci\"`")
    case AlreadyWatched(nick) => Some(nick + " już jest w śledzonych postaciach ✅")
    case Added(nick) => Some("✅ Dodano " + nick + " do śledzonych postaci")
    case NotWatched(nick) => Some(nick + " nie znajduje się w śledzonych postaciach ❌")
    case Removed(nick) => Some("✅ Usunięto " + nick + " ze śledzonych postaci")
    case NoneWatched => Some("Brak śledzonych postaci ❌")
    case Listing(names) =>
      if names == [] then Some("**Śledzone postacie:**\n")
      else Some("**Śledzone postacie:**\n" + ListingLines(names))
    case Help => Some(
        "**Dostępne komendy bota:**\n"
        + "1. `!dodaj \"Nick\"` – dodaje postać do listy śledzonych\n"
        + "2. `!usun \"Nick\"` – usuwa postać ze śledzonych\n"
        + "3. `!lista` – pokazuje wszystkie śledzone postacie\n"
        + "4. `!info` – pokazuje wszystkie komendy i opis ich działania")
  }

  /** The set of watched character names, changed only by the commands. */
  class WatchList {
    var watched: set<string>

    /** `load_watched()`: the stored names, or the default set when there is
        no stored list or it could not be read (`None`). */
    constructor (stored: Option<seq<string>>)
      ensures watched == if stored.None? then DefaultWatched else set n | n in stored.value
    {
      if stored.None? {
        watched := DefaultWatched;
      } else {
        watched := set n | n in stored.value;
      }
    }

    /** Adds `nick`, reporting whether it was absent before. */
    method Add(nick: string) returns (added: bool)
      modifies this
      ensures added <==> nick !in old(watched)
      ensures watched == old(watched) + {nick}
      ensures !added ==> watched == old(watched)
    {
      added := nick !in watched;
      if added {
        watched := watched + {nick};
      }
    }

    /** Removes `nick`, reporting whether it was present before. */
    method Remove(nick: string) returns (removed: bool)
      modifies this
      ensures removed <==> nick in old(watched)
      ensures watched == old(watched) - {nick}
      ensures !removed ==> watched == old(watched)
    {
      removed := nick in watched;
      if removed {
        watched := watched - {nick};
      }
    }

    /** `sorted(WATCHED)`: every watched name once, in increasing order. */
    function Sorted(): (names: seq<string>)
      reads this
      ensures |names| == |watched|
      ensures forall n :: n in names <==> n in watched
      ensures StrictlySorted(names)
    {
      SortedSet(watched)
    }

    /** `on_message`: answers one chat message. Messages from the bot itself
        and messages that start with no known command are ignored; the
        commands are tried in the order `!dodaj`, `!usun`, `!lista`, `!info`. */
    method Handle(fromBot: bool, content: string) returns (reply: Reply)
      modifies this
      ensures fromBot ==> reply == Silent && watched == old(watched)
      ensures !fromBot && StartsWith(content, "!dodaj") ==>
        match NickOf(content)
        case None => reply == Usage("!dodaj") && watched == old(watched)
        case Some(nick) =>
          && watched == old(watched) + {nick}
          && reply == (if nick in old(watched) then AlreadyWatched(nick) else Added(nick))
      ensures !fromBot && !StartsWith(content, "!dodaj") && StartsWith(content, "!usun") ==>
        match NickOf(content)
        case None => reply == Usage("!usun") && watched == old(watched)
        case Some(nick) =>
          && watched == old(watched) - {nick}
          && reply == (if nick in old(watched) then Removed(nick) else NotWatched(nick))
      ensures (!fromBot && !StartsWith(content, "!dodaj") && !StartsWith(content, "!usun"))
        ==> watched == old(watched)
      ensures (!fromBot && !StartsWith(content, "!dodaj") && !StartsWith(content, "!usun")
               && StartsWith(content, "!lista"))
        ==> reply == if watched == {} then NoneWatched else Listing(SortedSet(watched))
      ensures (!fromBot && !StartsWith(content, "!dodaj") && !StartsWith(content, "!usun")
               && !StartsWith(content, "!lista"))
        ==> reply == if StartsWith(content, "!info") then Help else Silent
    {
      if fromBot {
        return Silent;
      }
      if StartsWith(content, "!dodaj") {
        var nick := NickOf(content);
        if nick.None? {
          return Usage("!dodaj");
        }
        var added := Add(nick.value);
        reply := if added then Added(nick.value) else AlreadyWatched(nick.value);
      } else if StartsWith(content, "!usun") {
        var nick := NickOf(content);
        if nick.None? {
          return Usage("!usun");
        }
        var removed := Remove(nick.value);
        reply := if removed then Removed(nick.value) else NotWatched(nick.value);
      } else if StartsWith(content, "!lista") {
        reply := if watched == {} then NoneWatched else Listing(Sorted());
      } else if StartsWith(content, "!info") {
        reply := Help;
      } else {
        reply := Silent;
      }
    }
  }
}
