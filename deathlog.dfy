/**
  Reading the kill-statistics table: each row's description is parsed into a
  death record, and only deaths of watched characters are kept, in page order.
  The HTTP request and the HTML table lookup are outside the model: a page is
  given as its rows, each row as the texts of its cells, and a failed fetch
  as `None`.
 */
module DeathLog {
  import opened Optional
  import opened PyStr

  /** "died at level": the phrase that opens the primary grammar. */
  const DeathPhrase: string := "śmierć na poziomie"
  /** "by": the phrase before the killer in both grammars. */
  const By: string := "przez"
  /** "Unknown": the killer when no "by" phrase is present. */
  const Unknown: string := "Nieznany"
  /** The level when the description has no "died at level" phrase. */
  const NoLevel: string := "?"

  /** One row of the table, parsed. `key` identifies the event across polls. */
  datatype Death = Death(key: string, time: string, name: string, level: string, killer: string)

  /** The texts of a table row's cells: the time, then the description. */
  type Row = seq<string>

  /** What a description says: victim, level and killer. */
  datatype Description = Description(name: string, level: string, killer: string)

  lemma SentinelsStripped()
    ensures IsStripped(Unknown) && IsStripped(NoLevel)
    ensures Strip(Unknown) == Unknown
  {
    assert Unknown[0] == 'N' && Unknown[|Unknown| - 1] == 'y';
    StripUnique(Unknown, 0, Unknown);
  }

  /** The level and the killer in the text after "died at level": cut at the
      first "by", or all of it with an unknown killer. */
  function LevelAndKiller(rest: string): (r: (string, string))
    ensures IsStripped(r.0) && IsStripped(r.1)
    ensures Contains(rest, By) ==>
      r == (Strip(rest[..Find(rest, By)]), Strip(rest[Find(rest, By) + |By|..]))
    ensures !Contains(rest, By) ==> r == (Strip(rest), Unknown)
  {
    SentinelsStripped();
    var halves := if Contains(rest, By) then SplitOnce(rest, By) else [rest, Unknown];
    (Strip(halves[0]), Strip(halves[1]))
  }

  /** Primary grammar: the description holds "died at level". */
  function ParsePrimary(text: string): (r: Description)
    requires Contains(text, DeathPhrase)
    ensures IsStripped(r.name) && IsStripped(r.level) && IsStripped(r.killer)
  {
    var parts := Split(text, DeathPhrase);
    var (level, killer) := LevelAndKiller(Strip(parts[1]));
    Description(Strip(parts[0]), level, killer)
  }

  /** Fallback grammar: the description has no "died at level". */
  function ParseFallback(text: string): (r: Description)
    ensures IsStripped(r.name) && IsStripped(r.level) && IsStripped(r.killer)
  {
    SentinelsStripped();
    var parts := Split(text, By);
    var killer := if Contains(text, By) then Strip(parts[1]) else Unknown;
    Description(Strip(parts[0]), NoLevel, killer)
  }

  /** Parses the row whose time cell reads `time` and whose description is
      `text`. The key is the time followed by the raw description, and every
      parsed field comes out stripped. */
  function ParseRow(time: string, text: string): (d: Death)
    ensures d.key == time + text && d.time == time
    ensures IsStripped(d.name) && IsStripped(d.level) && IsStripped(d.killer)
  {
    var f := if Contains(text, DeathPhrase) then ParsePrimary(text) else ParseFallback(text);
    Death(time + text, time, f.name, f.level, f.killer)
  }


  /** The text the primary grammar reads the level and the killer from:
      what lies between the first "died at level" and the next one (or the
      end), stripped. */
  function Remainder(text: string): (rest: string)
    requires Contains(text, DeathPhrase)
    ensures IsStripped(rest) && !Contains(rest, DeathPhrase)
  {
    var tail := text[Find(text, DeathPhrase) + |DeathPhrase|..];
    StripNoOccurrence(UpTo(tail, DeathPhrase), DeathPhrase);
    Strip(UpTo(tail, DeathPhrase))
  }

  /** The name and the remainder the primary grammar works on. */
  lemma PrimaryPieces(text: string)
    requires Contains(text, DeathPhrase)
    ensures
      var name := Strip(text[..Find(text, DeathPhrase)]);
      var lk := LevelAndKiller(Remainder(text));
      && ParsePrimary(text) == Description(name, lk.0, lk.1)
      && !Contains(name, DeathPhrase)
  {
    var i := Find(text, DeathPhrase);
    SplitFirst(text, DeathPhrase);
    SplitSecond(text, DeathPhrase);
    BeforeFirstIsFree(text, DeathPhrase);
    StripNoOccurrence(text[..i], DeathPhrase);
  }

  /** Primary grammar, the victim: the stripped text before the first
      "died at level", which therefore holds no such phrase itself. */
  lemma PrimaryName(time: string, text: string)
    requires Contains(text, DeathPhrase)
    ensures ParseRow(time, text).name == Strip(text[..Find(text, DeathPhrase)])
    ensures !Contains(ParseRow(time, text).name, DeathPhrase)
  {
    PrimaryPieces(text);
  }

  /** Primary grammar with a "by": the level is the stripped text of the
      remainder before its first "by", the killer the stripped text after it. */
  lemma PrimaryWithBy(time: string, text: string)
    requires Contains(text, DeathPhrase) && Contains(Remainder(text), By)
    ensures
      var rest := Remainder(text);
      var j := Find(rest, By);
      && ParseRow(time, text).level == Strip(rest[..j])
      && ParseRow(time, text).killer == Strip(rest[j + |By|..])
  {
    PrimaryPieces(text);
  }

  /** Primary grammar without a "by": the level is the whole remainder and
      the killer is unknown. */
  lemma PrimaryWithoutBy(time: string, text: string)
    requires Contains(text, DeathPhrase) && !Contains(Remainder(text), By)
    ensures ParseRow(time, text).level == Remainder(text)
    ensures ParseRow(time, text).killer == Unknown
  {
    PrimaryPieces(text);
    StripStripped(Remainder(text));
  }

  /** Fallback grammar. The level is always "?"; the name is the stripped
      text before the first "by" (all of it without one), and the killer is
      the stripped text between the first and the second "by" (or the end),
      unknown when there is no "by" at all. */
  lemma ParseFallbackFields(time: string, text: string)
    requires !Contains(text, DeathPhrase)
    ensures
      var d := ParseRow(time, text);
      && d.level == NoLevel
      && !Contains(d.name, By)
      && (Contains(text, By) ==>
            var i := Find(text, By);
            d.name == Strip(text[..i]) && d.killer == Strip(UpTo(text[i + |By|..], By)))
      && (!Contains(text, By) ==> d.name == Strip(text) && d.killer == Unknown)
  {
    var parts := Split(text, By);
    SplitFirst(text, By);
    assert parts[0] == UpTo(text, By);
    StripNoOccurrence(parts[0], By);
    if Contains(text, By) {
      SplitSecond(text, By);
    }
    assert ParseRow(time, text).name == Strip(parts[0]);
  }

  /** The description the site writes for a death with a known level. */
  function Described(name: string, level: string, killer: string): string {
    name + " " + DeathPhrase + " " + level + " " + By + " " + killer
  }

  /** The description the site writes for a death without the level phrase. */
  function DescribedWithoutLevel(name: string, killer: string): string {
    name + " " + By + " " + killer
  }

  /** Neither phrase can start again right after one of its own spaces. */
  lemma PhrasesDoNotRestart()
    ensures NoRestartAfterSpace(DeathPhrase)
    ensures NoRestartAfterSpace(By)
  {
    assert DeathPhrase == "śmierć" + " " + "na" + " " + "poziomie";
    forall k | 0 <= k < |DeathPhrase| - 1 && DeathPhrase[k] == ' '
      ensures DeathPhrase[k + 1] != DeathPhrase[0]
    {
      assert k == 6 || k == 9;
    }
  }

  /** A space followed by a stripped text strips to that text, and so does the
      text followed by a space. */
  lemma StripSpaced(t: string)
    requires IsStripped(t)
    ensures Strip(" " + t) == t && Strip(t + " ") == t
  {
    assert (" " + t)[1..1 + |t|] == t;
    assert (" " + t)[1 + |t|..] == [];
    StripUnique(" " + t, 1, t);
    assert (t + " ")[0..|t|] == t;
    assert (t + " ")[|t|..] == " ";
    StripUnique(t + " ", 0, t);
  }

  /** Round trip of the primary grammar: a description written in the site's
      format is parsed back into its name, level and killer, provided the
      phrases occur in it only where the format puts them. */
  lemma ParseDescribed(time: string, name: string, level: string, killer: string)
    requires IsStripped(name) && !Contains(name, DeathPhrase)
    requires level != [] && IsStripped(level) && !Contains(level, By)
    requires killer != [] && IsStripped(killer)
    requires !Contains(level + " " + By + " " + killer, DeathPhrase)
    ensures
      var text := Described(name, level, killer);
      ParseRow(time, text) == Death(time + text, time, name, level, killer)
  {
    var text := Described(name, level, killer);
    var tail := level + " " + By + " " + killer;
    assert text == name + " " + DeathPhrase + " " + tail;
    DescribedRemainder(name, tail);
    LevelAndKillerDescribed(level, killer);
    PrimaryPieces(text);
  }

  /** The text after "died at level", as the site writes it, gives back its
      level and its killer. */
  lemma LevelAndKillerDescribed(level: string, killer: string)
    requires level != [] && IsStripped(level) && !Contains(level, By)
    requires killer != [] && IsStripped(killer)
    ensures
      var tail := level + " " + By + " " + killer;
      Strip(tail) == tail && LevelAndKiller(tail) == (level, killer)
  {
    var tail := level + " " + By + " " + killer;
    assert IsStripped(tail) by {
      assert tail[0] == level[0];
      assert tail[|tail| - 1] == killer[|killer| - 1];
    }
    StripStripped(tail);
    PhrasesDoNotRestart();
    FindSpaced(level, By, killer);
    StripSpaced(level);
    StripSpaced(killer);
  }

  /** In a description written with the level phrase, the text before the
      phrase strips to the name and the remainder is the text after it. */
  lemma DescribedRemainder(name: string, tail: string)
    requires IsStripped(name) && !Contains(name, DeathPhrase)
    requires !Contains(tail, DeathPhrase)
    ensures
      var text := name + " " + DeathPhrase + " " + tail;
      && Contains(text, DeathPhrase)
      && Strip(text[..Find(text, DeathPhrase)]) == name
      && Remainder(text) == Strip(tail)
  {
    var text := name + " " + DeathPhrase + " " + tail;
    assert Find(text, DeathPhrase) == |name| + 1
      && text[..|name| + 1] == name + " "
      && text[|name| + 1 + |DeathPhrase|..] == " " + tail by {
      PhrasesDoNotRestart();
      FindSpaced(name, DeathPhrase, tail);
    }
    StripSpaced(name);
    assert UpTo(" " + tail, DeathPhrase) == " " + tail by {
      ConsNoOccurrence(' ', tail, DeathPhrase);
    }
    assert Strip(" " + tail) == Strip(tail) by {
      StripPadded(" ", tail, "");
      assert " " + tail + "" == " " + tail;
    }
  }

  /** Round trip of the fallback grammar. */
  lemma ParseDescribedWithoutLevel(time: string, name: string, killer: string)
    requires IsStripped(name) && !Contains(name, By)
    requires IsStripped(killer) && !Contains(killer, By)
    requires !Contains(DescribedWithoutLevel(name, killer), DeathPhrase)
    ensures
      var text := DescribedWithoutLevel(name, killer);
      ParseRow(time, text) == Death(time + text, time, name, NoLevel, killer)
  {
    var text := DescribedWithoutLevel(name, killer);
    assert Find(text, By) == |name| + 1 && text[..|name| + 1] == name + " "
      && text[|name| + 1 + |By|..] == " " + killer by {
      PhrasesDoNotRestart();
      FindSpaced(name, By, killer);
      assert text == name + " " + By + " " + killer;
    }
    ParseFallbackFields(time, text);
    ConsNoOccurrence(' ', killer, By);
    StripSpaced(name);
    StripSpaced(killer);
  }

  /** What one row contributes: its death when it has two cells and the victim is watched. */
  function KeepRow(row: Row, watched: set<string>): seq<Death> {
    if |row| < 2 then []
    else
      var d := ParseRow(row[0], row[1]);
      if d.name in watched then [d] else []
  }

  /** The deaths of watched characters on a page, in the page's row order. */
  function Extract(rows: seq<Row>, watched: set<string>): (deaths: seq<Death>)
    ensures |deaths| <= |rows|
    ensures forall d :: d in deaths ==> d.name in watched
  {
    if rows == [] then []
    else Extract(rows[..|rows| - 1], watched) + KeepRow(rows[|rows| - 1], watched)
  }

  /** A row yields death `d` when it has at least two cells, parses to `d`
      and its victim is watched. */
  predicate Yields(row: Row, watched: set<string>, d: Death) {
    |row| >= 2 && d == ParseRow(row[0], row[1]) && d.name in watched
  }

  lemma KeepRowYields(row: Row, watched: set<string>, d: Death)
    ensures d in KeepRow(row, watched) <==> Yields(row, watched, d)
  {
  }

  /** What each item contributes, concatenated in item order. */
  function Concat<R, D>(items: seq<R>, part: R -> seq<D>): seq<D> {
    if items == [] then [] else Concat(items[..|items| - 1], part) + part(items[|items| - 1])
  }

  lemma {:induction false} ConcatMember<R, D>(items: seq<R>, part: R -> seq<D>, d: D)
    ensures d in Concat(items, part) <==> exists i :: 0 <= i < |items| && d in part(items[i])
  {
    if items != [] {
      var init := items[..|items| - 1];
      ConcatMember(init, part, d);
      if d in Concat(init, part) {
        var i :| 0 <= i < |init| && d in part(init[i]);
        assert items[i] == init[i];
      }
      forall i | 0 <= i < |init| ensures items[i] == init[i] { }
    }
  }

  /** `Extract` concatenates what each row contributes. */
  lemma {:induction false} ExtractConcat(rows: seq<Row>, watched: set<string>)
    ensures Extract(rows, watched) == Concat(rows, row => KeepRow(row, watched))
  {
    if rows != [] {
      ExtractConcat(rows[..|rows| - 1], watched);
    }
  }

  /** Filter correctness: a death is extracted exactly when some row yields it. */
  lemma ExtractMember(rows: seq<Row>, watched: set<string>, d: Death)
    ensures d in Extract(rows, watched) <==> exists i :: 0 <= i < |rows| && Yields(rows[i], watched, d)
  {
    var part := row => KeepRow(row, watched);
    ExtractConcat(rows, watched);
    ConcatMember(rows, part, d);
    forall i | 0 <= i < |rows| ensures d in part(rows[i]) <==> Yields(rows[i], watched, d) {
      KeepRowYields(rows[i], watched, d);
    }
  }

  /** Order preservation: the deaths of two consecutive runs of rows are the
      deaths of the first run followed by those of the second. */
  lemma {:induction false} ExtractAppend(a: seq<Row>, b: seq<Row>, watched: set<string>)
    ensures Extract(a + b, watched) == Extract(a, watched) + Extract(b, watched)
    decreases |b|
  {
    if b == [] {
      assert a + b == a;
    } else {
      var init, last := b[..|b| - 1], b[|b| - 1];
      assert a + b == (a + init) + [last];
      calc {
        Extract(a + b, watched);
        { ExtractSnoc(a + init, last, watched); }
        Extract(a + init, watched) + KeepRow(last, watched);
        { ExtractAppend(a, init, watched); }
        Extract(a, watched) + Extract(init, watched) + KeepRow(last, watched);
        Extract(a, watched) + Extract(b, watched);
      }
    }
  }

  /** One more row adds what that row contributes at the end. */
  lemma ExtractSnoc(rows: seq<Row>, row: Row, watched: set<string>)
    ensures Extract(rows + [row], watched) == Extract(rows, watched) + KeepRow(row, watched)
  {
    assert (rows + [row])[..|rows|] == rows;
  }

  /** The deaths one fetch of the page yields: none when the fetch failed. */
  function PageDeaths(page: Option<seq<Row>>, watched: set<string>): seq<Death> {
    if page.None? then [] else Extract(page.value, watched)
  }

  /** `get_deaths()`: walks the page's rows, parsing each row with two cells
      and appending the deaths of watched victims; a failed fetch gives no
      deaths. */
  method GetDeaths(page: Option<seq<Row>>, watched: set<string>) returns (deaths: seq<Death>)
    ensures deaths == PageDeaths(page, watched)
  {
    deaths := [];
    if page.None? {
      return;
    }
    var rows := page.value;
    for i := 0 to |rows|
      invariant deaths == Extract(rows[..i], watched)
    {
      assert rows[..i + 1][..i] == rows[..i];
      var row := rows[i];
      if |row| < 2 {
        continue;
      }
      var d := ParseRow(row[0], row[1]);
      if d.name !in watched {
        continue;
      }
      deaths := deaths + [d];
    }
    assert rows[..|rows|] == rows;
  }
}
