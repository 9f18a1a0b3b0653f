/**
  The monitoring loop: the alert text for a death, the deaths a cycle
  announces, and the monitor whose set of seen keys makes every death
  announced at most once. A cycle is one pass of the loop; sending an alert
  to the channel is appending its text to the cycle's output.
 */
module Monitor {
  import opened Optional
  import opened PyStr
  import opened Killer
  import opened DeathLog

  /** The most keys the seen set keeps after a cycle. */
  const Cap: nat := 300

  /** The alert up to the killer: time, victim and level. */
  function Header(d: Death): string {
    "🕒 " + d.time + "\nZginął 🟢 **" + d.name + "** na poziomie " + d.level + " przez "
  }

  /** The killer as the alert shows it: bold and marked red when a player,
      verbatim otherwise. */
  function KillerText(killer: string): string {
    if IsPlayer(killer) then "🔴 **" + killer + "**" else killer
  }

  /** The alert sent for a new death. */
  function Message(d: Death): string {
    Header(d) + KillerText(d.killer)
  }

  /** A string whose first character is no space keeps that character first
      through `strip()`. */
  lemma StripKeepsFirst(s: string)
    requires |s| > 0 && !IsSpace(s[0])
    ensures |Strip(s)| > 0 && Strip(s)[0] == s[0]
  {
    assert LeadingSpaces(s) == 0;
    StripSlice(s);
    assert s[0..] == s;
  }

  /** A killer that starts with the red player mark is a player: no text
      written as a monster ("a …", "an …", "the …") can start with it. */
  lemma MarkedIsPlayer(k: string)
    requires StartsWith(k, "🔴 **")
    ensures IsPlayer(k)
  {
    assert k[0] == '🔴';
    assert Lower(k)[0] == '🔴';
    StripKeepsFirst(Lower(k));
    var t := Strip(Lower(k));
    assert t[0] == '🔴';
    assert !StartsWith(t, "a ") && !StartsWith(t, "an ") && !StartsWith(t, "the ");
  }

  /** The alert shows whether the killer is a player: the text after the
      header opens with the red mark exactly for players. */
  lemma MessageMarksPlayers(d: Death)
    ensures StartsWith(Message(d)[|Header(d)|..], "🔴 **") <==> IsPlayer(d.killer)
  {
    var tail := Message(d)[|Header(d)|..];
    assert tail == KillerText(d.killer);
    if IsPlayer(d.killer) {
      assert tail == "🔴 **" + d.killer + "**";
      assert tail[..|"🔴 **"|] == "🔴 **";
    } else if StartsWith(d.killer, "🔴 **") {
      MarkedIsPlayer(d.killer);
    }
  }

  /** Two alerts with the same header and the same text name the same killer. */
  lemma MessageDeterminesKiller(d: Death, e: Death)
    requires Header(d) == Header(e) && Message(d) == Message(e)
    ensures d.killer == e.killer
  {
    var n := |Header(d)|;
    assert KillerText(d.killer) == Message(d)[n..] == Message(e)[n..] == KillerText(e.killer);
    MessageMarksPlayers(d);
    MessageMarksPlayers(e);
    if IsPlayer(d.killer) && IsPlayer(e.killer) {
      var a, b := "🔴 **" + d.killer + "**", "🔴 **" + e.killer + "**";
      assert d.killer == a[|"🔴 **"|..|a| - 2];
      assert e.killer == b[|"🔴 **"|..|b| - 2];
    }
  }

  /** The alerts for a run of deaths, one per death, in the same order. */
  function Messages(ds: seq<Death>): (msgs: seq<string>)
    ensures |msgs| == |ds|
    ensures forall i :: 0 <= i < |ds| ==> msgs[i] == Message(ds[i])
  {
    Map(Message, ds)
  }

  /** `f` applied to every element of `s`. */
  function Map<A, B>(f: A -> B, s: seq<A>): (r: seq<B>)
    ensures |r| == |s|
    ensures forall i :: 0 <= i < |s| ==> r[i] == f(s[i])
  {
    if s == [] then [] else [f(s[0])] + Map(f, s[1..])
  }

  lemma {:induction false} MapAppend<A, B>(f: A -> B, a: seq<A>, b: seq<A>)
    ensures Map(f, a + b) == Map(f, a) + Map(f, b)
  {
    if a == [] {
      assert a + b == b;
    } else {
      assert (a + b)[0] == a[0];
      assert (a + b)[1..] == a[1..] + b;
      MapAppend(f, a[1..], b);
    }
  }

  lemma MessagesSnoc(ds: seq<Death>, d: Death)
    ensures Messages(ds + [d]) == Messages(ds) + [Message(d)]
  {
    MapAppend(Message, ds, [d]);
    assert Map(Message, [d]) == [Message(d)];
  }

  /** The dedup keys of a run of deaths. */
  function Keys(ds: seq<Death>): set<string> {
    if ds == [] then {} else Keys(ds[..|ds| - 1]) + {ds[|ds| - 1].key}
  }

  lemma KeysSnoc(ds: seq<Death>, d: Death)
    ensures Keys(ds + [d]) == Keys(ds) + {d.key}
  {
    assert (ds + [d])[..|ds|] == ds;
  }

  /** A key belongs to `Keys(ds)` exactly when some death of `ds` has it. */
  lemma {:induction false} KeysMember(ds: seq<Death>, k: string)
    ensures k in Keys(ds) <==> exists i :: 0 <= i < |ds| && ds[i].key == k
  {
    if ds != [] {
      var init := ds[..|ds| - 1];
      KeysMember(init, k);
      if k in Keys(init) {
        var i :| 0 <= i < |init| && init[i].key == k;
        assert ds[i] == init[i];
      }
      forall i | 0 <= i < |init| ensures ds[i] == init[i] { }
    }
  }

  /** `reversed(ds)`. */
  function Reversed(ds: seq<Death>): (r: seq<Death>)
    ensures |r| == |ds|
    ensures forall i :: 0 <= i < |ds| ==> r[i] == ds[|ds| - 1 - i]
  {
    if ds == [] then [] else Reversed(ds[1..]) + [ds[0]]
  }

  lemma KeysReversed(ds: seq<Death>)
    ensures Keys(Reversed(ds)) == Keys(ds)
  {
    var r := Reversed(ds);
    forall k ensures k in Keys(r) <==> k in Keys(ds) {
      KeysMember(ds, k);
      KeysMember(r, k);
      if k in Keys(ds) {
        var i :| 0 <= i < |ds| && ds[i].key == k;
        assert r[|ds| - 1 - i] == ds[i];
      }
      if k in Keys(r) {
        var i :| 0 <= i < |r| && r[i].key == k;
        assert ds[|ds| - 1 - i] == r[i];
      }
    }
  }

  /** The deaths a cycle announces when it walks `ds` in order, having
      announced (or seeded) the keys in `seen` before: a death is announced
      unless its key was seen or met earlier in the walk. */
  function Fresh(seen: set<string>, ds: seq<Death>): (r: seq<Death>)
    ensures |r| <= |ds|
  {
    if ds == [] then []
    else
      var init, d := ds[..|ds| - 1], ds[|ds| - 1];
      Fresh(seen, init) + (if d.key in seen + Keys(init) then [] else [d])
  }

  /** One more death at the end of the walk. */
  lemma FreshSnoc(seen: set<string>, ds: seq<Death>, d: Death)
    ensures Fresh(seen, ds + [d]) == Fresh(seen, ds) + (if d.key in seen + Keys(ds) then [] else [d])
  {
    assert (ds + [d])[..|ds|] == ds;
  }

  /** At least once: every key of the walk not seen before is announced,
      and no other key is. */
  lemma {:induction false} FreshKeys(seen: set<string>, ds: seq<Death>)
    ensures Keys(Fresh(seen, ds)) == Keys(ds) - seen
  {
    if ds != [] {
      var init, d := ds[..|ds| - 1], ds[|ds| - 1];
      FreshKeys(seen, init);
      if d.key !in seen + Keys(init) {
        KeysSnoc(Fresh(seen, init), d);
      } else {
        assert Fresh(seen, ds) == Fresh(seen, init);
      }
    }
  }

  /** No two deaths of `ds` share a key. */
  predicate DistinctKeys(ds: seq<Death>) {
    forall i, j :: 0 <= i < j < |ds| ==> ds[i].key != ds[j].key
  }

  /** At most once: no key is announced twice in one cycle. */
  lemma {:induction false} FreshKeysDistinct(seen: set<string>, ds: seq<Death>)
    ensures DistinctKeys(Fresh(seen, ds))
  {
    if ds != [] {
      var init, d := ds[..|ds| - 1], ds[|ds| - 1];
      var before := Fresh(seen, init);
      FreshKeysDistinct(seen, init);
      if d.key !in seen + Keys(init) {
        var r := before + [d];
        FreshKeys(seen, init);
        forall i, j | 0 <= i < j < |r| ensures r[i].key != r[j].key {
          if j < |before| {
            assert r[i] == before[i] && r[j] == before[j];
          } else {
            assert r[i] == before[i] && r[j] == d;
            KeysMember(before, before[i].key);
          }
        }
      }
    }
  }

  /** Idempotence: a walk whose keys were all seen announces nothing. */
  lemma {:induction false} FreshAllSeen(seen: set<string>, ds: seq<Death>)
    requires Keys(ds) <= seen
    ensures Fresh(seen, ds) == []
  {
    if ds != [] {
      FreshAllSeen(seen, ds[..|ds| - 1]);
    }
  }

  /** A walk of deaths with distinct keys, none seen before, announces every
      one of them, in walking order. */
  lemma {:induction false} FreshAllNew(seen: set<string>, ds: seq<Death>)
    requires forall i :: 0 <= i < |ds| ==> ds[i].key !in seen
    requires DistinctKeys(ds)
    ensures Fresh(seen, ds) == ds
  {
    if ds != [] {
      var init, d := ds[..|ds| - 1], ds[|ds| - 1];
      forall i | 0 <= i < |init| ensures init[i] == ds[i] { }
      FreshAllNew(seen, init);
      KeysMember(init, d.key);
      assert ds == init + [d];
    }
  }

  /** Position `i` of a walk is announced: its key was not seen before the
      cycle and no earlier death of the walk carries it. */
  predicate FirstNew(seen: set<string>, ds: seq<Death>, i: nat)
    requires i < |ds|
  {
    ds[i].key !in seen && forall j :: 0 <= j < i ==> ds[j].key != ds[i].key
  }

  /** The positions of `ds` that pass `FirstNew`, in increasing order. */
  function NewPositions(seen: set<string>, ds: seq<Death>): (ps: seq<nat>)
    ensures forall k :: 0 <= k < |ps| ==> ps[k] < |ds|
  {
    if ds == [] then []
    else NewPositions(seen, ds[..|ds| - 1]) + (if FirstNew(seen, ds, |ds| - 1) then [|ds| - 1] else [])
  }

  /** `NewPositions` is the increasing list of exactly the positions that
      pass `FirstNew`, which determines it. */
  lemma {:induction false} NewPositionsSpec(seen: set<string>, ds: seq<Death>)
    ensures var ps := NewPositions(seen, ds);
      && (forall a, b :: 0 <= a < b < |ps| ==> ps[a] < ps[b])
      && (forall i :: 0 <= i < |ds| ==> (i in ps <==> FirstNew(seen, ds, i)))
  {
    if ds != [] {
      var init := ds[..|ds| - 1];
      NewPositionsSpec(seen, init);
      forall i | 0 <= i < |init| ensures FirstNew(seen, ds, i) == FirstNew(seen, init, i) {
        assert forall j :: 0 <= j <= i ==> ds[j] == init[j];
      }
    }
  }

  /** The last death of a walk passes `FirstNew` exactly when the walk's
      step announces it. */
  lemma LastFirstNew(seen: set<string>, ds: seq<Death>)
    requires ds != []
    ensures FirstNew(seen, ds, |ds| - 1) <==> ds[|ds| - 1].key !in seen + Keys(ds[..|ds| - 1])
  {
    var init, d := ds[..|ds| - 1], ds[|ds| - 1];
    KeysMember(init, d.key);
    assert forall j :: 0 <= j < |init| ==> ds[j] == init[j];
  }

  /** The deaths a walk announces are the deaths at `NewPositions`, in walk
      order. */
  lemma {:induction false} FreshPositions(seen: set<string>, ds: seq<Death>)
    ensures var r, ps := Fresh(seen, ds), NewPositions(seen, ds);
      |r| == |ps| && forall k :: 0 <= k < |r| ==> r[k] == ds[ps[k]]
  {
    if ds != [] {
      var init := ds[..|ds| - 1];
      FreshPositions(seen, init);
      LastFirstNew(seen, ds);
      var r, ps := Fresh(seen, init), NewPositions(seen, init);
      forall k | 0 <= k < |r| ensures r[k] == ds[ps[k]] {
        assert ds[ps[k]] == init[ps[k]];
      }
    }
  }

  /** Every death a walk announces is a death of the walk. */
  lemma FreshFromWalk(seen: set<string>, ds: seq<Death>)
    ensures forall e :: e in Fresh(seen, ds) ==> e in ds
  {
    var r, ps := Fresh(seen, ds), NewPositions(seen, ds);
    FreshPositions(seen, ds);
    forall e | e in r ensures e in ds {
      var k :| 0 <= k < |r| && r[k] == e;
      assert e == ds[ps[k]];
    }
  }

  /** The cap step: a seen set above the cap is replaced by some subset of
      exactly `Cap` of its keys (which ones is not specified); otherwise it is
      kept. */
  predicate CapStep(before: set<string>, after: set<string>) {
    if |before| > Cap then after <= before && |after| == Cap else after == before
  }

  /** The cap step bounds the seen set and only ever forgets keys. */
  lemma CapBounds(before: set<string>, after: set<string>)
    requires CapStep(before, after)
    ensures |after| <= Cap && after <= before
    ensures |before| <= Cap ==> after == before
  {
  }

  /** Every set has subsets of every size up to its own. */
  lemma {:induction false} SubsetOfSize(s: set<string>, n: nat)
    requires n <= |s|
    ensures exists t :: t <= s && |t| == n
    decreases |s|
  {
    if n < |s| {
      var x :| x in s;
      SubsetOfSize(s - {x}, n);
      var t :| t <= s - {x} && |t| == n;
      assert t <= s;
    } else {
      assert s <= s;
    }
  }

  /** The deaths a cycle over `deaths` announces, oldest first. */
  function Announced(seen: set<string>, deaths: seq<Death>): seq<Death> {
    Fresh(seen, Reversed(deaths))
  }

  /** Row `i` of the page is announced in a cycle: its key was not seen
      before the cycle and no row below it (an older death, walked earlier)
      carries the same key. */
  predicate AnnouncedRow(seen: set<string>, deaths: seq<Death>, i: nat)
    requires i < |deaths|
  {
    deaths[i].key !in seen && forall j :: i < j < |deaths| ==> deaths[j].key != deaths[i].key
  }

  /** The rows a cycle announces, in the order it sends their alerts. */
  function AnnouncedRows(seen: set<string>, deaths: seq<Death>): (rows: seq<nat>)
    ensures forall k :: 0 <= k < |rows| ==> rows[k] < |deaths|
  {
    var ps := NewPositions(seen, Reversed(deaths));
    seq(|ps|, k requires 0 <= k < |ps| => |deaths| - 1 - ps[k])
  }

  /** Within one cycle the alerts go out oldest first: the announced deaths
      are the page's deaths at strictly decreasing row positions, a row is
      announced exactly when `AnnouncedRow` holds of it, and each alert is
      the message of its row's death. */
  lemma AnnouncedOldestFirst(seen: set<string>, deaths: seq<Death>)
    ensures var a, rows := Announced(seen, deaths), AnnouncedRows(seen, deaths);
      && |a| == |rows|
      && (forall k :: 0 <= k < |a| ==> a[k] == deaths[rows[k]])
      && (forall k, l :: 0 <= k < l < |rows| ==> rows[l] < rows[k])
      && (forall i :: 0 <= i < |deaths| ==> (i in rows <==> AnnouncedRow(seen, deaths, i)))
      && (forall k :: 0 <= k < |a| ==> Messages(a)[k] == Message(deaths[rows[k]]))
  {
    var r, n := Reversed(deaths), |deaths|;
    var ps, rows := NewPositions(seen, r), AnnouncedRows(seen, deaths);
    FreshPositions(seen, r);
    NewPositionsSpec(seen, r);
    forall i | 0 <= i < n ensures i in rows <==> AnnouncedRow(seen, deaths, i) {
      FirstNewReversed(seen, deaths, i);
      AnnouncedRowsMember(seen, deaths, i);
    }
  }

  /** Position `|deaths| - 1 - i` of the reversed walk passes `FirstNew`
      exactly when row `i` passes `AnnouncedRow`. */
  lemma FirstNewReversed(seen: set<string>, deaths: seq<Death>, i: nat)
    requires i < |deaths|
    ensures FirstNew(seen, Reversed(deaths), |deaths| - 1 - i) <==> AnnouncedRow(seen, deaths, i)
  {
    FirstNewBackward(seen, deaths, Reversed(deaths), i);
  }

  /** `FirstNewReversed` for any `r` that lists `deaths` backwards. */
  lemma FirstNewBackward(seen: set<string>, deaths: seq<Death>, r: seq<Death>, i: nat)
    requires i < |deaths| == |r|
    requires forall k :: 0 <= k < |r| ==> r[k] == deaths[|deaths| - 1 - k]
    ensures FirstNew(seen, r, |deaths| - 1 - i) <==> AnnouncedRow(seen, deaths, i)
  {
    var n := |deaths|;
    var p := n - 1 - i;
    assert r[p] == deaths[i];
    if AnnouncedRow(seen, deaths, i) {
      forall j | 0 <= j < p ensures r[j].key != r[p].key {
        assert r[j] == deaths[n - 1 - j];
      }
    }
    if FirstNew(seen, r, p) {
      forall j | i < j < n ensures deaths[j].key != deaths[i].key {
        assert deaths[j] == r[n - 1 - j];
      }
    }
  }

  /** Row `i` is among `AnnouncedRows` exactly when its reversed position is
      among the walk's `NewPositions`. */
  lemma AnnouncedRowsMember(seen: set<string>, deaths: seq<Death>, i: nat)
    requires i < |deaths|
    ensures i in AnnouncedRows(seen, deaths) <==> |deaths| - 1 - i in NewPositions(seen, Reversed(deaths))
  {
    var ps, rows := NewPositions(seen, Reversed(deaths)), AnnouncedRows(seen, deaths);
    if i in rows {
      var k :| 0 <= k < |rows| && rows[k] == i;
      assert ps[k] == |deaths| - 1 - i;
    }
    if |deaths| - 1 - i in ps {
      var k :| 0 <= k < |ps| && ps[k] == |deaths| - 1 - i;
      assert rows[k] == i;
    }
  }

  /** When all keys are new and distinct, the alerts are exactly the page's
      deaths from the last row to the first. */
  lemma AnnouncedAllNew(seen: set<string>, deaths: seq<Death>)
    requires forall i :: 0 <= i < |deaths| ==> deaths[i].key !in seen
    requires DistinctKeys(deaths)
    ensures Announced(seen, deaths) == Reversed(deaths)
    ensures |Messages(Announced(seen, deaths))| == |deaths|
    ensures forall i :: 0 <= i < |deaths| ==>
      Messages(Announced(seen, deaths))[i] == Message(deaths[|deaths| - 1 - i])
  {
    var r := Reversed(deaths);
    forall i, j | 0 <= i < j < |r| ensures r[i].key != r[j].key {
      assert r[i] == deaths[|deaths| - 1 - i] && r[j] == deaths[|deaths| - 1 - j];
    }
    FreshAllNew(seen, r);
  }

  /** Idempotence: a cycle over deaths whose keys are all seen announces
      nothing. After `Seed` on a page, and after a cycle over a page whose
      cap step kept that page's keys, the seen set holds all of them, so the
      same page again sends no alert. */
  lemma AllSeenSilent(seen: set<string>, deaths: seq<Death>)
    requires Keys(deaths) <= seen
    ensures Announced(seen, deaths) == []
  {
    KeysReversed(deaths);
    FreshAllSeen(seen, Reversed(deaths));
  }

  /** One step of a cycle's walk, which goes from the end of `deaths` to its
      start: death `i` is announced after the deaths behind it, unless its key
      was seen before the cycle or met earlier in the walk. */
  lemma CycleStep(seen: set<string>, deaths: seq<Death>, i: nat)
    requires i < |deaths|
    ensures Keys(deaths[i..]) == Keys(deaths[i + 1..]) + {deaths[i].key}
    ensures Fresh(seen, Reversed(deaths[i..])) ==
      Fresh(seen, Reversed(deaths[i + 1..])) +
      (if deaths[i].key in seen + Keys(deaths[i + 1..]) then [] else [deaths[i]])
  {
    var d, done := deaths[i], Reversed(deaths[i + 1..]);
    assert deaths[i..][1..] == deaths[i + 1..];
    assert Reversed(deaths[i..]) == done + [d];
    KeysReversed(deaths[i..]);
    KeysReversed(deaths[i + 1..]);
    KeysSnoc(done, d);
    FreshSnoc(seen, done, d);
  }

  /** The same step, for the alerts the walk has sent. */
  lemma CycleStepSent(seen: set<string>, deaths: seq<Death>, i: nat)
    requires i < |deaths|
    ensures
      var d := deaths[i];
      var before := Fresh(seen, Reversed(deaths[i + 1..]));
      var after := Fresh(seen, Reversed(deaths[i..]));
      && Keys(deaths[i..]) == Keys(deaths[i + 1..]) + {d.key}
      && (d.key in seen + Keys(deaths[i + 1..]) ==> after == before)
      && (d.key !in seen + Keys(deaths[i + 1..]) ==>
            after == before + [d] && Messages(after) == Messages(before) + [Message(d)])
  {
    CycleStep(seen, deaths, i);
    MessagesSnoc(Fresh(seen, Reversed(deaths[i + 1..])), deaths[i]);
  }

  /** The monitor's state: the keys of the deaths announced or seeded. */
  class DeathMonitor {
    var lastSeen: set<string>

    /** A monitor that has seen nothing yet. */
    constructor ()
      ensures lastSeen == {}
    {
      lastSeen := {};
    }

    /** Start-up seeding: every death on the page right now counts as seen,
        so history that predates the monitor is never announced. Nothing is
        sent. */
    method Seed(page: Option<seq<Row>>, watched: set<string>)
      modifies this
      ensures lastSeen == old(lastSeen) + Keys(PageDeaths(page, watched))
    {
      var deaths := GetDeaths(page, watched);
      MarkSeen(deaths);
    }

    /** Marks the key of every death in `deaths` seen. */
    method MarkSeen(deaths: seq<Death>)
      modifies this
      ensures lastSeen == old(lastSeen) + Keys(deaths)
    {
      for i := 0 to |deaths|
        invariant lastSeen == old(lastSeen) + Keys(deaths[..i])
      {
        assert deaths[..i + 1] == deaths[..i] + [deaths[i]];
        KeysSnoc(deaths[..i], deaths[i]);
        lastSeen := lastSeen + {deaths[i].key};
      }
      assert deaths[..|deaths|] == deaths;
    }

    /** One poll: fetches the page, announces its new deaths and applies the
        cap step. */
    method ProcessCycle(page: Option<seq<Row>>, watched: set<string>) returns (sent: seq<string>)
      modifies this
      ensures sent == Messages(Announced(old(lastSeen), PageDeaths(page, watched)))
      ensures CapStep(old(lastSeen) + Keys(PageDeaths(page, watched)), lastSeen)
    {
      var deaths := GetDeaths(page, watched);
      sent := Announce(deaths);
      Trim();
    }

    /** Walks `deaths` from the oldest (last) to the newest (first), sends an
        alert for each death whose key was not seen and marks that key seen. */
    method Announce(deaths: seq<Death>) returns (sent: seq<string>)
      modifies this
      ensures sent == Messages(Announced(old(lastSeen), deaths))
      ensures lastSeen == old(lastSeen) + Keys(deaths)
    {
      sent := [];
      ghost var announced: seq<Death> := [];
      var i := |deaths|;
      while i > 0
        invariant 0 <= i <= |deaths|
        invariant lastSeen == old(lastSeen) + Keys(deaths[i..])
        invariant announced == Fresh(old(lastSeen), Reversed(deaths[i..]))
        invariant sent == Messages(announced)
      {
        i := i - 1;
        var d := deaths[i];
        CycleStepSent(old(lastSeen), deaths, i);
        if d.key in lastSeen {
          continue;
        }
        announced := announced + [d];
        sent := sent + [Message(d)];
        lastSeen := lastSeen + {d.key};
      }
      assert deaths[0..] == deaths;
    }

    /** The cap step at the end of a cycle. */
    method Trim()
      modifies this
      ensures CapStep(old(lastSeen), lastSeen)
    {
      if |lastSeen| > Cap {
        SubsetOfSize(lastSeen, Cap);
        var kept :| kept <= lastSeen && |kept| == Cap;
        lastSeen := kept;
      }
    }
  }

}
