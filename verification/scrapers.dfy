/** The older scraper (Scrapers/PokemonInfo.py): it reads the players and the
    previewed team out of a replay log and counts species over a list of
    replays, fetched one after another and counted least frequent first.
    Unlike the collector it does not skip a replay it could not fetch:
    subscripting the missing answer raises. */
module Scrapers {
  import opened Wrappers
  import opened PyStr
  import opened Sequences
  import opened Showdown
  import opened ReplayLog
  import opened Tally
  import Collectors

  // ---------------------------------------------------------------------------
  // get_replay_users

  const PlayerTag: string := "|player|"
  const GenTag: string := "|gen|"

  /** `log[log.find("|player|"):log.find("|gen|")]`, where a missing tag gives
      -1 and Python's negative slicing applies. */
  function PlayerSection(log: string): (section: string)
    ensures |section| <= |log|
    ensures Find(log, PlayerTag).None? ==> section == []
  {
    var gen := Find(log, GenTag);
    assert gen.Some? ==> OccursAt(log, GenTag, gen.value);
    PySlice(log, IndexOrMinusOne(Find(log, PlayerTag)), IndexOrMinusOne(gen))
  }

  /** With both tags present in order, the section runs from the first player
      tag up to the first `|gen|`. */
  lemma SectionBetweenTags(log: string, i: nat, j: nat)
    requires Find(log, PlayerTag) == Some(i) && Find(log, GenTag) == Some(j) && i <= j
    ensures PlayerSection(log) == log[i..j]
  {
    assert OccursAt(log, GenTag, j);
  }

  /** Without `|gen|` the end index is -1: the section runs to the log's last
      character, which it leaves out. */
  lemma SectionWithoutGen(log: string, i: nat)
    requires Find(log, PlayerTag) == Some(i) && Find(log, GenTag).None?
    ensures i < |log| && PlayerSection(log) == log[i..|log| - 1]
  {
    assert OccursAt(log, PlayerTag, i);
    SliceToLast(log, i);
  }

  /** `i.split("|")[1]`: the user named in one player tag; IndexError when it
      has no second field. */
  function UserOf(tag: string): (r: Result<string, PyError>)
    ensures r.Success? <==> |Fields(tag)| >= 2
    ensures r.Failure? ==> r.error == IndexError
    ensures r.Success? ==> r.value == Fields(tag)[1]
    ensures r.Success? ==> '|' !in r.value && forall x :: x in r.value ==> x in tag
  {
    var fields := Fields(tag);
    if |fields| < 2 then Failure(IndexError) else Success(fields[1])
  }

  /** The users named by the player tags of a section, in order. */
  function UsersIn(section: string): (r: Result<seq<string>, PyError>)
    ensures r.Success? <==> forall k :: 1 <= k < |Split(section, PlayerTag)| ==> |Fields(Split(section, PlayerTag)[k])| >= 2
    ensures r.Success? ==> |r.value| == |Split(section, PlayerTag)| - 1
    ensures r.Success? ==> forall k :: 0 <= k < |r.value| ==> UserOf(Split(section, PlayerTag)[k + 1]) == Success(r.value[k])
    ensures r.Success? ==> forall k :: 0 <= k < |r.value| ==> '|' !in r.value[k]
    ensures r.Failure? ==> r.error == IndexError
  {
    var tags := Split(section, PlayerTag)[1..];
    var r := MapAll(tags, UserOf);
    assert forall k :: 0 <= k < |tags| ==> tags[k] == Split(section, PlayerTag)[k + 1];
    assert r.Failure? ==> r.error == IndexError by {
      if r.Failure? {
        var k :| 0 <= k < |tags| && UserOf(tags[k]) == Failure(r.error);
      }
    }
    r
  }

  /** The usernames `get_replay_users` builds: one per `|player|` tag of the
      player section, in log order. */
  function Users(log: string): (r: Result<seq<string>, PyError>)
    ensures r.Success? <==> forall k :: 1 <= k < |Split(PlayerSection(log), PlayerTag)| ==> |Fields(Split(PlayerSection(log), PlayerTag)[k])| >= 2
    ensures r.Success? ==> |r.value| == |Split(PlayerSection(log), PlayerTag)| - 1
    ensures r.Success? ==> forall k :: 0 <= k < |r.value| ==> UserOf(Split(PlayerSection(log), PlayerTag)[k + 1]) == Success(r.value[k])
    ensures r.Failure? ==> r.error == IndexError
  {
    var section := PlayerSection(log);
    var r := UsersIn(section);
    assert r.Success? <==> forall k :: 1 <= k < |Split(section, PlayerTag)| ==> |Fields(Split(section, PlayerTag)[k])| >= 2;
    r
  }

  /** A log without a player tag names no users. */
  lemma NoPlayers(log: string)
    requires Find(log, PlayerTag).None?
    ensures Users(log) == Success([])
  {
    var section := PlayerSection(log);
    forall j: nat
      ensures !OccursAt(section, PlayerTag, j)
    {
    }
    SplitClear(section, PlayerTag);
  }

  /** A player line as the log records it after its tag: `p1|Alice|` and
      whatever follows up to the next player tag. */
  datatype Player = Player(slot: string, name: string, rest: string)

  function PlayerRecord(p: Player): string {
    p.slot + "|" + p.name + "|" + p.rest
  }

  function PlayerRecords(ps: seq<Player>): (recs: seq<string>)
    ensures |recs| == |ps| && forall k :: 0 <= k < |ps| ==> recs[k] == PlayerRecord(ps[k])
  {
    if ps == [] then [] else [PlayerRecord(ps[0])] + PlayerRecords(ps[1..])
  }

  function Names(ps: seq<Player>): (names: seq<string>)
    ensures |names| == |ps| && forall k :: 0 <= k < |ps| ==> names[k] == ps[k].name
  {
    if ps == [] then [] else [ps[0].name] + Names(ps[1..])
  }

  /** A player the parser reads back: slot and name free of bars, and no player
      tag inside the record. */
  predicate ReadablePlayer(p: Player) {
    '|' !in p.slot && '|' !in p.name && TagFree(PlayerTag, PlayerRecord(p))
  }

  /** The second field of a player record is the name. */
  lemma UserOfRecord(p: Player)
    requires '|' !in p.slot && '|' !in p.name
    ensures UserOf(PlayerRecord(p)) == Success(p.name)
  {
    var tail := p.name + ['|'] + p.rest;
    assert PlayerRecord(p) == p.slot + ['|'] + tail;
    SplitCharJoin(p.slot, tail, '|');
    SplitCharJoin(p.name, p.rest, '|');
    SplitWithoutChar(p.slot, '|');
    SplitWithoutChar(p.name, '|');
  }

  /** A player section made of player tags, each followed by its record, yields
      the players' names in order. */
  lemma UsersOfSection(ps: seq<Player>)
    requires forall k :: 0 <= k < |ps| ==> ReadablePlayer(ps[k])
    ensures UsersIn(Tagged(PlayerTag, PlayerRecords(ps))) == Success(Names(ps))
  {
    var recs := PlayerRecords(ps);
    SplitTagged(PlayerTag, recs);
    assert Split(Tagged(PlayerTag, recs), PlayerTag)[1..] == recs;
    forall k | 0 <= k < |recs|
      ensures UserOf(recs[k]) == Success(Names(ps)[k])
    {
      UserOfRecord(ps[k]);
    }
    MapAllSuccess(recs, UserOf, Names(ps));
  }

  /** `get_replay_users` on a log whose text between the first player tag and
      the first `|gen|` is a run of player lines: their names, in order. */
  lemma UsersBetweenTags(log: string, i: nat, j: nat, ps: seq<Player>)
    requires Find(log, PlayerTag) == Some(i) && Find(log, GenTag) == Some(j) && i <= j
    requires log[i..j] == Tagged(PlayerTag, PlayerRecords(ps))
    requires forall k :: 0 <= k < |ps| ==> ReadablePlayer(ps[k])
    ensures Users(log) == Success(Names(ps))
  {
    SectionBetweenTags(log, i, j);
    UsersOfSection(ps);
  }

  // ---------------------------------------------------------------------------
  // get_replay_mons, get_replay_log and count_mons

  /** The scraper's `get_replay_mons`: the visible-team parse alone, with no
      fallback for logs that show no team preview. */
  function GetReplayMons(log: string): (r: Result<seq<string>, PyError>)
    ensures Find(log, PokeTag).None? ==> r == Success([])
    ensures Find(log, PokeTag).Some? ==> r == ReplayMons(log)
  {
    if Find(log, PokeTag).None? then
      NoPokeMons(log);
      SectionMons(log)
    else
      SectionMons(log)
  }

  /** A logged team preview reads back as the previewed species. */
  lemma PreviewMons(pre: string, team: seq<Entry>, post: string)
    requires PreviewLog(pre, team, post)
    ensures GetReplayMons(pre + Join(PokeLines(team), "\n") + post) == Success(SpeciesOf(team))
  {
    PreviewRoundTrip(pre, team, post);
  }

  /** `match_json["log"]`: TypeError for a replay that could not be fetched,
      KeyError for one without a log. */
  function GetReplayLog(m: Option<Json>): (r: Result<string, PyError>)
    ensures r.Success? <==> m.Some? && "log" in m.value
    ensures r.Success? ==> r.value == m.value["log"]
    ensures m.None? ==> r == Failure(TypeError)
    ensures m.Some? && "log" !in m.value ==> r == Failure(KeyError)
  {
    match m
    case None => Failure(TypeError)
    case Some(j) => if "log" in j then Success(j["log"]) else Failure(KeyError)
  }

  /** The species one fetched replay contributes, or the error it raises. */
  function EntryMons(m: Option<Json>): Result<seq<string>, PyError> {
    var log :- GetReplayLog(m);
    GetReplayMons(log)
  }

  /** The species of the fetched replays, in replay order, or the first error. */
  function AllMons(matches: seq<Option<Json>>): (r: Result<seq<string>, PyError>)
    ensures r.Success? <==> forall k :: 0 <= k < |matches| ==> EntryMons(matches[k]).Success?
    ensures r.Success? ==> forall k :: 0 <= k < |matches| ==> matches[k].Some? && "log" in matches[k].value
    ensures r.Failure? ==> r.error in {TypeError, KeyError, IndexError}
  {
    match MapAll(matches, EntryMons)
    case Success(lists) => Success(Concat(lists))
    case Failure(e) =>
      assert e in {TypeError, KeyError, IndexError} by {
        var k :| 0 <= k < |matches| && EntryMons(matches[k]) == Failure(e);
      }
      Failure(e)
  }

  /** Replays are read one after another: the species of a longer run are
      those of its first part followed by those of the rest. */
  lemma AllMonsAppend(a: seq<Option<Json>>, b: seq<Option<Json>>)
    ensures AllMons(a + b) == Then(AllMons(a), AllMons(b))
  {
    MapAllAppend(a, b, EntryMons);
    if MapAll(a, EntryMons).Success? && MapAll(b, EntryMons).Success? {
      ConcatAppend(MapAll(a, EntryMons).value, MapAll(b, EntryMons).value);
    }
  }

  /** A single fetched replay contributes exactly the species its own log
      shows, or its error; with `AllMonsAppend` this fixes the list of any run
      of replays. */
  lemma AllMonsOne(m: Option<Json>)
    ensures AllMons([m]) == EntryMons(m)
  {
    if EntryMons(m).Success? {
      var v := EntryMons(m).value;
      MapAllSuccess([m], EntryMons, [v]);
      assert Concat([v]) == v by {
        assert [v][1..] == [];
        assert v + [] == v;
      }
    }
  }

  /** The species the search results lead to, or the first error. */
  function MonsFetched(items: seq<Json>, fetch: string -> Option<Json>): Result<seq<string>, PyError> {
    var ids :- ReplayIds(items);
    AllMons(Collectors.Fetched(ids, fetch))
  }

  /** `count_mons`: every species seen with its number of sightings, least
      frequent first and ties in first-seen order. A successful count has found
      every replay and its log. */
  function CountMons(items: seq<Json>, fetch: string -> Option<Json>): (r: Result<Counts, PyError>)
    ensures r.Failure? <==> MonsFetched(items, fetch).Failure?
    ensures r.Success? ==> RankedCount(r.value, MonsFetched(items, fetch).value, Ascending)
    ensures r.Success? ==> forall k :: 0 <= k < |items| ==>
              "id" in items[k] && fetch(ReplayUrl(items[k]["id"])).Some? && "log" in fetch(ReplayUrl(items[k]["id"])).value
    ensures r.Failure? ==> r.error in {TypeError, KeyError, IndexError}
  {
    match MonsFetched(items, fetch)
    case Failure(e) => Failure(e)
    case Success(mons) =>
      var ids := ReplayIds(items).value;
      assert forall k :: 0 <= k < |items| ==> Collectors.Fetched(ids, fetch)[k] == fetch(ReplayUrl(items[k]["id"]));
      Success(CountSorted(mons, Ascending))
  }

  /** On replays that are all found and all show a team preview, the scraper
      and the collector see the same species, so their counts hold the same
      entries, the one least frequent first and the other most frequent first. */
  lemma SameCountsAsCollector(items: seq<Json>, fetch: string -> Option<Json>)
    requires forall k :: 0 <= k < |items| ==> "id" in items[k]
    requires forall k :: 0 <= k < |items| ==>
               var m := fetch(ReplayUrl(items[k]["id"]));
               m.Some? && "log" in m.value && Find(m.value["log"], PokeTag).Some?
    ensures MonsFetched(items, fetch) == Collectors.MonsFetched(items, fetch)
    ensures CountMons(items, fetch).Success? <==> Collectors.CountMons(items, fetch).Success?
    ensures CountMons(items, fetch).Success? ==>
              var mine := CountMons(items, fetch).value;
              var theirs := Collectors.CountMons(items, fetch).value;
              (mine == [] <==> theirs.None?) && (theirs.Some? ==> forall e :: e in mine <==> e in theirs.value)
  {
    var ids := ReplayIds(items).value;
    var ms := Collectors.Fetched(ids, fetch);
    forall k | 0 <= k < |ms|
      ensures EntryMons(ms[k]) == Collectors.MatchMons(ms[k])
    {
      var m := ms[k].value;
      assert ms[k] == fetch(ReplayUrl(items[k]["id"]));
      assert "log" in m;
    }
    MapAllPointwise(ms, EntryMons, ms, Collectors.MatchMons);
    var r := CountMons(items, fetch);
    if r.Success? {
      var mons := MonsFetched(items, fetch).value;
      RankedEmpty(r.value, mons, Ascending);
      var theirs := Collectors.CountMons(items, fetch).value;
      if theirs.Some? {
        SameEntries(r.value, Ascending, theirs.value, Descending, mons);
      }
    }
  }
}
