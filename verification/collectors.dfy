/** The newer replay collector (Collectors/PokemonInfo.py): it reads a request
    such as "gen4ou|move", searches the replay server for that format, fetches
    every replay found and counts either the species brought or the moves used,
    most frequent first. The server is reached through the `search` and `fetch`
    parameters: each maps an address to the decoded JSON answer, or None when
    the request did not succeed. */
module Collectors {
  import opened Wrappers
  import opened PyStr
  import opened Sequences
  import opened Showdown
  import opened ReplayLog
  import opened Tally

  /** `game_format in showdown_formats`: the formats the collector searches by
      name; any other is searched as the server's default listing. */
  predicate KnownFormat(f: string) {
    f == "gen9ou" || f == "gen9uu" || f == "gen9ru" || f == "gen9nu" || f == "gen9pu" ||
    f == "gen9zu" || f == "gen9ubers" || f == "gen9lc" || f == "gen9anythinggoes" ||
    f == "gen9cap" || f == "gen9customgame" || f == "gen9doublesou" || f == "gen9doublesuu" ||
    f == "gen9doublesubers" || f == "gen9doubleslc" || f == "gen9vgc2026" ||
    f == "gen9vgc2026regi" || f == "gen9vgc2025regi" || f == "gen9nationaldex" ||
    f == "gen9nationaldexuu" || f == "gen9nationaldexru" || f == "gen9nationaldexubers" ||
    f == "gen9nationaldexag" || f == "gen9nationaldexmonotype" || f == "gen9nationaldexdoubles" ||
    f == "gen9nationaldexlc" || f == "gen9nationaldexbh" || f == "gen91v1factory" ||
    f == "gen9battlefactory" || f == "gen9monotypefactory" || f == "gen9hackmonscup" ||
    f == "gen9challengecup1v1" || f == "gen9randombattle" || f == "gen9randomdoublesbattle" ||
    f == "gen9monotyperandombattle" || f == "gen9randombattleblitz" ||
    f == "gen9computer-assistedrandombattle" || f == "gen9superstaffbrosultimate" ||
    f == "gen9balancedhackmons" || f == "gen9almostanyability" || f == "gen9stabmons" ||
    f == "gen9camomons" || f == "gen9inheritance" || f == "gen9partnersincrime" ||
    f == "gen9sharedpower" || f == "gen9godlygift" || f == "gen9freeforall" ||
    f == "gen9purehackmons" || f == "gen9mixandmega" || f == "gen9metronomebattle" ||
    f == "gen9tieringtest" || f == "gen91v1" || f == "gen9monotype" || f == "gen8ou" ||
    f == "gen8uu" || f == "gen8ru" || f == "gen8nu" || f == "gen8pu" || f == "gen8zu" ||
    f == "gen8ubers" || f == "gen8lc" || f == "gen8anythinggoes" || f == "gen8monotype" ||
    f == "gen81v1" || f == "gen8bdspou" || f == "gen8bdspuu" || f == "gen8bdspubers" ||
    f == "gen8battlefactory" || f == "gen8vgc2022" || f == "gen8randombattle" || f == "gen7ou" ||
    f == "gen7uu" || f == "gen7ru" || f == "gen7nu" || f == "gen7pu" || f == "gen7zu" ||
    f == "gen7ubers" || f == "gen7lc" || f == "gen7anythinggoes" || f == "gen7letsgou" ||
    f == "gen7letsgooverused" || f == "gen7randombattle" || f == "gen7battlefactory" ||
    f == "gen7vgc2019" || f == "gen7monotype" || f == "gen6ou" || f == "gen6uu" || f == "gen6ru" ||
    f == "gen6nu" || f == "gen6pu" || f == "gen6ubers" || f == "gen6lc" ||
    f == "gen6anythinggoes" || f == "gen6randombattle" || f == "gen6battlefactory" ||
    f == "gen6vgc2016" || f == "gen5ou" || f == "gen5uu" || f == "gen5ru" || f == "gen5nu" ||
    f == "gen5pu" || f == "gen5ubers" || f == "gen5lc" || f == "gen5randombattle" ||
    f == "gen5battlefactory" || f == "gen5vgc2013" || f == "gen5bw2customgame" || f == "gen4ou" ||
    f == "gen4uu" || f == "gen4nu" || f == "gen4pu" || f == "gen4ubers" || f == "gen4lc" ||
    f == "gen4randombattle" || f == "gen4battlefactory" || f == "gen4customgame" || f == "gen3ou" ||
    f == "gen3uu" || f == "gen3nu" || f == "gen3ubers" || f == "gen3lc" ||
    f == "gen3randombattle" || f == "gen3battlefactory" || f == "gen3customgame" || f == "gen2ou" ||
    f == "gen2uu" || f == "gen2nu" || f == "gen2ubers" || f == "gen2lc" ||
    f == "gen2randombattle" || f == "gen2stadium2" || f == "gen2customgame" || f == "gen1ou" ||
    f == "gen1uu" || f == "gen1ubers" || f == "gen1lc" || f == "gen1randombattle" ||
    f == "gen1stadium" || f == "gen1customgame"
  }

  const DefaultFormat: string := "gen9ou"
  const DefaultKind: string := "mons"
  const MoveKind: string := "move"

  /** A parsed request: the format to search and what to count. */
  datatype Request = Request(format: string, kind: string)

  /** The parameter parsing at the top of `collect`: the first `|`-field names
      the format, "gen9ou" when it is empty; the second says what to count,
      "mons" when there is no second field. */
  function ParseParam(param: string): (r: Request)
    ensures r.format != [] && '|' !in r.format && '|' !in r.kind
  {
    var parts := Fields(param);
    Request(if parts[0] != [] then parts[0] else DefaultFormat,
            if |parts| > 1 then parts[1] else DefaultKind)
  }

  /** A parameter without a bar names the format alone, and mons are counted. */
  lemma ParamFormatOnly(param: string)
    requires '|' !in param
    ensures ParseParam(param) == Request(if param == [] then DefaultFormat else param, DefaultKind)
  {
    SplitWithoutChar(param, '|');
  }

  /** With a bar, the text before it is the format (defaulted when empty) and
      the field after it is what to count, whatever follows a second bar. */
  lemma ParamFields(format: string, kind: string, rest: string)
    requires '|' !in format && '|' !in kind
    ensures ParseParam(format + "|" + kind) == Request(if format == [] then DefaultFormat else format, kind)
    ensures ParseParam(format + "|" + kind + "|" + rest) == Request(if format == [] then DefaultFormat else format, kind)
  {
    SplitWithoutChar(format, '|');
    SplitWithoutChar(kind, '|');
    assert format + "|" + kind == format + ['|'] + kind;
    SplitCharJoin(format, kind, '|');
    assert format + "|" + kind + "|" + rest == format + ['|'] + (kind + ['|'] + rest);
    SplitCharJoin(format, kind + ['|'] + rest, '|');
    SplitCharJoin(kind, rest, '|');
  }

  /** Only the exact word "move" selects move counting. */
  predicate CountsMoves(r: Request) {
    r.kind == MoveKind
  }

  const SearchBase: string := BaseUrl + "search.json"

  /** The search address, with the format as a query or without one. */
  function QueryUrl(byFormat: bool, format: string): (url: string)
    ensures |SearchBase| <= |url| && url[..|SearchBase|] == SearchBase
    ensures |url| > |SearchBase| <==> byFormat
    ensures byFormat ==> url[|SearchBase|..] == "?format=" + format
    ensures '?' in url <==> byFormat
  {
    if byFormat then
      var url := SearchBase + "?format=" + format;
      assert url[|SearchBase|] == '?';
      url
    else
      assert '?' !in SearchBase;
      SearchBase
  }

  /** `search_replays`' address: the search by format for a known format, the
      bare search otherwise. */
  function SearchUrl(format: string): (url: string)
    ensures |SearchBase| <= |url| && url[..|SearchBase|] == SearchBase
    ensures '?' in url <==> KnownFormat(format)
    ensures KnownFormat(format) ==> url[|SearchBase|..] == "?format=" + format
    ensures !KnownFormat(format) ==> url == SearchBase
  {
    QueryUrl(KnownFormat(format), format)
  }

  /** An empty request searches the default format by name. */
  lemma DefaultSearch()
    ensures SearchUrl(ParseParam("").format) == SearchBase + "?format=" + DefaultFormat
  {
    ParamFormatOnly("");
  }

  /** `match_json.get("log", "")`. */
  function GetReplayLog(m: Json): (log: string)
    ensures "log" in m ==> log == m["log"]
    ensures "log" !in m ==> log == []
  {
    if "log" in m then m["log"] else []
  }

  /** Python's `if match_json:`: a fetched object that is neither None nor empty. */
  predicate Truthy(m: Option<Json>) {
    m.Some? && m.value != map[]
  }

  /** The species one fetched replay contributes: none for a skipped replay. */
  function MatchMons(m: Option<Json>): Result<seq<string>, PyError> {
    if Truthy(m) then ReplayMons(GetReplayLog(m.value)) else Success([])
  }

  /** The moves one fetched replay contributes: none for a skipped replay. */
  function MatchMoves(m: Option<Json>): Result<seq<string>, PyError> {
    if Truthy(m) then Moves(GetReplayLog(m.value)) else Success([])
  }

  /** An empty log shows neither species nor moves. */
  lemma EmptyLog()
    ensures ReplayMons([]) == Success([])
    ensures Moves([]) == Success([])
  {
    assert Split([], "\n") == [[]];
    assert Lines([]) == [[]];
    assert !Contains([], SwitchTag) && !Contains([], MoveTag);
    assert LinesWith([], SwitchTag) == [];
    assert LinesWith([], MoveTag) == [];
    assert Sightings([]) == Success([]);
  }

  /** A replay that is missing, empty or has no log adds nothing. */
  lemma NothingFromMissingLog(m: Option<Json>)
    requires !Truthy(m) || "log" !in m.value
    ensures MatchMons(m) == Success([]) && MatchMoves(m) == Success([])
  {
    EmptyLog();
  }

  /** The species of the fetched replays, in replay order, or the first error. */
  function AllMons(matches: seq<Option<Json>>): (r: Result<seq<string>, PyError>)
    ensures r.Success? <==> forall k :: 0 <= k < |matches| ==> MatchMons(matches[k]).Success?
    ensures r.Failure? ==> r.error == IndexError
  {
    match MapAll(matches, MatchMons)
    case Success(lists) => Success(Concat(lists))
    case Failure(e) =>
      assert e == IndexError by {
        var k :| 0 <= k < |matches| && MatchMons(matches[k]) == Failure(e);
        var m := matches[k];
        if Find(GetReplayLog(m.value), PokeTag).None? {
          assert HiddenTeam(GetReplayLog(m.value)) == Failure(e);
        } else {
          assert SectionMons(GetReplayLog(m.value)) == Failure(e);
        }
      }
      Failure(e)
  }

  /** The moves of the fetched replays, in replay order, or the first error. */
  function AllMoves(matches: seq<Option<Json>>): (r: Result<seq<string>, PyError>)
    ensures r.Success? <==> forall k :: 0 <= k < |matches| ==> MatchMoves(matches[k]).Success?
    ensures r.Failure? ==> r.error == IndexError
  {
    match MapAll(matches, MatchMoves)
    case Success(lists) => Success(Concat(lists))
    case Failure(e) =>
      assert e == IndexError by {
        var k :| 0 <= k < |matches| && MatchMoves(matches[k]) == Failure(e);
      }
      Failure(e)
  }

  /** Replays are tallied one after another: the species of a longer run are
      those of its first part followed by those of the rest. */
  lemma AllMonsAppend(a: seq<Option<Json>>, b: seq<Option<Json>>)
    ensures AllMons(a + b) == Then(AllMons(a), AllMons(b))
  {
    MapAllAppend(a, b, MatchMons);
    if MapAll(a, MatchMons).Success? && MapAll(b, MatchMons).Success? {
      ConcatAppend(MapAll(a, MatchMons).value, MapAll(b, MatchMons).value);
    }
  }

  /** Likewise for moves. */
  lemma AllMovesAppend(a: seq<Option<Json>>, b: seq<Option<Json>>)
    ensures AllMoves(a + b) == Then(AllMoves(a), AllMoves(b))
  {
    MapAllAppend(a, b, MatchMoves);
    if MapAll(a, MatchMoves).Success? && MapAll(b, MatchMoves).Success? {
      ConcatAppend(MapAll(a, MatchMoves).value, MapAll(b, MatchMoves).value);
    }
  }

  /** A single fetched replay contributes exactly the species it shows, or its
      error; with `AllMonsAppend` this fixes the list of any run of replays. */
  lemma AllMonsOne(m: Option<Json>)
    ensures AllMons([m]) == MatchMons(m)
  {
    if MatchMons(m).Success? {
      var v := MatchMons(m).value;
      MapAllSuccess([m], MatchMons, [v]);
      assert Concat([v]) == v by {
        assert [v][1..] == [];
        assert v + [] == v;
      }
    }
  }

  /** A single fetched replay contributes exactly the moves it shows, or its error. */
  lemma AllMovesOne(m: Option<Json>)
    ensures AllMoves([m]) == MatchMoves(m)
  {
    if MatchMoves(m).Success? {
      var v := MatchMoves(m).value;
      MapAllSuccess([m], MatchMoves, [v]);
      assert Concat([v]) == v by {
        assert [v][1..] == [];
        assert v + [] == v;
      }
    }
  }

  /** A replay that is missing, empty or without a log changes no count. */
  lemma SkippedReplay(a: seq<Option<Json>>, m: Option<Json>, b: seq<Option<Json>>)
    requires !Truthy(m) || "log" !in m.value
    ensures AllMons(a + [m] + b) == AllMons(a + b)
    ensures AllMoves(a + [m] + b) == AllMoves(a + b)
  {
    SkippedAlone(m);
    AllMonsAppend(a + [m], b);
    AllMonsAppend(a, [m]);
    AllMonsAppend(a, b);
    ThenNothing(AllMons(a), AllMons(b));
    AllMovesAppend(a + [m], b);
    AllMovesAppend(a, [m]);
    AllMovesAppend(a, b);
    ThenNothing(AllMoves(a), AllMoves(b));
  }

  /** A skipped replay on its own contributes neither species nor moves. */
  lemma SkippedAlone(m: Option<Json>)
    requires !Truthy(m) || "log" !in m.value
    ensures AllMons([m]) == Success([]) && AllMoves([m]) == Success([])
  {
    NothingFromMissingLog(m);
    var none: seq<string> := [];
    MapAllSuccess([m], MatchMons, [none]);
    MapAllSuccess([m], MatchMoves, [none]);
    assert Concat([none]) == none by {
      assert [none][1..] == [];
    }
  }

  /** `executor.map(get_replay_info, replay_ids)`: each replay fetched from its
      address, in id order. */
  function Fetched(ids: seq<string>, fetch: string -> Option<Json>): (ms: seq<Option<Json>>)
    ensures |ms| == |ids| && forall k :: 0 <= k < |ids| ==> ms[k] == fetch(ReplayUrl(ids[k]))
  {
    seq(|ids|, k requires 0 <= k < |ids| => fetch(ReplayUrl(ids[k])))
  }

  /** The pool's answers keep id order: fetching two runs of ids one after the
      other gives the first run's replays followed by the second's. */
  lemma FetchedAppend(a: seq<string>, b: seq<string>, fetch: string -> Option<Json>)
    ensures Fetched(a + b, fetch) == Fetched(a, fetch) + Fetched(b, fetch)
  {
    var l := Fetched(a + b, fetch);
    var r := Fetched(a, fetch) + Fetched(b, fetch);
    forall k | 0 <= k < |l|
      ensures l[k] == r[k]
    {
      if k < |a| {
        assert (a + b)[k] == a[k];
      } else {
        assert (a + b)[k] == b[k - |a|];
      }
    }
  }

  /** The species the search results lead to, or the first error. */
  function MonsFetched(items: seq<Json>, fetch: string -> Option<Json>): Result<seq<string>, PyError> {
    var ids :- ReplayIds(items);
    AllMons(Fetched(ids, fetch))
  }

  /** The moves the search results lead to, or the first error. */
  function MovesFetched(items: seq<Json>, fetch: string -> Option<Json>): Result<seq<string>, PyError> {
    var ids :- ReplayIds(items);
    AllMoves(Fetched(ids, fetch))
  }

  /** `count_mons`: every species seen with its number of sightings, most
      frequent first and ties in first-seen order; None when nothing was seen. */
  function CountMons(items: seq<Json>, fetch: string -> Option<Json>): (r: Result<Option<Counts>, PyError>)
    ensures r.Failure? <==> MonsFetched(items, fetch).Failure?
    ensures r.Failure? ==> r.error == KeyError || r.error == IndexError
    ensures r.Success? ==> (r.value.None? <==> MonsFetched(items, fetch).value == [])
    ensures r.Success? && r.value.Some? ==> RankedCount(r.value.value, MonsFetched(items, fetch).value, Descending)
  {
    match MonsFetched(items, fetch)
    case Failure(e) => Failure(e)
    case Success(mons) =>
      var counts := CountSorted(mons, Descending);
      RankedEmpty(counts, mons, Descending);
      if counts == [] then Success(None) else Success(Some(counts))
  }

  /** `count_moves`: every move used with its number of uses, most frequent
      first and ties in first-used order; the empty table when none was used. */
  function CountMoves(items: seq<Json>, fetch: string -> Option<Json>): (r: Result<Counts, PyError>)
    ensures r.Failure? <==> MovesFetched(items, fetch).Failure?
    ensures r.Failure? ==> r.error == KeyError || r.error == IndexError
    ensures r.Success? ==> RankedCount(r.value, MovesFetched(items, fetch).value, Descending)
  {
    match MovesFetched(items, fetch)
    case Failure(e) => Failure(e)
    case Success(moves) => Success(CountSorted(moves, Descending))
  }

  /** What a request counts from the search results: moves or species. */
  function Counted(req: Request, items: seq<Json>, fetch: string -> Option<Json>): Result<seq<string>, PyError> {
    if CountsMoves(req) then MovesFetched(items, fetch) else MonsFetched(items, fetch)
  }

  /** `collect`: the empty table when the search fails or finds nothing;
      otherwise the ranked counts of what the request asks for, or None when
      species were asked for and none was seen. */
  function Collect(param: string, search: string -> Option<seq<Json>>, fetch: string -> Option<Json>): (r: Result<Option<Counts>, PyError>)
    ensures var found := search(SearchUrl(ParseParam(param).format));
            found.None? || found.value == [] ==> r == Success(Some([]))
    ensures var found := search(SearchUrl(ParseParam(param).format));
            found.Some? && found.value != [] ==>
              var counted := Counted(ParseParam(param), found.value, fetch);
              && (r.Failure? <==> counted.Failure?)
              && (r.Success? ==> (r.value.None? <==> !CountsMoves(ParseParam(param)) && counted.value == []))
              && (r.Success? && r.value.Some? ==> RankedCount(r.value.value, counted.value, Descending))
  {
    var req := ParseParam(param);
    match search(SearchUrl(req.format))
    case None => Success(Some([]))
    case Some(replays) =>
      if replays == [] then Success(Some([]))
      else if CountsMoves(req) then
        match CountMoves(replays, fetch)
        case Success(counts) => Success(Some(counts))
        case Failure(e) => Failure(e)
      else
        CountMons(replays, fetch)
  }
}
