/** Reading a replay's battle log, the text protocol Showdown records a battle
    in: one message per line, each line a sequence of `|`-separated fields such
    as `|move|p1a: Garchomp|Earthquake|p2a: Ferrothorn` or
    `|switch|p2a: Ferrothorn|Ferrothorn, F|100/100`. */
module ReplayLog {
  import opened Wrappers
  import opened PyStr
  import opened Sequences
  import opened Showdown

  /** `log.split("\n")`: the lines, none holding a newline, that make up the log. */
  function Lines(log: string): (lines: seq<string>)
    ensures |lines| >= 1 && Join(lines, "\n") == log
    ensures forall k :: 0 <= k < |lines| ==> '\n' !in lines[k]
  {
    SplitCharPieces(log, '\n');
    Split(log, "\n")
  }

  /** A log written line by line splits back into those lines. */
  lemma LinesOfJoin(lines: seq<string>)
    requires |lines| >= 1
    requires forall k :: 0 <= k < |lines| ==> '\n' !in lines[k]
    ensures Lines(Join(lines, "\n")) == lines
  {
    SplitJoinChar(lines, '\n');
  }

  /** `[x for x in log.split("\n") if tag in x]`. */
  function LinesWith(log: string, tag: string): seq<string> {
    Containing(Lines(log), tag)
  }

  /** `line.split("|")`: the fields of a line, none holding a `|`. */
  function Fields(line: string): (fields: seq<string>)
    ensures |fields| >= 1
    ensures forall k :: 0 <= k < |fields| ==> '|' !in fields[k]
    ensures forall k, x :: 0 <= k < |fields| && x in fields[k] ==> x in line
  {
    SplitCharPieces(line, '|');
    SplitKeepsChars(line, "|");
    Split(line, "|")
  }

  /** `s.split(c)[0]`: the text before the first `c`. */
  function Before(s: string, c: char): (r: string)
    ensures c !in r
    ensures forall x :: x in r ==> x in s
    ensures c !in s ==> r == s
    ensures r <= s && (|r| == |s| || s[|r|] == c)
  {
    SplitCharPieces(s, c);
    SplitKeepsChars(s, [c]);
    SplitWithoutChar(s, c);
    if Find(s, [c]).Some? then
      SplitFirstChar(s, c, Find(s, [c]).value);
      OccursChar(s, c);
      Split(s, [c])[0]
    else
      ContainsChar(s, c);
      Split(s, [c])[0]
  }

  // ---------------------------------------------------------------------------
  // Moves: get_replay_moves

  const MoveTag: string := "|move|"

  /** `x.split("|")[3]`: the move named on a move line; IndexError when the line
      has fewer than four fields. */
  function MoveOf(line: string): (r: Result<string, PyError>)
    ensures r.Success? <==> |Fields(line)| >= 4
    ensures r.Failure? ==> r.error == IndexError
    ensures r.Success? ==> r.value == Fields(line)[3]
    ensures r.Success? ==> '|' !in r.value && forall x :: x in r.value ==> x in line
  {
    var fields := Fields(line);
    if |fields| < 4 then Failure(IndexError) else Success(fields[3])
  }

  /** `get_replay_moves`: one move per line holding `|move|`, in log order. */
  function Moves(log: string): (r: Result<seq<string>, PyError>)
    ensures r.Success? <==> forall k :: 0 <= k < |LinesWith(log, MoveTag)| ==> |Fields(LinesWith(log, MoveTag)[k])| >= 4
    ensures r.Success? ==> |r.value| == |LinesWith(log, MoveTag)|
    ensures r.Success? ==> forall k :: 0 <= k < |r.value| ==>
              |Fields(LinesWith(log, MoveTag)[k])| >= 4 && r.value[k] == Fields(LinesWith(log, MoveTag)[k])[3]
    ensures r.Success? ==> forall k :: 0 <= k < |r.value| ==> '|' !in r.value[k] && '\n' !in r.value[k]
    ensures r.Failure? ==> r.error == IndexError
  {
    var lines := LinesWith(log, MoveTag);
    var r := MapAll(lines, MoveOf);
    assert r.Success? ==> forall k :: 0 <= k < |r.value| ==> '\n' !in r.value[k] by {
      if r.Success? {
        forall k | 0 <= k < |r.value|
          ensures '\n' !in r.value[k]
        {
          assert MoveOf(lines[k]) == Success(r.value[k]);
          assert lines[k] in Lines(log);
        }
      }
    }
    assert r.Failure? ==> r.error == IndexError by {
      if r.Failure? {
        var k :| 0 <= k < |lines| && MoveOf(lines[k]) == Failure(r.error);
      }
    }
    r
  }

  /** The moves of a log written line by line are the moves of its move lines,
      taken in line order. */
  lemma MovesOfLines(lines: seq<string>)
    requires |lines| >= 1
    requires forall k :: 0 <= k < |lines| ==> '\n' !in lines[k]
    ensures Moves(Join(lines, "\n")) == MapAll(Containing(lines, MoveTag), MoveOf)
  {
    LinesOfJoin(lines);
  }

  /** Appending lines to a log appends their moves after the earlier ones. */
  lemma MovesAppend(a: seq<string>, b: seq<string>)
    requires |a| >= 1 && |b| >= 1
    requires forall k :: 0 <= k < |a| ==> '\n' !in a[k]
    requires forall k :: 0 <= k < |b| ==> '\n' !in b[k]
    ensures Moves(Join(a + b, "\n")) == Then(Moves(Join(a, "\n")), Moves(Join(b, "\n")))
  {
    MovesOfLines(a);
    MovesOfLines(b);
    MovesOfLines(a + b);
    ContainingAppend(a, b, MoveTag);
    MapAllAppend(Containing(a, MoveTag), Containing(b, MoveTag), MoveOf);
  }

  /** A battle-log message: its fields after a leading `|`, each closed off by
      the next `|`, as in `|move|p1a: Garchomp|Earthquake|p2a: Ferrothorn`. */
  function Message(fields: seq<string>): string {
    Join([[]] + fields, "|")
  }

  /** A message whose fields hold no `|` splits back into the empty text before
      the first bar followed by its fields. */
  lemma MessageFields(fields: seq<string>)
    requires forall k :: 0 <= k < |fields| ==> '|' !in fields[k]
    ensures Fields(Message(fields)) == [[]] + fields
  {
    var parts := [[]] + fields;
    forall k | 0 <= k < |parts|
      ensures '|' !in parts[k]
    {
      if k > 0 {
        assert parts[k] == fields[k - 1];
      }
    }
    SplitJoinChar(parts, '|');
  }

  /** A message whose fields hold no newline is one line. */
  lemma MessageOneLine(fields: seq<string>)
    requires forall k :: 0 <= k < |fields| ==> '\n' !in fields[k]
    ensures '\n' !in Message(fields)
  {
    var parts := [[]] + fields;
    forall k | 0 <= k < |parts|
      ensures '\n' !in parts[k]
    {
      if k > 0 {
        assert parts[k] == fields[k - 1];
      }
    }
    JoinWithout(parts, "|", '\n');
  }

  /** A message starts with `|`, its first field and another `|`. */
  lemma MessageStart(tag: string, fields: seq<string>)
    requires fields != []
    ensures |Message([tag] + fields)| >= |tag| + 2
    ensures Message([tag] + fields)[..|tag| + 2] == "|" + tag + "|"
  {
    var parts := [[]] + ([tag] + fields);
    assert parts[0] == [] && parts[1..] == [tag] + fields;
    assert ([tag] + fields)[0] == tag && ([tag] + fields)[1..] == fields;
    var m := Message([tag] + fields);
    assert Join([tag] + fields, "|") == tag + "|" + Join(fields, "|");
    assert m == [] + "|" + Join([tag] + fields, "|");
    assert m == ("|" + tag + "|") + Join(fields, "|");
  }

  /** One use of a move as the battle log records it: the acting Pokémon
      (`p1a: Garchomp`), the move, and the fields after them. */
  datatype MoveUse = MoveUse(user: string, move: string, after: seq<string>)

  /** The line a move use is written as: `|move|p1a: Garchomp|Earthquake|...`. */
  function MoveLine(u: MoveUse): string {
    Message(["move", u.user, u.move] + u.after)
  }

  /** A use the parser reads back: no field holds a `|` or a newline. */
  predicate ReadableUse(u: MoveUse) {
    && '|' !in u.user && '\n' !in u.user
    && '|' !in u.move && '\n' !in u.move
    && (forall k :: 0 <= k < |u.after| ==> '|' !in u.after[k] && '\n' !in u.after[k])
  }

  /** A line of a battle log: a move use, or any other message without `|move|`. */
  datatype LogLine = Used(use: MoveUse) | Other(text: string)

  function LineText(l: LogLine): string {
    match l
    case Used(u) => MoveLine(u)
    case Other(t) => t
  }

  predicate ReadableLine(l: LogLine) {
    match l
    case Used(u) => ReadableUse(u)
    case Other(t) => '\n' !in t && !Contains(t, MoveTag)
  }

  function LineTexts(ls: seq<LogLine>): (lines: seq<string>)
    ensures |lines| == |ls|
  {
    if ls == [] then [] else [LineText(ls[0])] + LineTexts(ls[1..])
  }

  /** The moves used on the given lines, in line order. */
  function UsedMoves(ls: seq<LogLine>): seq<string> {
    if ls == [] then []
    else (if ls[0].Used? then [ls[0].use.move] else []) + UsedMoves(ls[1..])
  }

  /** The fields of a move use's line, in order. */
  lemma MoveUseFields(u: MoveUse)
    requires ReadableUse(u)
    ensures var fs := ["move", u.user, u.move] + u.after;
            && (forall k :: 0 <= k < |fs| ==> '|' !in fs[k] && '\n' !in fs[k])
            && fs == ["move"] + ([u.user, u.move] + u.after)
            && fs[2] == u.move
  {
    var fs := ["move", u.user, u.move] + u.after;
    forall k | 0 <= k < |fs|
      ensures '|' !in fs[k] && '\n' !in fs[k]
    {
      if k >= 3 {
        assert fs[k] == u.after[k - 3];
      }
    }
  }

  /** A move line is one line, holds `|move|`, and reads back as its move. */
  lemma MoveOfLine(u: MoveUse)
    requires ReadableUse(u)
    ensures '\n' !in MoveLine(u)
    ensures Contains(MoveLine(u), MoveTag)
    ensures MoveOf(MoveLine(u)) == Success(u.move)
  {
    var fs := ["move", u.user, u.move] + u.after;
    MoveUseFields(u);
    MessageFields(fs);
    MessageOneLine(fs);
    MessageStart("move", [u.user, u.move] + u.after);
    assert OccursAt(MoveLine(u), MoveTag, 0);
  }

  /** The move lines of a log, read one by one, give the moves used, in order. */
  lemma {:induction false} MovesOfLogLines(ls: seq<LogLine>)
    requires forall k :: 0 <= k < |ls| ==> ReadableLine(ls[k])
    ensures MapAll(Containing(LineTexts(ls), MoveTag), MoveOf) == Success(UsedMoves(ls))
    ensures forall k :: 0 <= k < |ls| ==> '\n' !in LineTexts(ls)[k]
  {
    if ls != [] {
      var lines := LineTexts(ls);
      assert lines[1..] == LineTexts(ls[1..]);
      MovesOfLogLines(ls[1..]);
      var head := if Contains(lines[0], MoveTag) then [lines[0]] else [];
      assert Containing(lines, MoveTag) == head + Containing(lines[1..], MoveTag);
      MapAllAppend(head, Containing(lines[1..], MoveTag), MoveOf);
      MovesOfLogLine(ls[0]);
      assert forall k :: 1 <= k < |ls| ==> lines[k] == LineTexts(ls[1..])[k - 1];
    }
  }

  /** One line of a log, read for moves: its move if it is a move use, nothing
      otherwise. */
  lemma MovesOfLogLine(l: LogLine)
    requires ReadableLine(l)
    ensures '\n' !in LineText(l)
    ensures MapAll(if Contains(LineText(l), MoveTag) then [LineText(l)] else [], MoveOf)
              == Success(if l.Used? then [l.use.move] else [])
  {
    match l
    case Used(u) =>
      MoveOfLine(u);
      MapAllSuccess([LineText(l)], MoveOf, [u.move]);
    case Other(t) =>
  }

  /** Round trip: a log written as lines of move uses and other messages reads
      back as the moves used, in log order. */
  lemma MovesReadBack(ls: seq<LogLine>)
    requires |ls| >= 1
    requires forall k :: 0 <= k < |ls| ==> ReadableLine(ls[k])
    ensures Moves(Join(LineTexts(ls), "\n")) == Success(UsedMoves(ls))
  {
    MovesOfLogLines(ls);
    MovesOfLines(LineTexts(ls));
  }

  // ---------------------------------------------------------------------------
  // The hidden-team branch of get_replay_mons

  const SwitchTag: string := "|switch|"

  /** One switch-in: the player slot (`p1a`, from `p1a: Nickname`) and the species
      (from `Garchomp, L50, F`). */
  type Sighting = (string, string)

  /** `entry.split("|")[2].split(":")[0]` and `entry.split("|")[3].split(",")[0]`.
      A line holding `|switch|` always has a third field, so the IndexError comes
      from a missing fourth one. */
  function SightingOf(line: string): (r: Result<Sighting, PyError>)
    ensures r.Success? <==> |Fields(line)| >= 4
    ensures r.Failure? ==> r.error == IndexError
    ensures r.Success? ==> ':' !in r.value.0 && '|' !in r.value.0 && ',' !in r.value.1 && '|' !in r.value.1
    ensures r.Success? ==> r.value.0 <= Fields(line)[2] && (|r.value.0| == |Fields(line)[2]| || Fields(line)[2][|r.value.0|] == ':')
    ensures r.Success? ==> r.value.1 <= Fields(line)[3] && (|r.value.1| == |Fields(line)[3]| || Fields(line)[3][|r.value.1|] == ',')
  {
    var fields := Fields(line);
    if |fields| < 4 then Failure(IndexError)
    else Success((Before(fields[2], ':'), Before(fields[3], ',')))
  }

  /** One switch-in as the battle log records it: the slot (`p1a`), the
      nickname, the species, its details (such as `, L50, F`) and the fields
      after them. */
  datatype Switch = Switch(slot: string, nick: string, species: string, details: string, after: seq<string>)

  /** The line a switch-in is written as: `|switch|p1a: Chompy|Garchomp, F|100/100`. */
  function SwitchLine(s: Switch): string {
    Message(["switch", s.slot + ": " + s.nick, s.species + s.details] + s.after)
  }

  /** A switch-in the parser reads back: no field holds a `|`, the slot holds
      no `:`, the species no `,`, and the details, when present, start with a
      comma. */
  predicate ReadableSwitch(s: Switch) {
    && '|' !in s.slot && ':' !in s.slot
    && '|' !in s.nick
    && '|' !in s.species && ',' !in s.species
    && '|' !in s.details && (s.details == [] || s.details[0] == ',')
    && (forall k :: 0 <= k < |s.after| ==> '|' !in s.after[k])
  }

  /** A switch line reads back as its slot and species: the slot is the third
      field up to the colon, the species the fourth up to the comma. */
  lemma SightingOfLine(s: Switch)
    requires ReadableSwitch(s)
    ensures SightingOf(SwitchLine(s)) == Success((s.slot, s.species))
  {
    SwitchFields(s);
    BeforeTail(s.slot, ": " + s.nick, ':');
    BeforeTail(s.species, s.details, ',');
  }

  /** The third and fourth fields of a switch line. */
  lemma SwitchFields(s: Switch)
    requires ReadableSwitch(s)
    ensures var fs := Fields(SwitchLine(s));
            |fs| >= 4 && fs[2] == s.slot + (": " + s.nick) && fs[3] == s.species + s.details
  {
    var who := s.slot + ": " + s.nick;
    var fs := ["switch", who, s.species + s.details] + s.after;
    assert '|' !in who by {
      assert '|' !in ": ";
    }
    forall k | 0 <= k < |fs|
      ensures '|' !in fs[k]
    {
      if k >= 3 {
        assert fs[k] == s.after[k - 3];
      }
    }
    MessageFields(fs);
    assert who == s.slot + (": " + s.nick);
  }

  /** The switch-ins of a log, in log order. */
  function Sightings(log: string): Result<seq<Sighting>, PyError> {
    MapAll(LinesWith(log, SwitchTag), SightingOf)
  }

  /** The player of each sighting, in order. */
  function Players(ss: seq<Sighting>): (ps: seq<string>)
    ensures |ps| == |ss| && forall k :: 0 <= k < |ss| ==> ps[k] == ss[k].0
  {
    if ss == [] then [] else Players(ss[..|ss| - 1]) + [ss[|ss| - 1].0]
  }

  /** The species `p` switched in, in order, repeats included. */
  function MonsOf(ss: seq<Sighting>, p: string): seq<string> {
    if ss == [] then []
    else MonsOf(ss[..|ss| - 1], p) + (if ss[|ss| - 1].0 == p then [ss[|ss| - 1].1] else [])
  }

  /** `ownerdictionary`: each player with the list of species it switched in. */
  type Owners = seq<(string, seq<string>)>

  /** One loop step: a known player gets the species appended unless already
      listed; a new player is added with a one-species list. */
  function AddSighting(d: Owners, s: Sighting): Owners {
    if d == [] then [(s.0, [s.1])]
    else if d[0].0 == s.0 then [(s.0, if s.1 in d[0].1 then d[0].1 else d[0].1 + [s.1])] + d[1..]
    else [d[0]] + AddSighting(d[1..], s)
  }

  /** The owner dictionary after all sightings. */
  function OwnersOf(ss: seq<Sighting>): Owners {
    if ss == [] then [] else AddSighting(OwnersOf(ss[..|ss| - 1]), ss[|ss| - 1])
  }

  /** Reference definition: the given players, each with the distinct species it
      switched in, in first-switch order. */
  function Grouped(players: seq<string>, ss: seq<Sighting>): (d: Owners)
    ensures |d| == |players|
    ensures forall k :: 0 <= k < |d| ==> d[k] == (players[k], Dedup(MonsOf(ss, players[k])))
  {
    if players == [] then [] else [(players[0], Dedup(MonsOf(ss, players[0])))] + Grouped(players[1..], ss)
  }

  /** A sighting of another player leaves a player's species unchanged. */
  lemma MonsOfOther(ss: seq<Sighting>, s: Sighting, p: string)
    requires s.0 != p
    ensures MonsOf(ss + [s], p) == MonsOf(ss, p)
  {
    assert (ss + [s])[..|ss|] == ss;
  }

  /** A sighting of `p` adds its species to `p`'s list, unless already there. */
  lemma DedupMonsOfSame(ss: seq<Sighting>, s: Sighting)
    ensures var old_ := Dedup(MonsOf(ss, s.0));
            Dedup(MonsOf(ss + [s], s.0)) == if s.1 in old_ then old_ else old_ + [s.1]
  {
    assert (ss + [s])[..|ss|] == ss;
    var xs := MonsOf(ss, s.0);
    assert MonsOf(ss + [s], s.0) == xs + [s.1];
    assert (xs + [s.1])[..|xs|] == xs;
  }

  /** A player with no sightings has switched in no species. */
  lemma MonsOfAbsent(ss: seq<Sighting>, p: string)
    requires p !in Players(ss)
    ensures MonsOf(ss, p) == []
  {
    if ss != [] {
      assert Players(ss[..|ss| - 1]) == Players(ss)[..|ss| - 1];
      MonsOfAbsent(ss[..|ss| - 1], p);
    }
  }

  lemma GroupedOthers(players: seq<string>, ss: seq<Sighting>, s: Sighting)
    requires s.0 !in players
    ensures Grouped(players, ss + [s]) == Grouped(players, ss)
  {
    forall k | 0 <= k < |players|
      ensures Grouped(players, ss + [s])[k] == Grouped(players, ss)[k]
    {
      MonsOfOther(ss, s, players[k]);
    }
  }

  /** One loop step on the reference table gives the reference table of one more
      sighting. */
  lemma {:induction false} AddToGrouped(players: seq<string>, ss: seq<Sighting>, s: Sighting)
    requires NoDuplicates(players)
    requires s.0 !in players ==> MonsOf(ss, s.0) == []
    ensures AddSighting(Grouped(players, ss), s) == Grouped(if s.0 in players then players else players + [s.0], ss + [s])
  {
    if players == [] {
      DedupMonsOfSame(ss, s);
      var none: seq<string> := [];
      assert Dedup(none) == [];
    } else if players[0] == s.0 {
      DedupMonsOfSame(ss, s);
      GroupedOthers(players[1..], ss, s);
    } else {
      AddToGrouped(players[1..], ss, s);
      MonsOfOther(ss, s, players[0]);
      var next := if s.0 in players then players else players + [s.0];
      assert next[1..] == if s.0 in players[1..] then players[1..] else players[1..] + [s.0];
    }
  }

  /** The owner dictionary is the reference table over the players in the order
      they first switch in. */
  lemma {:induction false} OwnersIsGrouped(ss: seq<Sighting>)
    ensures OwnersOf(ss) == Grouped(Dedup(Players(ss)), ss)
  {
    if ss != [] {
      var init := ss[..|ss| - 1];
      var s := ss[|ss| - 1];
      assert ss == init + [s];
      OwnersIsGrouped(init);
      var ps := Players(init);
      assert Players(ss) == ps + [s.0];
      DedupFirstAppearance(ps);
      if s.0 !in Dedup(ps) {
        assert s.0 !in ps;
        MonsOfAbsent(init, s.0);
      }
      AddToGrouped(Dedup(ps), init, s);
      assert (ps + [s.0])[..|ps|] == ps;
    }
  }

  /** `pokemon_list += ownerdictionary[keys]` over the players in order. */
  function Team(d: Owners): seq<string> {
    if d == [] then [] else d[0].1 + Team(d[1..])
  }

  /** The players of an owner dictionary, in order. */
  function OwnerKeys(d: Owners): (ks: seq<string>)
    ensures |ks| == |d| && forall k :: 0 <= k < |d| ==> ks[k] == d[k].0
  {
    if d == [] then [] else [d[0].0] + OwnerKeys(d[1..])
  }

  /** What the owner dictionary promises: players in first-switch order, each
      with its species once each, in first-switch order. */
  predicate OwnerTable(d: Owners, ss: seq<Sighting>) {
    && FirstAppearanceOrder(OwnerKeys(d), Players(ss))
    && (forall k :: 0 <= k < |d| ==> FirstAppearanceOrder(d[k].1, MonsOf(ss, d[k].0)))
  }

  lemma GroupedKeys(players: seq<string>, ss: seq<Sighting>)
    ensures OwnerKeys(Grouped(players, ss)) == players
  {
  }

  /** The hidden-team parse: players and species come out in first-switch order
      and no player lists a species twice. */
  lemma OwnersSpec(ss: seq<Sighting>)
    ensures OwnerTable(OwnersOf(ss), ss)
  {
    OwnersIsGrouped(ss);
    var ps := Dedup(Players(ss));
    var d := Grouped(ps, ss);
    GroupedKeys(ps, ss);
    DedupFirstAppearance(Players(ss));
    forall k | 0 <= k < |d|
      ensures FirstAppearanceOrder(d[k].1, MonsOf(ss, d[k].0))
    {
      DedupFirstAppearance(MonsOf(ss, ps[k]));
    }
  }

  /** `get_replay_mons` when the log shows no team preview: every switched-in
      species, grouped by player, players and species in first-switch order. */
  function HiddenTeam(log: string): (r: Result<seq<string>, PyError>)
    ensures r.Failure? <==> Sightings(log).Failure?
    ensures r.Failure? ==> r.error == IndexError
    ensures r.Success? ==> r.value == Team(Grouped(Dedup(Players(Sightings(log).value)), Sightings(log).value))
  {
    match Sightings(log)
    case Failure(e) =>
      assert e == IndexError by {
        var lines := LinesWith(log, SwitchTag);
        var k :| 0 <= k < |lines| && SightingOf(lines[k]) == Failure(e);
      }
      Failure(e)
    case Success(ss) =>
      OwnersIsGrouped(ss);
      Success(Team(OwnersOf(ss)))
  }

  // ---------------------------------------------------------------------------
  // The visible-team branch of get_replay_mons

  const PokeTag: string := "|poke|"

  /** The team-preview section: from the first `|poke|` up to the last `|` on the
      line of the last `|poke|`, newlines removed. Both versions of
      `get_replay_mons` cut it the same way; when there is no `|poke|` both
      indices are -1 and Python's negative slicing applies. */
  function PokeSection(log: string): (section: string)
    ensures '\n' !in section
  {
    var first := IndexOrMinusOne(Find(log, PokeTag));
    var last := IndexOrMinusOne(RFind(log, PokeTag));
    var lastLine := Lines(PySlice(log, last, |log|))[0];
    var end := IndexOrMinusOne(RFind(lastLine, "|"));
    RemoveChar(PySlice(log, first, last + end + 1), '\n')
  }

  /** `entry.split("|")[1:2][0].split(",")[0]`: the species in one `|poke|`
      segment; IndexError when the segment has no second field. */
  function PokeName(segment: string): (r: Result<string, PyError>)
    ensures r.Success? <==> |Fields(segment)| >= 2
    ensures r.Failure? ==> r.error == IndexError
    ensures r.Success? ==> ',' !in r.value && '|' !in r.value && forall x :: x in r.value ==> x in segment
    ensures r.Success? ==> r.value <= Fields(segment)[1]
    ensures r.Success? ==> |r.value| == |Fields(segment)[1]| || Fields(segment)[1][|r.value|] == ','
  {
    var fields := Fields(segment);
    if |fields| < 2 then Failure(IndexError) else Success(Before(fields[1], ','))
  }

  /** The names read from the segments of a one-line section hold no newline. */
  lemma SectionNamesOneLine(section: string, names: seq<string>)
    requires '\n' !in section
    requires MapAll(Split(section, PokeTag)[1..], PokeName) == Success(names)
    ensures forall k :: 0 <= k < |names| ==> '\n' !in names[k]
  {
    var segments := Split(section, PokeTag)[1..];
    SplitKeepsChars(section, PokeTag);
    forall k | 0 <= k < |names|
      ensures '\n' !in names[k]
    {
      assert PokeName(segments[k]) == Success(names[k]);
      assert segments[k] == Split(section, PokeTag)[k + 1];
    }
  }

  /** The names read from the segments after each tag: one per segment, in
      order, and all of them exactly when every segment has a second field. */
  lemma SegmentNames(section: string)
    ensures var parts := Split(section, PokeTag);
            var r := MapAll(parts[1..], PokeName);
            && (r.Success? <==> forall k :: 1 <= k < |parts| ==> |Fields(parts[k])| >= 2)
            && (r.Success? ==> |r.value| == |parts| - 1)
            && (r.Success? ==> forall k :: 0 <= k < |r.value| ==> PokeName(parts[k + 1]) == Success(r.value[k]))
  {
    var parts := Split(section, PokeTag);
    var segments := parts[1..];
    assert forall k :: 0 <= k < |segments| ==> segments[k] == parts[k + 1];
  }

  /** Reading names from segments fails only with an IndexError. */
  lemma SegmentNamesError(segments: seq<string>)
    requires MapAll(segments, PokeName).Failure?
    ensures MapAll(segments, PokeName).error == IndexError
  {
    var e := MapAll(segments, PokeName).error;
    var k :| 0 <= k < |segments| && PokeName(segments[k]) == Failure(e);
  }

  /** The visible-team parse both versions of `get_replay_mons` share: one name
      per `|poke|` segment of the section, in order, none holding a comma, a bar
      or a newline. */
  function SectionMons(log: string): (r: Result<seq<string>, PyError>)
    ensures r.Success? <==> forall k :: 1 <= k < |Split(PokeSection(log), PokeTag)| ==> |Fields(Split(PokeSection(log), PokeTag)[k])| >= 2
    ensures r.Success? ==> |r.value| == |Split(PokeSection(log), PokeTag)| - 1
    ensures r.Success? ==> forall k :: 0 <= k < |r.value| ==> PokeName(Split(PokeSection(log), PokeTag)[k + 1]) == Success(r.value[k])
    ensures r.Success? ==> forall k :: 0 <= k < |r.value| ==> ',' !in r.value[k] && '|' !in r.value[k] && '\n' !in r.value[k]
    ensures r.Failure? ==> r.error == IndexError
  {
    var section := PokeSection(log);
    var r := MapAll(Split(section, PokeTag)[1..], PokeName);
    SegmentNames(section);
    if r.Success? then
      SectionNamesOneLine(section, r.value);
      r
    else
      SegmentNamesError(Split(section, PokeTag)[1..]);
      r
  }

  /** Collectors' `get_replay_mons`: the preview section when the log has a
      `|poke|`, the switch-ins otherwise. */
  function ReplayMons(log: string): (r: Result<seq<string>, PyError>)
    ensures r.Failure? ==> r.error == IndexError
    ensures Find(log, PokeTag).None? ==>
              (r.Success? <==> forall k :: 0 <= k < |LinesWith(log, SwitchTag)| ==> |Fields(LinesWith(log, SwitchTag)[k])| >= 4)
    ensures Find(log, PokeTag).None? && r.Success? ==>
              r.value == Team(Grouped(Dedup(Players(Sightings(log).value)), Sightings(log).value))
    ensures Find(log, PokeTag).Some? ==>
              (r.Success? <==> forall k :: 1 <= k < |Split(PokeSection(log), PokeTag)| ==> |Fields(Split(PokeSection(log), PokeTag)[k])| >= 2)
    ensures Find(log, PokeTag).Some? && r.Success? ==>
              |r.value| == |Split(PokeSection(log), PokeTag)| - 1 &&
              forall k :: 0 <= k < |r.value| ==> PokeName(Split(PokeSection(log), PokeTag)[k + 1]) == Success(r.value[k])
  {
    if Find(log, PokeTag).None? then HiddenTeam(log) else SectionMons(log)
  }

  /** A piece of a join is no longer than the join. */
  lemma JoinFirstShorter(parts: seq<string>, sep: string)
    requires |parts| >= 1
    ensures |parts[0]| <= |Join(parts, sep)|
  {
  }

  /** The cut point on a line of at most one character is -1 or 0. */
  lemma ShortLineCut(log: string)
    ensures -1 <= IndexOrMinusOne(RFind(Lines(PySlice(log, -1, |log|))[0], "|")) <= 0
  {
    var tail := PySlice(log, -1, |log|);
    assert |tail| <= 1;
    JoinFirstShorter(Lines(tail), "\n");
  }

  /** A slice from -1 to -1 or 0 is empty. */
  lemma LastCharSliceEmpty(log: string, end: int)
    requires -1 <= end <= 0
    ensures PySlice(log, -1, end) == []
  {
  }

  /** Without `|poke|` the section is empty: both cut points are -1, the slice
      runs from the last character to at most the first, and nothing is read. */
  lemma NoPokeSection(log: string)
    requires Find(log, PokeTag).None?
    ensures PokeSection(log) == []
  {
    FindNoneBoth(log, PokeTag);
    ShortLineCut(log);
    LastCharSliceEmpty(log, IndexOrMinusOne(RFind(Lines(PySlice(log, -1, |log|))[0], "|")));
  }

  /** Without `|poke|` the visible-team parse finds no names. */
  lemma NoPokeMons(log: string)
    requires Find(log, PokeTag).None?
    ensures SectionMons(log) == Success([])
  {
    NoPokeSection(log);
    SplitClear([], PokeTag);
  }
  // ---------------------------------------------------------------------------
  // Reading back a team preview

  /** One team-preview entry: the player slot, the species, and the details that
      follow it (such as ", L50, F"). */
  datatype Entry = Entry(slot: string, species: string, details: string)

  /** What follows the `|poke|` tag on an entry's line: `p1|Garchomp, F|`. */
  function Record(e: Entry): string {
    e.slot + "|" + e.species + e.details + "|"
  }

  /** The line team preview writes for an entry: `|poke|p1|Garchomp, F|`. */
  function PokeLine(e: Entry): string {
    PokeTag + Record(e)
  }

  /** An entry the parser reads back: no field holds a `|` or a newline or is
      the bare word `poke`, the species holds no comma, and details, when
      present, start with one. */
  predicate Readable(e: Entry) {
    && '|' !in e.slot && '\n' !in e.slot && e.slot != "poke"
    && '|' !in e.species && '\n' !in e.species && ',' !in e.species && e.species != "poke"
    && '|' !in e.details && '\n' !in e.details && (e.details == [] || e.details[0] == ',')
  }

  function PokeLines(team: seq<Entry>): (lines: seq<string>)
    ensures |lines| == |team|
  {
    if team == [] then [] else [PokeLine(team[0])] + PokeLines(team[1..])
  }

  function Records(team: seq<Entry>): (recs: seq<string>)
    ensures |recs| == |team| && forall k :: 0 <= k < |team| ==> recs[k] == Record(team[k])
  {
    if team == [] then [] else [Record(team[0])] + Records(team[1..])
  }

  function SpeciesOf(team: seq<Entry>): (names: seq<string>)
    ensures |names| == |team| && forall k :: 0 <= k < |team| ==> names[k] == team[k].species
  {
    if team == [] then [] else [team[0].species] + SpeciesOf(team[1..])
  }

  /** The species-and-details field is not the bare word `poke`. */
  lemma FieldNotPoke(e: Entry)
    requires Readable(e)
    ensures e.species + e.details != "poke"
  {
    if e.details != [] {
      assert (e.species + e.details)[|e.species|] == ',';
      assert ',' !in "poke";
    }
  }

  /** Inside a record followed by the tag, the tag is found only after it. */
  lemma RecordTagFree(e: Entry)
    requires Readable(e)
    ensures TagFree(PokeTag, Record(e))
  {
    var field := e.species + e.details;
    var rec := Record(e);
    var s := rec + PokeTag;
    assert PokeTag == "|" + "poke" + "|";
    assert s == e.slot + "|" + field + "|" + PokeTag;
    FieldNotPoke(e);
    forall j: nat | j < |rec|
      ensures !OccursAt(s, PokeTag, j)
    {
      if j < |e.slot| {
        assert s[j] == e.slot[j];
        Mismatch(s, PokeTag, j, 0);
      } else if j == |e.slot| {
        assert s[j + 1..j + 1 + |field|] == field;
        FieldIsNotTag(s, j, field, "poke");
      } else if j < |rec| - 1 {
        assert s[j] == field[j - |e.slot| - 1];
        Mismatch(s, PokeTag, j, 0);
      } else {
        assert s[j + 1] == '|';
        Mismatch(s, PokeTag, j, 1);
      }
    }
  }

  /** After its start, the tag does not recur up to the bar that ends the slot. */
  lemma NoTagInSlot(slot: string, rest: string, j: nat)
    requires '|' !in slot && slot != "poke"
    requires 0 < j <= 5 + |slot|
    ensures !OccursAt(PokeTag + slot + "|" + rest, PokeTag, j)
  {
    var t := PokeTag + slot + "|" + rest;
    assert PokeTag == "|" + "poke" + "|";
    if j < 5 {
      assert t[j] == "poke"[j - 1];
      Mismatch(t, PokeTag, j, 0);
    } else if j == 5 {
      assert t[6..6 + |slot|] == slot;
      FieldIsNotTag(t, 5, slot, "poke");
    } else {
      assert t[j] == slot[j - 6];
      Mismatch(t, PokeTag, j, 0);
    }
  }

  /** A bar-delimited field other than `poke`, followed by a newline or nothing,
      holds no tag. */
  lemma NoTagInField(field: string, post: string, j: nat)
    requires '|' !in field && field != "poke"
    requires post == [] || post[0] == '\n'
    requires j < |field| + 2
    ensures !OccursAt("|" + field + "|" + post, PokeTag, j)
  {
    var t := "|" + field + "|" + post;
    assert PokeTag == "|" + "poke" + "|";
    if j == 0 {
      assert t[1..1 + |field|] == field;
      FieldIsNotTag(t, 0, field, "poke");
    } else if j <= |field| {
      assert t[j] == field[j - 1];
      Mismatch(t, PokeTag, j, 0);
    } else if post != [] {
      assert t[j + 1] == '\n';
      Mismatch(t, PokeTag, j, 1);
    }
  }

  /** The two ways the tag search reads a preview line and what follows it:
      around the slot, and around the species-and-details field. */
  lemma LineRegroup(tag: string, slot: string, species: string, details: string, post: string)
    ensures tag + (slot + "|" + species + details + "|") + post
         == tag + slot + "|" + ((species + details) + "|" + post)
    ensures tag + (slot + "|" + species + details + "|") + post
         == (tag + slot) + ("|" + (species + details) + "|" + post)
  {
  }

  /** The entry's line, followed by a newline or nothing, holds no tag at `j`
      past its start. */
  lemma LineTagAt(e: Entry, post: string, j: nat)
    requires Readable(e)
    requires post == [] || post[0] == '\n'
    requires 0 < j < |PokeLine(e)|
    ensures !OccursAt(PokeLine(e) + post, PokeTag, j)
  {
    var field := e.species + e.details;
    LineRegroup(PokeTag, e.slot, e.species, e.details, post);
    if j <= 5 + |e.slot| {
      NoTagInSlot(e.slot, field + "|" + post, j);
    } else {
      var head := PokeTag + e.slot;
      var rest := "|" + field + "|" + post;
      FieldNotPoke(e);
      NoTagInField(field, post, j - |head|);
      OccursRight(head, rest, PokeTag, j - |head|);
    }
  }

  /** The entry's line, whatever follows it on later lines, holds the tag only
      at its start. */
  lemma LineTagOnlyAtStart(e: Entry, post: string)
    requires Readable(e)
    requires post == [] || post[0] == '\n'
    requires !Contains(post, PokeTag)
    ensures OccursAt(PokeLine(e) + post, PokeTag, 0)
    ensures forall j: nat :: 0 < j ==> !OccursAt(PokeLine(e) + post, PokeTag, j)
  {
    var line := PokeLine(e);
    var t := line + post;
    assert t[..6] == PokeTag;
    forall j: nat | 0 < j
      ensures !OccursAt(t, PokeTag, j)
    {
      if j < |line| {
        LineTagAt(e, post, j);
      } else {
        OccursRight(line, post, PokeTag, j - |line|);
      }
    }
  }

  /** The first `|poke|` is where the preview starts when nothing before it
      holds one and it starts a line. */
  lemma FindPreview(pre: string, body: string)
    requires !Contains(pre, PokeTag)
    requires pre == [] || pre[|pre| - 1] == '\n'
    requires OccursAt(body, PokeTag, 0)
    ensures Find(pre + body, PokeTag) == Some(|pre|)
  {
    var s := pre + body;
    OccursRight(pre, body, PokeTag, 0);
    forall j: nat | j < |pre|
      ensures !OccursAt(s, PokeTag, j)
    {
      if j + |PokeTag| <= |pre| {
        OccursLeft(pre, body, PokeTag, j);
      } else {
        assert s[|pre| - 1] == '\n';
        assert '\n' !in PokeTag;
        OccursAcross(s, PokeTag, j, |pre| - 1);
      }
    }
    FindIs(s, PokeTag, |pre|);
  }

  /** The first line of a line followed by later lines is that line. */
  lemma FirstLineIs(line: string, post: string)
    requires '\n' !in line
    requires post == [] || post[0] == '\n'
    ensures Lines(line + post)[0] == line
  {
    SplitWithoutChar(line, '\n');
    if post == [] {
      assert line + post == line;
    } else {
      assert line + post == line + ['\n'] + post[1..];
      SplitCharJoin(line, post[1..], '\n');
    }
  }

  /** A preview line ends in its last `|`. */
  lemma LastBar(e: Entry)
    ensures RFind(PokeLine(e), "|") == Some(|PokeLine(e)| - 1)
  {
    var line := PokeLine(e);
    OccursChar(line, '|');
    RFindIs(line, "|", |line| - 1);
  }

  /** Without newlines the preview lines are the records, each after its tag. */
  lemma {:induction false} PreviewRecords(team: seq<Entry>)
    ensures Join(PokeLines(team), "") == Tagged(PokeTag, Records(team))
  {
    if |team| == 1 {
      assert Tagged(PokeTag, Records(team)) == PokeTag + Record(team[0]) + [];
    } else if |team| > 1 {
      PreviewRecords(team[1..]);
      assert PokeLines(team)[1..] == PokeLines(team[1..]);
      assert Records(team)[1..] == Records(team[1..]);
    }
  }

  /** A bar-free field closed by a bar splits into the field and an empty tail. */
  lemma SplitOneField(b: string)
    requires '|' !in b
    ensures Split(b + "|", "|") == [b, []]
  {
    assert b + "|" == b + ['|'] + [];
    SplitCharJoin(b, [], '|');
    SplitWithoutChar(b, '|');
    SplitWithoutChar([], '|');
  }

  /** Two bar-free fields, each closed by a bar, split into the two and an
      empty tail. */
  lemma SplitTwoFields(a: string, b: string)
    requires '|' !in a && '|' !in b
    ensures Split(a + "|" + b + "|", "|") == [a, b, []]
  {
    var rest := b + "|";
    assert Split(a + "|" + b + "|", "|") == Split(a, "|") + Split(rest, "|") by {
      assert a + "|" + b + "|" == a + ['|'] + rest;
      SplitCharJoin(a, rest, '|');
    }
    SplitWithoutChar(a, '|');
    SplitOneField(b);
  }

  /** The text before the first `c` of a word without `c`, followed by text
      that is empty or starts with `c`, is the word. */
  lemma BeforeTail(word: string, tail: string, c: char)
    requires c !in word
    requires tail == [] || tail[0] == c
    ensures Before(word + tail, c) == word
  {
    SplitWithoutChar(word, c);
    if tail == [] {
      assert word + tail == word;
    } else {
      assert word + tail == word + [c] + tail[1..];
      SplitCharJoin(word, tail[1..], c);
    }
  }

  /** A record reads back as its species. */
  lemma PokeNameOfRecord(e: Entry)
    requires Readable(e)
    ensures PokeName(Record(e)) == Success(e.species)
  {
    var field := e.species + e.details;
    assert Record(e) == e.slot + "|" + field + "|";
    SplitTwoFields(e.slot, field);
    BeforeTail(e.species, e.details, ',');
  }

  /** A record followed by anything, such as the `item` flag of
      `|poke|p1|Ferrothorn, F|item`, still reads back as its species: only the
      second field counts. */
  lemma PokeNameWithItem(e: Entry, item: string)
    requires Readable(e)
    ensures PokeName(Record(e) + item) == Success(e.species)
  {
    var field := e.species + e.details;
    var seg := Record(e) + item;
    assert seg == e.slot + ['|'] + (field + ['|'] + item);
    SplitCharJoin(e.slot, field + ['|'] + item, '|');
    SplitCharJoin(field, item, '|');
    SplitWithoutChar(e.slot, '|');
    SplitWithoutChar(field, '|');
    assert Fields(seg)[1] == field;
    BeforeTail(e.species, e.details, ',');
  }

  lemma NamesOfRecords(team: seq<Entry>)
    requires forall k :: 0 <= k < |team| ==> Readable(team[k])
    ensures MapAll(Records(team), PokeName) == Success(SpeciesOf(team))
  {
    var recs := Records(team);
    var names := SpeciesOf(team);
    forall k | 0 <= k < |recs|
      ensures PokeName(recs[k]) == Success(names[k])
    {
      PokeNameOfRecord(team[k]);
    }
    MapAllSuccess(recs, PokeName, names);
  }

  /** A log whose team preview is the given entries, with no `|poke|` before or
      after and the preview on lines of its own. */
  predicate PreviewLog(pre: string, team: seq<Entry>, post: string) {
    && |team| >= 1
    && (forall k :: 0 <= k < |team| ==> Readable(team[k]))
    && (pre == [] || pre[|pre| - 1] == '\n') && !Contains(pre, PokeTag)
    && (post == [] || post[0] == '\n') && !Contains(post, PokeTag)
  }

  /** Where the last of some lines starts once they are joined by newlines. */
  function LastLineStart(lines: seq<string>): int
    requires |lines| >= 1
  {
    |Join(lines, "\n")| - |lines[|lines| - 1]|
  }

  /** A preview line starts with the tag. */
  lemma PokeLineStarts(e: Entry)
    ensures |PokeTag| <= |PokeLine(e)| && PokeLine(e)[..|PokeTag|] == PokeTag
  {
  }

  /** A readable entry's preview line is one line. */
  lemma PokeLineOneLine(e: Entry)
    requires Readable(e)
    ensures '\n' !in PokeLine(e)
  {
    assert '\n' !in PokeTag && '\n' !in "|";
    assert PokeLine(e) == PokeTag + e.slot + "|" + e.species + e.details + "|";
  }

  /** The preview holds one line per entry, in team order. */
  lemma {:induction false} PokeLineAt(team: seq<Entry>, k: nat)
    requires k < |team|
    ensures PokeLines(team)[k] == PokeLine(team[k])
  {
    if k > 0 {
      PokeLineAt(team[1..], k - 1);
    }
  }

  /** The line list of a team starts with a tag. */
  lemma FirstPokeLine(team: seq<Entry>)
    requires |team| >= 1
    ensures |PokeTag| <= |PokeLines(team)[0]| && PokeLines(team)[0][..|PokeTag|] == PokeTag
  {
    PokeLineStarts(team[0]);
    PokeLineAt(team, 0);
  }

  /** A log whose block ends in a line where alone `sub` occurs, and only at
      its start, has its last `sub` there; the rest of the log from that point
      is the line and what follows. */
  lemma LastOccurrenceIn(pre: string, body: string, post: string, k: int, line: string, sub: string)
    requires 0 <= k <= |body| && body == body[..k] + line
    requires OccursAt(line + post, sub, 0)
    requires forall j: nat :: 0 < j ==> !OccursAt(line + post, sub, j)
    ensures RFind(pre + body + post, sub) == Some(|pre| + k)
    ensures PySlice(pre + body + post, |pre| + k, |pre + body + post|) == line + post
  {
    assert pre + body + post == (pre + body[..k]) + (line + post);
    RFindOnlyAtStart(pre + body[..k], line + post, sub);
  }

  /** Cutting a log at the start of its last line `line`, the section ends
      at the last `|` of that line. */
  lemma CutEnd(log: string, last: int, line: string, post: string)
    requires PySlice(log, last, |log|) == line + post
    requires '\n' !in line && (post == [] || post[0] == '\n')
    requires RFind(line, "|") == Some(|line| - 1)
    ensures last + IndexOrMinusOne(RFind(Lines(PySlice(log, last, |log|))[0], "|")) + 1 == last + |line|
  {
    var first := Lines(PySlice(log, last, |log|))[0];
    assert first == line by {
      FirstLineIs(line, post);
    }
  }

  /** Where the tag occurs in a log made of text with no tag, a block
      starting with the tag and ending in a line `line` where the tag occurs
      only at the start, and text after it: first at the block, last at
      `line`. */
  lemma BlockOccurrences(pre: string, body: string, post: string, k: int, line: string)
    requires !Contains(pre, PokeTag) && (pre == [] || pre[|pre| - 1] == '\n')
    requires OccursAt(body, PokeTag, 0)
    requires 0 <= k <= |body| && body == body[..k] + line
    requires OccursAt(line + post, PokeTag, 0)
    requires forall j: nat :: 0 < j ==> !OccursAt(line + post, PokeTag, j)
    ensures Find(pre + body + post, PokeTag) == Some(|pre|)
    ensures RFind(pre + body + post, PokeTag) == Some(|pre| + k)
    ensures PySlice(pre + body + post, |pre| + k, |pre + body + post|) == line + post
  {
    assert OccursAt(body + post, PokeTag, 0) by {
      assert (body + post)[..|PokeTag|] == body[..|PokeTag|];
    }
    assert pre + body + post == pre + (body + post);
    FindPreview(pre, body + post);
    LastOccurrenceIn(pre, body, post, k, line, PokeTag);
  }

  /** The shape of the joined preview: it starts with the tag, ends with its
      last line, and in that line followed by what comes after the preview
      the tag occurs only at the start. */
  lemma PreviewShape(team: seq<Entry>, post: string)
    requires |team| >= 1 && forall k :: 0 <= k < |team| ==> Readable(team[k])
    requires post == [] || post[0] == '\n'
    requires !Contains(post, PokeTag)
    ensures var lines := PokeLines(team);
            var body := Join(lines, "\n");
            var line := lines[|lines| - 1];
            var k := LastLineStart(lines);
            && OccursAt(body, PokeTag, 0)
            && 0 <= k <= |body| && body == body[..k] + line
            && OccursAt(line + post, PokeTag, 0)
            && (forall j: nat :: 0 < j ==> !OccursAt(line + post, PokeTag, j))
            && '\n' !in line && RFind(line, "|") == Some(|line| - 1)
  {
    var lines := PokeLines(team);
    var body := Join(lines, "\n");
    var line := lines[|lines| - 1];
    var e := team[|team| - 1];
    assert OccursAt(body, PokeTag, 0) by {
      FirstPokeLine(team);
      JoinStartsWith(lines, "\n", PokeTag);
    }
    assert 0 <= LastLineStart(lines) <= |body| && body == body[..LastLineStart(lines)] + line by {
      JoinEndsWith(lines, "\n");
    }
    assert line == PokeLine(e) by {
      PokeLineAt(team, |team| - 1);
    }
    LineTagOnlyAtStart(e, post);
    PokeLineOneLine(e);
    LastBar(e);
  }

  /** The cut points of a log made of text with no tag, a preview block of
      that shape, and text after it: the section runs from the block's start
      to the last `|` of its last line, which closes the block. */
  lemma BlockCuts(pre: string, body: string, post: string, k: int, line: string)
    requires !Contains(pre, PokeTag) && (pre == [] || pre[|pre| - 1] == '\n')
    requires OccursAt(body, PokeTag, 0)
    requires 0 <= k <= |body| && body == body[..k] + line
    requires OccursAt(line + post, PokeTag, 0)
    requires forall j: nat :: 0 < j ==> !OccursAt(line + post, PokeTag, j)
    requires '\n' !in line && RFind(line, "|") == Some(|line| - 1) && (post == [] || post[0] == '\n')
    ensures var log := pre + body + post;
            var last := IndexOrMinusOne(RFind(log, PokeTag));
            && IndexOrMinusOne(Find(log, PokeTag)) == |pre|
            && last + IndexOrMinusOne(RFind(Lines(PySlice(log, last, |log|))[0], "|")) + 1 == |pre| + |body|
  {
    var log := pre + body + post;
    BlockOccurrences(pre, body, post, k, line);
    var last := IndexOrMinusOne(RFind(log, PokeTag));
    assert last == |pre| + k;
    CutEnd(log, last, line, post);
  }

  /** The cut points of a preview log: the section runs from the first preview
      line to the last `|` of the last one. */
  lemma PreviewCuts(pre: string, team: seq<Entry>, post: string)
    requires PreviewLog(pre, team, post)
    ensures var log := pre + Join(PokeLines(team), "\n") + post;
            var last := IndexOrMinusOne(RFind(log, PokeTag));
            && IndexOrMinusOne(Find(log, PokeTag)) == |pre|
            && last + IndexOrMinusOne(RFind(Lines(PySlice(log, last, |log|))[0], "|")) + 1 == |pre| + |Join(PokeLines(team), "\n")|
  {
    var lines := PokeLines(team);
    PreviewShape(team, post);
    BlockCuts(pre, Join(lines, "\n"), post, LastLineStart(lines), lines[|lines| - 1]);
  }

  /** The section of a preview log is the tagged records. */
  lemma PreviewSection(pre: string, team: seq<Entry>, post: string)
    requires PreviewLog(pre, team, post)
    ensures PokeSection(pre + Join(PokeLines(team), "\n") + post) == Tagged(PokeTag, Records(team))
  {
    var lines := PokeLines(team);
    var body := Join(lines, "\n");
    var log := pre + body + post;
    PreviewCuts(pre, team, post);
    assert PySlice(log, |pre|, |pre| + |body|) == body;
    forall k | 0 <= k < |lines|
      ensures '\n' !in lines[k]
    {
      PokeLineOneLine(team[k]);
      PokeLineAt(team, k);
    }
    RemoveCharJoin(lines, '\n');
    PreviewRecords(team);
  }

  /** Reading back a team preview: both parsers return the species of the
      previewed entries, in preview order, details cut off at the comma. */
  lemma PreviewRoundTrip(pre: string, team: seq<Entry>, post: string)
    requires PreviewLog(pre, team, post)
    ensures SectionMons(pre + Join(PokeLines(team), "\n") + post) == Success(SpeciesOf(team))
    ensures ReplayMons(pre + Join(PokeLines(team), "\n") + post) == Success(SpeciesOf(team))
  {
    var log := pre + Join(PokeLines(team), "\n") + post;
    PreviewSection(pre, team, post);
    forall k | 0 <= k < |team|
      ensures TagFree(PokeTag, Records(team)[k])
    {
      RecordTagFree(team[k]);
    }
    SplitTagged(PokeTag, Records(team));
    assert Split(PokeSection(log), PokeTag)[1..] == Records(team);
    NamesOfRecords(team);
    PreviewCuts(pre, team, post);
  }
}
