# Frame protocol and replay tallies, in Dafny

This project models the two string-level cores of a small Python repository.

The first core is a length-prefixed text protocol. The client (Client.py) frames each message as a four-character, zero-padded decimal count of its characters followed by the message. The server (Server.py) appends every read to a text buffer and drains all complete frames from it. Frames are decoded with `decode_message`. It returns `(payload, remaining)`, or `(None, buffer)` when no whole frame has arrived.

The second core reads Pokémon Showdown replay logs and tallies them. There are two versions:

- Collectors/PokemonInfo.py parses a request such as `gen4ou|move` and picks the search address. It fetches the replays found, then reads species from the team preview (`|poke|` lines). When a log has no preview it reads them from switch-ins (`|switch|` lines). It can also read moves (`|move|` lines). It counts them into a dictionary sorted most frequent first.
- Scrapers/PokemonInfo.py reads player names (`|player|` lines) and the team preview only. It counts species least frequent first.

The modules follow the program's structure:

| module | file | models |
|---|---|---|
| `Wrappers` | wrappers.dfy | `Option` for Python's `None`-or-value. `Result` for a call that may raise. `MapAll` for a list comprehension whose element function may raise. |
| `PyStr` | pystr.dfy | The Python `str` operations the parsers use: `find`, `rfind`, `split`, slicing with negative bounds, `replace` of one character, and filtering lines by substring. |
| `Sequences` | sequences.dfy | First-appearance order: the order of a Python dict's keys, and of a list built by "append unless present". |
| `Digits` | digits.dfy | `f"{n:0Wd}"` zero-padded formatting and the value of a digit string. |
| `FrameCodec` | frame_codec.dfy | `encode_message` and `decode_message`. |
| `Connection` | connection.dfy | The server's accumulate-and-drain loop and its per-connection read loop. |
| `Sender` | sender.dfy | The client's fifty numbered payloads and their frames. |
| `Showdown` | showdown.dfy | The replay server address, JSON objects and the Python exceptions the parsers can raise. |
| `ReplayLog` | replay_log.dfy | `get_replay_moves` and both branches of the collector's `get_replay_mons`. |
| `Tally` | tally.dfy | The counting loop over an insertion-ordered dictionary, and the stable sort by count in either direction. |
| `Collectors` | collectors.dfy | `collect`, `search_replays`' address, `get_replay_log`, `count_mons` and `count_moves`. |
| `Scrapers` | scrapers.dfy | `get_replay_users`, the scraper's `get_replay_mons`, `get_replay_log` and `count_mons`. |

Modelling choices:

- Strings are `seq<char>`.
- A Python dict of counts is an insertion-ordered sequence of `(key, count)` pairs.
- A raised `IndexError`, `KeyError` or `TypeError` is a `Failure` carrying that exception.
- The network is modelled by parameters. `search` and `fetch` map an address to the decoded JSON answer, or to None when the server answers with a status other than 200.
- A received stream is a sequence of chunks.
- A JSON object is a map from field names to string values.

Where the code and the protocol's stated intent disagree, the model follows the code. The protocol is meant never to drop data silently on a malformed header. Yet on a header that does not parse, the server throws away the whole buffer, not just the header. On a malformed header, `FrameCodec.Decode` discards the buffer exactly as the code does, and `FrameCodec.DecodeNoneSettles` states it. `FrameCodec.Decode` departs from the code only in which headers it accepts: exactly four ASCII digits (see Findings and Left out).

## Model

| member | source | states |
|---|---|---|
| Digits.PaddedRoundTrip | Client.py:47 | The zero-padded header reads back as the length. It has exactly the padding width if and only if the length fits in that many digits. |
| FrameCodec.Encode | Client.py:41-48 | A frame is 4 + len(payload) characters exactly when the payload has at most 9999 characters. Then its first four characters are digits whose value is the payload's length, and the rest is the payload unchanged. The payload always ends the frame. |
| FrameCodec.EncodeEmpty | Client.py:47 | The empty message is framed as "0000". |
| FrameCodec.Decode | Server.py:40-63 | A payload comes out if and only if the buffer holds a valid header and the whole payload it declares. Then header + payload + remaining is the buffer, the payload's length is the declared count, and the remaining buffer is strictly shorter. A buffer shorter than a header, or one whose payload has not fully arrived, comes back unchanged. A header that is not four digits gives (None, ""). |
| FrameCodec.DecodeNoneSettles | Server.py:45-57 | When no payload comes out, the returned buffer is the input or empty. Either way it cannot yield a frame without more data. |
| FrameCodec.DecodeEncode | Server.py:40-63 | Round trip: decoding a framed payload followed by any text gives the payload and exactly that text. |
| FrameCodec.DecodeAsWritten | Server.py:49-61 | The decoder with `int()` and Python's negative slicing. It agrees with the corrected decoder on every buffer that does not start with a sign. |
| FrameCodec.NegativeHeaderStalls | Server.py:50-61 | A buffer of "-999" followed by at most 991 characters decodes, as written, to an empty payload and the unchanged buffer. The corrected decoder discards it as a malformed header. |
| Connection.DrainAll | Server.py:127-130 | Draining ends with a buffer that cannot yield a frame: it is shorter than a header, or its valid header declares more payload than has arrived. |
| Connection.Drain | Server.py:127-130 | The inner decode loop yields exactly the frames, in order, and the residue of the reference drain. The residue cannot yield another frame. |
| Connection.ReceiveAll | Server.py:111-130 | Appending each read and draining after it always leaves a settled buffer. |
| Connection.Serve | Server.py:113-130 | The read loop consumes reads in order and stops at the first empty one without decoding anything after it. The consumed reads are non-empty. Its frames and buffer are those of receiving exactly the consumed reads. |
| Connection.DrainWire | Server.py:127-130 | Draining a prefix of a well-formed stream delivers the leading payloads in order. What it holds back, followed by the unread text, is the wire form of the payloads still to come. |
| Connection.ReceivePrefix | Server.py:111-130 | The same holds after any sequence of reads that is a prefix of a well-formed stream. |
| Connection.ChunkingIrrelevant | Server.py:111-132 | However a well-formed stream is cut into reads, the server delivers exactly its payloads, once each and in wire order, and ends with an empty buffer. |
| Sender.PayloadShape | Client.py:85-91 | Each numbered payload is 60 characters and carries its two-digit number at offset 8. Its frame is 64 characters long and starts with "0060". |
| Sender.SendAll | Client.py:85-91 | The send loop produces 50 frames. Frame k frames message k + 1, and each is 64 characters starting with "0060". |
| Sender.SentInOrder | Client.py:85-88 | The messages are numbered 01 to 50 in increasing order. |
| Sender.ClientToServer | Client.py:85-91 | However the network splits the client's stream, the server delivers the fifty payloads in order and ends with an empty buffer. |
| Showdown.ReplayIds | Collectors/PokemonInfo.py:156 | The id list succeeds exactly when every search result has an id. It lists them in search order; otherwise it is a KeyError. |
| Showdown.ReplayUrlInjective | Collectors/PokemonInfo.py:106 | Two replay ids give the same address if and only if they are the same id, so each fetch asks for exactly one replay. |
| Collectors.ParseParam | Collectors/PokemonInfo.py:78-80 | The parsed format is never empty and holds no bar. The kind holds no bar. |
| Collectors.ParamFormatOnly | Collectors/PokemonInfo.py:78-80 | A parameter without a bar is the format, or "gen9ou" when empty, and mons are counted. |
| Collectors.ParamFields | Collectors/PokemonInfo.py:78-80 | With a bar, the text before it is the format ("gen9ou" when empty) and the next field is the kind. Anything after a second bar is ignored. |
| Collectors.SearchUrl | Collectors/PokemonInfo.py:92-98 | The address carries a `?` if and only if the format is in the known list. Then it is the search address followed by `?format=` and the format; otherwise it is the bare search address. |
| Collectors.DefaultSearch | Collectors/PokemonInfo.py:79 | An empty request searches "gen9ou" by name. |
| Collectors.GetReplayLog | Collectors/PokemonInfo.py:113-114 | The log is the "log" field, or "" when the replay has none. |
| Collectors.EmptyLog | Collectors/PokemonInfo.py:117-152 | An empty log yields no species and no moves, and raises nothing. |
| Collectors.NothingFromMissingLog | Collectors/PokemonInfo.py:164-166 | A replay that is None, empty or has no log contributes no species and no moves. |
| Collectors.AllMons | Collectors/PokemonInfo.py:164-166 | Reading the fetched replays succeeds exactly when every replay parses. A failure is the IndexError of a malformed line. |
| Collectors.AllMoves | Collectors/PokemonInfo.py:183-185 | The same for moves. |
| Collectors.AllMonsAppend | Collectors/PokemonInfo.py:164-168 | Replays are read one after another: a run's species are the first part's followed by the rest's, or the first error. |
| Collectors.AllMovesAppend | Collectors/PokemonInfo.py:183-187 | The same for moves. |
| Collectors.AllMonsOne | Collectors/PokemonInfo.py:164-166 | One fetched replay contributes exactly the species its own log shows, or that log's error. With `AllMonsAppend` this fixes the species list of any run of replays: the lists of the replays that are not skipped, concatenated in replay order. |
| Collectors.AllMovesOne | Collectors/PokemonInfo.py:183-185 | One fetched replay contributes exactly the moves its own log shows, or that log's error. With `AllMovesAppend` this fixes the move list of any run of replays. |
| Collectors.SkippedReplay | Collectors/PokemonInfo.py:164-166 | Inserting a missing, empty or log-less replay anywhere changes neither the species nor the moves counted. |
| Collectors.FetchedAppend | Collectors/PokemonInfo.py:156-161 | The pool's answers keep id order: fetching two runs of ids gives the first run's replays followed by the second's. |
| Collectors.CountMons | Collectors/PokemonInfo.py:155-173 | The species count fails exactly when reading fails (KeyError or IndexError). Otherwise it is None exactly when no species was seen. Else it holds every species once with its number of sightings, summing to the sightings, most frequent first, ties in first-seen order. |
| Collectors.CountMoves | Collectors/PokemonInfo.py:176-189 | The move count fails exactly when reading fails. Otherwise it holds every move once with its number of uses, summing to the uses, most frequent first, ties in first-used order. It is never None. |
| Collectors.Collect | Collectors/PokemonInfo.py:76-89 | A failed or empty search gives the empty table. Otherwise the result ranks what the request asks for: moves for "move", species otherwise. It is None only when species were asked for and none was seen. |
| ReplayLog.Lines | Collectors/PokemonInfo.py:150 | Splitting a log on newlines gives newline-free lines that join back to the log. |
| ReplayLog.LinesOfJoin | Collectors/PokemonInfo.py:150 | Newline-free lines joined with newlines split back into those lines. |
| ReplayLog.MoveOf | Collectors/PokemonInfo.py:151 | Reading a move succeeds exactly when the line has at least four bar-separated fields, and the move is the fourth. Otherwise it raises IndexError. The move holds no bar. |
| ReplayLog.Moves | Collectors/PokemonInfo.py:149-152 | Reading succeeds exactly when every line holding `|move|` has four fields. Then there is one move per such line, in log order, and each is that line's fourth field. No move holds a bar or a newline. A failure is an IndexError. |
| ReplayLog.MovesReadBack | Collectors/PokemonInfo.py:149-152 | Round trip: a log written as `|move|user|move|...` lines among other messages reads back as the moves used, in log order. |
| ReplayLog.MovesOfLines | Collectors/PokemonInfo.py:149-152 | The moves of a log written line by line are the moves read from its lines holding `|move|`, in line order, or the first error. |
| ReplayLog.MovesAppend | Collectors/PokemonInfo.py:149-152 | The moves of two runs of lines are the first run's moves followed by the second's. |
| ReplayLog.SightingOf | Collectors/PokemonInfo.py:126-127 | A switch line with at least four fields yields the third field up to its first colon as the player, and the fourth field up to its first comma as the species. Neither holds a bar. A line with fewer than four fields raises IndexError. |
| ReplayLog.SightingOfLine | Collectors/PokemonInfo.py:126-127 | Round trip: the line `|switch|p1a: Nick|Species, details|...` reads back as the slot `p1a` (third field up to the colon) and the species (fourth field up to the comma). |
| ReplayLog.OwnersIsGrouped | Collectors/PokemonInfo.py:123-132 | The owner dictionary equals the reference table: players in first-switch order, each with the distinct species it switched in. |
| ReplayLog.OwnersSpec | Collectors/PokemonInfo.py:123-132 | Players are in first-switch order. Each player's list holds every species it switched in exactly once, in first-switch order. |
| ReplayLog.ReplayMons | Collectors/PokemonInfo.py:117-146 | Collectors' `get_replay_mons`. With no `|poke|` in the log, it succeeds exactly when every switch line has four fields, and it then gives the switch-ins grouped by player in first-switch order. With a `|poke|`, it succeeds exactly when every preview segment has a second field, and it then gives one name per segment, in order. Any failure is an IndexError. `PreviewRoundTrip` reads a whole preview back. |
| ReplayLog.HiddenTeam | Collectors/PokemonInfo.py:120-136 | Without a preview, the result concatenates the per-player species lists, in first-switch order of players. Errors are IndexErrors from malformed switch lines. |
| ReplayLog.PokeSection | Collectors/PokemonInfo.py:139-140 | The cut-out preview section holds no newline. |
| ReplayLog.PokeName | Collectors/PokemonInfo.py:145 | Reading a preview segment succeeds exactly when it has a second bar-separated field. The species is then the start of that second field, up to its first comma or its end, so it holds no comma. Otherwise it raises IndexError. |
| ReplayLog.PokeNameWithItem | Collectors/PokemonInfo.py:145 | A preview record followed by any text, such as the `item` flag, reads back as its species. |
| ReplayLog.SectionMons | Collectors/PokemonInfo.py:139-146 | Reading succeeds exactly when every `|poke|` segment of the section has a second field. The k-th name is what `PokeName` reads from the k-th segment, so there is one name per segment, in order. No name holds a comma, bar or newline. |
| ReplayLog.NoPokeSection | Scrapers/PokemonInfo.py:48-51 | Without `|poke|` both indices are -1, and the slice they cut is empty. |
| ReplayLog.NoPokeMons | Scrapers/PokemonInfo.py:48-57 | Without `|poke|` the preview parse finds no names. |
| ReplayLog.PreviewSection | Collectors/PokemonInfo.py:139-140 | For a log holding a block of team-preview lines, the section cut out is exactly the tagged preview records. |
| ReplayLog.PreviewRoundTrip | Collectors/PokemonInfo.py:117-146 | A log holding a block of readable team-preview lines reads back as the previewed species, in order. |
| Sequences.DedupFirstAppearance | Collectors/PokemonInfo.py:128-130 | "Append unless present" keeps each element once, in order of first appearance. |
| Tally.BumpTable | Collectors/PokemonInfo.py:168 | One counting step turns the table for the items so far into the table for one more item. |
| Tally.CountIsTable | Collectors/PokemonInfo.py:167-168 | The counting loop pairs each distinct item, in first-seen order, with its number of occurrences. |
| Tally.TotalCount | Collectors/PokemonInfo.py:167-168 | The counts sum to the number of items. |
| Tally.SortSpec | Collectors/PokemonInfo.py:169 | Sorting by count permutes the entries and orders them by count. Entries with equal counts keep their relative order. |
| Tally.TiesInFirstAppearance | Collectors/PokemonInfo.py:169 | After the stable sort, entries with equal counts are still in first-seen order. |
| Tally.CountSorted | Collectors/PokemonInfo.py:164-169 | The ranked counts hold every distinct item exactly once with its number of occurrences. The counts sum to the number of items, the entries are ordered by count, and ties are in first-seen order. |
| Tally.RankedEmpty | Collectors/PokemonInfo.py:169-173 | The ranked counts are empty exactly when there was nothing to count. |
| Tally.SameEntries | Scrapers/PokemonInfo.py:78 | Two rankings of the same items hold the same entries, whatever direction each is sorted in. |
| Scrapers.PlayerSection | Scrapers/PokemonInfo.py:35-37 | The section is never longer than the log. Without a player tag, it is empty. |
| Scrapers.SectionBetweenTags | Scrapers/PokemonInfo.py:35-37 | With both tags present, player tag first, the section runs from the first player tag to the first `|gen|`. |
| Scrapers.SectionWithoutGen | Scrapers/PokemonInfo.py:35-37 | Without `|gen|`, the section runs from the first player tag to just before the log's last character. |
| Scrapers.UserOf | Scrapers/PokemonInfo.py:41 | Reading a player tag succeeds exactly when it has a second bar-separated field, and the user is that field. Otherwise it raises IndexError. |
| Scrapers.UsersIn | Scrapers/PokemonInfo.py:38-41 | Reading succeeds exactly when every player tag of the section has a second field. The k-th user is what `UserOf` reads from the k-th tag, so there is one user per tag, in order. No user holds a bar. A failure is an IndexError. |
| Scrapers.Users | Scrapers/PokemonInfo.py:33-41 | `get_replay_users` on a whole log: it succeeds exactly when every player tag between the first `|player|` and the first `|gen|` has a second field, and the k-th user is that tag's second field. Any failure is an IndexError. `NoPlayers` and `UsersBetweenTags` pin the section. |
| Scrapers.NoPlayers | Scrapers/PokemonInfo.py:35-41 | A log without a player tag names no users. |
| Scrapers.UsersOfSection | Scrapers/PokemonInfo.py:38-41 | A section made of player records reads back as the players' names, in order. |
| Scrapers.UsersBetweenTags | Scrapers/PokemonInfo.py:33-42 | When the text between the first player tag and the first `|gen|` is a run of player lines, the usernames are their names, in order. |
| Scrapers.GetReplayMons | Scrapers/PokemonInfo.py:45-57 | Without `|poke|` the scraper finds no species. With it, the scraper agrees with the collector's `get_replay_mons`. |
| Scrapers.PreviewMons | Scrapers/PokemonInfo.py:45-57 | A log holding a block of readable team-preview lines reads back as the previewed species. |
| Scrapers.GetReplayLog | Scrapers/PokemonInfo.py:28-31 | The log of a found replay that has one. TypeError for a replay that could not be fetched, KeyError for one without a log. |
| Scrapers.AllMons | Scrapers/PokemonInfo.py:70-72 | Reading succeeds exactly when every replay reads. Success means every replay was found and has a log. A failure is a TypeError, KeyError or IndexError. |
| Scrapers.AllMonsAppend | Scrapers/PokemonInfo.py:68-74 | Replays are read one after another: a run's species are the first part's followed by the rest's, or the first error. |
| Scrapers.AllMonsOne | Scrapers/PokemonInfo.py:68-69 | One fetched replay contributes exactly the species its log shows, or the error reading it raises. With `AllMonsAppend` this fixes the species list of any run of replays. |
| Scrapers.CountMons | Scrapers/PokemonInfo.py:67-79 | The count fails exactly when reading fails. Otherwise every replay was found with its log, and the result holds every species once with its number of sightings, least frequent first, ties in first-seen order. |
| Scrapers.SameCountsAsCollector | Scrapers/PokemonInfo.py:67-79 | Suppose every replay is found and shows a team preview. Then the scraper and the collector read the same species, both succeed or both fail, and their counts hold the same entries: the scraper's least frequent first, the collector's most frequent first. |

## Left out

- Sockets: creating, binding, accepting, `recv` and `sendall`, address reuse and refused connections. They are I/O. The received stream is a given sequence of chunks.
- UTF-8 decoding of each read with `errors='ignore'` is I/O. Chunks are character sequences. The model does not cover a multi-byte character split across two reads, which the server silently drops.
- Connection.Serve: stops at the first empty decoded chunk. The server stops only on an empty byte read. A non-empty read whose bytes all decode to nothing keeps the server's loop running, but it would stop the model.
- FrameCodec.Decode: a valid header is exactly four ASCII digits. The other spellings Python's `int()` accepts are not modelled: surrounding whitespace (spaces, tabs, newlines), underscores, a leading `+`, and decimal digits outside ASCII such as Arabic-Indic or fullwidth digits. The model discards these as malformed. The signed case, which makes the server loop forever, is under Findings.
- The client's `time.sleep` pacing and the final `input()` wait, because they are timing and console I/O.
- Coloured printing, logging and the `print` calls in both replay modules, because they only produce output.
- Collectors' warning for a non-blank unknown format, because it is logging. `Collectors.SearchUrl` models the address it chooses.
- HTTP requests and the thread pool in both replay modules. `search` and `fetch` are parameters, and a non-200 answer is None. The pool's results keep id order, so the fan-out is modelled as a map over the ids.
- Collectors.CountMons: a request that raises is not modelled: a timeout (the collector passes `timeout=5`), a connection error, or an answer that is not JSON. It raises out of the thread pool's map and aborts `count_mons` or `count_moves`, and the model has no such failure.
- Collectors.Collect: the search answer is modelled as a list of JSON objects. A JSON answer of another shape, and non-string JSON field values, are not modelled.
- The scraper's `search_replays` and `get_replay_info` are network calls. Its module-level fetch and print calls are left out as well.
- ReplayLog.PreviewRoundTrip: covers preview lines whose item field is empty, such as `|poke|p1|Ferrothorn, F|`. For a line with the item flag, `ReplayLog.PokeNameWithItem` shows that its segment still reads back as the species, and `ReplayLog.SectionMons` states the name of every segment. The whole-log round trip for such lines is not proved.
- Scrapers.Users: `get_replay_users` prints the list it builds and returns None. The model returns the list.
- Scrapers.CountMons: the unused `byname` parameter is not modelled.
- Collectors/__init__.py, Scrapers/PCInfo.py, the block timers, app.py, main.py and libLogging. They cover module discovery, system metrics, wall-clock timing, configuration and command-line dispatch, the web API and logging. None of them is part of this model.

## Findings

| source | as written | input that shows it | evidently intended | confidence | as-written member | corrected member |
|---|---|---|---|---|---|---|
| Server.py:49-61 | The header goes through `int()`, which accepts a sign. A negative length makes `data_buffer[4:4 + n]` and `data_buffer[4 + n:]` count from the end. | A buffer "-999" followed by at most 991 characters decodes to an empty payload and the same buffer. The drain loop then decodes it again forever. | A header is a count of characters, so only four digits are accepted. Anything else is a malformed header and never yields a frame. | not executed | FrameCodec.DecodeAsWritten, FrameCodec.NegativeHeaderStalls | FrameCodec.Decode, Connection.Drain |
