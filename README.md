# Map voter of a Squad RCON bot, in Dafny

This project models the map-vote rules of `mapvoter/mapvoter.py`, the part of the bot that
decides when a map vote starts, which maps it offers, how chat messages become ballots and
what the bot does with the result. The game server is reached through an RCON client. In
the model that client is a log of the commands sent to it, in order: `AdminBroadcast <msg>`,
`AdminSetNextMap "<map>"` and the chat clear.

The modules follow the structure of the Python file:

- `Text`: the Python string operations the file relies on. These are `str.strip()`, the
  regular expression `\w+$`, `int()` on a word token, `str.lower()`, the substring test,
  the decimal rendering of an int and `'\n'.join`.
- `Chats`: the chat snapshot, a dict of player id to `PlayerChat`. It is modelled as the
  dict's items in insertion order.
- `Votes`: `get_highest_map_vote`, including the `collections.Counter` it fills in
  insertion order and `most_common(1)`. The method `GetHighestMapVote` keeps the
  source's nested loop with its `break`. It is proved equal to the pure function `Tally`,
  and the properties of the tally are proved about `Tally`.
- `Candidates`: the line parse of `get_rotation_from_filepath` and the rotation and catalog
  branches of `get_map_candidates`. Also `format_candidate_maps`.
- `Triggers`: `has_map_vote_command`, the requester ids collected by
  `did_enough_players_ask_for_map_vote` and the clan-tag test.
- `Voting`: the `MapVoter` state machine as pure functions on the fields that change. It
  covers `should_start_map_vote`, `start_map_vote` and one `run_once` tick. The
  cross-call properties are lemmas here.
- `Voter`: class `MapVoter` with the source's fields, updated in place by its methods.
  Each method is proved against a `Voting` function:
  - `ResetMapVote`, `ShouldStartMapVote`, `ListenToVotes`, `StartMapVote`, `ResolveVote`
    and `RunOnce` against the `Voting` function of the same name;
  - `DidEnoughPlayersAskForMapVote` against `DidEnoughPlayersAsk`;
  - `DidOneClanMemberAskForMapVote` against `ClanMemberAsked` of `Triggers`;
  - `AnnounceMapVote` against `OpeningEffects`;
  - `AvoidRepeatedMap` against `SameMapGuard`;
  - `StartMapVoteIfRequested` against `AfterGuard`;
  - `StartRequestedVote` against `StartMapVote` on the maps `VoteCandidates` gives.
- `Scenarios`: the concrete cases of `tests/test_mapvoter.py`, each proved through a small
  general lemma.

Behaviours of the code worth knowing:

- **Tie-breaking.** A tie at the maximum goes to the map that received its first ballot
  earliest, in player order. This is the insertion order of the `Counter`, read by
  `most_common`. It is not the lowest candidate index. `Votes.TallyWinner` and
  `Scenarios.TallyTieGoesToFirstVoted` state this.
- **The redo flag.** It is not a trigger: `should_start_map_vote` never reads it. After a
  redo vote the cooldown timestamp and the requesters are kept. When the requesters started
  that vote (no clan member asked) and the clock has not gone backwards, the requester path
  fires again on the next tick, and that vote takes its maps from the catalog. This holds for
  ticks whose next map differs from the current one; otherwise the same-map guard may raise
  first. When a clan member started the redo vote, the clan test returns before the requesters
  are recorded. If that happened inside the cooldown, the flag stays up and the catalog vote
  waits for the next trigger. `Voting.RedoIsNotATrigger` and `Voting.RedoRestartsWithCatalog`
  state this.
- **The ballot token.** It is the trailing run of word characters of the stripped
  message, not the last whitespace-separated token. So `-22` reads as 22.
- **Candidate lists may hold the current map, or repeat maps.** With a rotation of four
  maps or fewer the current map is always offered (`Candidates.ShortRotationOffersCurrentMap`).
  Maps can also repeat, because the slice and its wrap-around overlap. In a rotation without
  duplicate maps this happens exactly when the rotation has two or three maps and the current
  map is not the last (`Scenarios.ShortRotationRepeats`, `Scenarios.ThreeMapsFirstRepeats`).
  With the current map last, the rotation is offered once, in order
  (`Scenarios.ThreeMapsLastNoRepeat`).

## Model

| member | source | states |
|---|---|---|
| Text.TrailingWordIsLongestWordSuffix | mapvoter/mapvoter.py:153 | the token `re.search(r'\w+$', ...)` finds is a suffix made of word characters, and the character before it is not one |
| Text.NatToStringRoundTrip | mapvoter/mapvoter.py:153-154 | a number typed in decimal is accepted by `int()` and reads back as that number |
| Text.ContainsIff | mapvoter/mapvoter.py:62 | the `in` substring test holds exactly when the pattern occurs at some position |
| Votes.ValidBallot | mapvoter/mapvoter.py:153-154 | a message that counts names one of the candidates |
| Votes.NumberIsBallot | mapvoter/mapvoter.py:153-154 | typing the number shown next to a candidate is a ballot for that candidate |
| Votes.NumberAfterText | mapvoter/mapvoter.py:153 | a number after any text that ends in a non-word character (a `-`, a word and a space, leading blanks) is read as the index, so a parsed index is never negative |
| Votes.NoTrailingDigitNoBallot | mapvoter/mapvoter.py:153-158 | a message that ends in neither a digit nor whitespace is skipped |
| Votes.PlayerVote | mapvoter/mapvoter.py:150-157 | a player's counted vote, when there is one, is a candidate |
| Votes.PlayerVoteNoneIff | mapvoter/mapvoter.py:150-159 | a player has no vote exactly when none of their messages is a valid ballot |
| Votes.PlayerVoteIsNewestBallot | mapvoter/mapvoter.py:148-157 | the counted vote is the newest valid ballot, whatever the player wrote before it |
| Votes.LaterBallotOverrides | mapvoter/mapvoter.py:148-157 | a later valid ballot overrides all of the player's older messages |
| Votes.BallotsAreVotes | mapvoter/mapvoter.py:143-157 | the ballots reaching the Counter are the players' votes in chat order, players without one left out |
| Votes.BallotsConcat | mapvoter/mapvoter.py:143-159 | each player's ballot is independent of the other players' messages |
| Votes.BallotsOnePerPlayer | mapvoter/mapvoter.py:148-157 | at most one ballot per player, and every ballot is a candidate |
| Votes.BallotsEmptyIff | mapvoter/mapvoter.py:143-159 | no ballot reaches the Counter exactly when no player has a vote |
| Votes.Find | mapvoter/mapvoter.py:154 | the Counter lookup finds the first item with the key, or reports it absent |
| Votes.CounterOfKeys | mapvoter/mapvoter.py:139-154 | the Counter has one item per distinct ballot, counting that ballot's occurrences |
| Votes.CounterOfOrder | mapvoter/mapvoter.py:139-154 | the Counter lists its keys in the order of their first ballots |
| Votes.CounterOfSum | mapvoter/mapvoter.py:154 | the counts add up to the number of ballots |
| Votes.MostCommonIndex | mapvoter/mapvoter.py:161 | `most_common(1)` picks an item of greatest count, the first of them |
| Votes.MostCommonItem | mapvoter/mapvoter.py:161 | that item has no fewer ballots than any name, and it was voted for before every name with as many |
| Votes.CounterWinner | mapvoter/mapvoter.py:154-161 | over a non-empty list of ballots the winner is a ballot with its count, the maximum, first voted among the tied |
| Votes.GetHighestMapVote | mapvoter/mapvoter.py:127-161 | the nested loop with its `break` returns the tally of the newest valid ballot per player |
| Votes.TallyNoneIff | mapvoter/mapvoter.py:139-161 | the result is None exactly when no player cast a valid ballot |
| Votes.TallyWinner | mapvoter/mapvoter.py:127-161 | the winner is a candidate with at least one ballot, its count, no fewer than any other name, and first voted among the tied |
| Votes.CountIsDistinctVoters | mapvoter/mapvoter.py:143-157 | with distinct ids, a name's count is the number of players whose vote it is |
| Votes.TallyCountsVoters | mapvoter/mapvoter.py:143-161 | the winning count is the number of players who voted for the winner, and no name has more voters |
| Votes.BallotsPerVoter | mapvoter/mapvoter.py:143-157 | with distinct ids, there is one ballot per player with a valid vote |
| Votes.TallySumIsVoters | mapvoter/mapvoter.py:143-161 | the counts add up to the number of players with a valid vote |
| Candidates.ReadLines | mapvoter/mapvoter.py:73 | `readlines()` gives non-empty lines with `'\n'` at most at their end |
| Candidates.ReadLinesAfterLine | mapvoter/mapvoter.py:73 | a line ended by `'\n'` is read as one line, followed by the lines of the rest |
| Candidates.KeepNonEmpty | mapvoter/mapvoter.py:73 | `filter(None, ...)` keeps only non-empty lines from its input, and keeps every non-empty line as often as it occurs there |
| Candidates.KeepNonEmptyConcat | mapvoter/mapvoter.py:73 | the filter works line by line and keeps order: filtering a concatenation concatenates the filtered parts; an empty line is dropped and a non-empty one kept |
| Candidates.StripLine | mapvoter/mapvoter.py:73 | `strip('\n')` of a line leaves no `'\n'` in it |
| Candidates.ParseRotationLines | mapvoter/mapvoter.py:73 | every parsed map is a non-empty line without `'\n'` |
| Candidates.ParseRotationRoundTrip | mapvoter/mapvoter.py:73 | writing non-empty, newline-free maps joined by `'\n'` and parsing the text gives the same rotation |
| Candidates.Slice | mapvoter/mapvoter.py:105-109 | a Python slice clamps both bounds to the list: it holds the elements from `lo` up to `min(hi, len)`, none when `lo` is past either |
| Candidates.IndexOf | mapvoter/mapvoter.py:100 | `list.index` gives the first position of the map, or fails exactly when it is absent |
| Candidates.RotationCandidates | mapvoter/mapvoter.py:96-113 | the rotation is used exactly when the current map is in it, and the list starts with the skirmish and ends with the redo option |
| Candidates.CatalogCandidates | mapvoter/mapvoter.py:116-119 | the catalog branch offers the catalog's layers, then the redo option |
| Candidates.GetMapCandidates | mapvoter/mapvoter.py:94-119 | the rotation branch is taken exactly when a file is given and the current map is in it, the catalog branch otherwise, and the redo option is always last |
| Candidates.Middle | mapvoter/mapvoter.py:360-361 | `candidates[1:-1]` drops the opening skirmish and the redo option |
| Candidates.CyclicNoWrap | mapvoter/mapvoter.py:105 | without wrap-around, the slice is the maps read cyclically after the current one |
| Candidates.CyclicWrap | mapvoter/mapvoter.py:105-109 | the slice plus its wrap-around is the maps read cyclically after the current one |
| Candidates.RotationWindow | mapvoter/mapvoter.py:100-111 | with at least four maps, the offer is the skirmish, the four maps after the current one read cyclically, and the redo option |
| Candidates.RotationWindowWraps | mapvoter/mapvoter.py:105-109 | the same when the slice runs past the end of the rotation |
| Candidates.ShortRotationOffersCurrentMap | mapvoter/mapvoter.py:103-111 | with a rotation of at most four maps that holds the current map, the current map is among the maps offered |
| Candidates.CyclicDistinct | mapvoter/mapvoter.py:86-87 | in a duplicate-free rotation, fewer maps than its length read cyclically are distinct and exclude the current map |
| Candidates.RotationWindowDistinct | mapvoter/mapvoter.py:86-111 | with a duplicate-free rotation of more than four maps, the four offered maps are distinct, from the rotation, and not the current map |
| Candidates.NumberedLines | mapvoter/mapvoter.py:124 | one `"{index}) {name}"` line per candidate, in order |
| Candidates.FormatCandidateMaps | mapvoter/mapvoter.py:122-124 | the text is empty exactly when there are no candidates |
| Text.JoinSnoc | mapvoter/mapvoter.py:124 | `'\n'.join` puts one separator before each part after the first, and none after the last |
| Candidates.FormatCandidateMapsSnoc | mapvoter/mapvoter.py:122-124 | one more candidate adds exactly a `'\n'` and its numbered line to the text; a single candidate gives its line alone |
| Candidates.FormatCandidateMapsLines | mapvoter/mapvoter.py:122-124 | reading the text back line by line gives one numbered line per candidate |
| Triggers.AnyInIff | mapvoter/mapvoter.py:62 | `any(...)` holds exactly when some command occurs in the text |
| Triggers.HasMapVoteCommandIff | mapvoter/mapvoter.py:60-62 | a message is a request exactly when a command occurs at some position of the lower-cased message |
| Triggers.CommandInAnyCase | mapvoter/mapvoter.py:60-62 | a command typed in any mix of cases, anywhere in a message, is a request |
| Triggers.NoBangNoCommand | mapvoter/mapvoter.py:54-62 | a message without `!` is never a request |
| Triggers.AnyCommandIff | mapvoter/mapvoter.py:307-308 | a player asked exactly when one of their messages is a request |
| Triggers.AskedIdsAre | mapvoter/mapvoter.py:306-309 | the ids the loop adds are exactly those of the players who asked |
| Triggers.ClanMemberAskedIff | mapvoter/mapvoter.py:324-328 | a clan member asked exactly when some player whose name holds `[FP]` (case-sensitive) sent a request |
| Triggers.ClanAskerIsRequester | mapvoter/mapvoter.py:306-328 | a clan member who asks is also among the requesters |
| Voting.SetNextMapIsNotBroadcast | mapvoter/mapvoter.py:285 | a next-map command is neither a broadcast nor a chat clear |
| Voting.SetNextMapInjective | mapvoter/mapvoter.py:285 | the map can be read back from a next-map command |
| Voting.DurationUntilMapVoteAvailable | mapvoter/mapvoter.py:211-217 | the time left is at most zero exactly when the cooldown has passed |
| Voting.DidEnoughPlayersAsk | mapvoter/mapvoter.py:300-318 | requesters only grow by the askers; the answer is whether there are at least five; the reminder goes out exactly when fewer than five and new ones came in |
| Voting.RepeatedRequestsChangeNothing | mapvoter/mapvoter.py:300-318 | asking again on the same chat changes nothing and sends nothing |
| Voting.ShouldStartMapVote | mapvoter/mapvoter.py:219-230 | a vote starts exactly when a clan member asked, or when the cooldown passed and there are at least five requesters; requesters are counted and reminded only after the clan test fails and the cooldown passed, and in that case they are recorded and the reminder goes out exactly as `DidEnoughPlayersAsk` says |
| Voting.BackwardsClockNeverCoolsDown | mapvoter/mapvoter.py:211-230 | with a non-negative cooldown and a clock that went backwards, only a clan member starts a vote, and nothing changes |
| Voting.RedoIsNotATrigger | mapvoter/mapvoter.py:229-230 | the redo flag plays no part in whether a vote starts |
| Voting.ListenToVotes | mapvoter/mapvoter.py:241-249 | the halftime reminder when there is a non-empty one, and the end of voting last |
| Voting.OpeningEffects | mapvoter/mapvoter.py:257-270 | the announcement, the chat clear, then the listening commands: the announcement again as the halftime reminder and "Voting is over!" |
| Voting.ResolveVote | mapvoter/mapvoter.py:277-298 | resolving keeps the stored chat and sends one or two commands |
| Voting.StartMapVote | mapvoter/mapvoter.py:251-298 | a vote opens with those four commands, resolves after them, and stores the ballots' chat |
| Voting.StartMapVoteOutcomes | mapvoter/mapvoter.py:274-298 | a real winner is announced and set next, with the cooldown restarted and the requesters cleared; a redo winner only raises the flag; no ballot only announces the failure; only the first sets a next map |
| Voting.OpeningSetsNoNextMap | mapvoter/mapvoter.py:257-270 | the opening of a vote sets no next map |
| Voting.VoteSetsOnlyWinner | mapvoter/mapvoter.py:277-287 | the only map a vote sets next is the real winner of its tally |
| Voting.NextMapIsMostVoted | mapvoter/mapvoter.py:274-287 | the map a vote sets next is a real candidate with at least one voter, and no map has more voters |
| Voting.CooldownAfterWinner | mapvoter/mapvoter.py:219-230 | after a vote with a real winner, only a clan member starts another before the cooldown passes |
| Voting.VoteCandidates | mapvoter/mapvoter.py:369-371 | after a redo the candidates come from the catalog, otherwise from get_map_candidates with the rotation file |
| Voting.SameMapGuard | mapvoter/mapvoter.py:359-363 | nothing is set when the next map differs from the current one; when they are equal it raises exactly when `candidates[1:-1]` is empty, and otherwise sets one map, an element of `candidates[1:-1]` |
| Voting.AfterGuard | mapvoter/mapvoter.py:365-371 | when no vote should start, the tick ends with the should-start test's state and commands |
| Voting.RunOnce | mapvoter/mapvoter.py:332-371 | a tick that raises has only stored the chat and sent nothing |
| Voting.RunOnceGuard | mapvoter/mapvoter.py:359-371 | a tick raises exactly when the next map is the current one and `candidates[1:-1]` is empty; when the maps are equal and it goes on, its first command sets a map from that middle; when they differ the guard adds no command |
| Voting.GuardNeverRepeatsCurrentMap | mapvoter/mapvoter.py:356-363 | with a duplicate-free rotation of more than four maps, the guard sets a map from the rotation other than the current one |
| Voting.RedoTickKeepsTrigger | mapvoter/mapvoter.py:288-293 | a requested vote won by the redo option raises the flag and keeps the cooldown timestamp and the five requesters |
| Voting.RedoTickStartsCatalogVote | mapvoter/mapvoter.py:365-371 | with the flag up and the trigger kept, the next tick runs a vote on the catalog's maps |
| Voting.RedoRestartsWithCatalog | mapvoter/mapvoter.py:288-371 | when the requesters (not a clan member) started a vote that ends on the redo option, the clock does not go backwards, and both ticks' next map differs from the current one (so the same-map guard cannot raise), the very next tick starts a vote on the catalog's maps |
| Voting.StartMapVoteEffectsIgnoreState | mapvoter/mapvoter.py:251-298 | the commands of a vote depend on the candidates and the ballots only |
| Voting.NextMapOnlyFromVote | mapvoter/mapvoter.py:356-371 | when the next map differs from the current one, a tick sets a next map only through a vote that should start, to that vote's winner |
| Voter.MapVoter.constructor | mapvoter/mapvoter.py:171-195 | a new voter has its settings, its cooldown started now, no requesters, no redo and no chat |
| Voter.MapVoter.ResetMapVote | mapvoter/mapvoter.py:197-205 | the timestamp becomes now and the requesters are emptied; the redo flag is kept |
| Voter.MapVoter.DurationSinceMapVote | mapvoter/mapvoter.py:207-209 | the time since the last reset |
| Voter.MapVoter.DurationUntilMapVoteAvailable | mapvoter/mapvoter.py:211-217 | at most zero exactly when the cooldown has passed |
| Voter.MapVoter.DidOneClanMemberAskForMapVote | mapvoter/mapvoter.py:320-328 | the nested loop with its early return answers whether a clan member asked |
| Voter.MapVoter.AddMapVoteRequesters | mapvoter/mapvoter.py:304-309 | the nested loop adds exactly the askers' ids to the requesters, and changes nothing else |
| Voter.MapVoter.DidEnoughPlayersAskForMapVote | mapvoter/mapvoter.py:300-318 | the requesters grow by the askers; the answer is at least five; the reminder is sent exactly when fewer and new ones came in |
| Voter.MapVoter.ShouldStartMapVote | mapvoter/mapvoter.py:219-230 | the answer, the new state and the commands sent are those of the should-start function, with the short-circuit kept |
| Voter.MapVoter.ListenToVotes | mapvoter/mapvoter.py:232-249 | the reminder (when non-empty) and the end of voting are sent |
| Voter.MapVoter.AnnounceMapVote | mapvoter/mapvoter.py:256-270 | the opening commands of a vote are sent, in order |
| Voter.MapVoter.ResolveVote | mapvoter/mapvoter.py:274-298 | the state and commands after the tally are those of the resolve function |
| Voter.MapVoter.StartMapVote | mapvoter/mapvoter.py:251-298 | the new state and the commands sent are those of the start-vote function |
| Voter.MapVoter.AvoidRepeatedMap | mapvoter/mapvoter.py:356-363 | it raises exactly when the guard does, and otherwise sends the guard's command |
| Voter.MapVoter.StartRequestedVote | mapvoter/mapvoter.py:366-371 | the flag is cleared and a vote runs on the catalog's maps after a redo, on get_map_candidates' maps otherwise |
| Voter.MapVoter.StartMapVoteIfRequested | mapvoter/mapvoter.py:365-371 | the rest of the tick after the guard follows its function |
| Voter.MapVoter.RunOnce | mapvoter/mapvoter.py:332-371 | whether it raised, the new state and the commands sent are those of one tick |
| Scenarios.DigitBallots | tests/test_mapvoter.py:89-110 | `"0"`, `"1"` and `"2"` are ballots for the first, second and third candidate |
| Scenarios.WordsAreNoBallots | tests/test_mapvoter.py:82-84 | the test's word messages are no ballots |
| Scenarios.OutOfRangeNoBallots | tests/test_mapvoter.py:85-87 | `'10000'` and `'-22'` are no ballots among three candidates |
| Scenarios.VoteOfTwo | mapvoter/mapvoter.py:150-157 | with two messages the newer ballot counts, else the older one |
| Scenarios.CounterOfSame | mapvoter/mapvoter.py:154-161 | three ballots for one map: it wins with three |
| Scenarios.CounterOfMajority | mapvoter/mapvoter.py:154-161 | ballots x, y, z, y: y wins with two |
| Scenarios.CounterOfTie | mapvoter/mapvoter.py:154-161 | ballots x, y, x, y: x wins the tie with two |
| Scenarios.TallyWithoutPlayers | tests/test_mapvoter.py:79-80 | an empty chat gives None |
| Scenarios.TallyWithoutNumbers | tests/test_mapvoter.py:82-84 | messages without numbers give None |
| Scenarios.TallyOutOfRange | tests/test_mapvoter.py:85-87 | out-of-range numbers give None |
| Scenarios.TallyNewestBallotCounts | tests/test_mapvoter.py:89-92 | only the newest ballot of a player counts: the first map with one vote |
| Scenarios.TallyOneMap | tests/test_mapvoter.py:94-101 | three players for the first map: it wins with three |
| Scenarios.TallySeveralMaps | tests/test_mapvoter.py:103-110 | the second map wins with two |
| Scenarios.TallyTieGoesToFirstVoted | tests/test_mapvoter.py:112-119 | a two-two tie goes to the third map, which was voted for first |
| Scenarios.FormatThreeDigits | mapvoter/mapvoter.py:124 | three candidates give the lines `0) `, `1) ` and `2) ` joined by `'\n'` |
| Scenarios.FormatFakeCandidates | tests/test_mapvoter.py:62-68 | the test's three maps give the expected announcement |
| Scenarios.FormatShortCases | tests/test_mapvoter.py:70-74 | `['a map']` gives `0) a map` and `[]` gives the empty string |
| Scenarios.RotationFileCase | tests/test_mapvoter.py:51-58 | the test's rotation file reads back as its rotation |
| Scenarios.RotationFileBlankLines | mapvoter/mapvoter.py:73 | a blank line and a final newline are dropped from the rotation |
| Scenarios.ShortRotationRepeats | mapvoter/mapvoter.py:100-111 | the rotation `[a, b]` with current map `a` offers `b, a, b`: maps repeat and the current map is included |
| Scenarios.ThreeMapsFirstRepeats | mapvoter/mapvoter.py:100-111 | the rotation `[a, b, c]` with current map `a` offers `b, c, a, b` |
| Scenarios.ThreeMapsLastNoRepeat | mapvoter/mapvoter.py:100-111 | the rotation `[a, b, c]` of distinct maps with current map `c` offers `a, b, c`, each once |
| Scenarios.RotationWrapsAround | mapvoter/mapvoter.py:105-109 | the four maps after the fifth of six wrap around to the start |
| Scenarios.UpperCaseCommandCase | mapvoter/mapvoter.py:60-62 | `!RTV` inside a message is a request |
| Scenarios.BareWordCase | mapvoter/mapvoter.py:54-62 | `rtv` without its `!` is no request |

## Left out

- `rconbot.py` (argument parsing, logging setup, the reconnect loop and polling) is not part of this model.
- `rcon_client/rcon_client.py` (sockets, the chat-listener process, queue draining) is not part of this model. The client is reduced to the ordered log of the commands it receives.
- `squad_map_randomizer` is external, random and remote. Its results are parameters. `Draw` holds the skirmish layer and the catalog's layers for one `get_map_candidates` call.
- `random.choice` is modelled as the element at `pick % len` of `candidates[1:-1]`. Every element is reachable by some `pick`.
- `random.choice` raises `IndexError` on an empty middle. The model turns this into a `raised` result that ends the tick with only the chat stored. The exception itself is not modelled.
- `time.time()` becomes integer parameters: `now` for the should-start test and `voteEnd` for the reset after a vote. `time.sleep` is a no-op, and float durations are integers.
- `voting_time_duration_s` is kept as a field but has no effect, because the sleeps are not modelled.
- `get_player_chat()` after listening is a parameter: the chat collected during the vote.
- `open()` is not modelled. The rotation file is given as its text. A missing or unreadable file and universal-newline translation (`'\r\n'`) are not modelled.
- Logging calls are not modelled.
- The `isinstance(messages, str)` guard (mapvoter/mapvoter.py:144-146) is not modelled, because a message list is always a sequence here.
- The `KeyError` on missing keyword arguments of `run_once` is not modelled, because the arguments are explicit parameters.
- `Votes.BallotToken`: `\w`, `int()` and `str.lower()` are modelled for ASCII only. Unicode word characters and digits are outside the model. `int()`'s underscores between digits are modelled.
- The helper methods `AddMapVoteRequesters`, `AnnounceMapVote`, `ResolveVote`, `AvoidRepeatedMap`, `StartMapVoteIfRequested` and `StartRequestedVote` split the bodies of `did_enough_players_ask_for_map_vote`, `start_map_vote` and `run_once`. They do not exist in the source. The commands and state changes are those of the source, in its order.
- `Voter.MapVoter.AddMapVoteRequesters` collects the ids in a local set and stores it once, instead of calling `set.add` on the field. Nothing reads the field in between.
- Tests after tests/test_mapvoter.py:121 exercise an API the module no longer has. They are not modelled.
