/**
 * The MapVoter state machine as functions on its state: when a vote starts, what a
 * vote does to the state, and one run_once tick. Effects on the game server are the
 * commands sent through the RCON client, in order.
 */
module Voting {

  import opened Wrappers
  import opened Text
  import opened Chats
  import opened Votes
  import opened Candidates
  import opened Triggers

  /** Seconds between two map votes. */
  const DEFAULT_VOTING_COOLDOWN_S: int := 60 * 30

  /** Seconds the players have to cast their ballots. */
  const DEFAULT_VOTING_TIME_DURATION_S: int := 30

  const START_VOTE_MESSAGE_PREFIX: string :=
    "Please cast a vote for the next map by typing the corresponding number in AllChat.\n"
  const VOTING_OVER_MESSAGE: string := "Voting is over!"
  const VOTE_FAILED_MESSAGE: string := "The map vote failed!"

  /** One call on the RCON client: exec_command with a command line, or clear_player_chat. */
  datatype Effect = Exec(command: string) | ClearChat

  function Broadcast(message: string): Effect {
    Exec("AdminBroadcast " + message)
  }

  function SetNextMap(layer: string): Effect {
    Exec("AdminSetNextMap \"" + layer + "\"")
  }

  /** A next-map command is neither a broadcast nor a chat clear. */
  lemma SetNextMapIsNotBroadcast(layer: string, message: string)
    ensures SetNextMap(layer) != Broadcast(message) && SetNextMap(layer) != ClearChat
  {
    assert SetNextMap(layer).command[5] == 'S';
    assert Broadcast(message).command[5] == 'B';
  }

  /** The quoted layer can be read back from a next-map command. */
  lemma SetNextMapInjective(a: string, b: string)
    requires SetNextMap(a) == SetNextMap(b)
    ensures a == b
  {
    var ca, cb := SetNextMap(a).command, SetNextMap(b).command;
    assert a == ca[17..|ca| - 1];
    assert b == cb[17..|cb| - 1];
  }

  function StartVoteMessage(candidateMaps: seq<string>): string {
    START_VOTE_MESSAGE_PREFIX + FormatCandidateMaps(candidateMaps)
  }

  function VoteResultMessage(winner: string, votes: nat): string {
    "The map with the most votes is: " + winner + " with " + NatToString(votes) + " votes!"
  }

  function VoteRedoMessage(votes: nat): string {
    "The none of the above option had the most votes (" + NatToString(votes) + " votes). !rtv to restart map vote."
  }

  function MoreRequestsMessage(remaining: nat): string {
    NatToString(remaining) + " more requests needed to start a map vote."
  }

  /** The fields of a MapVoter that change; the cooldown is passed alongside. */
  datatype VoterState = VoterState(
    timeSinceMapVote: int,
    requesters: set<string>,
    redoRequested: bool,
    recentChat: Chat)

  /** reset_map_vote: the cooldown restarts at `now` and the requesters are forgotten. */
  function ResetMapVote(s: VoterState, now: int): VoterState {
    s.(timeSinceMapVote := now, requesters := {})
  }

  function DurationSinceMapVote(s: VoterState, now: int): int {
    now - s.timeSinceMapVote
  }

  /** Seconds left until a vote may start; zero or less once the cooldown has passed. */
  function DurationUntilMapVoteAvailable(cooldown: int, s: VoterState, now: int): (d: int)
    ensures d <= 0 <==> DurationSinceMapVote(s, now) >= cooldown
    ensures d + DurationSinceMapVote(s, now) == cooldown
  {
    cooldown - DurationSinceMapVote(s, now)
  }

  /** The answer of a check, the state after it, and the commands it sent. */
  datatype Check = Check(result: bool, state: VoterState, effects: seq<Effect>)

  lemma SubsetOfSameSize(a: set<string>, b: set<string>)
    requires a <= b && |a| == |b|
    ensures a == b
  {
    assert |b - a| == |b| - |a|;
  }

  /**
   * did_enough_players_ask_for_map_vote: the players of the recent chat who sent a
   * command join the requesters; true once there are at least the threshold of them,
   * and otherwise a reminder of how many are missing, sent only when new requesters came in.
   */
  function DidEnoughPlayersAsk(s: VoterState): (r: Check)
    ensures r.state == s.(requesters := s.requesters + AskedIds(s.recentChat))
    ensures r.result <==> |r.state.requesters| >= NUM_PLAYERS_REQUESTING_MAP_VOTE_THRESHOLD
    ensures r.effects ==
      if !r.result && r.state.requesters != s.requesters
      then [Broadcast(MoreRequestsMessage(NUM_PLAYERS_REQUESTING_MAP_VOTE_THRESHOLD - |r.state.requesters|))]
      else []
  {
    var before := |s.requesters|;
    var requesters := s.requesters + AskedIds(s.recentChat);
    var remaining := NUM_PLAYERS_REQUESTING_MAP_VOTE_THRESHOLD - |requesters|;
    if |requesters| != before then
      assert requesters != s.requesters;
      Check(remaining <= 0, s.(requesters := requesters),
            if remaining > 0 then [Broadcast(MoreRequestsMessage(remaining))] else [])
    else
      SubsetOfSameSize(s.requesters, requesters);
      Check(remaining <= 0, s.(requesters := requesters), [])
  }

  /** DidEnoughPlayersAsk, given the requester set it computes. */
  lemma DidEnoughPlayersAskWith(s: VoterState, requesters: set<string>)
    requires requesters == s.requesters + AskedIds(s.recentChat)
    ensures var remaining := NUM_PLAYERS_REQUESTING_MAP_VOTE_THRESHOLD - |requesters|;
      DidEnoughPlayersAsk(s) == Check(
        remaining <= 0, s.(requesters := requesters),
        if remaining > 0 && |requesters| != |s.requesters| then [Broadcast(MoreRequestsMessage(remaining))] else [])
  {
  }

  /** Asking again with the same chat adds nobody, changes nothing and sends nothing. */
  lemma RepeatedRequestsChangeNothing(s: VoterState)
    ensures var r := DidEnoughPlayersAsk(s);
      DidEnoughPlayersAsk(r.state) == Check(r.result, r.state, [])
  {
    var r := DidEnoughPlayersAsk(s);
    assert r.state.requesters + AskedIds(r.state.recentChat) == r.state.requesters;
  }

  /**
   * should_start_map_vote: a clan member's command starts a vote at once; otherwise,
   * once the cooldown has passed, enough requesters do. The requester count (and its
   * reminder) runs only when both earlier tests let it.
   */
  function ShouldStartMapVote(cooldown: int, s: VoterState, now: int): (r: Check)
    ensures r.result <==>
      || ClanMemberAsked(s.recentChat)
      || (DurationSinceMapVote(s, now) >= cooldown &&
          |s.requesters + AskedIds(s.recentChat)| >= NUM_PLAYERS_REQUESTING_MAP_VOTE_THRESHOLD)
    ensures r.state == s.(requesters := r.state.requesters) && s.requesters <= r.state.requesters
    ensures r.state != s || r.effects != [] ==>
      !ClanMemberAsked(s.recentChat) && DurationSinceMapVote(s, now) >= cooldown
    ensures r.result ==> r.effects == []
    ensures !ClanMemberAsked(s.recentChat) && DurationSinceMapVote(s, now) >= cooldown ==>
      r == DidEnoughPlayersAsk(s)
  {
    if ClanMemberAsked(s.recentChat) then Check(true, s, [])
    else if DurationUntilMapVoteAvailable(cooldown, s, now) <= 0 then DidEnoughPlayersAsk(s)
    else Check(false, s, [])
  }

  /** With a clock that went backwards and a non-negative cooldown, only a clan member can start a vote. */
  lemma BackwardsClockNeverCoolsDown(cooldown: int, s: VoterState, now: int)
    requires cooldown >= 0 && now < s.timeSinceMapVote
    ensures ShouldStartMapVote(cooldown, s, now) == Check(ClanMemberAsked(s.recentChat), s, [])
  {
  }

  /** The redo flag plays no part in whether a vote starts. */
  lemma RedoIsNotATrigger(cooldown: int, s: VoterState, now: int, redo: bool)
    ensures ShouldStartMapVote(cooldown, s.(redoRequested := redo), now).result ==
            ShouldStartMapVote(cooldown, s, now).result
  {
  }

  /** listen_to_votes: the halftime reminder when there is a non-empty one, then the end of voting. */
  function ListenToVotes(halftimeMessage: Option<string>): (effects: seq<Effect>)
    ensures |effects| == if halftimeMessage.Some? && halftimeMessage.value != "" then 2 else 1
    ensures effects[|effects| - 1] == Broadcast(VOTING_OVER_MESSAGE)
  {
    (if halftimeMessage.Some? && halftimeMessage.value != "" then [Broadcast(halftimeMessage.value)] else [])
    + [Broadcast(VOTING_OVER_MESSAGE)]
  }

  /** What start_map_vote sends before the tally: the announcement twice around a chat clear, then the end of voting. */
  function OpeningEffects(candidateMaps: seq<string>): (effects: seq<Effect>)
    ensures |effects| == 4 && effects[1] == ClearChat
    ensures effects[0] == effects[2] == Broadcast(StartVoteMessage(candidateMaps))
    ensures effects[3] == Broadcast(VOTING_OVER_MESSAGE)
    ensures effects[2..] == ListenToVotes(Some(StartVoteMessage(candidateMaps)))
  {
    var message := StartVoteMessage(candidateMaps);
    [Broadcast(message), ClearChat] + ListenToVotes(Some(message))
  }

  /** The state after an operation and the commands it sent. */
  datatype Transition = Transition(state: VoterState, effects: seq<Effect>)

  /**
   * How start_map_vote acts on the tally `result`, from the state `listened` it has once
   * the ballots are stored: the commands it sends after the end of voting.
   */
  function ResolveVote(listened: VoterState, result: Option<(string, nat)>, voteEnd: int): (t: Transition)
    ensures t.state.recentChat == listened.recentChat && 1 <= |t.effects| <= 2
  {
    match result
    case Some((winner, votes)) =>
      if winner != REDO_VOTE_OPTION then
        Transition(ResetMapVote(listened, voteEnd), [Broadcast(VoteResultMessage(winner, votes)), SetNextMap(winner)])
      else
        Transition(listened.(redoRequested := true), [Broadcast(VoteRedoMessage(votes))])
    case None =>
      Transition(listened, [Broadcast(VOTE_FAILED_MESSAGE)])
  }

  /**
   * start_map_vote, given the chat collected while listening (`ballots`) and the time
   * the vote ended (`voteEnd`).
   */
  function StartMapVote(s: VoterState, candidateMaps: seq<string>, ballots: Chat, voteEnd: int): (t: Transition)
    ensures |t.effects| >= 5 && t.effects[..4] == OpeningEffects(candidateMaps)
    ensures t.state.recentChat == ballots
  {
    var resolved := ResolveVote(s.(recentChat := ballots), Tally(candidateMaps, ballots), voteEnd);
    Transition(resolved.state, OpeningEffects(candidateMaps) + resolved.effects)
  }

  /** No command of the list sets the next map. */
  ghost predicate SetsNoNextMap(effects: seq<Effect>) {
    forall layer :: SetNextMap(layer) !in effects
  }

  /**
   * The three outcomes of a vote. A real winner is announced and set as the next map,
   * and the cooldown restarts; a redo winner is announced and only raises the redo flag;
   * without any valid ballot only the failure is announced. Only the first sets the next map.
   */
  lemma StartMapVoteOutcomes(s: VoterState, candidateMaps: seq<string>, ballots: Chat, voteEnd: int)
    ensures var t := StartMapVote(s, candidateMaps, ballots, voteEnd);
      match Tally(candidateMaps, ballots)
      case Some((winner, votes)) =>
        if winner != REDO_VOTE_OPTION then
          && t.state == s.(timeSinceMapVote := voteEnd, requesters := {}, recentChat := ballots)
          && t.effects[4..] == [Broadcast(VoteResultMessage(winner, votes)), SetNextMap(winner)]
          && SetNextMap(winner) in t.effects
        else
          && t.state == s.(redoRequested := true, recentChat := ballots)
          && t.effects[4..] == [Broadcast(VoteRedoMessage(votes))]
          && SetsNoNextMap(t.effects)
      case None =>
        && t.state == s.(recentChat := ballots)
        && t.effects[4..] == [Broadcast(VOTE_FAILED_MESSAGE)]
        && SetsNoNextMap(t.effects)
  {
    OpeningSetsNoNextMap(candidateMaps);
    var t := StartMapVote(s, candidateMaps, ballots, voteEnd);
    var resolved := ResolveVote(s.(recentChat := ballots), Tally(candidateMaps, ballots), voteEnd);
    assert t.effects[4..] == resolved.effects;
    match Tally(candidateMaps, ballots)
    case Some((winner, votes)) =>
      if winner == REDO_VOTE_OPTION {
        forall layer ensures SetNextMap(layer) !in resolved.effects {
          SetNextMapIsNotBroadcast(layer, VoteRedoMessage(votes));
        }
      } else {
        assert t.effects[5] == SetNextMap(winner);
      }
    case None =>
      forall layer ensures SetNextMap(layer) !in resolved.effects {
        SetNextMapIsNotBroadcast(layer, VOTE_FAILED_MESSAGE);
      }
  }

  /** The announcement, the chat clear and the end of voting set no next map. */
  lemma OpeningSetsNoNextMap(candidateMaps: seq<string>)
    ensures SetsNoNextMap(OpeningEffects(candidateMaps))
  {
    var opening := OpeningEffects(candidateMaps);
    forall layer ensures SetNextMap(layer) !in opening {
      SetNextMapIsNotBroadcast(layer, StartVoteMessage(candidateMaps));
      SetNextMapIsNotBroadcast(layer, VOTING_OVER_MESSAGE);
    }
  }

  /**
   * The map a vote sets next is a real candidate that at least one player voted for,
   * and no other map was voted for by more players.
   */
  lemma NextMapIsMostVoted(s: VoterState, candidateMaps: seq<string>, ballots: Chat, voteEnd: int, layer: string)
    requires DistinctIds(ballots)
    requires SetNextMap(layer) in StartMapVote(s, candidateMaps, ballots, voteEnd).effects
    ensures layer in candidateMaps && layer != REDO_VOTE_OPTION
    ensures |VotersFor(candidateMaps, ballots, layer)| >= 1
    ensures forall other :: |VotersFor(candidateMaps, ballots, other)| <= |VotersFor(candidateMaps, ballots, layer)|
  {
    VoteSetsOnlyWinner(s, candidateMaps, ballots, voteEnd, layer);
    TallyWinner(candidateMaps, ballots);
    TallyCountsVoters(candidateMaps, ballots);
  }

  /** The only map a vote sets next is the real winner of its tally. */
  lemma VoteSetsOnlyWinner(s: VoterState, candidateMaps: seq<string>, ballots: Chat, voteEnd: int, layer: string)
    requires SetNextMap(layer) in StartMapVote(s, candidateMaps, ballots, voteEnd).effects
    ensures Tally(candidateMaps, ballots).Some? && Tally(candidateMaps, ballots).value.0 == layer
    ensures layer != REDO_VOTE_OPTION
  {
    StartMapVoteOutcomes(s, candidateMaps, ballots, voteEnd);
    var t := StartMapVote(s, candidateMaps, ballots, voteEnd);
    OpeningSetsNoNextMap(candidateMaps);
    assert t.effects == t.effects[..4] + t.effects[4..];
    var (winner, votes) := Tally(candidateMaps, ballots).value;
    assert SetNextMap(layer) in t.effects[4..];
    SetNextMapIsNotBroadcast(layer, VoteResultMessage(winner, votes));
    SetNextMapInjective(layer, winner);
  }

  /** After a vote with a real winner, only a clan member can start another before the cooldown passes. */
  lemma CooldownAfterWinner(
    cooldown: int, s: VoterState, candidateMaps: seq<string>, ballots: Chat, voteEnd: int, chat: Chat, now: int)
    requires Tally(candidateMaps, ballots).Some? && Tally(candidateMaps, ballots).value.0 != REDO_VOTE_OPTION
    requires now - voteEnd < cooldown
    ensures var after := StartMapVote(s, candidateMaps, ballots, voteEnd).state.(recentChat := chat);
      ShouldStartMapVote(cooldown, after, now) == Check(ClanMemberAsked(chat), after, [])
  {
    StartMapVoteOutcomes(s, candidateMaps, ballots, voteEnd);
  }

  /**
   * The map rotation is not consulted for the candidates of the vote that follows a
   * redo: the catalog provides them.
   */
  function VoteCandidates(s: VoterState, rotationFile: Option<string>, currentMap: string, draw: Draw): (r: seq<string>)
    ensures s.redoRequested ==> r == CatalogCandidates(draw)
    ensures !s.redoRequested ==> r == GetMapCandidates(rotationFile, currentMap, draw)
  {
    GetMapCandidates(if s.redoRequested then None else rotationFile, currentMap, draw)
  }

  /**
   * Everything a run_once tick receives from outside the MapVoter: the time of the
   * should-start test, the catalog draws and the random.choice index for the same-map
   * guard and for the vote, the chat collected while listening, and the time the vote ended.
   */
  datatype Env = Env(now: int, guardDraw: Draw, pick: nat, voteDraw: Draw, ballots: Chat, voteEnd: int)

  /**
   * The same-map guard: when the next map is the current one, some map from the middle of
   * the candidate list is set next; None where that middle is empty and random.choice raises.
   */
  function SameMapGuard(rotationFile: Option<string>, currentMap: string, nextMap: string, draw: Draw, pick: nat): (r: Option<seq<Effect>>)
    ensures currentMap != nextMap ==> r == Some([])
    ensures r.Some? && r.value != [] ==>
      exists i :: 0 <= i < |Middle(GetMapCandidates(rotationFile, currentMap, draw))| &&
        r.value == [SetNextMap(Middle(GetMapCandidates(rotationFile, currentMap, draw))[i])]
    ensures currentMap == nextMap ==>
      && (r.None? <==> Middle(GetMapCandidates(rotationFile, currentMap, draw)) == [])
      && (r.Some? ==> |r.value| == 1)
  {
    if currentMap != nextMap then Some([])
    else
      var middle := Middle(GetMapCandidates(rotationFile, currentMap, draw));
      if middle == [] then None else Some([SetNextMap(middle[pick % |middle|])])
  }

  /** The outcome of a tick: whether it raised, the state after it, the commands it sent. */
  datatype Tick = Tick(raised: bool, state: VoterState, effects: seq<Effect>)

  /**
   * The rest of a run_once tick once the chat is stored and the same-map guard has passed:
   * a vote starts when one should, on the catalog's maps after a redo.
   */
  function AfterGuard(cooldown: int, stored: VoterState, currentMap: string, rotationFile: Option<string>, env: Env): (t: Transition)
    ensures var check := ShouldStartMapVote(cooldown, stored, env.now);
      !check.result ==> t == Transition(check.state, check.effects)
  {
    var check := ShouldStartMapVote(cooldown, stored, env.now);
    if !check.result then Transition(check.state, check.effects)
    else
      var candidateMaps := VoteCandidates(check.state, rotationFile, currentMap, env.voteDraw);
      var vote := StartMapVote(check.state.(redoRequested := false), candidateMaps, env.ballots, env.voteEnd);
      Transition(vote.state, check.effects + vote.effects)
  }

  /** run_once: store the chat, apply the same-map guard, and start a vote when one should start. */
  function RunOnce(
    cooldown: int, s: VoterState, currentMap: string, nextMap: string, chat: Chat,
    rotationFile: Option<string>, env: Env): (t: Tick)
    ensures t.raised ==> t.state == s.(recentChat := chat) && t.effects == []
  {
    var stored := s.(recentChat := chat);
    match SameMapGuard(rotationFile, currentMap, nextMap, env.guardDraw, env.pick)
    case None => Tick(true, stored, [])
    case Some(guard) =>
      var rest := AfterGuard(cooldown, stored, currentMap, rotationFile, env);
      Tick(false, rest.state, guard + rest.effects)
  }

  /**
   * With a duplicate-free rotation of more than N maps that holds the current map, the
   * guard sets a next map from the rotation that differs from the current one.
   */
  lemma GuardNeverRepeatsCurrentMap(rotationText: string, currentMap: string, draw: Draw, pick: nat)
    requires currentMap in ParseRotation(rotationText)
    requires Distinct(ParseRotation(rotationText)) && |ParseRotation(rotationText)| > NUM_NEXT_MAPS_IN_ROTATION
    ensures var guard := SameMapGuard(Some(rotationText), currentMap, currentMap, draw, pick);
      && guard.Some? && |guard.value| == 1
      && exists layer :: guard.value[0] == SetNextMap(layer) && layer != currentMap && layer in ParseRotation(rotationText)
  {
    var rotation := ParseRotation(rotationText);
    RotationWindowDistinct(rotation, currentMap, draw.skirmish);
    var middle := Middle(GetMapCandidates(Some(rotationText), currentMap, draw));
    assert middle[pick % |middle|] in middle;
  }

  /**
   * A vote that ends on the redo option, started by the requesters once the cooldown had
   * passed, is followed by another vote on the very next tick (the cooldown and the
   * requesters are kept), and that vote offers the catalog's maps.
   */
  lemma RedoRestartsWithCatalog(
    cooldown: int, s: VoterState, currentMap: string, nextMap1: string, nextMap2: string,
    chat1: Chat, chat2: Chat, rotationFile: Option<string>, env1: Env, env2: Env)
    requires currentMap != nextMap1 && currentMap != nextMap2
    requires !ClanMemberAsked(chat1)
    requires ShouldStartMapVote(cooldown, s.(recentChat := chat1), env1.now).result
    requires var candidateMaps := VoteCandidates(s, rotationFile, currentMap, env1.voteDraw);
      Tally(candidateMaps, env1.ballots).Some? && Tally(candidateMaps, env1.ballots).value.0 == REDO_VOTE_OPTION
    requires env2.now >= env1.now
    ensures var t1 := RunOnce(cooldown, s, currentMap, nextMap1, chat1, rotationFile, env1);
      && !t1.raised && t1.state.redoRequested
      && var t2 := RunOnce(cooldown, t1.state, currentMap, nextMap2, chat2, rotationFile, env2);
      && !t2.raised
      && t2.effects == StartMapVote(t1.state, CatalogCandidates(env2.voteDraw), env2.ballots, env2.voteEnd).effects
  {
    RedoTickKeepsTrigger(cooldown, s, currentMap, nextMap1, chat1, rotationFile, env1);
    var t1 := RunOnce(cooldown, s, currentMap, nextMap1, chat1, rotationFile, env1);
    RedoTickStartsCatalogVote(cooldown, t1.state, currentMap, nextMap2, chat2, rotationFile, env2);
  }

  /** The first tick of RedoRestartsWithCatalog: the redo flag goes up, the cooldown and the requesters stay. */
  lemma RedoTickKeepsTrigger(
    cooldown: int, s: VoterState, currentMap: string, nextMap: string, chat: Chat, rotationFile: Option<string>, env: Env)
    requires currentMap != nextMap
    requires !ClanMemberAsked(chat)
    requires ShouldStartMapVote(cooldown, s.(recentChat := chat), env.now).result
    requires var candidateMaps := VoteCandidates(s, rotationFile, currentMap, env.voteDraw);
      Tally(candidateMaps, env.ballots).Some? && Tally(candidateMaps, env.ballots).value.0 == REDO_VOTE_OPTION
    ensures var t := RunOnce(cooldown, s, currentMap, nextMap, chat, rotationFile, env);
      && !t.raised && t.state.redoRequested
      && t.state.timeSinceMapVote == s.timeSinceMapVote
      && |t.state.requesters| >= NUM_PLAYERS_REQUESTING_MAP_VOTE_THRESHOLD
      && DurationSinceMapVote(s, env.now) >= cooldown
  {
    var stored := s.(recentChat := chat);
    var check := ShouldStartMapVote(cooldown, stored, env.now);
    var candidateMaps := VoteCandidates(check.state, rotationFile, currentMap, env.voteDraw);
    assert candidateMaps == VoteCandidates(s, rotationFile, currentMap, env.voteDraw);
    StartMapVoteOutcomes(check.state.(redoRequested := false), candidateMaps, env.ballots, env.voteEnd);
    assert check.state.requesters == s.requesters + AskedIds(chat);
  }

  /** The second tick of RedoRestartsWithCatalog: the kept trigger starts a vote on the catalog's maps. */
  lemma RedoTickStartsCatalogVote(
    cooldown: int, s: VoterState, currentMap: string, nextMap: string, chat: Chat, rotationFile: Option<string>, env: Env)
    requires currentMap != nextMap && s.redoRequested
    requires DurationSinceMapVote(s, env.now) >= cooldown
    requires |s.requesters| >= NUM_PLAYERS_REQUESTING_MAP_VOTE_THRESHOLD
    ensures var t := RunOnce(cooldown, s, currentMap, nextMap, chat, rotationFile, env);
      && !t.raised
      && t.effects == StartMapVote(s, CatalogCandidates(env.voteDraw), env.ballots, env.voteEnd).effects
  {
    var stored := s.(recentChat := chat);
    SubsetSize(stored.requesters, stored.requesters + AskedIds(chat));
    var check := ShouldStartMapVote(cooldown, stored, env.now);
    assert check.result && check.state.redoRequested && check.effects == [];
    StartMapVoteEffectsIgnoreState(check.state.(redoRequested := false), s,
      CatalogCandidates(env.voteDraw), env.ballots, env.voteEnd);
  }

  lemma SubsetSize(a: set<string>, b: set<string>)
    requires a <= b
    ensures |a| <= |b|
  {
    assert b == a + (b - a);
  }

  /** RunOnce taken apart by the outcome of the same-map guard (a helper for the MapVoter's tick). */
  lemma RunOnceCases(
    cooldown: int, s: VoterState, currentMap: string, nextMap: string, chat: Chat,
    rotationFile: Option<string>, env: Env)
    ensures var guard := SameMapGuard(rotationFile, currentMap, nextMap, env.guardDraw, env.pick);
      var rest := AfterGuard(cooldown, s.(recentChat := chat), currentMap, rotationFile, env);
      RunOnce(cooldown, s, currentMap, nextMap, chat, rotationFile, env) ==
        if guard.None? then Tick(true, s.(recentChat := chat), []) else Tick(false, rest.state, guard.value + rest.effects)
  {
  }

  /**
   * The only way a tick raises is the same-map guard finding an empty candidates[1:-1];
   * when the next map is the current one and the tick goes on, its first command sets a
   * map from that middle, and when the maps differ the guard sends nothing.
   */
  lemma RunOnceGuard(
    cooldown: int, s: VoterState, currentMap: string, nextMap: string, chat: Chat,
    rotationFile: Option<string>, env: Env)
    ensures var t := RunOnce(cooldown, s, currentMap, nextMap, chat, rotationFile, env);
      var middle := Middle(GetMapCandidates(rotationFile, currentMap, env.guardDraw));
      && (t.raised <==> currentMap == nextMap && middle == [])
      && (!t.raised && currentMap == nextMap ==>
            exists i :: 0 <= i < |middle| && t.effects[0] == SetNextMap(middle[i]))
      && (currentMap != nextMap ==>
            t.effects == AfterGuard(cooldown, s.(recentChat := chat), currentMap, rotationFile, env).effects)
  {
    RunOnceCases(cooldown, s, currentMap, nextMap, chat, rotationFile, env);
  }

  /** Appending commands in several calls is appending them all at once. */
  lemma AppendEffects(log: seq<Effect>, a: seq<Effect>, b: seq<Effect>)
    ensures log + a + b == log + (a + b)
  {
  }

  /** What a vote sends depends on the candidates and the ballots only. */
  lemma StartMapVoteEffectsIgnoreState(s1: VoterState, s2: VoterState, candidateMaps: seq<string>, ballots: Chat, voteEnd: int)
    ensures StartMapVote(s1, candidateMaps, ballots, voteEnd).effects == StartMapVote(s2, candidateMaps, ballots, voteEnd).effects
  {
  }

  /**
   * When the next map differs from the current one, a tick sets a next map only through a
   * vote, and only to that vote's real winner.
   */
  lemma NextMapOnlyFromVote(
    cooldown: int, s: VoterState, currentMap: string, nextMap: string, chat: Chat,
    rotationFile: Option<string>, env: Env, layer: string)
    requires currentMap != nextMap
    requires SetNextMap(layer) in RunOnce(cooldown, s, currentMap, nextMap, chat, rotationFile, env).effects
    ensures ShouldStartMapVote(cooldown, s.(recentChat := chat), env.now).result
    ensures var check := ShouldStartMapVote(cooldown, s.(recentChat := chat), env.now);
      SetNextMap(layer) in StartMapVote(
        check.state.(redoRequested := false),
        VoteCandidates(check.state, rotationFile, currentMap, env.voteDraw),
        env.ballots, env.voteEnd).effects
  {
    var stored := s.(recentChat := chat);
    var check := ShouldStartMapVote(cooldown, stored, env.now);
    assert SameMapGuard(rotationFile, currentMap, nextMap, env.guardDraw, env.pick) == Some([]);
    var t := RunOnce(cooldown, s, currentMap, nextMap, chat, rotationFile, env);
    if !check.result {
      assert t.effects == check.effects;
      if check.effects != [] {
        assert |check.state.requesters| < NUM_PLAYERS_REQUESTING_MAP_VOTE_THRESHOLD;
        SetNextMapIsNotBroadcast(layer, MoreRequestsMessage(NUM_PLAYERS_REQUESTING_MAP_VOTE_THRESHOLD - |check.state.requesters|));
      }
      assert false;
    }
    var vote := StartMapVote(
      check.state.(redoRequested := false),
      VoteCandidates(check.state, rotationFile, currentMap, env.voteDraw),
      env.ballots, env.voteEnd);
    assert t.effects == vote.effects;
  }
}
