/**
 * The MapVoter object as the bot uses it: its fields change in place and every
 * command it sends goes through the RCON client, which keeps them in order.
 * Each method is proved against the function of module Voting that specifies it.
 */
module Voter {

  import opened Wrappers
  import opened Text
  import opened Chats
  import opened Votes
  import opened Candidates
  import opened Triggers
  import opened Voting

  /** The part of the RCON client the map voter uses; `log` holds what it was sent, oldest first. */
  class RconClient {
    var log: seq<Effect>

    constructor ()
      ensures log == []
    {
      log := [];
    }

    method ExecCommand(command: string)
      modifies this
      ensures log == old(log) + [Exec(command)]
    {
      log := log + [Exec(command)];
    }

    method ClearPlayerChat()
      modifies this
      ensures log == old(log) + [ClearChat]
    {
      log := log + [ClearChat];
    }
  }

  class MapVoter {
    const squadRconClient: RconClient
    const votingTimeDuration: int
    const votingCooldown: int
    var redoRequested: bool
    var recentPlayerChat: Chat
    var timeSinceMapVote: int
    var playersRequestingMapVote: set<string>

    /** The fields that change, as the value the Voting functions work on. */
    function State(): VoterState
      reads this
    {
      VoterState(timeSinceMapVote, playersRequestingMapVote, redoRequested, recentPlayerChat)
    }

    /** A new MapVoter starts its cooldown at `now`, with no requesters, no redo and no chat. */
    constructor (squadRconClient: RconClient, now: int,
                 votingCooldown: int := DEFAULT_VOTING_COOLDOWN_S,
                 votingTimeDuration: int := DEFAULT_VOTING_TIME_DURATION_S)
      ensures this.squadRconClient == squadRconClient
      ensures this.votingCooldown == votingCooldown && this.votingTimeDuration == votingTimeDuration
      ensures State() == VoterState(now, {}, false, [])
    {
      this.squadRconClient := squadRconClient;
      this.votingTimeDuration := votingTimeDuration;
      this.votingCooldown := votingCooldown;
      redoRequested := false;
      recentPlayerChat := [];
      new;
      ResetMapVote(now);
    }

    method ResetMapVote(now: int)
      modifies this
      ensures State() == Voting.ResetMapVote(old(State()), now)
    {
      timeSinceMapVote := now;
      playersRequestingMapVote := {};
    }

    function DurationSinceMapVote(now: int): (d: int)
      reads this
      ensures timeSinceMapVote + d == now
    {
      Voting.DurationSinceMapVote(State(), now)
    }

    function DurationUntilMapVoteAvailable(now: int): (d: int)
      reads this
      ensures d <= 0 <==> now - timeSinceMapVote >= votingCooldown
    {
      Voting.DurationUntilMapVoteAvailable(votingCooldown, State(), now)
    }

    method DidOneClanMemberAskForMapVote() returns (asked: bool)
      ensures asked == ClanMemberAsked(recentPlayerChat)
    {
      var i := 0;
      while i < |recentPlayerChat|
        invariant 0 <= i <= |recentPlayerChat|
        invariant !ClanMemberAsked(recentPlayerChat[..i])
      {
        var playerChat := recentPlayerChat[i].1;
        var j := 0;
        while j < |playerChat.messages|
          invariant 0 <= j <= |playerChat.messages|
          invariant !(AnyCommand(playerChat.messages[..j]) && Contains(playerChat.playerName, CLAN_TAG))
        {
          if HasMapVoteCommand(playerChat.messages[j]) && Contains(playerChat.playerName, CLAN_TAG) {
            AnyCommandIff(playerChat.messages);
            ClanMemberAskedIff(recentPlayerChat);
            return true;
          }
          AnyCommandStep(playerChat.messages, j);
          j := j + 1;
        }
        assert playerChat.messages[..j] == playerChat.messages;
        ClanMemberAskedStep(recentPlayerChat, i);
        i := i + 1;
      }
      assert recentPlayerChat[..i] == recentPlayerChat;
      return false;
    }

    /** The loop of did_enough_players_ask_for_map_vote: every player who sent a command becomes a requester. */
    method AddMapVoteRequesters()
      modifies this
      ensures playersRequestingMapVote == old(playersRequestingMapVote) + AskedIds(recentPlayerChat)
      ensures timeSinceMapVote == old(timeSinceMapVote) && redoRequested == old(redoRequested)
      ensures recentPlayerChat == old(recentPlayerChat)
    {
      // The requesters are collected in a local set and stored once: nothing reads the field in between.
      var chat, requesters := recentPlayerChat, playersRequestingMapVote;
      var i := 0;
      while i < |chat|
        invariant 0 <= i <= |chat|
        invariant requesters == old(playersRequestingMapVote) + AskedIds(chat[..i])
        modifies {}
      {
        var playerId, playerChat := chat[i].0, chat[i].1;
        var j := 0;
        while j < |playerChat.messages|
          invariant 0 <= j <= |playerChat.messages|
          invariant requesters ==
            old(playersRequestingMapVote) + AskedIds(chat[..i]) +
            (if AnyCommand(playerChat.messages[..j]) then {playerId} else {})
          modifies {}
        {
          if HasMapVoteCommand(playerChat.messages[j]) {
            requesters := requesters + {playerId};
          }
          AnyCommandStep(playerChat.messages, j);
          j := j + 1;
        }
        assert playerChat.messages[..j] == playerChat.messages;
        AskedIdsStep(chat, i);
        i := i + 1;
      }
      assert chat[..i] == chat;
      playersRequestingMapVote := requesters;
    }

    method DidEnoughPlayersAskForMapVote() returns (enoughAsked: bool)
      modifies this, squadRconClient
      ensures playersRequestingMapVote == old(playersRequestingMapVote) + AskedIds(recentPlayerChat)
      ensures timeSinceMapVote == old(timeSinceMapVote) && redoRequested == old(redoRequested)
      ensures recentPlayerChat == old(recentPlayerChat)
      ensures enoughAsked <==> |playersRequestingMapVote| >= NUM_PLAYERS_REQUESTING_MAP_VOTE_THRESHOLD
      ensures squadRconClient.log == old(squadRconClient.log) +
        if !enoughAsked && |playersRequestingMapVote| != |old(playersRequestingMapVote)|
        then [Broadcast(MoreRequestsMessage(NUM_PLAYERS_REQUESTING_MAP_VOTE_THRESHOLD - |playersRequestingMapVote|))]
        else []
    {
      var previousMapVoteRequests := |playersRequestingMapVote|;
      AddMapVoteRequesters();
      var mapVoteRequests := |playersRequestingMapVote|;
      var numAsksRemaining := NUM_PLAYERS_REQUESTING_MAP_VOTE_THRESHOLD - mapVoteRequests;
      enoughAsked := numAsksRemaining <= 0;
      if !enoughAsked && mapVoteRequests != previousMapVoteRequests {
        squadRconClient.ExecCommand("AdminBroadcast " + MoreRequestsMessage(numAsksRemaining));
      }
    }

    method ShouldStartMapVote(now: int) returns (start: bool)
      modifies this, squadRconClient
      ensures var check := Voting.ShouldStartMapVote(votingCooldown, old(State()), now);
        Check(start, State(), squadRconClient.log) == check.(effects := old(squadRconClient.log) + check.effects)
    {
      start := DidOneClanMemberAskForMapVote();
      if !start && DurationUntilMapVoteAvailable(now) <= 0 {
        start := DidEnoughPlayersAskForMapVote();
        DidEnoughPlayersAskWith(old(State()), playersRequestingMapVote);
      }
    }

    /** The halftime reminder when there is a non-empty one, then the end of voting; the sleeps are not modelled. */
    method ListenToVotes(halftimeMessage: Option<string>)
      modifies squadRconClient
      ensures squadRconClient.log == old(squadRconClient.log) + Voting.ListenToVotes(halftimeMessage)
    {
      if halftimeMessage.Some? && halftimeMessage.value != "" {
        squadRconClient.ExecCommand("AdminBroadcast " + halftimeMessage.value);
      }
      squadRconClient.ExecCommand("AdminBroadcast " + VOTING_OVER_MESSAGE);
    }

    /**
     * `playerChat` is what get_player_chat returns once voting is over, and `now` the time
     * at that moment.
     */
    method StartMapVote(candidateMaps: seq<string>, playerChat: Chat, now: int)
      modifies this, squadRconClient
      ensures var vote := Voting.StartMapVote(old(State()), candidateMaps, playerChat, now);
        Transition(State(), squadRconClient.log) == vote.(effects := old(squadRconClient.log) + vote.effects)
    {
      AnnounceMapVote(candidateMaps);
      recentPlayerChat := playerChat;
      var result := GetHighestMapVote(candidateMaps, recentPlayerChat);
      ghost var resolved := Voting.ResolveVote(State(), result, now);
      ResolveVote(result, now);
      AppendEffects(old(squadRconClient.log), OpeningEffects(candidateMaps), resolved.effects);
    }

    /** The start of start_map_vote: announce the candidates, clear the chat and listen to the votes. */
    method AnnounceMapVote(candidateMaps: seq<string>)
      modifies squadRconClient
      ensures squadRconClient.log == old(squadRconClient.log) + OpeningEffects(candidateMaps)
    {
      var candidateMapsFormatted := FormatCandidateMaps(candidateMaps);
      var startVoteMessage := START_VOTE_MESSAGE_PREFIX + candidateMapsFormatted;
      squadRconClient.ExecCommand("AdminBroadcast " + startVoteMessage);
      squadRconClient.ClearPlayerChat();
      ListenToVotes(Some(startVoteMessage));
    }

    /** The end of start_map_vote: announce the outcome of the tally and act on it. */
    method ResolveVote(result: Option<(string, nat)>, now: int)
      modifies this, squadRconClient
      ensures State() == Voting.ResolveVote(old(State()), result, now).state
      ensures squadRconClient.log == old(squadRconClient.log) + Voting.ResolveVote(old(State()), result, now).effects
    {
      match result
      case Some((winnerMap, voteCount)) =>
        if winnerMap != REDO_VOTE_OPTION {
          squadRconClient.ExecCommand("AdminBroadcast " + VoteResultMessage(winnerMap, voteCount));
          squadRconClient.ExecCommand("AdminSetNextMap \"" + winnerMap + "\"");
          ResetMapVote(now);
        } else {
          squadRconClient.ExecCommand("AdminBroadcast " + VoteRedoMessage(voteCount));
          redoRequested := true;
        }
      case None =>
        squadRconClient.ExecCommand("AdminBroadcast " + VOTE_FAILED_MESSAGE);
    }

    /**
     * The same-map guard of run_once: when the next map is the current one, set a map from
     * the middle of the candidate list instead; `raised` where that middle is empty.
     */
    method AvoidRepeatedMap(currentMap: string, nextMap: string, rotationFile: Option<string>, draw: Draw, pick: nat)
      returns (raised: bool)
      modifies squadRconClient
      ensures raised <==> SameMapGuard(rotationFile, currentMap, nextMap, draw, pick).None?
      ensures raised ==> squadRconClient.log == old(squadRconClient.log)
      ensures !raised ==>
        squadRconClient.log == old(squadRconClient.log) + SameMapGuard(rotationFile, currentMap, nextMap, draw, pick).value
    {
      if currentMap == nextMap {
        var middle := Middle(GetMapCandidates(rotationFile, currentMap, draw));
        if middle == [] {
          return true;
        }
        var randomMap := middle[pick % |middle|];
        squadRconClient.ExecCommand("AdminSetNextMap \"" + randomMap + "\"");
      }
      raised := false;
    }

    /** The rest of run_once after the same-map guard: start a vote when one should start. */
    method StartMapVoteIfRequested(currentMap: string, rotationFile: Option<string>, env: Env)
      modifies this, squadRconClient
      ensures var rest := AfterGuard(votingCooldown, old(State()), currentMap, rotationFile, env);
        Transition(State(), squadRconClient.log) == rest.(effects := old(squadRconClient.log) + rest.effects)
    {
      ghost var check := Voting.ShouldStartMapVote(votingCooldown, State(), env.now);
      var start := ShouldStartMapVote(env.now);
      if start {
        ghost var vote := Voting.StartMapVote(
          check.state.(redoRequested := false), VoteCandidates(check.state, rotationFile, currentMap, env.voteDraw),
          env.ballots, env.voteEnd);
        StartRequestedVote(currentMap, rotationFile, env);
        AppendEffects(old(squadRconClient.log), check.effects, vote.effects);
      }
    }

    /**
     * A vote that should start: on the catalog's maps when a redo was requested (the flag
     * is cleared), on the rotation's otherwise.
     */
    method StartRequestedVote(currentMap: string, rotationFile: Option<string>, env: Env)
      modifies this, squadRconClient
      ensures var vote := Voting.StartMapVote(
          old(State()).(redoRequested := false), VoteCandidates(old(State()), rotationFile, currentMap, env.voteDraw),
          env.ballots, env.voteEnd);
        Transition(State(), squadRconClient.log) == vote.(effects := old(squadRconClient.log) + vote.effects)
    {
      var rotationFilepath := if redoRequested then None else rotationFile;
      redoRequested := false;
      var voteMaps := GetMapCandidates(rotationFilepath, currentMap, env.voteDraw);
      StartMapVote(voteMaps, env.ballots, env.voteEnd);
    }

    /**
     * One tick of the bot; `raised` is true where random.choice raises IndexError in the
     * same-map guard, which ends the tick.
     */
    method RunOnce(currentMap: string, nextMap: string, playerChat: Chat, rotationFile: Option<string>, env: Env)
      returns (raised: bool)
      modifies this, squadRconClient
      ensures var tick := Voting.RunOnce(votingCooldown, old(State()), currentMap, nextMap, playerChat, rotationFile, env);
        Tick(raised, State(), squadRconClient.log) == tick.(effects := old(squadRconClient.log) + tick.effects)
    {
      ghost var guard := SameMapGuard(rotationFile, currentMap, nextMap, env.guardDraw, env.pick);
      RunOnceCases(votingCooldown, State(), currentMap, nextMap, playerChat, rotationFile, env);
      recentPlayerChat := playerChat;
      raised := AvoidRepeatedMap(currentMap, nextMap, rotationFile, env.guardDraw, env.pick);
      if raised {
        return;
      }
      ghost var rest := AfterGuard(votingCooldown, State(), currentMap, rotationFile, env);
      StartMapVoteIfRequested(currentMap, rotationFile, env);
      AppendEffects(old(squadRconClient.log), guard.value, rest.effects);
    }
  }
}
