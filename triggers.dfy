/**
 * What makes a map vote start: the chat commands, the set of players requesting a
 * vote, and the clan members who can force one.
 */
module Triggers {

  import opened Text
  import opened Chats

  /** How many distinct players must request a map vote before one may start. */
  const NUM_PLAYERS_REQUESTING_MAP_VOTE_THRESHOLD: nat := 5

  /** A player whose name holds this tag forces a map vote with a command. */
  const CLAN_TAG: string := "[FP]"

  const MAP_VOTE_COMMANDS: seq<string> := ["!mapvote", "!votemap", "!rtv"]

  /** any(command in text for command in commands) */
  predicate AnyIn(text: string, commands: seq<string>) {
    commands != [] && (Contains(text, commands[0]) || AnyIn(text, commands[1..]))
  }

  /** has_map_vote_command: some command is a substring of the lower-cased message. */
  predicate HasMapVoteCommand(message: string) {
    AnyIn(ToLower(message), MAP_VOTE_COMMANDS)
  }

  lemma {:induction false} AnyInIff(text: string, commands: seq<string>)
    ensures AnyIn(text, commands) <==> exists k :: 0 <= k < |commands| && Contains(text, commands[k])
  {
    if commands != [] {
      AnyInIff(text, commands[1..]);
      assert forall k :: 1 <= k < |commands| ==> commands[1..][k - 1] == commands[k];
    }
  }

  /** A message has a command exactly when, lower-cased, one of the commands occurs at some position of it. */
  lemma HasMapVoteCommandIff(message: string)
    ensures HasMapVoteCommand(message) <==>
      exists k, i :: 0 <= k < |MAP_VOTE_COMMANDS| && OccursAt(ToLower(message), MAP_VOTE_COMMANDS[k], i)
  {
    var lower := ToLower(message);
    AnyInIff(lower, MAP_VOTE_COMMANDS);
    forall k | 0 <= k < |MAP_VOTE_COMMANDS| {
      ContainsIff(lower, MAP_VOTE_COMMANDS[k]);
    }
  }

  /** A command typed in any mix of cases, anywhere in a message, is recognised. */
  lemma CommandInAnyCase(before: string, typed: string, after: string, k: nat)
    requires k < |MAP_VOTE_COMMANDS| && ToLower(typed) == MAP_VOTE_COMMANDS[k]
    ensures HasMapVoteCommand(before + typed + after)
  {
    ToLowerConcat(before + typed, after);
    ToLowerConcat(before, typed);
    ContainsInfix(ToLower(before), MAP_VOTE_COMMANDS[k], ToLower(after));
    AnyInIff(ToLower(before + typed + after), MAP_VOTE_COMMANDS);
  }

  /** Every command starts with '!', so a message without one is never a request. */
  lemma NoBangNoCommand(message: string)
    requires '!' !in message
    ensures !HasMapVoteCommand(message)
  {
    HasMapVoteCommandIff(message);
    assert forall k :: 0 <= k < |MAP_VOTE_COMMANDS| ==> MAP_VOTE_COMMANDS[k][0] == '!';
    forall k, i | 0 <= k < |MAP_VOTE_COMMANDS| && OccursAt(ToLower(message), MAP_VOTE_COMMANDS[k], i)
      ensures false
    {
    }
  }

  /** Some message of the list carries a command. */
  predicate AnyCommand(messages: seq<string>) {
    messages != [] && (AnyCommand(messages[..|messages| - 1]) || HasMapVoteCommand(messages[|messages| - 1]))
  }

  lemma {:induction false} AnyCommandIff(messages: seq<string>)
    ensures AnyCommand(messages) <==> exists j :: 0 <= j < |messages| && HasMapVoteCommand(messages[j])
  {
    if messages != [] {
      var n := |messages| - 1;
      AnyCommandIff(messages[..n]);
      assert forall j :: 0 <= j < n ==> messages[..n][j] == messages[j];
    }
  }

  /** The ids of the players in the chat who sent a command, as did_enough_players_ask_for_map_vote adds them. */
  function AskedIds(chat: Chat): set<string> {
    if chat == [] then {}
    else
      var n := |chat| - 1;
      AskedIds(chat[..n]) + (if AnyCommand(chat[n].1.messages) then {chat[n].0} else {})
  }

  lemma {:induction false} AskedIdsAre(chat: Chat)
    ensures AskedIds(chat) == set i | 0 <= i < |chat| && AnyCommand(chat[i].1.messages) :: chat[i].0
  {
    if chat != [] {
      var n := |chat| - 1;
      AskedIdsAre(chat[..n]);
      assert forall i :: 0 <= i < n ==> chat[..n][i] == chat[i];
    }
  }

  lemma AnyCommandStep(messages: seq<string>, j: nat)
    requires j < |messages|
    ensures AnyCommand(messages[..j + 1]) == (AnyCommand(messages[..j]) || HasMapVoteCommand(messages[j]))
  {
    assert messages[..j + 1][..j] == messages[..j];
  }

  lemma AskedIdsStep(chat: Chat, i: nat)
    requires i < |chat|
    ensures AskedIds(chat[..i + 1]) ==
      AskedIds(chat[..i]) + (if AnyCommand(chat[i].1.messages) then {chat[i].0} else {})
  {
    assert chat[..i + 1][..i] == chat[..i];
  }

  lemma ClanMemberAskedStep(chat: Chat, i: nat)
    requires i < |chat|
    ensures ClanMemberAsked(chat[..i + 1]) ==
      (ClanMemberAsked(chat[..i]) || (AnyCommand(chat[i].1.messages) && Contains(chat[i].1.playerName, CLAN_TAG)))
  {
    assert chat[..i + 1][..i] == chat[..i];
  }

  /** Some player whose name holds the clan tag sent a command (the tag test is case-sensitive). */
  predicate ClanMemberAsked(chat: Chat) {
    chat != [] &&
    (ClanMemberAsked(chat[..|chat| - 1]) ||
     (AnyCommand(chat[|chat| - 1].1.messages) && Contains(chat[|chat| - 1].1.playerName, CLAN_TAG)))
  }

  lemma {:induction false} ClanMemberAskedIff(chat: Chat)
    ensures ClanMemberAsked(chat) <==>
      exists i :: 0 <= i < |chat| && Contains(chat[i].1.playerName, CLAN_TAG) && AnyCommand(chat[i].1.messages)
  {
    if chat != [] {
      var n := |chat| - 1;
      ClanMemberAskedIff(chat[..n]);
      assert forall i :: 0 <= i < n ==> chat[..n][i] == chat[i];
    }
  }

  /** A clan member who asks is also one of the requesters. */
  lemma ClanAskerIsRequester(chat: Chat, i: nat)
    requires i < |chat| && Contains(chat[i].1.playerName, CLAN_TAG) && AnyCommand(chat[i].1.messages)
    ensures ClanMemberAsked(chat) && chat[i].0 in AskedIds(chat)
  {
    ClanMemberAskedIff(chat);
    AskedIdsAre(chat);
  }
}
