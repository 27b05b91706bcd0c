/** The chat snapshot the RCON client hands to the map voter. */
module Chats {

  /** What one player said: their display name and their messages, oldest first. */
  datatype PlayerChat = PlayerChat(playerName: string, messages: seq<string>)

  /** A dict of player id -> PlayerChat, as its items in insertion order. */
  type Chat = seq<(string, PlayerChat)>

  /** Player ids are dict keys, so no id occurs twice. */
  predicate DistinctIds(chat: Chat) {
    forall i, j :: 0 <= i < j < |chat| ==> chat[i].0 != chat[j].0
  }
}
