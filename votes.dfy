/**
 * The ballot tally of get_highest_map_vote: every player's newest message whose
 * trailing word is a valid candidate index counts once, the counts go into a
 * Counter in insertion order, and the winner is Counter.most_common(1).
 */
module Votes {

  import opened Wrappers
  import opened Text
  import opened Chats

  /** The vote token: the trailing run of word characters of message.strip(). */
  function BallotToken(message: string): string {
    TrailingWord(Strip(message))
  }

  /** int(token), or None where the regular expression finds nothing or int() raises ValueError. */
  function BallotIndex(message: string): Option<nat> {
    var token := BallotToken(message);
    if IsIntLiteral(token) then Some(IntValue(token)) else None
  }

  /** candidate_maps[int(token)], or None where the message is skipped (no token, not an int, IndexError). */
  function ValidBallot(candidates: seq<string>, message: string): (r: Option<string>)
    ensures r.Some? ==> r.value in candidates
  {
    match BallotIndex(message)
    case Some(k) => if k < |candidates| then Some(candidates[k]) else None
    case None => None
  }

  /** Typing the number shown next to a candidate is a ballot for that candidate. */
  lemma NumberIsBallot(candidates: seq<string>, index: nat)
    requires index < |candidates|
    ensures ValidBallot(candidates, NatToString(index)) == Some(candidates[index])
  {
    var digits := NatToString(index);
    StripUnpadded(digits);
    TrailingWordOfWord(digits);
    NatToStringRoundTrip(index);
  }

  /**
   * A number at the end of a message is read as the ballot, whatever text ending in a
   * non-word character (a '-', a word and a space, leading blanks, ...) comes before it.
   */
  lemma NumberAfterText(prefix: string, index: nat)
    requires prefix == [] || !IsWordChar(prefix[|prefix| - 1])
    ensures BallotIndex(prefix + NatToString(index)) == Some(index)
  {
    var digits := NatToString(index);
    var message := prefix + digits;
    assert message[|message| - 1] == digits[|digits| - 1];
    assert RStrip(message) == message;
    LStripBefore(prefix, digits);
    var m :| 0 <= m <= |prefix| && LStrip(message) == prefix[m..] + digits;
    assert Strip(message) == prefix[m..] + digits;
    TrailingWordAfter(prefix[m..], digits);
    NatToStringRoundTrip(index);
  }

  /** A message whose last character is neither a digit nor whitespace is no ballot. */
  lemma NoTrailingDigitNoBallot(message: string)
    requires message != [] && !IsDigit(message[|message| - 1]) && !IsSpace(message[|message| - 1])
    ensures BallotIndex(message) == None
  {
    var stripped := Strip(message);
    StripKeepsLast(message);
    TrailingWordIsLongestWordSuffix(stripped);
  }

  /** A player's vote: their messages scanned newest first, the first valid ballot wins. */
  function PlayerVote(candidates: seq<string>, messages: seq<string>): (r: Option<string>)
    ensures r.Some? ==> r.value in candidates
  {
    if messages == [] then None
    else match ValidBallot(candidates, messages[|messages| - 1])
      case Some(name) => Some(name)
      case None => PlayerVote(candidates, messages[..|messages| - 1])
  }

  function VoteList(vote: Option<string>): seq<string> {
    match vote
    case None => []
    case Some(name) => [name]
  }

  /** The ballots that reach the Counter, in the order the players are visited. */
  function Ballots(candidates: seq<string>, chat: Chat): (b: seq<string>)
  {
    if chat == [] then []
    else Ballots(candidates, chat[..|chat| - 1]) + VoteList(PlayerVote(candidates, chat[|chat| - 1].1.messages))
  }

  /** The names of the Some entries, in order. */
  function Somes(votes: seq<Option<string>>): seq<string> {
    if votes == [] then [] else Somes(votes[..|votes| - 1]) + VoteList(votes[|votes| - 1])
  }

  /** The ballots are the players' votes in chat order, with the players without one left out. */
  lemma {:induction false} BallotsAreVotes(candidates: seq<string>, chat: Chat, votes: seq<Option<string>>)
    requires |votes| == |chat|
    requires forall i :: 0 <= i < |chat| ==> PlayerVote(candidates, chat[i].1.messages) == votes[i]
    ensures Ballots(candidates, chat) == Somes(votes)
  {
    if chat != [] {
      var n := |chat| - 1;
      BallotsAreVotes(candidates, chat[..n], votes[..n]);
    }
  }

  /** The ids of the players whose counted vote is `name`. */
  function VotersFor(candidates: seq<string>, chat: Chat, name: string): set<string> {
    set i | 0 <= i < |chat| && PlayerVote(candidates, chat[i].1.messages) == Some(name) :: chat[i].0
  }

  /** A collections.Counter, as its (key, count) items in insertion order. */
  type Counter = seq<(string, nat)>

  /** The position of a key among the Counter's items, or |c| when it is absent. */
  function Find(c: Counter, key: string): (k: nat)
    ensures k <= |c|
    ensures k < |c| ==> c[k].0 == key
    ensures forall j :: 0 <= j < k ==> c[j].0 != key
  {
    if c == [] then 0 else if c[0].0 == key then 0 else 1 + Find(c[1..], key)
  }

  /** Counter.update([key]): an existing key's count goes up by one, a new key is appended with count 1. */
  function CounterAdd(c: Counter, key: string): Counter {
    var k := Find(c, key);
    if k < |c| then c[k := (key, c[k].1 + 1)] else c + [(key, 1)]
  }

  /** The Counter after updating an empty one with every vote in turn. */
  function CounterOf(votes: seq<string>): Counter {
    if votes == [] then [] else CounterAdd(CounterOf(votes[..|votes| - 1]), votes[|votes| - 1])
  }

  function SumCounts(c: Counter): nat {
    if c == [] then 0 else c[0].1 + SumCounts(c[1..])
  }

  /** Counter.most_common(1)[0] is max() over the items by count: the first item of greatest count. */
  function MostCommonIndex(c: Counter): (k: nat)
    requires c != []
    ensures k < |c|
    ensures forall j :: 0 <= j < |c| ==> c[j].1 <= c[k].1
    ensures forall j :: 0 <= j < k ==> c[j].1 < c[k].1
  {
    if |c| == 1 then 0
    else
      var best := MostCommonIndex(c[..|c| - 1]);
      if c[|c| - 1].1 > c[best].1 then |c| - 1 else best
  }

  /** `map_votes.most_common(1)[0] if map_votes else None` */
  function MostCommon(c: Counter): Option<(string, nat)> {
    if c == [] then None else Some(c[MostCommonIndex(c)])
  }

  /** The result get_highest_map_vote returns. */
  function Tally(candidates: seq<string>, chat: Chat): Option<(string, nat)> {
    MostCommon(CounterOf(Ballots(candidates, chat)))
  }

  /** `a` is voted for before `b` receives any vote. */
  predicate VotedBefore(votes: seq<string>, a: string, b: string) {
    exists i :: 0 <= i < |votes| && votes[i] == a && b !in votes[..i]
  }

  /**
   * get_highest_map_vote: for each player the messages are scanned newest first,
   * the first valid ballot updates the Counter and the scan breaks.
   */
  method GetHighestMapVote(candidateMaps: seq<string>, playerMessages: Chat) returns (result: Option<(string, nat)>)
    ensures result == Tally(candidateMaps, playerMessages)
  {
    var mapVotes: Counter := [];
    var i := 0;
    while i < |playerMessages|
      invariant 0 <= i <= |playerMessages|
      invariant mapVotes == CounterOf(Ballots(candidateMaps, playerMessages[..i]))
    {
      var messages := playerMessages[i].1.messages;
      ghost var counted := Ballots(candidateMaps, playerMessages[..i]);
      ghost var newest := PlayerVote(candidateMaps, messages);
      var j := |messages|;
      assert messages[..j] == messages;
      while j > 0
        invariant 0 <= j <= |messages|
        invariant mapVotes == CounterOf(counted)
        invariant newest == PlayerVote(candidateMaps, messages[..j])
      {
        var vote := ValidBallot(candidateMaps, messages[j - 1]);
        PlayerVoteStep(candidateMaps, messages, j);
        if vote.Some? {
          mapVotes := CounterAdd(mapVotes, vote.value);
          break;
        }
        j := j - 1;
      }
      if j == 0 {
        assert messages[..j] == [];
      }
      BallotsStep(candidateMaps, playerMessages, i);
      CounterOfAppend(counted, VoteList(newest));
      i := i + 1;
    }
    assert playerMessages[..i] == playerMessages;
    result := MostCommon(mapVotes);
  }

  /** Scanning the first j messages newest first: message j - 1 decides, unless it is no ballot. */
  lemma PlayerVoteStep(candidates: seq<string>, messages: seq<string>, j: nat)
    requires 0 < j <= |messages|
    ensures PlayerVote(candidates, messages[..j]) ==
            if ValidBallot(candidates, messages[j - 1]).Some? then ValidBallot(candidates, messages[j - 1])
            else PlayerVote(candidates, messages[..j - 1])
  {
    assert messages[..j][..j - 1] == messages[..j - 1];
  }

  lemma BallotsStep(candidates: seq<string>, chat: Chat, i: nat)
    requires i < |chat|
    ensures Ballots(candidates, chat[..i + 1]) ==
            Ballots(candidates, chat[..i]) + VoteList(PlayerVote(candidates, chat[i].1.messages))
  {
    assert chat[..i + 1][..i] == chat[..i];
  }

  lemma CounterOfStep(votes: seq<string>, i: nat)
    requires i < |votes|
    ensures CounterOf(votes[..i + 1]) == CounterAdd(CounterOf(votes[..i]), votes[i])
  {
    assert votes[..i + 1][..i] == votes[..i];
  }

  lemma CounterOfAppend(votes: seq<string>, more: seq<string>)
    requires |more| <= 1
    ensures CounterOf(votes + more) == if more == [] then CounterOf(votes) else CounterAdd(CounterOf(votes), more[0])
  {
    if more == [] {
      assert votes + more == votes;
    } else {
      assert (votes + more)[..|votes|] == votes;
    }
  }

  /** The counted vote is the newest valid ballot; older messages are ignored. */
  predicate NewestValid(candidates: seq<string>, messages: seq<string>, j: int) {
    && 0 <= j < |messages|
    && ValidBallot(candidates, messages[j]).Some?
    && forall k :: j < k < |messages| ==> ValidBallot(candidates, messages[k]) == None
  }

  /** A player has no vote exactly when none of their messages is a valid ballot. */
  lemma {:induction false} PlayerVoteNoneIff(candidates: seq<string>, messages: seq<string>)
    ensures PlayerVote(candidates, messages) == None <==>
            forall j :: 0 <= j < |messages| ==> ValidBallot(candidates, messages[j]) == None
  {
    if messages != [] {
      var n := |messages| - 1;
      PlayerVoteNoneIff(candidates, messages[..n]);
      assert forall j :: 0 <= j < n ==> messages[..n][j] == messages[j];
    }
  }

  /** The vote is the newest valid ballot, whatever the player wrote before it. */
  lemma {:induction false} PlayerVoteIsNewestBallot(candidates: seq<string>, messages: seq<string>, j: nat)
    requires NewestValid(candidates, messages, j)
    ensures PlayerVote(candidates, messages) == ValidBallot(candidates, messages[j])
  {
    var n := |messages| - 1;
    PlayerVoteStep(candidates, messages, n + 1);
    assert messages[..n + 1] == messages;
    if j < n {
      assert ValidBallot(candidates, messages[n]) == None;
      assert messages[..n][j] == messages[j];
      assert forall k :: j < k < n ==> messages[..n][k] == messages[k];
      PlayerVoteIsNewestBallot(candidates, messages[..n], j);
    }
  }

  /** A later valid ballot overrides everything the player wrote before it. */
  lemma {:induction false} LaterBallotOverrides(candidates: seq<string>, older: seq<string>, newer: seq<string>)
    requires PlayerVote(candidates, newer).Some?
    ensures PlayerVote(candidates, older + newer) == PlayerVote(candidates, newer)
  {
    var n := |newer| - 1;
    assert (older + newer)[..|older| + n] == older + newer[..n];
    if ValidBallot(candidates, newer[n]) == None {
      LaterBallotOverrides(candidates, older, newer[..n]);
    }
  }

  /** Each player's vote is independent of the other players' messages. */
  lemma {:induction false} BallotsConcat(candidates: seq<string>, chat1: Chat, chat2: Chat)
    ensures Ballots(candidates, chat1 + chat2) == Ballots(candidates, chat1) + Ballots(candidates, chat2)
  {
    if chat2 != [] {
      var n := |chat2| - 1;
      assert (chat1 + chat2)[..|chat1| + n] == chat1 + chat2[..n];
      BallotsConcat(candidates, chat1, chat2[..n]);
    } else {
      assert chat1 + chat2 == chat1;
    }
  }

  lemma {:induction false} BallotsEmptyIff(candidates: seq<string>, chat: Chat)
    ensures Ballots(candidates, chat) == [] <==>
            forall i :: 0 <= i < |chat| ==> PlayerVote(candidates, chat[i].1.messages) == None
  {
    if chat != [] {
      var n := |chat| - 1;
      var prev, last := chat[..n], PlayerVote(candidates, chat[n].1.messages);
      BallotsEmptyIff(candidates, prev);
      BallotsStep(candidates, chat, n);
      assert chat[..n + 1] == chat;
      assert Ballots(candidates, chat) == [] <==> Ballots(candidates, prev) == [] && last == None;
      if Ballots(candidates, chat) == [] {
        forall i | 0 <= i < |chat|
          ensures PlayerVote(candidates, chat[i].1.messages) == None
        {
          if i < n {
            assert prev[i] == chat[i];
          }
        }
      } else if last == None {
        var i :| 0 <= i < n && PlayerVote(candidates, prev[i].1.messages) != None;
        assert prev[i] == chat[i];
      }
    }
  }

  /** At most one ballot per player, and every ballot names a candidate. */
  lemma {:induction false} BallotsOnePerPlayer(candidates: seq<string>, chat: Chat)
    ensures |Ballots(candidates, chat)| <= |chat|
    ensures forall x :: x in Ballots(candidates, chat) ==> x in candidates
  {
    if chat != [] {
      BallotsOnePerPlayer(candidates, chat[..|chat| - 1]);
    }
  }

  predicate KeysDistinct(c: Counter) {
    forall p, q :: 0 <= p < q < |c| ==> c[p].0 != c[q].0
  }

  /** Every item counts the occurrences of its key among the votes. */
  predicate CountsMatch(c: Counter, votes: seq<string>) {
    forall p :: 0 <= p < |c| ==> c[p].0 in votes && c[p].1 == multiset(votes)[c[p].0]
  }

  predicate HasKey(c: Counter, key: string) {
    exists p :: 0 <= p < |c| && c[p].0 == key
  }

  predicate KeysInVoteOrder(c: Counter, votes: seq<string>) {
    forall p, q :: 0 <= p < q < |c| ==> VotedBefore(votes, c[p].0, c[q].0)
  }

  /** The Counter has one item per distinct vote, counting that vote's occurrences. */
  lemma {:induction false} CounterOfKeys(votes: seq<string>)
    ensures KeysDistinct(CounterOf(votes))
    ensures CountsMatch(CounterOf(votes), votes)
    ensures forall x :: x in votes ==> HasKey(CounterOf(votes), x)
  {
    if votes != [] {
      var n := |votes| - 1;
      CounterOfKeys(votes[..n]);
      assert votes == votes[..n] + [votes[n]];
      var k := Find(CounterOf(votes[..n]), votes[n]);
      if k < |CounterOf(votes[..n])| {
        CounterBumpKeys(CounterOf(votes[..n]), votes[..n], votes[n], k);
      } else {
        CounterNewKeys(CounterOf(votes[..n]), votes[..n], votes[n]);
      }
    }
  }

  /** A repeated vote increments its key's item and keeps the keys. */
  lemma CounterBumpKeys(c0: Counter, prev: seq<string>, x: string, k: nat)
    requires KeysDistinct(c0) && CountsMatch(c0, prev)
    requires forall y :: y in prev ==> HasKey(c0, y)
    requires k == Find(c0, x) && k < |c0|
    ensures KeysDistinct(CounterAdd(c0, x))
    ensures CountsMatch(CounterAdd(c0, x), prev + [x])
    ensures forall y :: y in prev + [x] ==> HasKey(CounterAdd(c0, x), y)
  {
    var votes := prev + [x];
    assert multiset(votes) == multiset(prev) + multiset{x};
    var c := CounterAdd(c0, x);
    assert c == c0[k := (x, c0[k].1 + 1)];
    forall p | 0 <= p < |c|
      ensures c[p].0 in votes && c[p].1 == multiset(votes)[c[p].0]
    {
      if p != k {
        assert c[p] == c0[p];
        assert c0[p].0 != x;
      }
    }
    forall y | y in votes
      ensures HasKey(c, y)
    {
      if y != x {
        assert y in prev;
        var p :| 0 <= p < |c0| && c0[p].0 == y;
        assert c[p].0 == y;
      } else {
        assert c[k].0 == y;
      }
    }
  }

  /** A first vote for a name appends a new item with count 1. */
  lemma CounterNewKeys(c0: Counter, prev: seq<string>, x: string)
    requires KeysDistinct(c0) && CountsMatch(c0, prev)
    requires forall y :: y in prev ==> HasKey(c0, y)
    requires Find(c0, x) == |c0|
    ensures KeysDistinct(CounterAdd(c0, x))
    ensures CountsMatch(CounterAdd(c0, x), prev + [x])
    ensures forall y :: y in prev + [x] ==> HasKey(CounterAdd(c0, x), y)
  {
    assert CounterAdd(c0, x) == c0 + [(x, 1)];
    assert !HasKey(c0, x);
    NewKeyCounts(c0, prev, x);
    NewKeyPresent(c0, prev, x);
  }

  lemma NewKeyCounts(c0: Counter, prev: seq<string>, x: string)
    requires KeysDistinct(c0) && CountsMatch(c0, prev)
    requires forall p :: 0 <= p < |c0| ==> c0[p].0 != x
    requires x !in prev
    ensures KeysDistinct(c0 + [(x, 1)])
    ensures CountsMatch(c0 + [(x, 1)], prev + [x])
  {
    var votes, c := prev + [x], c0 + [(x, 1)];
    assert multiset(votes) == multiset(prev) + multiset{x};
    forall p | 0 <= p < |c|
      ensures c[p].0 in votes && c[p].1 == multiset(votes)[c[p].0]
    {
      if p < |c0| {
        assert c[p] == c0[p];
      }
    }
  }

  lemma NewKeyPresent(c0: Counter, prev: seq<string>, x: string)
    requires forall y :: y in prev ==> HasKey(c0, y)
    ensures forall y :: y in prev + [x] ==> HasKey(c0 + [(x, 1)], y)
  {
    var c := c0 + [(x, 1)];
    forall y | y in prev + [x]
      ensures HasKey(c, y)
    {
      if y != x {
        assert y in prev;
        var p :| 0 <= p < |c0| && c0[p].0 == y;
        assert c[p].0 == y;
      } else {
        assert c[|c0|].0 == y;
      }
    }
  }

  lemma VotedBeforeExtend(votes: seq<string>, more: seq<string>, a: string, b: string)
    requires VotedBefore(votes, a, b)
    ensures VotedBefore(votes + more, a, b)
  {
    var i :| 0 <= i < |votes| && votes[i] == a && b !in votes[..i];
    assert (votes + more)[..i] == votes[..i];
  }

  /** The Counter lists its keys in the order of their first votes. */
  lemma {:induction false} CounterOfOrder(votes: seq<string>)
    ensures KeysInVoteOrder(CounterOf(votes), votes)
  {
    if votes != [] {
      var n := |votes| - 1;
      var prev, x := votes[..n], votes[n];
      CounterOfOrder(prev);
      CounterOfKeys(prev);
      assert votes == prev + [x];
      var c0 := CounterOf(prev);
      var c := CounterOf(votes);
      var k := Find(c0, x);
      if k < |c0| {
        assert c == c0[k := (x, c0[k].1 + 1)];
        forall p, q | 0 <= p < q < |c|
          ensures VotedBefore(votes, c[p].0, c[q].0)
        {
          assert c[p].0 == c0[p].0 && c[q].0 == c0[q].0;
          assert q < |c0|;
          assert VotedBefore(prev, c0[p].0, c0[q].0);
          VotedBeforeExtend(prev, [x], c0[p].0, c0[q].0);
        }
      } else {
        assert c == c0 + [(x, 1)];
        assert x !in prev;
        forall p, q | 0 <= p < q < |c|
          ensures VotedBefore(votes, c[p].0, c[q].0)
        {
          if q < |c0| {
            assert c[p] == c0[p] && c[q] == c0[q];
            VotedBeforeExtend(prev, [x], c0[p].0, c0[q].0);
          } else {
            assert c[p] == c0[p] && c[q].0 == x;
            var i :| 0 <= i < |prev| && prev[i] == c0[p].0;
            assert votes[..i] == prev[..i];
            assert votes[i] == c[p].0 && x !in votes[..i];
          }
        }
      }
    }
  }

  lemma {:induction false} SumCountsUpdate(c: Counter, k: nat, item: (string, nat))
    requires k < |c|
    ensures SumCounts(c[k := item]) == SumCounts(c) - c[k].1 + item.1
  {
    if k > 0 {
      SumCountsUpdate(c[1..], k - 1, item);
      assert c[k := item][1..] == c[1..][k - 1 := item];
    }
  }

  lemma {:induction false} SumCountsAppend(c: Counter, item: (string, nat))
    ensures SumCounts(c + [item]) == SumCounts(c) + item.1
  {
    if c != [] {
      SumCountsAppend(c[1..], item);
      assert (c + [item])[1..] == c[1..] + [item];
    }
  }

  /** Every counted ballot is in the Counter exactly once. */
  lemma {:induction false} CounterOfSum(votes: seq<string>)
    ensures SumCounts(CounterOf(votes)) == |votes|
  {
    if votes != [] {
      var n := |votes| - 1;
      CounterOfSum(votes[..n]);
      var c0 := CounterOf(votes[..n]);
      var k := Find(c0, votes[n]);
      if k < |c0| {
        SumCountsUpdate(c0, k, (votes[n], c0[k].1 + 1));
      } else {
        SumCountsAppend(c0, (votes[n], 1));
      }
    }
  }

  /**
   * most_common(1) over the Counter of some votes: a voted name with no fewer votes
   * than any other, and among the names with as many votes the one voted for first.
   */
  lemma CounterWinner(votes: seq<string>)
    requires votes != []
    ensures MostCommon(CounterOf(votes)).Some?
    ensures var (w, n) := MostCommon(CounterOf(votes)).value;
      && w in votes
      && n == multiset(votes)[w]
      && (forall x :: multiset(votes)[x] <= n)
      && (forall x :: x != w && multiset(votes)[x] == n ==> VotedBefore(votes, w, x))
  {
    var c := CounterOf(votes);
    CounterOfKeys(votes);
    CounterOfOrder(votes);
    CounterOfSum(votes);
    assert c != [];
    MostCommonItem(c, votes);
  }

  /** The first item of greatest count beats every voted name, and every equal one was voted for later. */
  lemma MostCommonItem(c: Counter, votes: seq<string>)
    requires c != [] && KeysDistinct(c) && CountsMatch(c, votes) && KeysInVoteOrder(c, votes)
    requires forall x :: x in votes ==> HasKey(c, x)
    ensures var (w, n) := c[MostCommonIndex(c)];
      && w in votes
      && n == multiset(votes)[w]
      && (forall x :: multiset(votes)[x] <= n)
      && (forall x :: x != w && multiset(votes)[x] == n ==> VotedBefore(votes, w, x))
  {
    var k := MostCommonIndex(c);
    var (w, n) := c[k];
    forall x | multiset(votes)[x] > 0
      ensures multiset(votes)[x] <= n
      ensures x != w && multiset(votes)[x] == n ==> VotedBefore(votes, w, x)
    {
      assert x in votes;
      var q :| 0 <= q < |c| && c[q].0 == x;
    }
  }

  /** get_highest_map_vote returns None exactly when no player cast a valid ballot. */
  lemma TallyNoneIff(candidates: seq<string>, chat: Chat)
    ensures Tally(candidates, chat) == None <==>
            forall i :: 0 <= i < |chat| ==> PlayerVote(candidates, chat[i].1.messages) == None
  {
    BallotsEmptyIff(candidates, chat);
    CounterOfSum(Ballots(candidates, chat));
  }

  /**
   * The winner is a candidate with at least one ballot and no fewer ballots than any
   * other name; among names with as many ballots it is the one voted for first.
   */
  lemma TallyWinner(candidates: seq<string>, chat: Chat)
    requires Tally(candidates, chat).Some?
    ensures var (w, n) := Tally(candidates, chat).value;
      var b := Ballots(candidates, chat);
      && w in candidates
      && n >= 1
      && n == multiset(b)[w]
      && (forall x :: multiset(b)[x] <= n)
      && (forall x :: x != w && multiset(b)[x] == n ==> VotedBefore(b, w, x))
  {
    var b := Ballots(candidates, chat);
    BallotsOnePerPlayer(candidates, chat);
    CounterWinner(b);
  }

  lemma VotersForStep(candidates: seq<string>, chat: Chat, name: string)
    requires chat != []
    ensures var n := |chat| - 1;
      VotersFor(candidates, chat, name) == VotersFor(candidates, chat[..n], name) +
        (if PlayerVote(candidates, chat[n].1.messages) == Some(name) then {chat[n].0} else {})
  {
    var n := |chat| - 1;
    assert forall i :: 0 <= i < n ==> chat[..n][i] == chat[i];
  }

  /** With distinct player ids, a name's count is the number of players whose vote it is. */
  lemma {:induction false} CountIsDistinctVoters(candidates: seq<string>, chat: Chat, name: string)
    requires DistinctIds(chat)
    ensures multiset(Ballots(candidates, chat))[name] == |VotersFor(candidates, chat, name)|
  {
    if chat == [] {
      assert VotersFor(candidates, chat, name) == {};
    } else {
      var n := |chat| - 1;
      var prev := chat[..n];
      assert DistinctIds(prev);
      CountIsDistinctVoters(candidates, prev, name);
      VotersForStep(candidates, chat, name);
      assert chat[n].0 !in VotersFor(candidates, prev, name);
      var vote := VoteList(PlayerVote(candidates, chat[n].1.messages));
      assert multiset(Ballots(candidates, chat)) == multiset(Ballots(candidates, prev)) + multiset(vote);
    }
  }

  /** The winning count is the number of players who voted for the winner, and no name has more voters. */
  lemma TallyCountsVoters(candidates: seq<string>, chat: Chat)
    requires DistinctIds(chat)
    requires Tally(candidates, chat).Some?
    ensures var (w, n) := Tally(candidates, chat).value;
      && n == |VotersFor(candidates, chat, w)|
      && forall x :: |VotersFor(candidates, chat, x)| <= n
  {
    TallyWinner(candidates, chat);
    forall x {
      CountIsDistinctVoters(candidates, chat, x);
    }
  }

  /** The ids of the players who cast a valid ballot. */
  function Voters(candidates: seq<string>, chat: Chat): set<string> {
    set i | 0 <= i < |chat| && PlayerVote(candidates, chat[i].1.messages).Some? :: chat[i].0
  }

  lemma VotersStep(candidates: seq<string>, chat: Chat)
    requires chat != []
    ensures var n := |chat| - 1;
      Voters(candidates, chat) == Voters(candidates, chat[..n]) +
        (if PlayerVote(candidates, chat[n].1.messages).Some? then {chat[n].0} else {})
  {
    var n := |chat| - 1;
    assert forall i :: 0 <= i < n ==> chat[..n][i] == chat[i];
  }

  /** With distinct player ids, there is one ballot per player who cast a valid one. */
  lemma {:induction false} BallotsPerVoter(candidates: seq<string>, chat: Chat)
    requires DistinctIds(chat)
    ensures |Ballots(candidates, chat)| == |Voters(candidates, chat)|
  {
    if chat != [] {
      var n := |chat| - 1;
      var prev := chat[..n];
      assert DistinctIds(prev);
      BallotsPerVoter(candidates, prev);
      VotersStep(candidates, chat);
      assert chat[n].0 !in Voters(candidates, prev);
    }
  }

  /** The Counter's counts add up to the number of players who cast a valid ballot. */
  lemma TallySumIsVoters(candidates: seq<string>, chat: Chat)
    requires DistinctIds(chat)
    ensures SumCounts(CounterOf(Ballots(candidates, chat))) == |Voters(candidates, chat)|
  {
    CounterOfSum(Ballots(candidates, chat));
    BallotsPerVoter(candidates, chat);
  }
}
