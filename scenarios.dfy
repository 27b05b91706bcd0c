/**
 * Concrete cases of the map-vote rules: the tally, formatting and rotation-file
 * cases of the repository's test suite, plus a few worked examples (the Counter
 * cases and the short and wrapping rotations), each proved through a small general lemma.
 */
module Scenarios {

  import opened Wrappers
  import opened Text
  import opened Chats
  import opened Votes
  import opened Candidates
  import opened Triggers

  const FAKE_CANDIDATE_MAPS: seq<string> := ["vote me", "no me pls", "best map EU"]

  /** A chat entry whose player name is its id. */
  function Player(id: string, messages: seq<string>): (string, PlayerChat) {
    (id, PlayerChat(id, messages))
  }

  /** The single-digit ballots "0", "1" and "2" name the candidate with that number. */
  lemma DigitBallots(cs: seq<string>)
    requires |cs| == 3
    ensures ValidBallot(cs, "0") == Some(cs[0])
    ensures ValidBallot(cs, "1") == Some(cs[1])
    ensures ValidBallot(cs, "2") == Some(cs[2])
  {
    assert NatToString(0) == "0" && NatToString(1) == "1" && NatToString(2) == "2";
    NumberIsBallot(cs, 0);
    NumberIsBallot(cs, 1);
    NumberIsBallot(cs, 2);
  }

  /** Messages that end in a letter are no ballots. */
  lemma WordsAreNoBallots(cs: seq<string>)
    ensures ValidBallot(cs, "not an int") == None
    ensures ValidBallot(cs, "also not an int") == None
    ensures ValidBallot(cs, "changed my mind") == None
    ensures ValidBallot(cs, "yay") == None
  {
    NoTrailingDigitNoBallot("not an int");
    NoTrailingDigitNoBallot("also not an int");
    NoTrailingDigitNoBallot("changed my mind");
    NoTrailingDigitNoBallot("yay");
  }

  /** '10000' is past the last of three candidates, and '-22' reads as 22, so neither is a ballot. */
  lemma OutOfRangeNoBallots(cs: seq<string>)
    requires |cs| == 3
    ensures ValidBallot(cs, "10000") == None
    ensures ValidBallot(cs, "-22") == None
  {
    assert NatToString(2) == "2";
    assert NatToString(22) == "22";
    NumberAfterText("-", 22);
    assert "-" + NatToString(22) == "-22";
    assert NatToString(1) == "1" && NatToString(10) == "10" && NatToString(100) == "100";
    assert NatToString(1000) == "1000";
    assert NatToString(10000) == "10000";
    NumberAfterText("", 10000);
    assert "" + NatToString(10000) == "10000";
  }

  /** A player with one message votes with it, if it is a ballot. */
  lemma VoteOfOne(cs: seq<string>, a: string)
    ensures PlayerVote(cs, [a]) == ValidBallot(cs, a)
  {
    assert [a][..0] == [];
  }

  /** A player with two messages votes with the newer one, or else with the older one. */
  lemma VoteOfTwo(cs: seq<string>, a: string, b: string)
    ensures PlayerVote(cs, [a, b]) == if ValidBallot(cs, b).Some? then ValidBallot(cs, b) else ValidBallot(cs, a)
  {
    assert [a, b][..1] == [a];
    VoteOfOne(cs, a);
  }

  /** The ballots of a two-player chat. */
  lemma BallotsOfTwo(cs: seq<string>, p0: (string, PlayerChat), p1: (string, PlayerChat))
    ensures Ballots(cs, [p0, p1]) ==
      VoteList(PlayerVote(cs, p0.1.messages)) + VoteList(PlayerVote(cs, p1.1.messages))
  {
    var chat := [p0, p1];
    BallotsStep(cs, chat, 0);
    BallotsStep(cs, chat, 1);
    assert chat[..0] == [] && chat[..2] == chat;
  }

  /** The ballots of a four-player chat. */
  lemma BallotsOfFour(cs: seq<string>, p0: (string, PlayerChat), p1: (string, PlayerChat),
                      p2: (string, PlayerChat), p3: (string, PlayerChat))
    ensures Ballots(cs, [p0, p1, p2, p3]) ==
      VoteList(PlayerVote(cs, p0.1.messages)) + VoteList(PlayerVote(cs, p1.1.messages)) +
      VoteList(PlayerVote(cs, p2.1.messages)) + VoteList(PlayerVote(cs, p3.1.messages))
  {
    assert [p0, p1, p2, p3][..3] == [p0, p1, p2];
    assert [p0, p1, p2][..2] == [p0, p1];
    BallotsOfTwo(cs, p0, p1);
  }

  /** Four players who all voted: their four ballots in order. */
  lemma FourBallots(cs: seq<string>, p0: (string, PlayerChat), p1: (string, PlayerChat),
                    p2: (string, PlayerChat), p3: (string, PlayerChat), a: string, b: string, c: string, d: string)
    requires PlayerVote(cs, p0.1.messages) == Some(a) && PlayerVote(cs, p1.1.messages) == Some(b)
    requires PlayerVote(cs, p2.1.messages) == Some(c) && PlayerVote(cs, p3.1.messages) == Some(d)
    ensures Ballots(cs, [p0, p1, p2, p3]) == [a, b, c, d]
  {
    BallotsOfFour(cs, p0, p1, p2, p3);
  }

  /** Four players of whom the third did not vote: three ballots in order. */
  lemma ThreeOfFourBallots(cs: seq<string>, p0: (string, PlayerChat), p1: (string, PlayerChat),
                           p2: (string, PlayerChat), p3: (string, PlayerChat), a: string, b: string, d: string)
    requires PlayerVote(cs, p0.1.messages) == Some(a) && PlayerVote(cs, p1.1.messages) == Some(b)
    requires PlayerVote(cs, p2.1.messages) == None && PlayerVote(cs, p3.1.messages) == Some(d)
    ensures Ballots(cs, [p0, p1, p2, p3]) == [a, b, d]
  {
    BallotsOfFour(cs, p0, p1, p2, p3);
  }

  lemma CounterOfSnoc(votes: seq<string>, x: string)
    ensures CounterOf(votes + [x]) == CounterAdd(CounterOf(votes), x)
  {
    assert (votes + [x])[..|votes|] == votes;
  }

  /** A first vote for a name appends it with count 1. */
  lemma AddNew(c: Counter, key: string)
    requires forall p :: 0 <= p < |c| ==> c[p].0 != key
    ensures CounterAdd(c, key) == c + [(key, 1)]
  {
  }

  /** A vote for the name of item k increments that item. */
  lemma AddOld(c: Counter, key: string, k: nat)
    requires k < |c| && c[k].0 == key
    requires forall j :: 0 <= j < k ==> c[j].0 != key
    ensures CounterAdd(c, key) == c[k := (key, c[k].1 + 1)]
  {
    assert Find(c, key) == k;
  }

  /** Three ballots for one map: it wins with 3. */
  lemma CounterOfSame(x: string)
    ensures MostCommon(CounterOf([x, x, x])) == Some((x, 3))
  {
    CounterOfSnoc([], x);
    CounterOfSnoc([x], x);
    CounterOfSnoc([x, x], x);
    assert [x] == [] + [x] && [x, x] == [x] + [x] && [x, x, x] == [x, x] + [x];
    AddNew([], x);
    AddOld([(x, 1)], x, 0);
    AddOld([(x, 2)], x, 0);
  }

  /** Ballots for three different maps: each is counted once, in voting order. */
  lemma CounterOfThree(x: string, y: string, z: string)
    requires x != y && y != z && x != z
    ensures CounterOf([x, y, z]) == [(x, 1), (y, 1), (z, 1)]
  {
    CounterOfSnoc([], x);
    CounterOfSnoc([x], y);
    CounterOfSnoc([x, y], z);
    assert [x] == [] + [x] && [x, y] == [x] + [y] && [x, y, z] == [x, y] + [z];
    AddNew([], x);
    assert CounterOf([x]) == [(x, 1)];
    AddNew([(x, 1)], y);
    assert CounterOf([x, y]) == [(x, 1), (y, 1)];
    AddNew([(x, 1), (y, 1)], z);
  }

  /** Ballots x, y, z, y for three different maps: y wins with 2. */
  lemma CounterOfMajority(x: string, y: string, z: string)
    requires x != y && y != z && x != z
    ensures MostCommon(CounterOf([x, y, z, y])) == Some((y, 2))
  {
    CounterOfThree(x, y, z);
    CounterOfSnoc([x, y, z], y);
    assert [x, y, z, y] == [x, y, z] + [y];
    AddOld([(x, 1), (y, 1), (z, 1)], y, 1);
    var c := [(x, 1), (y, 2), (z, 1)];
    assert [(x, 1), (y, 1), (z, 1)][1 := (y, 1 + 1)] == c;
    assert CounterOf([x, y, z, y]) == c;
    assert MostCommonIndex(c) == 1;
  }

  /** Ballots x, y, x, y: a tie, won by x, which was voted for first. */
  lemma CounterOfTie(x: string, y: string)
    requires x != y
    ensures MostCommon(CounterOf([x, y, x, y])) == Some((x, 2))
  {
    CounterOfSnoc([], x);
    CounterOfSnoc([x], y);
    CounterOfSnoc([x, y], x);
    CounterOfSnoc([x, y, x], y);
    assert [x] == [] + [x] && [x, y] == [x] + [y] && [x, y, x] == [x, y] + [x] && [x, y, x, y] == [x, y, x] + [y];
    AddNew([], x);
    AddNew([(x, 1)], y);
    AddOld([(x, 1), (y, 1)], x, 0);
    AddOld([(x, 2), (y, 1)], y, 1);
    var c := [(x, 2), (y, 2)];
    assert CounterOf([x, y, x, y]) == c;
    assert MostCommonIndex(c) == 0;
  }

  lemma TallyWithoutPlayers()
    ensures Tally(FAKE_CANDIDATE_MAPS, []) == None
  {
  }

  lemma TallyWithoutNumbers()
    ensures Tally(FAKE_CANDIDATE_MAPS, [Player("id1", ["not an int"]), Player("id2", ["also not an int"])]) == None
  {
    var cs := FAKE_CANDIDATE_MAPS;
    WordsAreNoBallots(cs);
    VoteOfOne(cs, "not an int");
    VoteOfOne(cs, "also not an int");
    BallotsOfTwo(cs, Player("id1", ["not an int"]), Player("id2", ["also not an int"]));
  }

  lemma TallyOutOfRange()
    ensures Tally(FAKE_CANDIDATE_MAPS, [Player("id1", ["10000"]), Player("id2", ["-22"])]) == None
  {
    var cs := FAKE_CANDIDATE_MAPS;
    OutOfRangeNoBallots(cs);
    VoteOfOne(cs, "10000");
    VoteOfOne(cs, "-22");
    BallotsOfTwo(cs, Player("id1", ["10000"]), Player("id2", ["-22"]));
  }

  /** Only a player's newest ballot counts. */
  lemma TallyNewestBallotCounts()
    ensures Tally(FAKE_CANDIDATE_MAPS, [Player("id1", ["not an int"]), Player("id2", ["1", "changed my mind", "0"])])
      == Some(("vote me", 1))
  {
    var cs := FAKE_CANDIDATE_MAPS;
    DigitBallots(cs);
    WordsAreNoBallots(cs);
    VoteOfOne(cs, "not an int");
    PlayerVoteIsNewestBallot(cs, ["1", "changed my mind", "0"], 2);
    BallotsOfTwo(cs, Player("id1", ["not an int"]), Player("id2", ["1", "changed my mind", "0"]));
    assert Ballots(cs, [Player("id1", ["not an int"]), Player("id2", ["1", "changed my mind", "0"])]) == ["vote me"];
  }

  lemma TallyOneMap()
    ensures Tally(FAKE_CANDIDATE_MAPS, [
      Player("id1", ["0", "not an int"]), Player("id2", ["yay", "0"]), Player("id3", []), Player("id4", ["0"])])
      == Some(("vote me", 3))
  {
    var cs := FAKE_CANDIDATE_MAPS;
    DigitBallots(cs);
    WordsAreNoBallots(cs);
    VoteOfTwo(cs, "0", "not an int");
    VoteOfTwo(cs, "yay", "0");
    VoteOfOne(cs, "0");
    ThreeOfFourBallots(cs, Player("id1", ["0", "not an int"]), Player("id2", ["yay", "0"]), Player("id3", []),
      Player("id4", ["0"]), "vote me", "vote me", "vote me");
    CounterOfSame("vote me");
  }

  lemma TallySeveralMaps()
    ensures Tally(FAKE_CANDIDATE_MAPS, [
      Player("id1", ["0", "not an int"]), Player("id2", ["yay", "1"]), Player("id3", ["2"]), Player("id4", ["1"])])
      == Some(("no me pls", 2))
  {
    var cs := FAKE_CANDIDATE_MAPS;
    DigitBallots(cs);
    WordsAreNoBallots(cs);
    VoteOfTwo(cs, "0", "not an int");
    VoteOfTwo(cs, "yay", "1");
    VoteOfOne(cs, "2");
    VoteOfOne(cs, "1");
    FourBallots(cs, Player("id1", ["0", "not an int"]), Player("id2", ["yay", "1"]), Player("id3", ["2"]),
      Player("id4", ["1"]), "vote me", "no me pls", "best map EU", "no me pls");
    CounterOfMajority("vote me", "no me pls", "best map EU");
  }

  /** A tie goes to the map that received a ballot first, not to the lowest number. */
  lemma TallyTieGoesToFirstVoted()
    ensures Tally(FAKE_CANDIDATE_MAPS, [
      Player("id1", ["2", "not an int"]), Player("id2", ["yay", "1"]), Player("id3", ["2"]), Player("id4", ["1"])])
      == Some(("best map EU", 2))
  {
    var cs := FAKE_CANDIDATE_MAPS;
    DigitBallots(cs);
    WordsAreNoBallots(cs);
    VoteOfTwo(cs, "2", "not an int");
    VoteOfTwo(cs, "yay", "1");
    VoteOfOne(cs, "2");
    VoteOfOne(cs, "1");
    FourBallots(cs, Player("id1", ["2", "not an int"]), Player("id2", ["yay", "1"]), Player("id3", ["2"]),
      Player("id4", ["1"]), "best map EU", "no me pls", "best map EU", "no me pls");
    CounterOfTie("best map EU", "no me pls");
  }

  /** The line of a candidate numbered with one digit. */
  lemma DigitLine(d: nat, name: string)
    requires d < 10
    ensures NumberedLine(d, name) == [DigitChar(d)] + ") " + name
  {
  }

  /** Three candidates are announced as three numbered lines. */
  lemma FormatThree(a: string, b: string, c: string)
    ensures FormatCandidateMaps([a, b, c]) ==
      NumberedLine(0, a) + "\n" + NumberedLine(1, b) + "\n" + NumberedLine(2, c)
  {
    var lines := NumberedLines([a, b, c]);
    assert lines[1..] == [lines[1], lines[2]];
    assert lines[1..][1..] == [lines[2]];
    assert Join(lines[1..], "\n") == lines[1] + "\n" + lines[2];
  }

  /** Three candidates are announced as "0) ", "1) " and "2) " lines. */
  lemma FormatThreeDigits(a: string, b: string, c: string)
    ensures FormatCandidateMaps([a, b, c]) == "0) " + a + "\n1) " + b + "\n2) " + c
  {
    FormatThree(a, b, c);
    DigitLine(0, a);
    DigitLine(1, b);
    DigitLine(2, c);
  }

  /** The announcement of the test suite's three candidate maps. */
  lemma FormatFakeCandidates()
    ensures FormatCandidateMaps(FAKE_CANDIDATE_MAPS) == "0) " + "vote me" + "\n1) " + "no me pls" + "\n2) " + "best map EU"
  {
    FormatThreeDigits("vote me", "no me pls", "best map EU");
  }

  /** One candidate gives one line without a newline; no candidates give the empty string. */
  lemma FormatShortCases()
    ensures FormatCandidateMaps(["a map"]) == "0) a map"
    ensures FormatCandidateMaps([]) == ""
  {
    DigitLine(0, "a map");
    assert NumberedLines(["a map"]) == [NumberedLine(0, "a map")];
  }

  /** The rotation file of the test suite reads back as the rotation written into it. */
  lemma RotationFileCase()
    ensures ParseRotation("not a real\nrotation\nlist") == ["not a real", "rotation", "list"]
  {
    var rotation := ["not a real", "rotation", "list"];
    assert Join(rotation, "\n") == "not a real\nrotation\nlist";
    ParseRotationRoundTrip(rotation);
  }

  /** A map name with its line end: strip('\n') gives the name back. */
  lemma StripLineEnd(x: string)
    requires x != [] && '\n' !in x
    ensures StripNewlines(x + "\n") == x
  {
    assert (x + "\n")[..|x|] == x;
    assert x[|x| - 1] in x && x[0] in x;
    assert RStripNewlines(x + "\n") == RStripNewlines(x) == x;
    assert LStripNewlines(x) == x;
  }

  /** A file "a, blank line, b" with a final newline holds three lines. */
  lemma ReadLinesBlank(a: string, b: string)
    requires '\n' !in a && '\n' !in b
    ensures ReadLines(a + "\n\n" + b + "\n") == [a + "\n", "\n", b + "\n"]
  {
    assert a + "\n\n" + b + "\n" == a + "\n" + ("" + "\n" + (b + "\n" + ""));
    ReadLinesAfterLine(b, "");
    ReadLinesAfterLine("", b + "\n" + "");
    ReadLinesAfterLine(a, "" + "\n" + (b + "\n" + ""));
  }

  /** Stripping the line ends of those three lines leaves a, an empty line and b. */
  lemma StripBlank(a: string, b: string)
    requires a != [] && '\n' !in a && b != [] && '\n' !in b
    ensures StripEach([a + "\n", "\n", b + "\n"]) == [a, "", b]
  {
    var lines := [a + "\n", "\n", b + "\n"];
    StripLineEnd(a);
    StripLineEnd(b);
    assert StripNewlines("\n") == "" by {
      assert "\n"[..0] == "";
    }
    assert lines[1..] == [lines[1], lines[2]] && lines[1..][1..] == [lines[2]];
    assert StripEach([lines[2]]) == [b];
    assert StripEach(lines[1..]) == ["", b];
  }

  /** A blank line between two maps and the newline after the last one are dropped. */
  lemma RotationFileBlankLines(a: string, b: string)
    requires a != [] && '\n' !in a && b != [] && '\n' !in b
    ensures ParseRotation(a + "\n\n" + b + "\n") == [a, b]
  {
    ReadLinesBlank(a, b);
    StripBlank(a, b);
    var stripped := [a, "", b];
    assert stripped[1..] == ["", b] && stripped[1..][1..] == [b];
    assert KeepNonEmpty([b]) == [b];
    assert KeepNonEmpty(["", b]) == [b];
    assert KeepNonEmpty(stripped) == [a, b];
  }

  /** With a rotation of two maps the slice and its wrap overlap, and maps repeat. */
  lemma ShortRotationRepeats(a: string, b: string, skirmish: string)
    ensures RotationCandidates([a, b], a, skirmish) == Some([skirmish, b, a, b, REDO_VOTE_OPTION])
  {
    var rotation := [a, b];
    assert IndexOf(rotation, a) == Some(0);
    assert Slice(rotation, 1, 5) == [b];
    assert Slice(rotation, 0, 3) == [a, b];
    assert [skirmish] + [b] + [a, b] + [REDO_VOTE_OPTION] == [skirmish, b, a, b, REDO_VOTE_OPTION];
  }

  /** With three maps and the current one first, the wrap-around repeats the map after it. */
  lemma ThreeMapsFirstRepeats(a: string, b: string, c: string, skirmish: string)
    ensures RotationCandidates([a, b, c], a, skirmish) == Some([skirmish, b, c, a, b, REDO_VOTE_OPTION])
  {
    var rotation := [a, b, c];
    assert IndexOf(rotation, a) == Some(0);
    assert Slice(rotation, 1, 5) == [b, c];
    assert Slice(rotation, 0, 2) == [a, b];
    assert [skirmish] + [b, c] + [a, b] + [REDO_VOTE_OPTION] == [skirmish, b, c, a, b, REDO_VOTE_OPTION];
  }

  /** With three distinct maps and the current one last, the wrap-around offers the three maps once each. */
  lemma ThreeMapsLastNoRepeat(a: string, b: string, c: string, skirmish: string)
    requires c != a && c != b
    ensures RotationCandidates([a, b, c], c, skirmish) == Some([skirmish, a, b, c, REDO_VOTE_OPTION])
  {
    var rotation := [a, b, c];
    assert rotation[1..][1..] == [c];
    assert IndexOf(rotation, c) == Some(2);
    assert Slice(rotation, 3, 7) == [];
    assert Slice(rotation, 0, 4) == [a, b, c];
    assert [skirmish] + [] + [a, b, c] + [REDO_VOTE_OPTION] == [skirmish, a, b, c, REDO_VOTE_OPTION];
  }

  /** The four maps after the fifth of six wrap around to the start of the rotation. */
  lemma RotationWrapsAround(rotation: seq<string>, skirmish: string)
    requires |rotation| == 6 && rotation[4] !in rotation[..4]
    ensures RotationCandidates(rotation, rotation[4], skirmish) ==
      Some([skirmish, rotation[5], rotation[0], rotation[1], rotation[2], REDO_VOTE_OPTION])
  {
    assert IndexOf(rotation, rotation[4]) == Some(4);
    assert Slice(rotation, 5, 9) == [rotation[5]];
    assert Slice(rotation, 0, 3) == [rotation[0], rotation[1], rotation[2]];
    assert [skirmish] + [rotation[5]] + [rotation[0], rotation[1], rotation[2]] + [REDO_VOTE_OPTION] ==
      [skirmish, rotation[5], rotation[0], rotation[1], rotation[2], REDO_VOTE_OPTION];
  }

  /** "!RTV" in the middle of a message is a request, in whatever case it is typed. */
  lemma UpperCaseCommandCase()
    ensures HasMapVoteCommand("let's !RTV please")
  {
    assert ToLower("!RTV") == "!rtv";
    assert "let's !RTV please" == "let's " + "!RTV" + " please";
    CommandInAnyCase("let's ", "!RTV", " please", 2);
  }

  /** Without its '!', a command word is no request. */
  lemma BareWordCase()
    ensures !HasMapVoteCommand("rtv")
  {
    NoBangNoCommand("rtv");
  }
}
