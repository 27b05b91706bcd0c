/**
 * The candidate maps offered in a vote: the rotation file's lines, the next
 * NUM_NEXT_MAPS_IN_ROTATION maps after the current one (wrapping around) between a
 * skirmish layer and the redo option, the catalog fallback, and the numbered
 * announcement text.
 */
module Candidates {

  import opened Wrappers
  import opened Text

  const NUM_NEXT_MAPS_IN_ROTATION: nat := 4

  /** The last option of every vote: rerun the vote with random maps. */
  const REDO_VOTE_OPTION: string := "None of the above (do nothing)"

  /**
   * What the external map catalog supplies to one get_map_candidates call: the random
   * skirmish layer put first in rotation mode, and the layers of the random catalog
   * rotation used when the rotation file is not used.
   */
  datatype Draw = Draw(skirmish: string, catalogLayers: seq<string>)

  /** f.readlines(): the lines of the text, each keeping its '\n' (the last one may lack it). */
  function ReadLines(text: string): (lines: seq<string>)
    ensures forall i :: 0 <= i < |lines| ==> lines[i] != [] && '\n' !in lines[i][..|lines[i]| - 1]
  {
    if text == [] then []
    else
      var rest := ReadLines(text[1..]);
      if text[0] == '\n' then ["\n"] + rest
      else if rest == [] then [[text[0]]]
      else [[text[0]] + rest[0]] + rest[1..]
  }

  function RStripNewlines(s: string): string {
    if s != [] && s[|s| - 1] == '\n' then RStripNewlines(s[..|s| - 1]) else s
  }

  function LStripNewlines(s: string): string {
    if s != [] && s[0] == '\n' then LStripNewlines(s[1..]) else s
  }

  /** line.strip('\n') */
  function StripNewlines(line: string): string {
    LStripNewlines(RStripNewlines(line))
  }

  function StripEach(lines: seq<string>): (r: seq<string>)
    ensures |r| == |lines|
  {
    if lines == [] then [] else [StripNewlines(lines[0])] + StripEach(lines[1..])
  }

  /** filter(None, lines): the empty strings dropped. */
  function KeepNonEmpty(lines: seq<string>): (r: seq<string>)
    ensures forall i :: 0 <= i < |r| ==> r[i] != [] && r[i] in lines
    ensures forall x :: x != [] ==> multiset(r)[x] == multiset(lines)[x]
  {
    if lines == [] then []
    else
      assert lines == [lines[0]] + lines[1..];
      if lines[0] == [] then KeepNonEmpty(lines[1..])
      else [lines[0]] + KeepNonEmpty(lines[1..])
  }

  /** filter(None, ...) works line by line: filtering a concatenation concatenates the filtered parts. */
  lemma {:induction false} KeepNonEmptyConcat(a: seq<string>, b: seq<string>)
    ensures KeepNonEmpty(a + b) == KeepNonEmpty(a) + KeepNonEmpty(b)
    ensures KeepNonEmpty([]) == [] && KeepNonEmpty([""]) == []
    ensures forall x: string :: x != [] ==> KeepNonEmpty([x]) == [x]
  {
    if a == [] {
      assert a + b == b;
    } else {
      assert (a + b)[1..] == a[1..] + b;
      KeepNonEmptyConcat(a[1..], b);
    }
    forall x: string | x != []
      ensures KeepNonEmpty([x]) == [x]
    {
      assert [x][1..] == [];
    }
  }

  /** The line parse of get_rotation_from_filepath, on the text the file holds. */
  function ParseRotation(text: string): seq<string> {
    KeepNonEmpty(StripEach(ReadLines(text)))
  }

  /** Every map of a parsed rotation is a non-empty line without '\n'. */
  lemma ParseRotationLines(text: string)
    ensures forall i :: 0 <= i < |ParseRotation(text)| ==>
      ParseRotation(text)[i] != [] && '\n' !in ParseRotation(text)[i]
  {
    var lines := ReadLines(text);
    StripEachLines(lines);
  }

  lemma {:induction false} StripEachLines(lines: seq<string>)
    requires forall i :: 0 <= i < |lines| ==> lines[i] != [] && '\n' !in lines[i][..|lines[i]| - 1]
    ensures forall x :: x in StripEach(lines) ==> '\n' !in x
  {
    if lines != [] {
      StripEachLines(lines[1..]);
      StripLine(lines[0]);
    }
  }

  /** Stripping a line that has '\n' at most at its end leaves no '\n'. */
  lemma StripLine(line: string)
    requires line != [] && '\n' !in line[..|line| - 1]
    ensures '\n' !in StripNewlines(line)
  {
    var r := RStripNewlines(line);
    if line[|line| - 1] == '\n' {
      assert RStripNewlines(line[..|line| - 1]) == line[..|line| - 1];
    }
    assert '\n' !in r;
    LStripNewlinesSuffix(r);
  }

  lemma {:induction false} LStripNewlinesSuffix(s: string)
    ensures |LStripNewlines(s)| <= |s| && LStripNewlines(s) == s[|s| - |LStripNewlines(s)|..]
  {
    if s != [] && s[0] == '\n' {
      LStripNewlinesSuffix(s[1..]);
    }
  }

  lemma {:induction false} ReadLinesOfLine(a: string)
    requires a != [] && '\n' !in a
    ensures ReadLines(a) == [a]
  {
    if |a| == 1 {
      assert a[1..] == [];
      assert a == [a[0]];
    } else {
      ReadLinesOfLine(a[1..]);
      assert [a[0]] + a[1..] == a;
    }
  }

  lemma {:induction false} ReadLinesAfterLine(a: string, b: string)
    requires '\n' !in a
    ensures ReadLines(a + "\n" + b) == [a + "\n"] + ReadLines(b)
  {
    var text := a + "\n" + b;
    if a == [] {
      assert text[0] == '\n' && text[1..] == b;
      assert a + "\n" == "\n";
    } else {
      assert text[0] == a[0] && text[1..] == a[1..] + "\n" + b;
      ReadLinesAfterLine(a[1..], b);
      var rest := ReadLines(text[1..]);
      assert rest[0] == a[1..] + "\n" && rest[1..] == ReadLines(b);
      assert [text[0]] + rest[0] == a + "\n";
    }
  }

  /**
   * Writing non-empty, newline-free map names one per line and reading the file
   * back gives the same rotation.
   */
  lemma {:induction false} ParseRotationRoundTrip(rotation: seq<string>)
    requires forall i :: 0 <= i < |rotation| ==> rotation[i] != [] && '\n' !in rotation[i]
    ensures ParseRotation(Join(rotation, "\n")) == rotation
  {
    if |rotation| == 1 {
      var x := rotation[0];
      assert Join(rotation, "\n") == x;
      ReadLinesOfLine(x);
      assert x[0] in x && x[|x| - 1] in x;
      assert RStripNewlines(x) == x;
      assert LStripNewlines(x) == x;
      assert StripEach([x]) == [x] by {
        assert [x][1..] == rotation[1..];
      }
      assert KeepNonEmpty([x]) == [x] by {
        assert [x][1..] == rotation[1..];
      }
    } else if |rotation| > 1 {
      var x, rest := rotation[0], rotation[1..];
      ReadLinesAfterLine(x, Join(rest, "\n"));
      assert RStripNewlines(x + "\n") == x by {
        assert (x + "\n")[..|x|] == x;
      }
      ParseRotationRoundTrip(rest);
    }
  }

  /** s[lo:hi] for non-negative bounds: both are clamped to len(s). */
  function Slice(s: seq<string>, lo: nat, hi: nat): (r: seq<string>)
    ensures lo <= hi <= |s| ==> r == s[lo..hi]
    ensures |r| == if lo < hi && lo < |s| then (if hi < |s| then hi else |s|) - lo else 0
    ensures forall k :: 0 <= k < |r| ==> r[k] == s[lo + k]
  {
    var l := if lo < |s| then lo else |s|;
    var h := if hi < |s| then hi else |s|;
    if l < h then s[l..h] else []
  }

  /** list.index(x): the first position of x, or None where it raises ValueError. */
  function IndexOf(xs: seq<string>, x: string): (r: Option<nat>)
    ensures r.None? <==> x !in xs
    ensures r.Some? ==> r.value < |xs| && xs[r.value] == x && x !in xs[..r.value]
  {
    if xs == [] then None
    else if xs[0] == x then Some(0)
    else match IndexOf(xs[1..], x)
      case None => None
      case Some(i) => assert xs[1..][..i] == xs[1..i + 1]; Some(i + 1)
  }

  /**
   * The rotation branch of get_map_candidates: the skirmish layer, the maps after the
   * current one (the slice wraps around to the start), and the redo option; None where
   * the current map is not in the rotation.
   */
  function RotationCandidates(rotation: seq<string>, currentMap: string, skirmish: string): (r: Option<seq<string>>)
    ensures r.None? <==> currentMap !in rotation
    ensures r.Some? ==> |r.value| >= 2 && r.value[0] == skirmish && r.value[|r.value| - 1] == REDO_VOTE_OPTION
  {
    match IndexOf(rotation, currentMap)
    case None => None
    case Some(i) =>
      var next := i + 1;
      var candidates := [skirmish] + Slice(rotation, next, next + NUM_NEXT_MAPS_IN_ROTATION);
      var wrapped :=
        if next + NUM_NEXT_MAPS_IN_ROTATION >= |rotation|
        then candidates + Slice(rotation, 0, next + NUM_NEXT_MAPS_IN_ROTATION - |rotation|)
        else candidates;
      Some(wrapped + [REDO_VOTE_OPTION])
  }

  /** The catalog branch: the layers of the catalog's random rotation, then the redo option. */
  function CatalogCandidates(draw: Draw): (r: seq<string>)
    ensures |r| == |draw.catalogLayers| + 1
    ensures r[..|r| - 1] == draw.catalogLayers && r[|r| - 1] == REDO_VOTE_OPTION
  {
    draw.catalogLayers + [REDO_VOTE_OPTION]
  }

  /**
   * get_map_candidates with the configured rotation file's text (None when no file is
   * configured): the rotation is used when the current map is in it, the catalog otherwise.
   */
  function GetMapCandidates(rotationFile: Option<string>, currentMap: string, draw: Draw): (r: seq<string>)
    ensures |r| >= 1 && r[|r| - 1] == REDO_VOTE_OPTION
    ensures rotationFile.Some? && currentMap in ParseRotation(rotationFile.value) ==>
      r == RotationCandidates(ParseRotation(rotationFile.value), currentMap, draw.skirmish).value
    ensures rotationFile.None? || currentMap !in ParseRotation(rotationFile.value) ==>
      r == CatalogCandidates(draw)
  {
    match rotationFile
    case Some(text) =>
      (match RotationCandidates(ParseRotation(text), currentMap, draw.skirmish)
       case Some(candidates) => candidates
       case None => CatalogCandidates(draw))
    case None => CatalogCandidates(draw)
  }

  /** candidates[1:-1]: the entries between the opening skirmish and the redo option. */
  function Middle(candidates: seq<string>): (r: seq<string>)
    ensures |candidates| >= 2 ==> r == candidates[1..|candidates| - 1]
    ensures |candidates| <= 2 ==> r == []
  {
    if |candidates| <= 2 then [] else candidates[1..|candidates| - 1]
  }

  /** The n maps that follow position start - 1 in the rotation, read cyclically. */
  function Cyclic(rotation: seq<string>, start: nat, n: nat): (r: seq<string>)
    requires rotation != []
    ensures |r| == n
  {
    seq(n, k requires 0 <= k < n => rotation[(start + k) % |rotation|])
  }

  lemma WrapOnce(a: int, len: int)
    requires 0 < len <= a < 2 * len
    ensures a % len == a - len
  {
  }

  lemma CyclicNoWrap(rotation: seq<string>, start: nat, n: nat)
    requires start + n < |rotation|
    ensures rotation[start..start + n] == Cyclic(rotation, start, n)
  {
    var c := Cyclic(rotation, start, n);
    forall k | 0 <= k < n
      ensures rotation[start..start + n][k] == c[k]
    {
      NoWrap(start + k, |rotation|);
    }
  }

  lemma NoWrap(a: nat, len: nat)
    requires a < len
    ensures a % len == a
  {
  }

  lemma CyclicWrap(rotation: seq<string>, start: nat, n: nat)
    requires 0 < start <= |rotation| <= start + n && n <= |rotation|
    ensures rotation[start..] + rotation[..start + n - |rotation|] == Cyclic(rotation, start, n)
  {
    var len := |rotation|;
    var head, tail := rotation[start..], rotation[..start + n - len];
    var c := Cyclic(rotation, start, n);
    assert |head + tail| == n;
    forall k | 0 <= k < n
      ensures (head + tail)[k] == c[k]
    {
      CyclicIndexMod(len, start, k);
      if start + k < len {
        assert (head + tail)[k] == head[k];
      } else {
        assert (head + tail)[k] == tail[start + k - len];
      }
    }
  }

  /**
   * With at least N maps in the rotation, the offered maps are the skirmish layer, the
   * N maps after the current one read cyclically, and the redo option.
   */
  lemma RotationWindow(rotation: seq<string>, currentMap: string, skirmish: string)
    requires currentMap in rotation
    requires |rotation| >= NUM_NEXT_MAPS_IN_ROTATION
    ensures RotationCandidates(rotation, currentMap, skirmish) ==
      Some([skirmish] + Cyclic(rotation, IndexOf(rotation, currentMap).value + 1, NUM_NEXT_MAPS_IN_ROTATION) + [REDO_VOTE_OPTION])
  {
    var next := IndexOf(rotation, currentMap).value + 1;
    if next + NUM_NEXT_MAPS_IN_ROTATION >= |rotation| {
      RotationWindowWraps(rotation, currentMap, skirmish, next);
    } else {
      CyclicNoWrap(rotation, next, NUM_NEXT_MAPS_IN_ROTATION);
    }
  }

  lemma RotationWindowWraps(rotation: seq<string>, currentMap: string, skirmish: string, next: nat)
    requires currentMap in rotation && next == IndexOf(rotation, currentMap).value + 1
    requires |rotation| >= NUM_NEXT_MAPS_IN_ROTATION && next + NUM_NEXT_MAPS_IN_ROTATION >= |rotation|
    ensures RotationCandidates(rotation, currentMap, skirmish) ==
      Some([skirmish] + Cyclic(rotation, next, NUM_NEXT_MAPS_IN_ROTATION) + [REDO_VOTE_OPTION])
  {
    RotationCandidatesWrapped(rotation, currentMap, skirmish, next);
    WrappedSlices(rotation, next, skirmish);
  }

  /**
   * With a rotation of at most N maps the window wraps past the current map, so the
   * current map is always among the maps offered.
   */
  lemma ShortRotationOffersCurrentMap(rotation: seq<string>, currentMap: string, skirmish: string)
    requires currentMap in rotation && |rotation| <= NUM_NEXT_MAPS_IN_ROTATION
    ensures var r := RotationCandidates(rotation, currentMap, skirmish);
      r.Some? && currentMap in Middle(r.value)
  {
    var i := IndexOf(rotation, currentMap).value;
    RotationCandidatesWrapped(rotation, currentMap, skirmish, i + 1);
    ShortWindowHoldsCurrent(rotation, i, skirmish);
  }

  lemma ShortWindowHoldsCurrent(rotation: seq<string>, i: nat, skirmish: string)
    requires i < |rotation| <= NUM_NEXT_MAPS_IN_ROTATION
    ensures var next := i + 1;
      rotation[i] in Middle([skirmish] + Slice(rotation, next, next + NUM_NEXT_MAPS_IN_ROTATION)
        + Slice(rotation, 0, next + NUM_NEXT_MAPS_IN_ROTATION - |rotation|) + [REDO_VOTE_OPTION])
  {
    var next, n := i + 1, NUM_NEXT_MAPS_IN_ROTATION;
    var head := Slice(rotation, next, next + n);
    var tail := Slice(rotation, 0, next + n - |rotation|);
    assert |tail| > i && tail[i] == rotation[i];
    assert (head + tail)[|head| + i] == rotation[i];
    assert [skirmish] + head + tail + [REDO_VOTE_OPTION] == [skirmish] + (head + tail) + [REDO_VOTE_OPTION];
    MiddleOfFramed(skirmish, head + tail, REDO_VOTE_OPTION);
  }

  lemma MiddleOfFramed(first: string, xs: seq<string>, last: string)
    ensures Middle([first] + xs + [last]) == xs
  {
    var c := [first] + xs + [last];
    assert c[1..|c| - 1] == xs;
  }

  lemma RotationCandidatesWrapped(rotation: seq<string>, currentMap: string, skirmish: string, next: nat)
    requires IndexOf(rotation, currentMap) == Some(next - 1) && next >= 1
    requires next + NUM_NEXT_MAPS_IN_ROTATION >= |rotation|
    ensures RotationCandidates(rotation, currentMap, skirmish) ==
      Some([skirmish] + Slice(rotation, next, next + NUM_NEXT_MAPS_IN_ROTATION)
        + Slice(rotation, 0, next + NUM_NEXT_MAPS_IN_ROTATION - |rotation|) + [REDO_VOTE_OPTION])
  {
  }

  /** The two slices of a wrapping window read the rotation cyclically. */
  lemma WrappedSlices(rotation: seq<string>, next: nat, skirmish: string)
    requires 0 < next <= |rotation| <= next + NUM_NEXT_MAPS_IN_ROTATION && NUM_NEXT_MAPS_IN_ROTATION <= |rotation|
    ensures [skirmish] + Slice(rotation, next, next + NUM_NEXT_MAPS_IN_ROTATION)
        + Slice(rotation, 0, next + NUM_NEXT_MAPS_IN_ROTATION - |rotation|) + [REDO_VOTE_OPTION]
      == [skirmish] + Cyclic(rotation, next, NUM_NEXT_MAPS_IN_ROTATION) + [REDO_VOTE_OPTION]
  {
    var n := NUM_NEXT_MAPS_IN_ROTATION;
    var head := Slice(rotation, next, next + n);
    var tail := Slice(rotation, 0, next + n - |rotation|);
    assert head == rotation[next..];
    assert tail == rotation[..next + n - |rotation|];
    CyclicWrap(rotation, next, n);
    assert [skirmish] + head + tail == [skirmish] + (head + tail);
  }

  /** No map appears twice. */
  predicate Distinct(xs: seq<string>) {
    forall p, q :: 0 <= p < q < |xs| ==> xs[p] != xs[q]
  }

  lemma DistinctAt(xs: seq<string>, i: nat, j: nat)
    requires Distinct(xs) && i < |xs| && j < |xs| && i != j
    ensures xs[i] != xs[j]
  {
    if j < i {
      assert xs[j] != xs[i];
    }
  }

  lemma CyclicIndexMod(len: nat, start: nat, k: nat)
    requires start <= len && k < len
    ensures CyclicIndex(len, start, k) == (start + k) % len
  {
    if start + k >= len {
      WrapOnce(start + k, len);
    } else {
      NoWrap(start + k, len);
    }
  }

  lemma CyclicAt(rotation: seq<string>, start: nat, n: nat)
    requires 0 < start <= |rotation| && n < |rotation|
    ensures forall p :: 0 <= p < n ==> Cyclic(rotation, start, n)[p] == rotation[CyclicIndex(|rotation|, start, p)]
  {
    var c := Cyclic(rotation, start, n);
    forall p | 0 <= p < n
      ensures c[p] == rotation[CyclicIndex(|rotation|, start, p)]
    {
      CyclicIndexMod(|rotation|, start, p);
    }
  }

  /**
   * In a duplicate-free rotation, fewer than |rotation| maps read cyclically after
   * position start - 1 are pairwise distinct and none of them is the map at start - 1.
   */
  lemma CyclicDistinct(rotation: seq<string>, start: nat, n: nat)
    requires 0 < start <= |rotation| && n < |rotation|
    requires Distinct(rotation)
    ensures Distinct(Cyclic(rotation, start, n))
    ensures forall p :: 0 <= p < n ==> Cyclic(rotation, start, n)[p] != rotation[start - 1]
  {
    var len := |rotation|;
    var c := Cyclic(rotation, start, n);
    CyclicAt(rotation, start, n);
    forall p, q | 0 <= p < q < n
      ensures c[p] != c[q]
    {
      DistinctAt(rotation, CyclicIndex(len, start, p), CyclicIndex(len, start, q));
    }
    forall p | 0 <= p < n
      ensures c[p] != rotation[start - 1]
    {
      DistinctAt(rotation, CyclicIndex(len, start, p), start - 1);
    }
  }

  /** (start + k) % len for start <= len and k < len, without the modulus. */
  function CyclicIndex(len: nat, start: nat, k: nat): (i: nat)
    requires start <= len && k < len
    ensures i < len
  {
    if start + k < len then start + k else start + k - len
  }

  /**
   * With a duplicate-free rotation longer than N, the N offered rotation maps are
   * pairwise distinct and none of them is the current map.
   */
  lemma RotationWindowDistinct(rotation: seq<string>, currentMap: string, skirmish: string)
    requires currentMap in rotation
    requires |rotation| > NUM_NEXT_MAPS_IN_ROTATION
    requires Distinct(rotation)
    ensures Distinct(Middle(RotationCandidates(rotation, currentMap, skirmish).value))
    ensures |Middle(RotationCandidates(rotation, currentMap, skirmish).value)| == NUM_NEXT_MAPS_IN_ROTATION
    ensures currentMap !in Middle(RotationCandidates(rotation, currentMap, skirmish).value)
    ensures forall m :: m in Middle(RotationCandidates(rotation, currentMap, skirmish).value) ==> m in rotation
  {
    RotationWindow(rotation, currentMap, skirmish);
    var next := IndexOf(rotation, currentMap).value + 1;
    var window := Cyclic(rotation, next, NUM_NEXT_MAPS_IN_ROTATION);
    var c := [skirmish] + window + [REDO_VOTE_OPTION];
    assert Middle(c) == window;
    CyclicDistinct(rotation, next, NUM_NEXT_MAPS_IN_ROTATION);
    CyclicAt(rotation, next, NUM_NEXT_MAPS_IN_ROTATION);
  }

  /** One line of the announcement: "{index}) {name}". */
  function NumberedLine(index: nat, name: string): string {
    NatToString(index) + ") " + name
  }

  function NumberedLines(candidateMaps: seq<string>): (lines: seq<string>)
    ensures |lines| == |candidateMaps|
    ensures forall i :: 0 <= i < |lines| ==> lines[i] == NumberedLine(i, candidateMaps[i])
  {
    seq(|candidateMaps|, i requires 0 <= i < |candidateMaps| => NumberedLine(i, candidateMaps[i]))
  }

  /** format_candidate_maps: the numbered lines joined by '\n', no trailing newline. */
  function FormatCandidateMaps(candidateMaps: seq<string>): (r: string)
    ensures r == "" <==> candidateMaps == []
  {
    Join(NumberedLines(candidateMaps), "\n")
  }

  /**
   * The numbered lines are joined by '\n' with nothing after the last one: one more
   * candidate adds a separator and its numbered line.
   */
  lemma FormatCandidateMapsSnoc(candidateMaps: seq<string>, x: string)
    ensures FormatCandidateMaps(candidateMaps + [x]) ==
      if candidateMaps == [] then NumberedLine(0, x)
      else FormatCandidateMaps(candidateMaps) + "\n" + NumberedLine(|candidateMaps|, x)
  {
    var lines := NumberedLines(candidateMaps);
    assert NumberedLines(candidateMaps + [x]) == lines + [NumberedLine(|candidateMaps|, x)];
    JoinSnoc(lines, NumberedLine(|candidateMaps|, x), "\n");
  }

  /** Reading the formatted list back line by line gives one "{index}) {name}" line per candidate. */
  lemma FormatCandidateMapsLines(candidateMaps: seq<string>)
    requires forall i :: 0 <= i < |candidateMaps| ==> '\n' !in candidateMaps[i]
    ensures ParseRotation(FormatCandidateMaps(candidateMaps)) == NumberedLines(candidateMaps)
  {
    var lines := NumberedLines(candidateMaps);
    forall i | 0 <= i < |lines|
      ensures lines[i] != [] && '\n' !in lines[i]
    {
      var digits := NatToString(i);
      assert lines[i] == digits + ") " + candidateMaps[i];
      assert forall j :: 0 <= j < |digits| ==> digits[j] != '\n';
    }
    ParseRotationRoundTrip(lines);
  }
}
