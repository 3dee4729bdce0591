/** Replacing the generated block between two marker comments of a document. */
module AnchorText {
  import opened Wrappers

  const START_COMMENT := "!-- google-provider-identifiers-v1:start --"
  const END_COMMENT := "!-- google-provider-identifiers-v1:end --"
  const ANCHOR_START := "<" + START_COMMENT + ">"
  const ANCHOR_END := "<" + END_COMMENT + ">"

  datatype AnchorError = NotOnePair | Reversed

  // ----- occurrences

  predicate At(text: string, pattern: string, i: nat) {
    i + |pattern| <= |text| && text[i..i + |pattern|] == pattern
  }

  /** The first occurrence at or after `from`. */
  function IndexOf(text: string, pattern: string, from: nat): (index: Option<nat>)
    requires from <= |text|
    ensures index.Some? ==> from <= index.value && At(text, pattern, index.value)
    ensures forall i :: from <= i < (if index.Some? then index.value else |text| + 1) ==> !At(text, pattern, i)
    decreases |text| - from
  {
    if At(text, pattern, from) then Some(from)
    else if from == |text| then None
    else IndexOf(text, pattern, from + 1)
  }

  /** How often `split` cuts: occurrences from the left, none overlapping the one before. */
  function Cuts(text: string, pattern: string): nat
    requires pattern != ""
    decreases |text|
  {
    var i := IndexOf(text, pattern, 0);
    if i.None? then 0 else 1 + Cuts(text[i.value + |pattern|..], pattern)
  }

  /** A comment marker: its angle brackets are its first and its last character and nowhere else. */
  ghost predicate Marker(pattern: string) {
    && |pattern| >= 2
    && (forall i :: 0 <= i < |pattern| ==> (pattern[i] == '<' <==> i == 0))
    && (forall i :: 0 <= i < |pattern| ==> (pattern[i] == '>' <==> i == |pattern| - 1))
  }

  ghost predicate OccursOnlyAt(text: string, pattern: string, i: nat) {
    forall j: nat :: At(text, pattern, j) <==> j == i
  }

  ghost predicate Absent(text: string, pattern: string) {
    forall j: nat :: !At(text, pattern, j)
  }

  lemma NoCuts(text: string, pattern: string)
    requires pattern != ""
    ensures Cuts(text, pattern) == 0 <==> Absent(text, pattern)
  {
  }

  lemma CharsAt(text: string, pattern: string, i: nat)
    requires At(text, pattern, i)
    ensures forall k :: i <= k < i + |pattern| ==> text[k] == pattern[k - i]
  {
  }

  /** Two occurrences of a marker never overlap. */
  lemma MarkersApart(text: string, pattern: string, i: nat, j: nat)
    requires Marker(pattern) && At(text, pattern, i) && At(text, pattern, j) && i < j
    ensures i + |pattern| <= j
  {
    CharsAt(text, pattern, i);
    CharsAt(text, pattern, j);
    assert text[j] == '<';
  }

  lemma AtInTail(text: string, pattern: string, n: nat, j: nat)
    requires n <= |text|
    ensures At(text[n..], pattern, j) <==> At(text, pattern, n + j)
  {
  }

  lemma NotOnlyOne(text: string, pattern: string, i: nat, j: nat)
    requires At(text, pattern, i) && At(text, pattern, j) && i != j
    ensures forall k: nat :: !OccursOnlyAt(text, pattern, k)
  {
  }

  /** For a marker, one cut means one occurrence. */
  lemma OneCut(text: string, pattern: string)
    requires Marker(pattern)
    ensures Cuts(text, pattern) == 1 <==> exists i: nat :: OccursOnlyAt(text, pattern, i)
  {
    hide Marker, At;
    var first := IndexOf(text, pattern, 0);
    MarkerNotEmpty(pattern);
    if first.Some? {
      var i := first.value;
      AtFits(text, pattern, i);
      var tail := text[i + |pattern|..];
      NoCuts(tail, pattern);
      forall j: nat
        ensures At(text, pattern, j) <==> j == i || (i + |pattern| <= j && At(tail, pattern, j - (i + |pattern|)))
      {
        if i + |pattern| <= j {
          AtInTail(text, pattern, i + |pattern|, j - (i + |pattern|));
        } else if i < j && At(text, pattern, j) {
          MarkersApart(text, pattern, i, j);
        }
      }
      if Absent(tail, pattern) {
        assert OccursOnlyAt(text, pattern, i);
      } else {
        var k: nat :| At(tail, pattern, k);
        assert At(text, pattern, i + |pattern| + k);
        NotOnlyOne(text, pattern, i, i + |pattern| + k);
      }
    } else {
      NoCuts(text, pattern);
      forall i: nat
        ensures !OccursOnlyAt(text, pattern, i)
      {
        assert !At(text, pattern, i);
      }
    }
  }

  lemma MarkerNotEmpty(pattern: string)
    requires Marker(pattern)
    ensures pattern != ""
  {
  }

  lemma AtFits(text: string, pattern: string, i: nat)
    requires At(text, pattern, i)
    ensures i + |pattern| <= |text|
  {
  }

  // ----- seams

  /** A stretch of text that opens with an angle bracket and closes with one. */
  ghost predicate Bracketed(middle: string) {
    |middle| >= 2 && middle[0] == '<' && middle[|middle| - 1] == '>'
  }

  /** Around a bracketed stretch no marker arises across a seam: each occurrence lies in one of the three parts. */
  lemma NoMarkerAcrossSeams(before: string, middle: string, after: string, pattern: string, i: nat)
    requires Marker(pattern) && Bracketed(middle)
    ensures At(before + middle + after, pattern, i) <==>
      || At(before, pattern, i)
      || (|before| <= i && At(middle, pattern, i - |before|))
      || (|before| + |middle| <= i && At(after, pattern, i - |before| - |middle|))
  {
    var text, n, m := before + middle + after, |before|, |middle|;
    var e := i + |pattern|;
    assert text[n] == '<' && text[n + m - 1] == '>';
    if At(text, pattern, i) { CharsAt(text, pattern, i); }
    if e <= n {
      assert text[i..e] == before[i..e];
    } else if n <= i && e <= n + m {
      assert text[i..e] == middle[i - n..e - n];
    } else if n + m <= i && e <= |text| {
      assert text[n + m..] == after;
      assert text[i..e] == text[n + m..][i - n - m..e - n - m];
    }
  }

  // ----- the block

  /** A block: the start marker, a middle without markers, the end marker, each marker once. */
  ghost predicate Block(block: string) {
    && Bracketed(block) && OccursOnlyAt(block, ANCHOR_START, 0)
    && |block| >= |ANCHOR_END| && OccursOnlyAt(block, ANCHOR_END, |block| - |ANCHOR_END|)
  }

  lemma MarkerOf(inner: string)
    requires '<' !in inner && '>' !in inner
    ensures Marker("<" + inner + ">")
  {
  }

  lemma AnchorsAreMarkers()
    ensures Marker(ANCHOR_START) && Marker(ANCHOR_END)
    ensures |ANCHOR_START| == 45 && |ANCHOR_END| == 43 && ANCHOR_START[36] == 's' && ANCHOR_END[36] == 'e'
  {
    MarkerOf(START_COMMENT);
    MarkerOf(END_COMMENT);
  }

  lemma MarkersInFull()
    ensures ANCHOR_START == "<" + "!-- google-provider-identifiers-v1:start --" + ">"
    ensures ANCHOR_END == "<" + "!-- google-provider-identifiers-v1:end --" + ">"
  {
  }

  /** Anything without an angle bracket that opens can stand between the markers. */
  lemma PlainMiddleMakesABlock(middle: string)
    requires '<' !in middle
    ensures Block(ANCHOR_START + middle + ANCHOR_END)
  {
    AnchorsAreMarkers();
    hide Marker;
    var s, e, n := ANCHOR_START, ANCHOR_END, |ANCHOR_START + middle|;
    var block := s + middle + e;
    assert block[..45] == s && block[n..] == e && block[36] == 's';
    BracketsOfBlock(middle);
    forall j: nat
      ensures At(block, s, j) <==> j == 0
      ensures At(block, e, j) <==> j == n
    {
      if At(block, s, j) { assert block[j..j + 45][0] == block[j]; }
      if At(block, e, j) { assert block[j..j + 43][0] == block[j]; }
      if j == 0 { assert block[j..j + 43][36] == block[36]; }
    }
  }

  lemma BracketsOfBlock(middle: string)
    requires '<' !in middle
    ensures
      var block := ANCHOR_START + middle + ANCHOR_END;
      && Bracketed(block)
      && forall i :: 0 <= i < |block| && block[i] == '<' ==> i == 0 || i == |block| - |ANCHOR_END|
  {
    AnchorsAreMarkers();
    var block, n := ANCHOR_START + middle + ANCHOR_END, |ANCHOR_START + middle|;
    assert forall i :: 45 <= i < n ==> block[i] == middle[i - 45] && block[i] in middle;
    forall i | 0 <= i < |block| && block[i] == '<'
      ensures i == 0 || i == n
    {
      assert i < 45 ==> block[i] == ANCHOR_START[i];
      assert i >= n ==> block[i] == ANCHOR_END[i - n];
    }
  }

  // ----- replacing

  function ReplaceAnchor(document: string, block: string): (r: Result<string, AnchorError>) {
    if Cuts(document, ANCHOR_START) != 1 || Cuts(document, ANCHOR_END) != 1 then Err(NotOnePair)
    else
      var start := IndexOf(document, ANCHOR_START, 0);
      if start.None? then Err(NotOnePair)
      else
        var end := IndexOf(document, ANCHOR_END, start.value);
        if end.None? then Err(Reversed)
        else Ok(document[..start.value] + block + document[end.value + |ANCHOR_END|..])
  }

  /** A document with one pair of markers in order: what is before it, the pair with its middle, what is behind it. */
  ghost predicate OnePair(document: string, before: string, block: string, after: string) {
    document == before + block + after && Block(block) && Clean(before) && Clean(after)
  }

  ghost predicate Clean(text: string) {
    Absent(text, ANCHOR_START) && Absent(text, ANCHOR_END)
  }

  /** With one pair around it each marker occurs once, at the two ends of the block. */
  lemma PairPositions(document: string, before: string, block: string, after: string)
    requires OnePair(document, before, block, after)
    ensures OccursOnlyAt(document, ANCHOR_START, |before|)
    ensures OccursOnlyAt(document, ANCHOR_END, |before| + |block| - |ANCHOR_END|)
  {
    hide At, Marker;
    AnchorsAreMarkers();
    forall i: nat
      ensures At(document, ANCHOR_START, i) <==> i == |before|
      ensures At(document, ANCHOR_END, i) <==> i == |before| + |block| - |ANCHOR_END|
    {
      NoMarkerAcrossSeams(before, block, after, ANCHOR_START, i);
      NoMarkerAcrossSeams(before, block, after, ANCHOR_END, i);
    }
  }

  /** Replacing in a document with one pair keeps both sides and puts the new block between them. */
  lemma ReplacesThePair(document: string, before: string, block: string, after: string, latest: string)
    requires OnePair(document, before, block, after)
    ensures ReplaceAnchor(document, latest) == Ok(before + latest + after)
  {
    PairPositions(document, before, block, after);
    AnchorsAreMarkers();
    hide At, Marker, Cuts, Block;
    OneCut(document, ANCHOR_START);
    OneCut(document, ANCHOR_END);
    var start, end := |before|, |before| + |block| - 43;
    assert OccursOnlyAt(document, ANCHOR_START, start) && OccursOnlyAt(document, ANCHOR_END, end);
    BlockLength(block);
    FoundAt(document, ANCHOR_START, 0, start);
    FoundAt(document, ANCHOR_END, start, end);
    assert document[..start] == before && document[end + 43..] == after;
  }

  lemma BlockLength(block: string)
    requires Block(block)
    ensures |block| >= |ANCHOR_END|
  {
  }

  lemma FoundAt(text: string, pattern: string, from: nat, i: nat)
    requires OccursOnlyAt(text, pattern, i) && from <= i && from <= |text|
    ensures IndexOf(text, pattern, from) == Some(i)
  {
    hide At;
    assert At(text, pattern, i);
    AtFits(text, pattern, i);
    assert IndexOf(text, pattern, from).Some?;
  }

  /** What is accepted has one pair of markers in order, with nothing of a marker on either side. */
  lemma AcceptedHasOnePair(document: string, latest: string) returns (before: string, block: string, after: string)
    requires ReplaceAnchor(document, latest).Ok?
    ensures OnePair(document, before, block, after)
  {
    AnchorsAreMarkers();
    hide Marker, Cuts;
    OneCut(document, ANCHOR_START);
    OneCut(document, ANCHOR_END);
    var start := IndexOf(document, ANCHOR_START, 0).value;
    var end := IndexOf(document, ANCHOR_END, start).value;
    before, block, after := document[..start], document[start..end + 43], document[end + 43..];
    assert document == before + block + after;
    MarkerAhead(document, start, end);
    OccurrencesInside(document, before, block, after, start, end);
  }

  /** The start marker ends before the end marker begins. */
  lemma MarkerAhead(document: string, start: nat, end: nat)
    requires At(document, ANCHOR_START, start) && At(document, ANCHOR_END, end) && start <= end
    ensures start + |ANCHOR_START| <= end
  {
    AnchorsAreMarkers();
    CharsAt(document, ANCHOR_START, start);
    CharsAt(document, ANCHOR_END, end);
    assert document[end] == '<' && document[start + 36] == 's' && document[end + 36] == 'e';
  }

  lemma OccurrencesInside(document: string, before: string, block: string, after: string, start: nat, end: nat)
    requires start + 45 <= end && end + 43 <= |document|
    requires OccursOnlyAt(document, ANCHOR_START, start) && OccursOnlyAt(document, ANCHOR_END, end)
    requires before == document[..start] && block == document[start..end + 43] && after == document[end + 43..]
    ensures Block(block) && Clean(before) && Clean(after)
  {
    AnchorsAreMarkers();
    assert At(document, ANCHOR_START, start) && At(document, ANCHOR_END, end);
    assert block[0] == document[start..start + 45][0] && block[|block| - 1] == document[end..end + 43][42];
    assert document == before + block + after;
    hide At, Marker;
    forall i: nat
      ensures At(block, ANCHOR_START, i) <==> i == 0
      ensures At(block, ANCHOR_END, i) <==> i == |block| - 43
      ensures !At(before, ANCHOR_START, i) && !At(before, ANCHOR_END, i)
      ensures !At(after, ANCHOR_START, i) && !At(after, ANCHOR_END, i)
    {
      PartsOccur(before, block, after, ANCHOR_START, i);
      PartsOccur(before, block, after, ANCHOR_END, i);
      if i == 0 { SlicePart(document, ANCHOR_START, start, end + 43, start); }
      if i == |block| - 43 { SlicePart(document, ANCHOR_END, start, end + 43, end); }
    }
  }

  lemma SlicePart(text: string, pattern: string, from: nat, to: nat, i: nat)
    requires from <= i && i + |pattern| <= to <= |text| && At(text, pattern, i)
    ensures At(text[from..to], pattern, i - from)
  {
    var part := text[from..to];
    CharsAt(text, pattern, i);
    assert forall k :: i <= k < i + |pattern| ==> text[k] == part[k - from];
    assert forall k :: 0 <= k < |pattern| ==> pattern[k] == text[i + k];
  }

  /** An occurrence in a part is an occurrence in the whole. */
  lemma PartsOccur(before: string, middle: string, after: string, pattern: string, i: nat)
    requires Marker(pattern) && Bracketed(middle)
    ensures At(before, pattern, i) ==> At(before + middle + after, pattern, i) && i + |pattern| <= |before|
    ensures At(middle, pattern, i) ==> At(before + middle + after, pattern, |before| + i)
    ensures At(after, pattern, i) ==> At(before + middle + after, pattern, |before| + |middle| + i)
  {
  }

  // ----- main results

  /** A replaced document keeps everything outside the pair and has exactly one pair, the new block. */
  lemma ReplacedHasOnePair(document: string, latest: string) returns (before: string, block: string, after: string)
    requires Block(latest) && ReplaceAnchor(document, latest).Ok?
    ensures OnePair(document, before, block, after)
    ensures ReplaceAnchor(document, latest) == Ok(before + latest + after)
    ensures OnePair(before + latest + after, before, latest, after)
    ensures Cuts(before + latest + after, ANCHOR_START) == 1 && Cuts(before + latest + after, ANCHOR_END) == 1
  {
    hide Block, Cuts, ReplaceAnchor, OccursOnlyAt;
    before, block, after := AcceptedHasOnePair(document, latest);
    ReplacesThePair(document, before, block, after, latest);
    AnchorsAreMarkers();
    BlockLength(latest);
    PairPositions(before + latest + after, before, latest, after);
    OneCut(before + latest + after, ANCHOR_START);
    OneCut(before + latest + after, ANCHOR_END);
  }

  /** Replacing twice is replacing with the later block; with the same block, replacing again changes nothing. */
  lemma LastBlockWins(document: string, first: string, second: string)
    requires Block(first) && ReplaceAnchor(document, first).Ok?
    ensures ReplaceAnchor(ReplaceAnchor(document, first).value, second) == ReplaceAnchor(document, second)
    ensures ReplaceAnchor(ReplaceAnchor(document, first).value, first) == ReplaceAnchor(document, first)
  {
    hide Block, Cuts, ReplaceAnchor;
    var before, block, after := ReplacedHasOnePair(document, first);
    ReplacesThePair(before + first + after, before, first, after, second);
    ReplacesThePair(before + first + after, before, first, after, first);
    ReplacesThePair(document, before, block, after, second);
  }

  /** A document is accepted exactly when it has one pair of markers in order and no other marker. */
  lemma AcceptsExactlyOnePair(document: string, latest: string)
    ensures ReplaceAnchor(document, latest).Ok? <==> exists before, block, after :: OnePair(document, before, block, after)
  {
    hide ReplaceAnchor, OnePair;
    if ReplaceAnchor(document, latest).Ok? {
      var before, block, after := AcceptedHasOnePair(document, latest);
    }
    if before, block, after :| OnePair(document, before, block, after) {
      ReplacesThePair(document, before, block, after, latest);
    }
  }
}
