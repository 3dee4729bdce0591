/** The letter table: maximal runs of letters with the same script set, and the rows it is written in. */
module ScriptRanges {
  import opened Sequences

  const LAST_CODE_POINT := 0x10FFFF

  datatype Range = Range(start: nat, end: nat, bits: nat)

  /** The character data of the Unicode runtime: which scalars are letters, and the script set of a scalar. */
  datatype Data = Data(isLetter: nat -> bool, bitsOf: nat -> nat)

  predicate IsSurrogate(c: int) { 0xD800 <= c <= 0xDFFF }

  predicate Listed(data: Data, c: int) {
    0 <= c <= 0x10FFFF && !IsSurrogate(c) && data.isLetter(c)
  }

  predicate Contains(r: Range, c: int) { r.start <= c <= r.end }

  /** A letter where a new range has to start: the code point before it is no letter of the same set. */
  predicate Starts(data: Data, c: int) {
    Listed(data, c) && !(Listed(data, c - 1) && data.bitsOf(c - 1) == data.bitsOf(c))
  }

  /** A table that gives every letter its own set and every other code point no range. */
  ghost predicate Correct(data: Data, ranges: seq<Range>) {
    && (forall i :: 0 <= i < |ranges| ==> ranges[i].start <= ranges[i].end)
    && (forall i, c :: 0 <= i < |ranges| && Contains(ranges[i], c) ==> Listed(data, c) && data.bitsOf(c) == ranges[i].bits)
    && (forall c :: Listed(data, c) ==> exists i :: 0 <= i < |ranges| && Contains(ranges[i], c))
  }

  ghost predicate Ascending(ranges: seq<Range>) {
    forall i, j :: 0 <= i < j < |ranges| ==> ranges[i].end < ranges[j].start
  }

  // ----- the scan

  /** The ranges cover the letters below `limit`, each starting where one has to. */
  ghost predicate Covers(data: Data, ranges: seq<Range>, limit: nat) {
    && Ascending(ranges)
    && (forall i :: 0 <= i < |ranges| ==> ranges[i].start <= ranges[i].end < limit && Starts(data, ranges[i].start))
    && (forall i, c :: 0 <= i < |ranges| && Contains(ranges[i], c) ==> Listed(data, c) && data.bitsOf(c) == ranges[i].bits)
    && (forall c :: 0 <= c < limit && Listed(data, c) ==> exists i :: 0 <= i < |ranges| && Contains(ranges[i], c))
  }

  /** The finished ranges and the one still open. */
  ghost function WithActive(ranges: seq<Range>, start: int, end: int, bits: int): seq<Range> {
    if 0 <= start && 0 <= end && 0 <= bits then ranges + [Range(start, end, bits)] else ranges
  }

  method GenerateRanges(data: Data) returns (ranges: seq<Range>)
    ensures Correct(data, ranges) && Ascending(ranges)
    ensures forall i :: 0 <= i < |ranges| ==> Starts(data, ranges[i].start)
  {
    hide Covers, Starts, Correct;
    ranges := [];
    var activeStart, activeEnd, activeBits := -1, -1, -1;
    CoversNothing(data);
    for codePoint := 0 to LAST_CODE_POINT + 1
      invariant activeStart < 0 ==> activeStart == activeEnd == activeBits == -1 && ranges == []
      invariant 0 <= activeStart ==> 0 <= activeEnd < codePoint && 0 <= activeBits
      invariant Covers(data, WithActive(ranges, activeStart, activeEnd, activeBits), codePoint)
    {
      ghost var before := WithActive(ranges, activeStart, activeEnd, activeBits);
      if 0xD800 <= codePoint <= 0xDFFF || !data.isLetter(codePoint) {
        SkipCovers(data, before, codePoint);
        continue;
      }
      var bits := data.bitsOf(codePoint);
      if codePoint == activeEnd + 1 && bits == activeBits {
        ExtendCovers(data, ranges, Range(activeStart, activeEnd, activeBits), codePoint);
        activeEnd := codePoint;
        continue;
      }
      NewCovers(data, before, codePoint, if activeStart >= 0 then Range(activeStart, activeEnd, activeBits) else Range(0, 0, 0));
      if activeStart >= 0 { ranges := ranges + [Range(activeStart, activeEnd, activeBits)]; }
      activeStart := codePoint;
      activeEnd := codePoint;
      activeBits := bits;
    }
    if activeStart >= 0 { ranges := ranges + [Range(activeStart, activeEnd, activeBits)]; }
    CoversAll(data, ranges);
  }

  lemma CoversNothing(data: Data)
    ensures Covers(data, [], 0)
  {
  }

  lemma SkipCovers(data: Data, ranges: seq<Range>, c: nat)
    requires Covers(data, ranges, c) && !Listed(data, c)
    ensures Covers(data, ranges, c + 1)
  {
    hide Starts, Listed;
  }

  lemma ExtendCovers(data: Data, ranges: seq<Range>, active: Range, c: nat)
    requires Covers(data, ranges + [active], c) && Listed(data, c)
    requires active.end == c - 1 && active.bits == data.bitsOf(c)
    ensures Covers(data, ranges + [active.(end := c)], c + 1)
  {
    hide Starts, Listed;
    var before, after := ranges + [active], ranges + [active.(end := c)];
    assert after[|ranges|] == active.(end := c) && before[|ranges|] == active;
    assert forall i :: 0 <= i < |ranges| ==> after[i] == before[i];
    forall d | 0 <= d < c + 1 && Listed(data, d)
      ensures exists i :: 0 <= i < |after| && Contains(after[i], d)
    {
      if d == c {
        assert Contains(after[|ranges|], d);
      } else {
        var i :| 0 <= i < |before| && Contains(before[i], d);
        assert Contains(after[i], d);
      }
    }
  }

  /** A letter that does not extend the last range starts one of its own. */
  lemma NewCovers(data: Data, ranges: seq<Range>, c: nat, active: Range)
    requires Covers(data, ranges, c) && Listed(data, c)
    requires ranges != [] ==> ranges[|ranges| - 1] == active
    requires ranges != [] ==> active.end + 1 != c || active.bits != data.bitsOf(c)
    ensures Covers(data, ranges + [Range(c, c, data.bitsOf(c))], c + 1)
  {
    hide Starts, Listed;
    var after := ranges + [Range(c, c, data.bitsOf(c))];
    NewStarts(data, ranges, c);
    forall d | 0 <= d < c + 1 && Listed(data, d)
      ensures exists i :: 0 <= i < |after| && Contains(after[i], d)
    {
      if d == c {
        assert Contains(after[|ranges|], d);
      } else {
        var i :| 0 <= i < |ranges| && Contains(ranges[i], d);
        assert Contains(after[i], d);
      }
    }
  }

  lemma NewStarts(data: Data, ranges: seq<Range>, c: nat)
    requires Covers(data, ranges, c) && Listed(data, c)
    requires ranges != [] ==> ranges[|ranges| - 1].end + 1 != c || ranges[|ranges| - 1].bits != data.bitsOf(c)
    ensures Starts(data, c)
  {
    hide Starts;
    if 0 < c && Listed(data, c - 1) {
      var i :| 0 <= i < |ranges| && Contains(ranges[i], c - 1);
      LastIsNearest(ranges, i, c);
    }
    StartsMeans(data, c);
  }

  lemma LastIsNearest(ranges: seq<Range>, i: nat, c: nat)
    requires Ascending(ranges) && i < |ranges| && Contains(ranges[i], c - 1)
    requires forall j :: 0 <= j < |ranges| ==> ranges[j].start <= ranges[j].end < c
    ensures i == |ranges| - 1 && ranges[i].end + 1 == c
  {
    var last := ranges[|ranges| - 1];
    assert last.start <= last.end < c;
  }

  lemma StartsMeans(data: Data, c: int)
    ensures Starts(data, c) <==> Listed(data, c) && !(Listed(data, c - 1) && data.bitsOf(c - 1) == data.bitsOf(c))
  {
  }

  lemma CoversAll(data: Data, ranges: seq<Range>)
    requires Covers(data, ranges, LAST_CODE_POINT + 1)
    ensures Correct(data, ranges) && Ascending(ranges)
    ensures forall i :: 0 <= i < |ranges| ==> Starts(data, ranges[i].start)
  {
    hide Starts;
  }

  // ----- no correct table is shorter

  ghost function StartsOf(ranges: seq<Range>): set<nat> {
    set i | 0 <= i < |ranges| :: ranges[i].start
  }

  lemma {:induction false} StartsCount(ranges: seq<Range>)
    ensures |StartsOf(ranges)| <= |ranges|
    ensures Ascending(ranges) && (forall i :: 0 <= i < |ranges| ==> ranges[i].start <= ranges[i].end) ==> |StartsOf(ranges)| == |ranges|
  {
    if ranges != [] {
      var before, last := ranges[..|ranges| - 1], ranges[|ranges| - 1];
      StartsCount(before);
      assert StartsOf(ranges) == StartsOf(before) + {last.start};
    }
  }

  /** In any correct table a range starts wherever one has to. */
  lemma StartsAreForced(data: Data, ranges: seq<Range>, c: nat)
    requires Correct(data, ranges) && Starts(data, c)
    ensures c in StartsOf(ranges)
  {
  }

  lemma SubsetCount(a: set<nat>, b: set<nat>)
    requires a <= b
    ensures |a| <= |b|
  {
    assert b == a + (b - a);
  }

  /** The table whose ranges start only where one has to is no longer than any correct table. */
  lemma NoCorrectTableIsShorter(data: Data, ranges: seq<Range>, other: seq<Range>)
    requires Correct(data, ranges) && Ascending(ranges) && forall i :: 0 <= i < |ranges| ==> Starts(data, ranges[i].start)
    requires Correct(data, other)
    ensures |ranges| <= |other|
  {
    StartsCount(ranges);
    StartsCount(other);
    forall c | c in StartsOf(ranges)
      ensures c in StartsOf(other)
    {
      StartsAreForced(data, other, c);
    }
    SubsetCount(StartsOf(ranges), StartsOf(other));
  }

  // ----- the emitted rows

  const ROW := 12

  function Flat(ranges: seq<Range>): (numbers: seq<nat>)
    ensures |numbers| == 3 * |ranges|
    ensures forall i :: 0 <= i < |ranges| ==>
      numbers[3 * i] == ranges[i].start && numbers[3 * i + 1] == ranges[i].end && numbers[3 * i + 2] == ranges[i].bits
  {
    if ranges == [] then []
    else
      var last := ranges[|ranges| - 1];
      Flat(ranges[..|ranges| - 1]) + [last.start, last.end, last.bits]
  }

  /** The rows of a list: row `k` holds the numbers from 12k on, at most twelve. */
  function Rows(numbers: seq<nat>): seq<seq<nat>> {
    seq((|numbers| + ROW - 1) / ROW, index requires 0 <= index => Slice(numbers, index * ROW, index * ROW + ROW))
  }

  function Joined(rows: seq<seq<nat>>): seq<nat> {
    if rows == [] then [] else Joined(rows[..|rows| - 1]) + rows[|rows| - 1]
  }

  /** Reading a flat list back in triples. */
  function InTriples(numbers: seq<nat>): seq<Range> {
    if |numbers| < 3 then []
    else
      var n := |numbers| - 3;
      InTriples(numbers[..n]) + [Range(numbers[n], numbers[n + 1], numbers[n + 2])]
  }

  lemma {:induction false} RowsJoin(numbers: seq<nat>, k: nat)
    requires k <= |Rows(numbers)|
    ensures Joined(Rows(numbers)[..k]) == Slice(numbers, 0, k * ROW)
  {
    var rows := Rows(numbers);
    if k > 0 {
      RowsJoin(numbers, k - 1);
      assert rows[..k][..k - 1] == rows[..k - 1];
      assert rows[..k][k - 1] == Slice(numbers, (k - 1) * ROW, (k - 1) * ROW + ROW);
      assert Slice(numbers, 0, k * ROW) == Slice(numbers, 0, (k - 1) * ROW) + Slice(numbers, (k - 1) * ROW, (k - 1) * ROW + ROW);
    }
  }

  lemma {:induction false} TriplesReadBack(ranges: seq<Range>)
    ensures InTriples(Flat(ranges)) == ranges
  {
    if ranges != [] {
      var before, last := ranges[..|ranges| - 1], ranges[|ranges| - 1];
      TriplesReadBack(before);
      var numbers := Flat(ranges);
      assert numbers[..|numbers| - 3] == Flat(before);
      assert ranges == before + [last];
    }
  }

  /** The emitted rows, put end to end and read in triples, are the ranges; no row is longer than twelve. */
  lemma EmittedRowsReadBack(ranges: seq<Range>)
    ensures InTriples(Joined(Rows(Flat(ranges)))) == ranges
    ensures
      var rows := Rows(Flat(ranges));
      forall k :: 0 <= k < |rows| ==> 0 < |rows[k]| <= 12 && (k < |rows| - 1 ==> |rows[k]| == 12)
  {
    hide Flat, InTriples, Joined;
    var numbers := Flat(ranges);
    var rows := Rows(numbers);
    RowsJoin(numbers, |rows|);
    assert rows[..|rows|] == rows;
    WholeSlice(numbers);
    TriplesReadBack(ranges);
  }

  lemma WholeSlice(numbers: seq<nat>)
    ensures Slice(numbers, 0, |Rows(numbers)| * ROW) == numbers
    ensures forall k :: 0 <= k < |Rows(numbers)| ==>
      0 < |Rows(numbers)[k]| <= ROW && (k < |Rows(numbers)| - 1 ==> |Rows(numbers)[k]| == ROW)
  {
  }
}
