/**
 * The three header lines of a `tree /A` listing (src/tree.rs:142-160):
 *
 *   Folder PATH listing for volume <name>
 *   Volume serial number is <serial>
 *   <root label>
 *
 * The name and the serial are taken as `line.split(marker).collect()[1]`:
 * the text after the first occurrence of the marker, up to the next
 * occurrence of the marker or the end of the line.
 */
module Header {
  import opened Wrappers
  import opened LoadErrors

  const VolumeMarker: string := "Folder PATH listing for volume "
  const SerialMarker: string := "Volume serial number is "

  datatype TreeInfo = TreeInfo(volumeName: string, volumeSerialNumber: string, volumeTag: string)

  /** The marker `m` starts at position `j` of `s`. */
  predicate OccursAt(s: string, m: string, j: nat) {
    j + |m| <= |s| && s[j..j + |m|] == m
  }

  ghost predicate Contains(s: string, m: string) {
    exists j: nat :: OccursAt(s, m, j)
  }

  /** `m` occurs at `i` and nowhere before it. */
  ghost predicate FirstOccurrence(s: string, m: string, i: nat) {
    OccursAt(s, m, i) && forall j: nat :: j < i ==> !OccursAt(s, m, j)
  }

  /** Left-to-right search for `m` in `s`, starting at position `from`. */
  function IndexFrom(s: string, m: string, from: nat): (r: Option<nat>)
    decreases |s| - from
    ensures r.Some? ==> from <= r.value && OccursAt(s, m, r.value)
    ensures r.Some? ==> forall j: nat :: from <= j < r.value ==> !OccursAt(s, m, j)
    ensures r.None? ==> forall j: nat :: from <= j ==> !OccursAt(s, m, j)
  {
    if from + |m| > |s| then None
    else if s[from..from + |m|] == m then Some(from)
    else IndexFrom(s, m, from + 1)
  }

  /** The second piece of `s.split(m)`, or None when the split yields one piece. */
  function SplitSecond(s: string, m: string): (r: Option<string>)
    requires |m| > 0
    ensures r.Some? ==> |r.value| + |m| <= |s|
  {
    match IndexFrom(s, m, 0)
    case None => None
    case Some(i) =>
      var rest := s[i + |m|..];
      match IndexFrom(rest, m, 0)
      case None => Some(rest)
      case Some(j) => Some(rest[..j])
  }

  /**
   * `v` is the text that follows the first occurrence of `m` in `s` and
   * stops at the next occurrence of `m` or at the end of `s`.
   */
  ghost predicate SegmentAfterFirst(s: string, m: string, v: string) {
    exists i: nat :: SegmentAt(s, m, i, v)
  }

  /** `m` first occurs at `i`, and `v` runs from the end of that occurrence to the next one or to the end of `s`. */
  ghost predicate SegmentAt(s: string, m: string, i: nat, v: string) {
    FirstOccurrence(s, m, i) && i + |m| + |v| <= |s| &&
    v == s[i + |m|..i + |m| + |v|] &&
    (i + |m| + |v| == |s| || OccursAt(s, m, i + |m| + |v|)) &&
    forall j: nat :: i + |m| <= j < i + |m| + |v| ==> !OccursAt(s, m, j)
  }

  lemma OccursInSuffix(s: string, m: string, k: nat, j: nat)
    requires k <= |s|
    ensures OccursAt(s[k..], m, j) <==> OccursAt(s, m, k + j)
  {
    if k + j + |m| <= |s| {
      assert s[k..][j..j + |m|] == s[k + j..k + j + |m|];
    }
  }

  lemma FirstOccurrenceUnique(s: string, m: string, i1: nat, i2: nat)
    requires FirstOccurrence(s, m, i1) && FirstOccurrence(s, m, i2)
    ensures i1 == i2
  {
  }

  /** A split with a non-empty marker fails exactly when the marker is absent. */
  lemma {:induction false} SplitSecondNone(s: string, m: string)
    requires |m| > 0
    ensures SplitSecond(s, m).None? <==> !Contains(s, m)
  {
    if IndexFrom(s, m, 0).Some? {
      assert OccursAt(s, m, IndexFrom(s, m, 0).value);
    }
  }

  /** No marker in the first `n` positions of `s[k..]` means none at positions `k` to `k + n` of `s`. */
  lemma NoMarkerInSuffix(s: string, m: string, k: nat, n: nat)
    requires k + n <= |s| && forall j: nat :: j < n ==> !OccursAt(s[k..], m, j)
    ensures forall j: nat :: k <= j < k + n ==> !OccursAt(s, m, j)
  {
    forall j: nat | k <= j < k + n
      ensures !OccursAt(s, m, j)
    {
      OccursInSuffix(s, m, k, j - k);
    }
  }

  /** A segment of the text after the first marker, read back in the whole line. */
  lemma SegmentFromRest(s: string, m: string, i: nat, rest: string, v: string)
    requires FirstOccurrence(s, m, i) && i + |m| <= |s| && rest == s[i + |m|..]
    requires |v| <= |rest| && v == rest[..|v|]
    requires |v| == |rest| || OccursAt(rest, m, |v|)
    requires forall j: nat :: j < |v| ==> !OccursAt(rest, m, j)
    ensures SegmentAt(s, m, i, v)
  {
    NoMarkerInSuffix(s, m, i + |m|, |v|);
    OccursInSuffix(s, m, i + |m|, |v|);
  }

  /** What `split(m).collect()[1]` returns is the segment after the first marker. */
  lemma {:induction false} SplitSecondSegment(s: string, m: string)
    requires |m| > 0 && SplitSecond(s, m).Some?
    ensures SegmentAfterFirst(s, m, SplitSecond(s, m).value)
  {
    var v := SplitSecond(s, m).value;
    var i := IndexFrom(s, m, 0).value;
    var rest := s[i + |m|..];
    if IndexFrom(rest, m, 0).None? {
      assert rest[..|v|] == rest;
    }
    SegmentFromRest(s, m, i, rest, v);
  }

  /** Seen from the text after the first marker, the segment ends at the next marker. */
  lemma SegmentInRest(s: string, m: string, i: nat, v: string)
    requires SegmentAt(s, m, i, v)
    ensures var rest := s[i + |m|..];
      v == rest[..|v|] &&
      (|v| == |rest| || OccursAt(rest, m, |v|)) &&
      forall j: nat :: j < |v| ==> !OccursAt(rest, m, j)
  {
    var k := i + |m|;
    forall j: nat | j < |v|
      ensures !OccursAt(s[k..], m, j)
    {
      OccursInSuffix(s, m, k, j);
    }
    OccursInSuffix(s, m, k, |v|);
  }

  /** The segment after the first marker is unique, so it is what the split returns. */
  lemma {:induction false} SegmentIsSplitSecond(s: string, m: string, v: string)
    requires |m| > 0 && SegmentAfterFirst(s, m, v)
    ensures SplitSecond(s, m) == Some(v)
  {
    var i: nat :| SegmentAt(s, m, i, v);
    var r := IndexFrom(s, m, 0);
    assert OccursAt(s, m, i);
    FirstOccurrenceUnique(s, m, i, r.value);
    var rest := s[i + |m|..];
    SegmentInRest(s, m, i, v);
    var q := IndexFrom(rest, m, 0);
    if q.None? {
      assert !OccursAt(rest, m, |v|);
      assert rest[..|v|] == rest;
    } else {
      assert OccursAt(rest, m, q.value);
      assert q.value >= |v|;
      assert OccursAt(rest, m, |v|);
      assert q.value <= |v|;
    }
  }

  /** Both directions: the split's second piece is exactly the segment after the first marker. */
  lemma SplitSecondIsSegment(s: string, m: string, v: string)
    requires |m| > 0
    ensures SplitSecond(s, m) == Some(v) <==> SegmentAfterFirst(s, m, v)
  {
    if SplitSecond(s, m) == Some(v) {
      SplitSecondSegment(s, m);
    }
    if SegmentAfterFirst(s, m, v) {
      SegmentIsSplitSecond(s, m, v);
    }
  }

  /**
   * The header parser. Each header line is checked before the next one
   * is read, so the error reported is the first one met in this order:
   * line 1 missing, line 1 without its marker, line 2 missing, line 2
   * without its marker, line 3 missing.
   */
  function ParseHeader(lines: seq<string>): (r: Result<TreeInfo, LoadError>)
    ensures r.Ok? <==> |lines| >= 3 && Contains(lines[0], VolumeMarker) && Contains(lines[1], SerialMarker)
    ensures r.Ok? ==> SegmentAfterFirst(lines[0], VolumeMarker, r.value.volumeName)
    ensures r.Ok? ==> SegmentAfterFirst(lines[1], SerialMarker, r.value.volumeSerialNumber)
    ensures r.Ok? ==> r.value.volumeTag == lines[2]
    ensures |lines| == 0 ==> r == Err(MissingLine(1))
    ensures |lines| >= 1 && !Contains(lines[0], VolumeMarker) ==> r == Err(MissingMarker(1))
    ensures |lines| == 1 && Contains(lines[0], VolumeMarker) ==> r == Err(MissingLine(2))
    ensures |lines| >= 2 && Contains(lines[0], VolumeMarker) && !Contains(lines[1], SerialMarker)
            ==> r == Err(MissingMarker(2))
    ensures |lines| == 2 && Contains(lines[0], VolumeMarker) && Contains(lines[1], SerialMarker)
            ==> r == Err(MissingLine(3))
  {
    if |lines| == 0 then Err(MissingLine(1))
    else
      var name := SplitSecond(lines[0], VolumeMarker);
      SplitSecondNone(lines[0], VolumeMarker);
      if name.None? then Err(MissingMarker(1))
      else if |lines| == 1 then Err(MissingLine(2))
      else
        var serial := SplitSecond(lines[1], SerialMarker);
        SplitSecondNone(lines[1], SerialMarker);
        if serial.None? then Err(MissingMarker(2))
        else if |lines| == 2 then Err(MissingLine(3))
        else
          SplitSecondSegment(lines[0], VolumeMarker);
          SplitSecondSegment(lines[1], SerialMarker);
          Ok(TreeInfo(name.value, serial.value, lines[2]))
  }
}
