/**
 * The version ledger of lib/track_changes.rb: a history of submitted versions
 * and an ordered list of attribution segments, as the code is written. The
 * per-type merge of version segments into the ledger is empty in the source,
 * so a submission onto a non-empty ledger only consumes segments from its head.
 * A submission onto an empty ledger (the first, and from then on every
 * odd-numbered one) installs one SAME segment without diffing.
 */
module TrackChanges {
  import opened Wrappers
  import opened Sequences

  /** Tags a segment's `type` field can hold: the three Segment constants, and
      the diff library's own tag for an unchanged run, which is copied unchanged. */
  datatype Kind = Same | Insert | Delete | Equal

  /** The tags a diff operation carries. */
  type DiffKind = k: Kind | k != Same witness Equal

  /** One operation of the external diff: its tag and the text it covers. */
  datatype Diff = Diff(kind: DiffKind, text: string)

  /** An immutable snapshot: the submitted text and the caller's payload. */
  datatype Version<T> = Version(text: string, payload: T)

  /** An attribution span. `deletedText` is present only for removals. */
  datatype Segment<T> = Segment(kind: Kind, version: Version<T>, length: nat, deletedText: Option<string>)

  /** What `accumulate_segments` gives back: nil after installing the first
      segment, the version segments after a merge, or the MalformedSegments raise. */
  datatype Accumulation<T> = Installed | Merged(versionSegments: seq<Segment<T>>) | Malformed

  /** The outcome of `add_version`: it completes, or MalformedSegments escapes. */
  datatype Outcome = Added | MalformedSegments

  // ---------------------------------------------------------------------------
  // The diff collaborator's contract

  /** The text an operation list reads from: unchanged and removed runs. */
  function OldText(diff: seq<Diff>): string
  {
    if diff == [] then []
    else (if diff[0].kind != Insert then diff[0].text else []) + OldText(diff[1..])
  }

  /** The text an operation list produces: unchanged and inserted runs. */
  function NewText(diff: seq<Diff>): string
  {
    if diff == [] then []
    else (if diff[0].kind != Delete then diff[0].text else []) + NewText(diff[1..])
  }

  /** `diff` describes the change from `from` to `to`. */
  predicate IsDiff(diff: seq<Diff>, from: string, to: string)
  {
    OldText(diff) == from && NewText(diff) == to
  }

  // ---------------------------------------------------------------------------
  // Segments

  /** The segment the first submission installs: unchanged text of the whole version. */
  function SameSegment<T>(v: Version<T>): (s: Segment<T>)
    ensures s.kind == Same && s.version == v && s.deletedText == None
    ensures s.length == |v.text|
  {
    Segment(Same, v, |v.text|, None)
  }

  /** One diff operation turned into a segment owned by `to`: a removal keeps
      its text verbatim and takes no room in the new text. */
  function SegmentOf<T>(op: Diff, to: Version<T>): (s: Segment<T>)
    ensures s.kind == op.kind && s.version == to
    ensures op.kind == Delete ==> s.length == 0 && s.deletedText == Some(op.text)
    ensures op.kind != Delete ==> s.length == |op.text| && s.deletedText == None
  {
    if op.kind == Delete then Segment(op.kind, to, 0, Some(op.text))
    else Segment(op.kind, to, |op.text|, None)
  }

  /** `segments_from_diff`: the left fold that appends one segment per operation. */
  function SegmentsFromDiff<T>(diff: seq<Diff>, to: Version<T>): (r: seq<Segment<T>>)
    ensures |r| == |diff|
    ensures forall i :: 0 <= i < |diff| ==> r[i] == SegmentOf(diff[i], to)
  {
    if diff == [] then []
    else SegmentsFromDiff(diff[..|diff| - 1], to) + [SegmentOf(diff[|diff| - 1], to)]
  }

  /** How much of the current text a segment list covers. */
  function LiveLength<T>(segs: seq<Segment<T>>): nat
  {
    if segs == [] then 0 else segs[0].length + LiveLength(segs[1..])
  }

  /** How much of the previous text a list of version segments accounts for:
      unchanged runs by length, removals by their retained text. */
  function PriorLength<T>(segs: seq<Segment<T>>): nat
  {
    if segs == [] then 0
    else
      var s := segs[0];
      var here := if s.kind == Equal then s.length
                  else if s.kind == Delete && s.deletedText.Some? then |s.deletedText.value|
                  else 0;
      here + PriorLength(segs[1..])
  }

  /** The version segments of a diff cover the new text exactly, and their
      unchanged runs and retained removals cover the previous text exactly. */
  lemma {:induction false} DiffSegmentsSpanTexts<T>(diff: seq<Diff>, to: Version<T>)
    ensures LiveLength(SegmentsFromDiff(diff, to)) == |NewText(diff)|
    ensures PriorLength(SegmentsFromDiff(diff, to)) == |OldText(diff)|
  {
    if diff != [] {
      var segs := SegmentsFromDiff(diff, to);
      assert segs[1..] == SegmentsFromDiff(diff[1..], to);
      DiffSegmentsSpanTexts(diff[1..], to);
    }
  }

  /** For a diff from `from` to `to.text`: the lengths match both texts. */
  lemma DiffSegmentsMatchVersions<T>(diff: seq<Diff>, from: string, to: Version<T>)
    requires IsDiff(diff, from, to.text)
    ensures LiveLength(SegmentsFromDiff(diff, to)) == |to.text|
    ensures PriorLength(SegmentsFromDiff(diff, to)) == |from|
  {
    DiffSegmentsSpanTexts(diff, to);
  }

  // ---------------------------------------------------------------------------
  // The ledger update as written

  /** The number of DELETE segments at the head of `segs`: what the flush loop drains. */
  function LeadingDeletes<T>(segs: seq<Segment<T>>): (k: nat)
    ensures k <= |segs|
    ensures forall i :: 0 <= i < k ==> segs[i].kind == Delete
    ensures k < |segs| ==> segs[k].kind != Delete
  {
    if segs == [] || segs[0].kind != Delete then 0 else 1 + LeadingDeletes(segs[1..])
  }

  /** What `accumulate_segments` returns and the ledger it leaves, given the
      ledger before the call, the new version and the diff from the previous one. */
  function Accumulate<T>(segs: seq<Segment<T>>, v: Version<T>, diff: seq<Diff>): (r: (Accumulation<T>, seq<Segment<T>>))
    ensures segs == [] ==> r.0 == Installed && r.1 == [SameSegment(v)]
    ensures r.0.Installed? <==> segs == []
    ensures segs != [] ==> |r.1| < |segs| && r.1 == segs[|segs| - |r.1|..]
    ensures r.0.Malformed? <==> segs != [] && diff != [] && forall i :: 0 <= i < |segs| ==> segs[i].kind == Delete
    ensures r.0.Malformed? ==> r.1 == []
    ensures r.0.Merged? ==> r.0.versionSegments == SegmentsFromDiff(diff, v)
    ensures r.0.Merged? && diff == [] ==> r.1 == segs[1..]
    ensures r.0.Merged? && diff != [] ==>
      var gone := |segs| - |r.1|;
      (forall i :: 0 <= i < gone - 1 ==> segs[i].kind == Delete) && segs[gone - 1].kind != Delete
  {
    if segs == [] then (Installed, [SameSegment(v)])
    else if diff == [] then (Merged(SegmentsFromDiff(diff, v)), segs[1..])
    else
      var k := LeadingDeletes(segs);
      if k == |segs| then (Malformed, [])
      else (Merged(SegmentsFromDiff(diff, v)), segs[k + 1..])
  }

  /**
   * `Tracker`: the version history and the segment ledger, both updated in place.
   * The payload type is opaque; equality on it is needed because
   * `next_segment_with_length` compares segments.
   */
  class Tracker<T(==)> {
    var versions: seq<Version<T>>
    var segments: seq<Segment<T>>

    /** A non-empty ledger always has a version to diff against. */
    ghost predicate Valid()
      reads this
    {
      segments != [] ==> versions != []
    }

    /** The states the public interface produces: the ledger alternates between
        empty and a single SAME segment for the latest version. */
    ghost predicate Reachable()
      reads this
    {
      && |segments| == |versions| % 2
      && (segments != [] ==> segments == [SameSegment(versions[|versions| - 1])])
    }

    constructor ()
      ensures versions == [] && segments == []
      ensures Valid() && Reachable()
    {
      versions := [];
      segments := [];
    }

    /** `add_version`: update the ledger against the previous version, then
        append the new version unless the update raised. */
    method AddVersion(text: string, payload: T, diff: seq<Diff>) returns (outcome: Outcome)
      requires Valid()
      requires segments != [] ==> IsDiff(diff, versions[|versions| - 1].text, text)
      modifies this
      ensures Valid()
      ensures outcome == Added ==> versions == old(versions) + [Version(text, payload)]
      ensures outcome == MalformedSegments ==> versions == old(versions)
      ensures outcome == MalformedSegments <==> Accumulate(old(segments), Version(text, payload), diff).0.Malformed?
      ensures segments == Accumulate(old(segments), Version(text, payload), diff).1
      ensures old(Reachable()) ==> outcome == Added && Reachable()
    {
      var version := Version(text, payload);
      var acc := AccumulateSegments(version, diff);
      if acc.Malformed? {
        return MalformedSegments;
      }
      versions := versions + [version];
      outcome := Added;
    }

    /** `accumulate_segments`: install the first segment, or diff against the
        last version and run the merge loop, whose per-type branches are empty. */
    method AccumulateSegments(version: Version<T>, diff: seq<Diff>) returns (r: Accumulation<T>)
      requires Valid()
      requires segments != [] ==> IsDiff(diff, versions[|versions| - 1].text, version.text)
      modifies this
      ensures versions == old(versions)
      ensures (r, segments) == Accumulate(old(segments), version, diff)
      ensures r.Merged? ==> LiveLength(r.versionSegments) == |version.text|
    {
      if segments == [] {
        AddSameSegment(version);
        assert segments == [SameSegment(version)];
        return Installed;
      }
      var versionSegments := SegmentsFromDiff(diff, version);
      DiffSegmentsMatchVersions(diff, versions[|versions| - 1].text, version);

      ghost var segs := segments;
      ghost var k := LeadingDeletes(segs);
      var newSegments: seq<Segment<T>> := [];
      var segment := segments[0];
      segments := segments[1..];
      for i := 0 to |versionSegments|
        invariant versions == old(versions)
        invariant i == 0 ==> segment == segs[0] && segments == segs[1..] && newSegments == []
        invariant i > 0 ==> k < |segs| && segment == segs[k] && segments == segs[k + 1..] && newSegments == segs[..k]
      {
        // Copy over any previous deletes.
        ConsDrop(segs, if i == 0 then 0 else k);
        var flushed, next := Flush(segment);
        newSegments := newSegments + flushed;
        if next.None? {
          assert i == 0 && k == |segs| && segments == [];
          return Malformed;
        }
        segment := next.value;
        // The SAME, INSERT and DELETE cases of the source are empty here.
      }
      // `newSegments` is never stored back into the ledger.
      assert segments == (if diff == [] then segs[1..] else segs[k + 1..]);
      r := Merged(versionSegments);
    }

    /** The flush loop: move DELETE segments from the head of the ledger into
        `flushed`, stopping at the first other segment, or at `None` when the
        ledger runs out. */
    method Flush(cursor: Segment<T>) returns (flushed: seq<Segment<T>>, next: Option<Segment<T>>)
      modifies this`segments
      ensures var whole := [cursor] + old(segments);
              var k := LeadingDeletes(whole);
              && flushed == whole[..k]
              && (k < |whole| ==> next == Some(whole[k]) && segments == whole[k + 1..])
              && (k == |whole| ==> next == None && segments == [])
    {
      ghost var whole := [cursor] + segments;
      ghost var j := 0;
      flushed := [];
      var segment := Some(cursor);
      while segment.Some? && segment.value.kind == Delete
        invariant 0 <= j <= |whole|
        invariant flushed == whole[..j]
        invariant forall i :: 0 <= i < j ==> whole[i].kind == Delete
        invariant j < |whole| ==> segment == Some(whole[j]) && segments == whole[j + 1..]
        invariant j == |whole| ==> segment == None && segments == []
        decreases |whole| - j
      {
        TakeNext(whole, j);
        flushed := flushed + [segment.value];
        if segments == [] {
          segment := None;
        } else {
          segment := Some(segments[0]);
          segments := segments[1..];
        }
        j := j + 1;
      }
      next := segment;
    }

    /** `next_segment_with_length`: the first segment of positive length after
        the first occurrence of `after`, or none. */
    method NextSegmentWithLength(after: Option<Segment<T>>) returns (r: Option<Segment<T>>)
      ensures r.Some? ==>
        && after.Some? && after.value in segments
        && r.value.length > 0
        && exists j :: IndexOf(segments, after.value) < j < |segments| && segments[j] == r.value
             && forall m :: IndexOf(segments, after.value) < m < j ==> segments[m].length == 0
      ensures r.None? <==>
        || after.None? || after.value !in segments
        || forall m :: IndexOf(segments, after.value) < m < |segments| ==> segments[m].length == 0
    {
      var found := false;
      var i := 0;
      while i < |segments|
        invariant 0 <= i <= |segments|
        invariant found <==> after.Some? && after.value in segments[..i]
        invariant found ==> IndexOf(segments, after.value) < i
        invariant found ==> forall m :: IndexOf(segments, after.value) < m < i ==> segments[m].length == 0
      {
        var segment := segments[i];
        if !found {
          if after == Some(segment) {
            found := true;
            IndexOfFirst(segments, segment, i);
          }
        } else if segment.length > 0 {
          return Some(segment);
        }
        i := i + 1;
      }
      assert segments[..i] == segments;
      return None;
    }

    /** `add_same_segment`: append one SAME segment spanning the version's text. */
    method AddSameSegment(version: Version<T>)
      modifies this`segments
      ensures segments == old(segments) + [SameSegment(version)]
    {
      segments := segments + [Segment(Same, version, |version.text|, None)];
    }
  }

  /** The position of the first occurrence of `x` in `s`, or `|s|` if absent. */
  function IndexOf<X(==)>(s: seq<X>, x: X): (k: nat)
    ensures k <= |s|
    ensures k < |s| <==> x in s
    ensures k < |s| ==> s[k] == x
    ensures forall i :: 0 <= i < k ==> s[i] != x
  {
    if s == [] then 0 else if s[0] == x then 0 else 1 + IndexOf(s[1..], x)
  }

  lemma IndexOfFirst<X>(s: seq<X>, x: X, i: nat)
    requires i < |s| && s[i] == x && x !in s[..i]
    ensures IndexOf(s, x) == i
  {
  }
}
