/** `highlightDiff` of src/LogProvider.tsx: render the current playlist
    with the segments that are new since the previous playlist wrapped in
    `<b>`...`</b>`, and the media-sequence and discontinuity-sequence
    values bolded when their bases changed. */
module Highlight {
  import opened Wrappers
  import opened Text
  import opened Hls

  const MediaSequenceDirective: string := "#EXT-X-MEDIA-SEQUENCE:"
  const DiscontinuitySequenceDirective: string := "#EXT-X-DISCONTINUITY-SEQUENCE:"

  /** What aborts the formatting pass: a manifest body the parser rejects,
      or a Media playlist without segments, whose missing last segment is
      dereferenced (a `TypeError` in the source). */
  datatype Error = Unparsable(text: string) | NoSegments

  /** The line of `Lines(p)` that gets the `<b>` prefix: the first line of
      segment `|segments| - diff`, when that is a segment index. */
  function OpenAt(p: Playlist, diff: int): int
    requires p.Media?
  {
    var n := |p.segments|;
    if 0 <= n - diff < n then SegmentStart(p, n - diff) else -1
  }

  /** The line that gets the `</b>` suffix: the last line of the last
      segment. */
  function CloseAt(p: Playlist): int
    requires p.Media?
  {
    var n := |p.segments|;
    if n > 0 then SegmentStart(p, n) - 1 else -1
  }

  /** The serialisation of `p` as the segment hook leaves it: every line as
      it is, except the opening and the closing marker lines. */
  function MarkedLines(p: Playlist, diff: int): (ls: seq<string>)
    requires p.Media?
    ensures |ls| == |Lines(p)|
  {
    var plain := Lines(p);
    var open, close := OpenAt(p, diff), CloseAt(p);
    seq(|plain|, k requires 0 <= k < |plain| => Mark(plain[k], k == open, k == close))
  }

  /** A line with the markers it gets. */
  function Mark(line: string, open: bool, close: bool): string
  {
    (if open then "<b>" else "") + line + (if close then "</b>" else "")
  }

  lemma MarkedAt(p: Playlist, diff: int, k: nat)
    requires p.Media? && k < |Lines(p)|
    ensures MarkedLines(p, diff)[k] == Mark(Lines(p)[k], k == OpenAt(p, diff), k == CloseAt(p))
  {
  }

  /** The `segmentProcessor` closure: called for segment `i` of `n` with
      the serialiser's line buffer and the segment's first and last line
      indices; prefixes the first line of segment `n - diff` and suffixes
      the last line of segment `n - 1`. */
  method SegmentProcessor(lines: array<string>, start: nat, end: nat, i: nat, n: nat, diff: int)
    requires start <= end < lines.Length
    modifies lines
    ensures forall k :: 0 <= k < lines.Length ==>
              lines[k] == (if k == start && i == n - diff then "<b>" else "")
                          + old(lines[k])
                          + (if k == end && i == n - 1 then "</b>" else "")
  {
    if i == n - diff {
      lines[start] := "<b>" + lines[start];
    }
    if i == n - 1 {
      lines[end] := lines[end] + "</b>";
    }
  }

  /** `stringify(playlist, {segmentProcessor})`: lay out the playlist's
      lines, hand each segment's line range to the hook in segment order,
      and join the result. */
  method StringifyWithProcessor(p: Playlist, diff: int) returns (txt: string)
    requires p.Media?
    ensures txt == Join(MarkedLines(p, diff))
  {
    var plain := Lines(p);
    ghost var marked := MarkedLines(p, diff);
    var lines := new string[|plain|](k requires 0 <= k < |plain| => plain[k]);
    var n := |p.segments|;
    var i := 0;
    var start := |Header(p)|;
    MarkedFrame(p, diff);
    assert p.segments[..0] == [];
    while i < n
      invariant 0 <= i <= n
      invariant start == SegmentStart(p, i) <= |plain|
      invariant forall k :: 0 <= k < start ==> lines[k] == marked[k]
      invariant forall k :: start <= k < lines.Length ==> lines[k] == plain[k]
    {
      start := ProcessSegment(lines, p, diff, i, start);
      i := i + 1;
    }
    forall k | start <= k < lines.Length
      ensures lines[k] == marked[k]
    {
      MarkedAfterSegments(p, diff, k);
    }
    assert lines[..] == marked;
    txt := Join(lines[..]);
  }

  /** The hook's call for segment `i`, whose lines start at `start`: it
      marks that segment's lines and returns where the next one starts. */
  method ProcessSegment(lines: array<string>, p: Playlist, diff: int, i: nat, start: nat) returns (next: nat)
    requires p.Media? && i < |p.segments| && start == SegmentStart(p, i)
    requires start <= lines.Length == |Lines(p)|
    requires forall k :: start <= k < lines.Length ==> lines[k] == Lines(p)[k]
    modifies lines
    ensures next == SegmentStart(p, i + 1) <= lines.Length
    ensures forall k :: 0 <= k < start ==> lines[k] == old(lines[k])
    ensures forall k :: start <= k < next ==> lines[k] == MarkedLines(p, diff)[k]
    ensures forall k :: next <= k < lines.Length ==> lines[k] == Lines(p)[k]
  {
    SegmentStartStep(p, i);
    var end := start + |p.segments[i].lines| - 1;
    SegmentProcessor(lines, start, end, i, |p.segments|, diff);
    forall k | start <= k <= end
      ensures lines[k] == MarkedLines(p, diff)[k]
    {
      MarkedInSegment(p, diff, i, k);
    }
    next := end + 1;
  }

  lemma MarkedInSegment(p: Playlist, diff: int, i: nat, k: nat)
    requires p.Media? && i < |p.segments|
    requires SegmentStart(p, i) <= k < SegmentStart(p, i + 1) <= |Lines(p)|
    ensures MarkedLines(p, diff)[k]
              == Mark(Lines(p)[k], k == SegmentStart(p, i) && i == |p.segments| - diff,
                      k == SegmentStart(p, i + 1) - 1 && i == |p.segments| - 1)
  {
    SegmentMarkers(p, diff, i, k);
  }

  lemma MarkedAfterSegments(p: Playlist, diff: int, k: nat)
    requires p.Media? && SegmentStart(p, |p.segments|) <= k < |Lines(p)|
    ensures MarkedLines(p, diff)[k] == Lines(p)[k]
  {
    MarkersWithinSegments(p, diff);
  }

  /** Inside segment `i`, the opening marker sits on the segment's first
      line exactly when `i == n - diff`, and the closing marker on its last
      line exactly when `i == n - 1`. */
  lemma SegmentMarkers(p: Playlist, diff: int, i: nat, k: int)
    requires p.Media? && i < |p.segments|
    requires SegmentStart(p, i) <= k < SegmentStart(p, i + 1)
    ensures k == OpenAt(p, diff) <==> (k == SegmentStart(p, i) && i == |p.segments| - diff)
    ensures k == CloseAt(p) <==> (k == SegmentStart(p, i + 1) - 1 && i == |p.segments| - 1)
  {
    OpenMarker(p, diff, i, k);
    CloseMarker(p, i, k);
  }

  lemma OpenMarker(p: Playlist, diff: int, i: nat, k: int)
    requires p.Media? && i < |p.segments|
    requires SegmentStart(p, i) <= k < SegmentStart(p, i + 1)
    ensures k == OpenAt(p, diff) <==> (k == SegmentStart(p, i) && i == |p.segments| - diff)
  {
    var n := |p.segments|;
    var j := n - diff;
    if 0 <= j < n && j != i {
      if j < i {
        SegmentStartMonotone(p, j + 1, i);
        SegmentStartStep(p, j);
      } else {
        SegmentStartMonotone(p, i + 1, j);
      }
    }
  }

  lemma CloseMarker(p: Playlist, i: nat, k: int)
    requires p.Media? && i < |p.segments|
    requires SegmentStart(p, i) <= k < SegmentStart(p, i + 1)
    ensures k == CloseAt(p) <==> (k == SegmentStart(p, i + 1) - 1 && i == |p.segments| - 1)
  {
    var n := |p.segments|;
    if i < n - 1 {
      SegmentStartMonotone(p, i + 1, n - 1);
      SegmentStartStep(p, n - 1);
    }
  }

  /** The hook's effect seen segment by segment: line `t` of segment `i`
      is the segment's own line, with `<b>` in front when it is the first
      line of segment `n - diff` and `</b>` behind when it is the last line
      of the last segment. */
  lemma {:induction false} MarkedSegmentLine(p: Playlist, diff: int, i: nat, t: nat)
    requires p.Media? && i < |p.segments| && t < |p.segments[i].lines|
    ensures SegmentStart(p, i) + t < |MarkedLines(p, diff)|
    ensures var n := |p.segments|;
            var seg := p.segments[i].lines;
            MarkedLines(p, diff)[SegmentStart(p, i) + t]
              == (if t == 0 && i == n - diff then "<b>" else "") + seg[t]
                 + (if t == |seg| - 1 && i == n - 1 then "</b>" else "")
  {
    var k := SegmentStart(p, i) + t;
    var seg := p.segments[i].lines;
    SegmentStartStep(p, i);
    assert Lines(p)[k] == seg[t];
    SegmentMarkers(p, diff, i, k);
    MarkedAt(p, diff, k);
  }

  /** Both markers, when present, fall on segment lines: after the header
      and before the trailer. */
  lemma MarkersWithinSegments(p: Playlist, diff: int)
    requires p.Media?
    ensures |Header(p)| <= SegmentStart(p, |p.segments|)
    ensures OpenAt(p, diff) == -1 || |Header(p)| <= OpenAt(p, diff) < SegmentStart(p, |p.segments|)
    ensures CloseAt(p) == -1 || |Header(p)| <= CloseAt(p) < SegmentStart(p, |p.segments|)
  {
    var n := |p.segments|;
    assert p.segments[..0] == [];
    assert SegmentStart(p, 0) == |Header(p)|;
    SegmentStartMonotone(p, 0, n);
    if 0 <= n - diff < n {
      SegmentStartMonotone(p, 0, n - diff);
      SegmentStartMonotone(p, n - diff, n);
    }
  }

  /** The header and trailer lines are never marked. */
  lemma MarkedFrame(p: Playlist, diff: int)
    requires p.Media?
    ensures |Header(p)| <= SegmentStart(p, |p.segments|)
    ensures SegmentStart(p, |p.segments|) + |p.trailer| == |MarkedLines(p, diff)|
    ensures forall k :: 0 <= k < |Header(p)| ==> MarkedLines(p, diff)[k] == Header(p)[k]
    ensures forall t :: 0 <= t < |p.trailer| ==>
              MarkedLines(p, diff)[SegmentStart(p, |p.segments|) + t] == p.trailer[t]
  {
    MarkersWithinSegments(p, diff);
    SegmentsEnd(p);
  }

  /** Media sequence numbers that go up by one from segment to segment. */
  predicate Consecutive(segs: seq<Segment>)
  {
    forall i :: 0 < i < |segs| ==> segs[i].mediaSequenceNumber == segs[i - 1].mediaSequenceNumber + 1
  }

  lemma {:induction false} ConsecutiveFromLast(segs: seq<Segment>, i: nat)
    requires Consecutive(segs) && i < |segs|
    ensures segs[i].mediaSequenceNumber + (|segs| - 1 - i) == segs[|segs| - 1].mediaSequenceNumber
    decreases |segs| - i
  {
    if i < |segs| - 1 {
      ConsecutiveFromLast(segs, i + 1);
    }
  }

  /** The difference of the last media sequence numbers. */
  function Diff(prev: Playlist, curr: Playlist): (d: int)
    requires prev.Media? && curr.Media? && |prev.segments| > 0 && |curr.segments| > 0
    ensures prev.segments[|prev.segments| - 1].mediaSequenceNumber + d
            == curr.segments[|curr.segments| - 1].mediaSequenceNumber
  {
    curr.segments[|curr.segments| - 1].mediaSequenceNumber
      - prev.segments[|prev.segments| - 1].mediaSequenceNumber
  }

  /** When the current playlist numbers its segments consecutively, the
      segments from index `n - diff` on, the ones the markers enclose, are
      exactly those whose media sequence number is past the previous
      playlist's last one: the segments added since. */
  lemma MarkedSegmentsAreNew(prev: Playlist, curr: Playlist, i: nat)
    requires prev.Media? && curr.Media? && |prev.segments| > 0 && |curr.segments| > 0
    requires Consecutive(curr.segments) && i < |curr.segments|
    ensures curr.segments[i].mediaSequenceNumber > prev.segments[|prev.segments| - 1].mediaSequenceNumber
            <==> i >= |curr.segments| - Diff(prev, curr)
  {
    ConsecutiveFromLast(curr.segments, i);
  }

  /** The text `stringify` produces with the segment hook (line 174). */
  function MarkedText(prev: Playlist, curr: Playlist): (txt: string)
    requires prev.Media? && curr.Media? && |prev.segments| > 0 && |curr.segments| > 0
    ensures |txt| > 0
  {
    var ls := MarkedLines(curr, Diff(prev, curr));
    MarkedFrame(curr, Diff(prev, curr));
    JoinStartsWithFirst(ls);
    assert ls[0] == "#EXTM3U";
    Join(ls)
  }

  /** The text after the media-sequence substitution (lines 175-177). */
  function WithMediaSequence(prev: Playlist, curr: Playlist): (txt: string)
    requires prev.Media? && curr.Media? && |prev.segments| > 0 && |curr.segments| > 0
    ensures |txt| > 0
  {
    var marked := MarkedText(prev, curr);
    if prev.mediaSequenceBase != curr.mediaSequenceBase
    then
      ReplaceKeepsNonEmpty(marked, MediaSequenceDirective, Decimal(curr.mediaSequenceBase));
      ReplaceDirective(marked, MediaSequenceDirective, Decimal(curr.mediaSequenceBase))
    else marked
  }

  /** `highlightDiff(prev, curr)`: a Master playlist on either side is
      serialised plainly; a Media playlist without segments aborts; anything
      else is the marked text after both substitutions. */
  function HighlightDiffSpec(prev: Playlist, curr: Playlist): Result<string, Error>
  {
    if prev.Master? || curr.Master? then Ok(Stringify(curr))
    else if |curr.segments| == 0 || |prev.segments| == 0 then Err(NoSegments)
    else
      var withMedia := WithMediaSequence(prev, curr);
      if prev.discontinuitySequenceBase != curr.discontinuitySequenceBase
      then Ok(ReplaceDirective(withMedia, DiscontinuitySequenceDirective, Decimal(curr.discontinuitySequenceBase)))
      else Ok(withMedia)
  }

  /** A master playlist on either side is shown as it is; two media
      playlists fail exactly when one has no segments, with `NoSegments`;
      a successful result is never empty. */
  lemma HighlightDiffCases(prev: Playlist, curr: Playlist)
    ensures var r := HighlightDiffSpec(prev, curr);
            && (prev.Master? || curr.Master? ==> r == Ok(Stringify(curr)))
            && (r.Err? <==> prev.Media? && curr.Media? && (|prev.segments| == 0 || |curr.segments| == 0))
            && (r.Err? ==> r.error == NoSegments)
            && (r.Ok? ==> |r.value| > 0)
  {
    StringifyNonEmpty(curr);
    if prev.Media? && curr.Media? && |prev.segments| > 0 && |curr.segments| > 0
       && prev.discontinuitySequenceBase != curr.discontinuitySequenceBase {
      var withMedia := WithMediaSequence(prev, curr);
      ReplaceKeepsNonEmpty(withMedia, DiscontinuitySequenceDirective, Decimal(curr.discontinuitySequenceBase));
    }
  }

  method HighlightDiff(prev: Playlist, curr: Playlist) returns (r: Result<string, Error>)
    ensures r == HighlightDiffSpec(prev, curr)
  {
    if prev.Master? || curr.Master? {
      return Ok(Stringify(curr));
    }
    if |curr.segments| == 0 || |prev.segments| == 0 {
      return Err(NoSegments);
    }
    var diff := curr.segments[|curr.segments| - 1].mediaSequenceNumber
                - prev.segments[|prev.segments| - 1].mediaSequenceNumber;
    assert diff == Diff(prev, curr);
    var txt := StringifyWithProcessor(curr, diff);
    ghost var marked := txt;
    if prev.mediaSequenceBase != curr.mediaSequenceBase {
      txt := ReplaceDirective(txt, MediaSequenceDirective, Decimal(curr.mediaSequenceBase));
    }
    ghost var withMedia := txt;
    if prev.discontinuitySequenceBase != curr.discontinuitySequenceBase {
      txt := ReplaceDirective(txt, DiscontinuitySequenceDirective, Decimal(curr.discontinuitySequenceBase));
    }
    assert marked == MarkedText(prev, curr);
    assert withMedia == WithMediaSequence(prev, curr);
    return Ok(txt);
  }

  /** Lines 175-177: with an unchanged media-sequence base, or without an
      `#EXT-X-MEDIA-SEQUENCE:` in the marked text, the text is left as it
      is. Otherwise the text up to the end of the directive's first
      occurrence is kept, the bold new base follows, and the text resumes
      at the end of that line. */
  lemma MediaSequenceBolded(prev: Playlist, curr: Playlist)
    requires prev.Media? && curr.Media? && |prev.segments| > 0 && |curr.segments| > 0
    ensures var marked, r := MarkedText(prev, curr), WithMediaSequence(prev, curr);
            var found := FindFrom(marked, MediaSequenceDirective, 0);
            var b := Bold(Decimal(curr.mediaSequenceBase));
            && (prev.mediaSequenceBase == curr.mediaSequenceBase || found.None? ==> r == marked)
            && (prev.mediaSequenceBase != curr.mediaSequenceBase && found.Some? ==>
                  var s := found.value + |MediaSequenceDirective|;
                  && r[..s] == marked[..s]
                  && r[s..s + |b|] == b
                  && r[s + |b|..] == marked[LineEnd(marked, s)..])
  {
    var marked := MarkedText(prev, curr);
    var found := FindFrom(marked, MediaSequenceDirective, 0);
    if found.Some? {
      ReplaceDirectiveShape(marked, MediaSequenceDirective, Decimal(curr.mediaSequenceBase), found.value);
    }
  }

  /** Lines 178-180, on the text the media-sequence step produced, whatever
      that step did: with an unchanged discontinuity base, or without an
      `#EXT-X-DISCONTINUITY-SEQUENCE:`, that text is the result. Otherwise
      the new base is bolded after the directive's first occurrence as
      above. */
  lemma DiscontinuitySequenceBolded(prev: Playlist, curr: Playlist)
    requires prev.Media? && curr.Media? && |prev.segments| > 0 && |curr.segments| > 0
    ensures var withMedia, r := WithMediaSequence(prev, curr), HighlightDiffSpec(prev, curr);
            var found := FindFrom(withMedia, DiscontinuitySequenceDirective, 0);
            var b := Bold(Decimal(curr.discontinuitySequenceBase));
            && r.Ok?
            && (prev.discontinuitySequenceBase == curr.discontinuitySequenceBase || found.None? ==> r.value == withMedia)
            && (prev.discontinuitySequenceBase != curr.discontinuitySequenceBase && found.Some? ==>
                  var s := found.value + |DiscontinuitySequenceDirective|;
                  && r.value[..s] == withMedia[..s]
                  && r.value[s..s + |b|] == b
                  && r.value[s + |b|..] == withMedia[LineEnd(withMedia, s)..])
  {
    var withMedia := WithMediaSequence(prev, curr);
    var found := FindFrom(withMedia, DiscontinuitySequenceDirective, 0);
    if found.Some? {
      ReplaceDirectiveShape(withMedia, DiscontinuitySequenceDirective, Decimal(curr.discontinuitySequenceBase), found.value);
    }
  }

  lemma ReplaceKeepsNonEmpty(txt: string, directive: string, value: string)
    requires |txt| > 0
    ensures |ReplaceDirective(txt, directive, value)| > 0
  {
  }
}
