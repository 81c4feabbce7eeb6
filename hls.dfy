/** The part of the `hls-parser` library the log viewer consumes: the
    parsed playlist (a Master playlist, section 4.3.4 of RFC 8216, or a
    Media playlist whose segments carry media sequence numbers) and its
    serialisation as the header lines, each segment's lines in order, and
    the trailing lines, joined by newlines. The parser itself is not part
    of this model: callers pass it in as a function. */
module Hls {
  import opened Text

  /** The lines a segment serialises to (its tags and its URI); there is
      always at least the URI line. */
  type SegmentLines = s: seq<string> | |s| > 0 witness [""]

  datatype Segment = Segment(mediaSequenceNumber: nat, lines: SegmentLines)

  datatype Playlist =
    | Master(tags: seq<string>)
    | Media(tags: seq<string>, segments: seq<Segment>, trailer: seq<string>,
            mediaSequenceBase: nat, discontinuitySequenceBase: nat)

  /** `#EXTM3U` followed by the playlist-level tags (for a Media playlist
      these include `#EXT-X-MEDIA-SEQUENCE:` and
      `#EXT-X-DISCONTINUITY-SEQUENCE:`). */
  function Header(p: Playlist): seq<string>
  {
    ["#EXTM3U"] + p.tags
  }

  /** The lines of a run of segments, one segment after another. */
  function SegmentsLines(segs: seq<Segment>): seq<string>
  {
    if segs == [] then []
    else SegmentsLines(segs[..|segs| - 1]) + segs[|segs| - 1].lines
  }

  function Lines(p: Playlist): seq<string>
  {
    match p
    case Master(_) => Header(p)
    case Media(_, segs, trailer, _, _) => Header(p) + SegmentsLines(segs) + trailer
  }

  /** `stringify(playlist)` without a segment hook. */
  function Stringify(p: Playlist): string
  {
    Join(Lines(p))
  }

  /** The index, in `Lines(p)`, of the first line of segment `i` (for
      `i == |segments|`, of the first line after the segments). */
  function SegmentStart(p: Playlist, i: nat): nat
    requires p.Media? && i <= |p.segments|
  {
    |Header(p)| + |SegmentsLines(p.segments[..i])|
  }

  /** Segment `i` occupies the lines from `SegmentStart(p, i)` up to
      `SegmentStart(p, i + 1)`, and they are its own lines. */
  lemma SegmentStartStep(p: Playlist, i: nat)
    requires p.Media? && i < |p.segments|
    ensures SegmentStart(p, i + 1) == SegmentStart(p, i) + |p.segments[i].lines|
    ensures SegmentStart(p, i + 1) <= |Lines(p)|
    ensures forall t :: 0 <= t < |p.segments[i].lines| ==>
              Lines(p)[SegmentStart(p, i) + t] == p.segments[i].lines[t]
  {
    var segs := p.segments;
    assert segs[..i + 1][..i] == segs[..i];
    assert segs[..i + 1] + segs[i + 1..] == segs;
    SegmentsLinesAppend(segs[..i + 1], segs[i + 1..]);
    var body := SegmentsLines(segs[..i]) + segs[i].lines;
    assert Lines(p) == Header(p) + body + SegmentsLines(segs[i + 1..]) + p.trailer;
    forall t | 0 <= t < |segs[i].lines|
      ensures Lines(p)[SegmentStart(p, i) + t] == segs[i].lines[t]
    {
      assert Lines(p)[SegmentStart(p, i) + t] == body[|SegmentsLines(segs[..i])| + t];
    }
  }

  lemma {:induction false} SegmentsLinesAppend(a: seq<Segment>, b: seq<Segment>)
    ensures SegmentsLines(a + b) == SegmentsLines(a) + SegmentsLines(b)
    decreases |b|
  {
    if b != [] {
      var last := b[|b| - 1];
      assert (a + b)[..|a + b| - 1] == a + b[..|b| - 1];
      SegmentsLinesAppend(a, b[..|b| - 1]);
    } else {
      assert a + b == a;
    }
  }

  /** Segment starts grow by at least one line per segment. */
  lemma {:induction false} SegmentStartMonotone(p: Playlist, i: nat, j: nat)
    requires p.Media? && i <= j <= |p.segments|
    ensures SegmentStart(p, i) + (j - i) <= SegmentStart(p, j)
    decreases j - i
  {
    if i < j {
      SegmentStartStep(p, i);
      SegmentStartMonotone(p, i + 1, j);
    }
  }

  /** Where the segments end and the trailer begins. */
  lemma SegmentsEnd(p: Playlist)
    requires p.Media?
    ensures SegmentStart(p, |p.segments|) + |p.trailer| == |Lines(p)|
    ensures forall k :: 0 <= k < |Header(p)| ==> Lines(p)[k] == Header(p)[k]
    ensures forall t :: 0 <= t < |p.trailer| ==>
              Lines(p)[SegmentStart(p, |p.segments|) + t] == p.trailer[t]
  {
    assert p.segments[..|p.segments|] == p.segments;
  }

  /** Every serialisation starts with the `#EXTM3U` line, so it is never
      empty. */
  lemma StringifyNonEmpty(p: Playlist)
    ensures |Stringify(p)| > 0
  {
    JoinStartsWithFirst(Lines(p));
  }

  lemma JoinStartsWithFirst(lines: seq<string>)
    requires |lines| > 0
    ensures |Join(lines)| >= |lines[0]|
    ensures Join(lines)[..|lines[0]|] == lines[0]
  {
  }

  /** The row count `formatLogs` takes from a manifest body that is the
      serialisation of a playlist, when no line of it holds a newline, is
      the playlist's number of lines. */
  lemma StringifiedLineCount(p: Playlist)
    requires forall k :: 0 <= k < |Lines(p)| ==> NoNewline(Lines(p)[k])
    ensures LineCount(Stringify(p)) == |Lines(p)|
  {
    assert Lines(p)[0] == "#EXTM3U";
    SplitJoin(Lines(p));
  }
}
