/** `formatLogs`, `highlightChangedPart` and `useCache` of
    src/LogProvider.tsx: one pass over the sorted records that pairs each
    origin manifest with a generated manifest and, from the third pair on,
    replaces both texts with their highlighted difference against the
    previous pair. The pass is specified by two functions: `Reconcile`, the
    pairing on raw texts, and `Highlighted`, the texts shown for each
    pair. */
module Pairing {
  import opened Wrappers
  import opened Text
  import opened Hls
  import opened Highlight
  import opened CloudWatch
  import opened EventOrder

  /** A snapshot: the two manifest texts and the time of the record that
      last wrote into it. */
  datatype Entry = Entry(originManifest: string, generatedManifest: string, timestamp: int)

  /** The accumulator in its initial state (`timestamp: new Date()`). */
  function Blank(now: int): Entry
  {
    Entry("", "", now)
  }

  /** Both sides non-empty, the condition for flushing. */
  predicate Complete(e: Entry)
  {
    e.originManifest != "" && e.generatedManifest != ""
  }

  /** Write a manifest record into the matching side of the accumulator. */
  function Assign(acc: Entry, r: CWLog): (e: Entry)
    requires IsManifest(r)
    ensures e.timestamp == r.timestamp
    ensures IsOrigin(r) ==> e.originManifest == r.responseBody && e.generatedManifest == acc.generatedManifest
    ensures IsGenerated(r) ==> e.generatedManifest == r.responseBody && e.originManifest == acc.originManifest
  {
    if IsOrigin(r) then acc.(originManifest := r.responseBody, timestamp := r.timestamp)
    else acc.(generatedManifest := r.responseBody, timestamp := r.timestamp)
  }

  function Max(a: nat, b: nat): nat
  {
    if a < b then b else a
  }

  /** The state of the pass after some records: the flushed pairs (raw
      texts), the accumulator, and the row count so far. */
  datatype Reconciled = Reconciled(entries: seq<Entry>, pending: Entry, maxRows: nat)

  /** One record of the pairing pass: a manifest record is written into
      the accumulator, which is flushed once both sides are non-empty;
      any other record leaves the state as it is. */
  function Consume(z: Reconciled, r: CWLog, now: int): Reconciled
  {
    if !IsManifest(r) then z
    else
      var acc := Assign(z.pending, r);
      var rows := Max(LineCount(r.responseBody), z.maxRows);
      if Complete(acc) then Reconciled(z.entries + [acc], Blank(now), rows)
      else Reconciled(z.entries, acc, rows)
  }

  /** The four cases of one record: a record that is not a manifest
      changes nothing; a manifest record raises the row count to its line
      count, and either completes the accumulator, which is appended and
      replaced by a blank one, or leaves it written and pending. */
  lemma ConsumeCases(z: Reconciled, r: CWLog, now: int)
    ensures var y := Consume(z, r, now);
            && (!IsManifest(r) ==> y == z)
            && (IsManifest(r) ==> y.maxRows == Max(LineCount(r.responseBody), z.maxRows))
            && (IsManifest(r) && Complete(Assign(z.pending, r)) ==>
                  y.entries == z.entries + [Assign(z.pending, r)] && y.pending == Blank(now))
            && (IsManifest(r) && !Complete(Assign(z.pending, r)) ==>
                  y.entries == z.entries && y.pending == Assign(z.pending, r))
  {
  }

  /** The pairing pass over `rs`, record by record. */
  function Reconcile(rs: seq<CWLog>, now: int): (z: Reconciled)
    ensures |z.entries| <= |rs|
  {
    if rs == [] then Reconciled([], Blank(now), 0)
    else Consume(Reconcile(rs[..|rs| - 1], now), rs[|rs| - 1], now)
  }

  lemma ReconcileSnoc(rs: seq<CWLog>, r: CWLog, now: int)
    ensures Reconcile(rs + [r], now) == Consume(Reconcile(rs, now), r, now)
  {
    assert (rs + [r])[..|rs|] == rs;
  }

  /** Pair completeness: every flushed pair has both texts, and the
      accumulator left over at the end (never emitted) is never a complete
      pair. */
  lemma {:induction false} EntriesComplete(rs: seq<CWLog>, now: int)
    ensures forall k :: 0 <= k < |Reconcile(rs, now).entries| ==> Complete(Reconcile(rs, now).entries[k])
    ensures !Complete(Reconcile(rs, now).pending)
  {
    if rs != [] {
      EntriesComplete(rs[..|rs| - 1], now);
    }
  }

  function NonEmptyOrigins(rs: seq<CWLog>): nat
  {
    if rs == [] then 0
    else NonEmptyOrigins(rs[..|rs| - 1])
         + (if IsOrigin(rs[|rs| - 1]) && rs[|rs| - 1].responseBody != "" then 1 else 0)
  }

  function NonEmptyGenerated(rs: seq<CWLog>): nat
  {
    if rs == [] then 0
    else NonEmptyGenerated(rs[..|rs| - 1])
         + (if IsGenerated(rs[|rs| - 1]) && rs[|rs| - 1].responseBody != "" then 1 else 0)
  }

  /** Each flushed pair used up at least one origin record and at least one
      generated record with a non-empty body (a side still set in the
      accumulator is owed one too), so there are at most as many pairs as
      the smaller of the two counts. */
  lemma {:induction false} EntryCountBound(rs: seq<CWLog>, now: int)
    ensures var z := Reconcile(rs, now);
            |z.entries| + (if z.pending.originManifest != "" then 1 else 0) <= NonEmptyOrigins(rs)
    ensures var z := Reconcile(rs, now);
            |z.entries| + (if z.pending.generatedManifest != "" then 1 else 0) <= NonEmptyGenerated(rs)
  {
    if rs != [] {
      EntryCountBound(rs[..|rs| - 1], now);
    }
  }

  /** The manifest records of `rs`, in order. */
  function Manifests(rs: seq<CWLog>): seq<CWLog>
  {
    if rs == [] then []
    else Manifests(rs[..|rs| - 1]) + (if IsManifest(rs[|rs| - 1]) then [rs[|rs| - 1]] else [])
  }

  /** Records of any other event type change neither the pairs, nor the
      accumulator, nor the row count: the pass over the manifest records
      alone gives the same state. */
  lemma {:induction false} OtherEventsIgnored(rs: seq<CWLog>, now: int)
    ensures Reconcile(Manifests(rs), now) == Reconcile(rs, now)
  {
    if rs != [] {
      var init, r := rs[..|rs| - 1], rs[|rs| - 1];
      OtherEventsIgnored(init, now);
      if IsManifest(r) {
        ReconcileSnoc(Manifests(init), r, now);
      } else {
        assert Manifests(rs) == Manifests(init);
      }
    }
  }

  /** `maxRows` is the largest line count of a manifest body, and 0 when
      there is no manifest record. */
  lemma {:induction false} MaxRowsIsMaximum(rs: seq<CWLog>, now: int)
    ensures forall k :: 0 <= k < |rs| && IsManifest(rs[k]) ==>
              LineCount(rs[k].responseBody) <= Reconcile(rs, now).maxRows
    ensures Reconcile(rs, now).maxRows == 0 <==> forall k :: 0 <= k < |rs| ==> !IsManifest(rs[k])
    ensures Reconcile(rs, now).maxRows > 0 ==>
              exists k :: 0 <= k < |rs| && IsManifest(rs[k]) && LineCount(rs[k].responseBody) == Reconcile(rs, now).maxRows
  {
    if rs != [] {
      var init, r := rs[..|rs| - 1], rs[|rs| - 1];
      MaxRowsIsMaximum(init, now);
      var z := Reconcile(init, now);
      assert forall k :: 0 <= k < |init| ==> rs[k] == init[k];
      if IsManifest(r) {
        assert LineCount(r.responseBody) > 0;
        if LineCount(r.responseBody) < z.maxRows {
          var k :| 0 <= k < |init| && IsManifest(init[k]) && LineCount(init[k].responseBody) == z.maxRows;
          assert rs[k] == init[k];
        }
      } else if z.maxRows > 0 {
        var k :| 0 <= k < |init| && IsManifest(init[k]) && LineCount(init[k].responseBody) == z.maxRows;
        assert rs[k] == init[k];
      }
    }
  }

  /** Last writer wins: a second record of the same kind before the pair
      completes overwrites that side, and the first leaves no trace in the
      pairs or in the accumulator. */
  lemma LastWriterWins(rs: seq<CWLog>, r1: CWLog, r2: CWLog, now: int)
    requires IsManifest(r1) && r2.eventType == r1.eventType
    requires !Complete(Assign(Reconcile(rs, now).pending, r1))
    ensures Reconcile(rs + [r1, r2], now).entries == Reconcile(rs + [r2], now).entries
    ensures Reconcile(rs + [r1, r2], now).pending == Reconcile(rs + [r2], now).pending
  {
    ReconcileSnoc(rs, r1, now);
    ReconcileSnoc(rs + [r1], r2, now);
    ReconcileSnoc(rs, r2, now);
    assert rs + [r1, r2] == rs + [r1] + [r2];
  }

  /** The record that completes a pair gives it its timestamp. */
  lemma CompletingRecordStamps(rs: seq<CWLog>, r: CWLog, now: int)
    requires IsManifest(r) && Complete(Assign(Reconcile(rs, now).pending, r))
    ensures var es := Reconcile(rs + [r], now).entries;
            |es| > 0 && es[|es| - 1].timestamp == r.timestamp
    ensures var es := Reconcile(rs + [r], now).entries;
            |es| > 0 && (if IsOrigin(r) then es[|es| - 1].originManifest else es[|es| - 1].generatedManifest) == r.responseBody
  {
    ReconcileSnoc(rs, r, now);
  }

  /** Every flushed pair is made of records of the input: its origin text
      is the body of an origin record, its generated text the body of a
      generated record, and its timestamp that of a manifest record. */
  predicate Sourced(rs: seq<CWLog>, e: Entry)
  {
    && (exists j :: 0 <= j < |rs| && IsOrigin(rs[j]) && rs[j].responseBody == e.originManifest)
    && (exists j :: 0 <= j < |rs| && IsGenerated(rs[j]) && rs[j].responseBody == e.generatedManifest)
    && (exists j :: 0 <= j < |rs| && IsManifest(rs[j]) && rs[j].timestamp == e.timestamp)
  }

  lemma SourcedExtends(rs: seq<CWLog>, r: CWLog, e: Entry)
    requires Sourced(rs, e)
    ensures Sourced(rs + [r], e)
  {
    var rs' := rs + [r];
    var a :| 0 <= a < |rs| && IsOrigin(rs[a]) && rs[a].responseBody == e.originManifest;
    assert rs'[a] == rs[a];
    var b :| 0 <= b < |rs| && IsGenerated(rs[b]) && rs[b].responseBody == e.generatedManifest;
    assert rs'[b] == rs[b];
    var c :| 0 <= c < |rs| && IsManifest(rs[c]) && rs[c].timestamp == e.timestamp;
    assert rs'[c] == rs[c];
  }

  /** The accumulator holds only texts and a time taken from the input. */
  predicate PendingSourced(rs: seq<CWLog>, p: Entry)
  {
    && (p.originManifest != "" ==> exists j :: 0 <= j < |rs| && IsOrigin(rs[j]) && rs[j].responseBody == p.originManifest)
    && (p.generatedManifest != "" ==> exists j :: 0 <= j < |rs| && IsGenerated(rs[j]) && rs[j].responseBody == p.generatedManifest)
    && ((p.originManifest != "" || p.generatedManifest != "") ==>
          exists j :: 0 <= j < |rs| && IsManifest(rs[j]) && rs[j].timestamp == p.timestamp)
  }

  lemma PendingSourcedExtends(rs: seq<CWLog>, r: CWLog, p: Entry)
    requires PendingSourced(rs, p)
    ensures PendingSourced(rs + [r], p)
  {
    var rs' := rs + [r];
    if p.originManifest != "" {
      var a :| 0 <= a < |rs| && IsOrigin(rs[a]) && rs[a].responseBody == p.originManifest;
      assert rs'[a] == rs[a];
    }
    if p.generatedManifest != "" {
      var b :| 0 <= b < |rs| && IsGenerated(rs[b]) && rs[b].responseBody == p.generatedManifest;
      assert rs'[b] == rs[b];
    }
    if p.originManifest != "" || p.generatedManifest != "" {
      var c :| 0 <= c < |rs| && IsManifest(rs[c]) && rs[c].timestamp == p.timestamp;
      assert rs'[c] == rs[c];
    }
  }

  lemma {:induction false} EntriesSourced(rs: seq<CWLog>, now: int)
    ensures forall k :: 0 <= k < |Reconcile(rs, now).entries| ==> Sourced(rs, Reconcile(rs, now).entries[k])
    ensures PendingSourced(rs, Reconcile(rs, now).pending)
  {
    if rs != [] {
      var init, r := rs[..|rs| - 1], rs[|rs| - 1];
      EntriesSourced(init, now);
      var z := Reconcile(init, now);
      assert rs == init + [r];
      forall k | 0 <= k < |z.entries|
        ensures Sourced(rs, z.entries[k])
      {
        SourcedExtends(init, r, z.entries[k]);
      }
      PendingSourcedExtends(init, r, z.pending);
      if IsManifest(r) {
        var acc := Assign(z.pending, r);
        var last := |rs| - 1;
        assert rs[last] == r;
        if Complete(acc) {
          assert Sourced(rs, acc);
        } else {
          assert PendingSourced(rs, acc);
        }
      }
    }
  }

  /** An origin record followed by a generated record, both non-empty,
      flush exactly one pair onto an empty accumulator and leave it empty. */
  lemma OriginThenGenerated(rs: seq<CWLog>, o: CWLog, g: CWLog, now: int)
    requires Reconcile(rs, now).pending == Blank(now)
    requires IsOrigin(o) && o.responseBody != "" && IsGenerated(g) && g.responseBody != ""
    ensures Reconcile(rs + [o, g], now).pending == Blank(now)
    ensures Reconcile(rs + [o, g], now).entries
            == Reconcile(rs, now).entries + [Entry(o.responseBody, g.responseBody, g.timestamp)]
  {
    ReconcileSnoc(rs, o, now);
    ReconcileSnoc(rs + [o], g, now);
    assert rs + [o, g] == rs + [o] + [g];
  }

  /** A clean alternation `Origin, Generated, Origin, Generated, ...` with
      non-empty bodies yields exactly one pair per origin/generated couple,
      in order, stamped with the generated record's time. */
  lemma {:induction false} AlternatingPairs(rs: seq<CWLog>, now: int)
    requires |rs| % 2 == 0
    requires forall k :: 0 <= k < |rs| / 2 ==> AlternationAt(rs, k)
    ensures Reconcile(rs, now).pending == Blank(now)
    ensures |Reconcile(rs, now).entries| == |rs| / 2
    ensures forall k :: 0 <= k < |rs| / 2 ==> Reconcile(rs, now).entries[k] == PairAt(rs, k)
  {
    if rs != [] {
      var n := |rs|;
      var init := rs[..n - 2];
      forall k | 0 <= k < |init| / 2
        ensures AlternationAt(init, k)
      {
        assert AlternationAt(rs, k);
        assert init[2 * k] == rs[2 * k] && init[2 * k + 1] == rs[2 * k + 1];
      }
      AlternatingPairs(init, now);
      var o, g := rs[n - 2], rs[n - 1];
      assert AlternationAt(rs, n / 2 - 1);
      assert rs == init + [o, g];
      OriginThenGenerated(init, o, g, now);
      var es := Reconcile(rs, now).entries;
      var before := Reconcile(init, now).entries;
      assert es == before + [PairAt(rs, n / 2 - 1)];
      forall k | 0 <= k < n / 2 - 1
        ensures es[k] == PairAt(rs, k)
      {
        assert es[k] == before[k] == PairAt(init, k);
        assert init[2 * k] == rs[2 * k] && init[2 * k + 1] == rs[2 * k + 1];
      }
    }
  }

  /** Records `2k` and `2k + 1` are an origin and a generated manifest with
      non-empty bodies. */
  predicate AlternationAt(rs: seq<CWLog>, k: nat)
  {
    2 * k + 1 < |rs|
    && IsOrigin(rs[2 * k]) && rs[2 * k].responseBody != ""
    && IsGenerated(rs[2 * k + 1]) && rs[2 * k + 1].responseBody != ""
  }

  /** The pair records `2k` and `2k + 1` make. */
  function PairAt(rs: seq<CWLog>, k: nat): Entry
    requires 2 * k + 1 < |rs|
  {
    Entry(rs[2 * k].responseBody, rs[2 * k + 1].responseBody, rs[2 * k + 1].timestamp)
  }

  /** Parsing a manifest body; a parser failure aborts the pass. */
  function ParseOrFail(text: string, parse: string -> Option<Playlist>): Result<Playlist, Error>
  {
    match parse(text)
    case None => Err(Unparsable(text))
    case Some(p) => Ok(p)
  }

  /** `log.xManifestObj ?? parse(log.xManifest)`. */
  function Resolve(cached: Option<Playlist>, text: string, parse: string -> Option<Playlist>): Result<Playlist, Error>
  {
    if cached.Some? then Ok(cached.value) else ParseOrFail(text, parse)
  }

  /** The two highlighted texts from the four playlists, with the source's
      order of failures: the previous pair's two parses, the current pair's
      two parses, then the origin and the generated diff. */
  function HighlightSides(po: Result<Playlist, Error>, pg: Result<Playlist, Error>,
                          co: Result<Playlist, Error>, cg: Result<Playlist, Error>): Result<(string, string), Error>
  {
    var a :- po;
    var b :- pg;
    var c :- co;
    var d :- cg;
    var o :- HighlightDiffSpec(a, c);
    var g :- HighlightDiffSpec(b, d);
    Ok((o, g))
  }

  /** The pair shown for `curr` when it follows `prev`: its texts
      highlighted against `prev`'s parsed raw texts, its time unchanged. */
  function HighlightPair(prev: Entry, curr: Entry, parse: string -> Option<Playlist>): Result<Entry, Error>
  {
    var sides :- HighlightSides(ParseOrFail(prev.originManifest, parse), ParseOrFail(prev.generatedManifest, parse),
                                ParseOrFail(curr.originManifest, parse), ParseOrFail(curr.generatedManifest, parse));
    Ok(Entry(sides.0, sides.1, curr.timestamp))
  }

  /** `log.xManifestObj ?? parse(log.xManifest)`: a cached playlist is
      used as it is; otherwise the text is parsed, and a text the parser
      rejects is the `Unparsable` error. */
  lemma ResolveCases(cached: Option<Playlist>, text: string, parse: string -> Option<Playlist>)
    ensures var r := Resolve(cached, text, parse);
            && (cached.Some? ==> r == Ok(cached.value))
            && (cached.None? ==> (r.Ok? <==> parse(text).Some?))
            && (cached.None? && r.Ok? ==> r.value == parse(text).value)
            && (cached.None? && r.Err? ==> r.error == Unparsable(text))
  {
  }

  /** The failure order of `highlightChangedPart`: the previous pair's
      origin and generated playlists, then the current pair's, then the two
      diffs; success exactly when all six succeed, with the two diffs as
      the texts. */
  lemma HighlightSidesCases(po: Result<Playlist, Error>, pg: Result<Playlist, Error>,
                            co: Result<Playlist, Error>, cg: Result<Playlist, Error>)
    ensures var r := HighlightSides(po, pg, co, cg);
            && (po.Err? ==> r == Err(po.error))
            && (po.Ok? && pg.Err? ==> r == Err(pg.error))
            && (po.Ok? && pg.Ok? && co.Err? ==> r == Err(co.error))
            && (po.Ok? && pg.Ok? && co.Ok? && cg.Err? ==> r == Err(cg.error))
            && (r.Ok? <==> && po.Ok? && pg.Ok? && co.Ok? && cg.Ok?
                           && HighlightDiffSpec(po.value, co.value).Ok? && HighlightDiffSpec(pg.value, cg.value).Ok?)
            && (r.Ok? ==> && Ok(r.value.0) == HighlightDiffSpec(po.value, co.value)
                          && Ok(r.value.1) == HighlightDiffSpec(pg.value, cg.value))
  {
  }

  /** A highlighted pair keeps the timestamp and has both texts. */
  lemma HighlightPairComplete(prev: Entry, curr: Entry, parse: string -> Option<Playlist>)
    requires HighlightPair(prev, curr, parse).Ok?
    ensures HighlightPair(prev, curr, parse).value.timestamp == curr.timestamp
    ensures Complete(HighlightPair(prev, curr, parse).value)
  {
  }

  /** How the pass shows one more pair `e` after the raw pairs `raws`,
      shown so far as `done`: the first two unchanged, each later one
      highlighted against its predecessor. */
  function ShowNext(done: seq<Entry>, raws: seq<Entry>, e: Entry, parse: string -> Option<Playlist>): Result<seq<Entry>, Error>
  {
    if |raws| < 2 then Ok(done + [e])
    else
      var h :- HighlightPair(raws[|raws| - 1], e, parse);
      Ok(done + [h])
  }

  /** Before two pairs are out the new one is appended raw; after that,
      showing it succeeds exactly when highlighting it against the last raw
      pair does; what was shown stays, with one pair more. */
  lemma ShowNextCases(done: seq<Entry>, raws: seq<Entry>, e: Entry, parse: string -> Option<Playlist>)
    ensures var r := ShowNext(done, raws, e, parse);
            && (|raws| < 2 ==> r == Ok(done + [e]))
            && (r.Ok? ==> |r.value| == |done| + 1 && r.value[..|done|] == done)
            && (|raws| >= 2 ==> r.Ok? == HighlightPair(raws[|raws| - 1], e, parse).Ok?)
  {
    var r := ShowNext(done, raws, e, parse);
    if r.Ok? {
      assert r.value[..|done|] == done;
    }
  }

  /** The pairs as the pass emits them, from the raw pairs. */
  function Highlighted(raws: seq<Entry>, parse: string -> Option<Playlist>): (r: Result<seq<Entry>, Error>)
    ensures r.Ok? ==> |r.value| == |raws|
  {
    if raws == [] then Ok([])
    else
      var done :- Highlighted(raws[..|raws| - 1], parse);
      ShowNext(done, raws[..|raws| - 1], raws[|raws| - 1], parse)
  }

  /** Entries 0 and 1 keep their raw texts; entry `k >= 2` is `HighlightPair`
      of entries `k - 1` and `k`; and the pass succeeds exactly when every
      such pair can be highlighted. */
  lemma HighlightedShape(raws: seq<Entry>, parse: string -> Option<Playlist>)
    ensures Highlighted(raws, parse).Ok? <==>
              forall k :: 2 <= k < |raws| ==> HighlightPair(raws[k - 1], raws[k], parse).Ok?
    ensures Highlighted(raws, parse).Ok? ==>
              var ds := Highlighted(raws, parse).value;
              && |ds| == |raws|
              && (forall k :: 0 <= k < |raws| && k < 2 ==> ds[k] == raws[k])
              && (forall k :: 2 <= k < |raws| ==> Ok(ds[k]) == HighlightPair(raws[k - 1], raws[k], parse))
  {
    HighlightedOkIff(raws, parse);
    if Highlighted(raws, parse).Ok? {
      HighlightedValues(raws, parse);
    }
  }

  lemma {:induction false} HighlightedOkIff(raws: seq<Entry>, parse: string -> Option<Playlist>)
    ensures Highlighted(raws, parse).Ok? <==>
              forall k :: 2 <= k < |raws| ==> HighlightPair(raws[k - 1], raws[k], parse).Ok?
  {
    if raws != [] {
      var init := raws[..|raws| - 1];
      HighlightedOkIff(init, parse);
      HighlightedSnocOk(raws, parse);
      var last := |raws| - 1;
      if Highlighted(raws, parse).Ok? {
        forall k | 2 <= k < |raws|
          ensures HighlightPair(raws[k - 1], raws[k], parse).Ok?
        {
          if k < last {
            assert init[k - 1] == raws[k - 1] && init[k] == raws[k];
          } else {
            assert k - 1 == |raws| - 2 && k == |raws| - 1;
          }
        }
      } else if Highlighted(init, parse).Err? {
        var k :| 2 <= k < |init| && HighlightPair(init[k - 1], init[k], parse).Err?;
        assert init[k - 1] == raws[k - 1] && init[k] == raws[k];
      } else {
        assert 2 <= last && HighlightPair(raws[last - 1], raws[last], parse).Err?;
      }
    }
  }

  /** One more raw pair: the pass still succeeds exactly when it did for
      the pairs before and, from the third pair on, the new pair can be
      highlighted against its predecessor. */
  lemma HighlightedSnocOk(raws: seq<Entry>, parse: string -> Option<Playlist>)
    requires raws != []
    ensures var init := raws[..|raws| - 1];
            Highlighted(raws, parse).Ok? <==>
              Highlighted(init, parse).Ok?
              && (|raws| >= 3 ==> HighlightPair(raws[|raws| - 2], raws[|raws| - 1], parse).Ok?)
  {
    var init := raws[..|raws| - 1];
    if |raws| >= 3 {
      assert init[|init| - 1] == raws[|raws| - 2];
    }
  }

  lemma {:induction false} HighlightedValues(raws: seq<Entry>, parse: string -> Option<Playlist>)
    requires Highlighted(raws, parse).Ok?
    ensures var ds := Highlighted(raws, parse).value;
            && |ds| == |raws|
            && (forall k :: 0 <= k < |raws| && k < 2 ==> ds[k] == raws[k])
            && (forall k :: 2 <= k < |raws| ==> Ok(ds[k]) == HighlightPair(raws[k - 1], raws[k], parse))
  {
    if raws != [] {
      var init, e := raws[..|raws| - 1], raws[|raws| - 1];
      assert raws == init + [e];
      HighlightedSnoc(init, e, parse);
      HighlightedValues(init, parse);
      ValuesExtend(init, e, Highlighted(init, parse).value, Highlighted(raws, parse).value, parse);
    }
  }

  lemma ValuesExtend(init: seq<Entry>, e: Entry, done: seq<Entry>, ds: seq<Entry>, parse: string -> Option<Playlist>)
    requires |done| == |init|
    requires forall k :: 0 <= k < |init| && k < 2 ==> done[k] == init[k]
    requires forall k :: 2 <= k < |init| ==> Ok(done[k]) == HighlightPair(init[k - 1], init[k], parse)
    requires ShowNext(done, init, e, parse) == Ok(ds)
    ensures var raws := init + [e];
            && |ds| == |raws|
            && (forall k :: 0 <= k < |raws| && k < 2 ==> ds[k] == raws[k])
            && (forall k :: 2 <= k < |raws| ==> Ok(ds[k]) == HighlightPair(raws[k - 1], raws[k], parse))
  {
    var raws := init + [e];
    var x := ds[|init|];
    assert ds == done + [x];
    KeepsPrefix(init, e, done, x, parse);
    if |init| >= 2 {
      assert Ok(x) == HighlightPair(init[|init| - 1], e, parse);
      assert raws[|init| - 1] == init[|init| - 1] && raws[|init|] == e;
    } else {
      assert x == e;
    }
  }

  lemma KeepsPrefix(init: seq<Entry>, e: Entry, done: seq<Entry>, x: Entry, parse: string -> Option<Playlist>)
    requires |done| == |init|
    requires forall k :: 0 <= k < |init| && k < 2 ==> done[k] == init[k]
    requires forall k :: 2 <= k < |init| ==> Ok(done[k]) == HighlightPair(init[k - 1], init[k], parse)
    ensures var raws, ds := init + [e], done + [x];
            && (forall k :: 0 <= k < |init| && k < 2 ==> ds[k] == raws[k])
            && (forall k :: 2 <= k < |init| ==> Ok(ds[k]) == HighlightPair(raws[k - 1], raws[k], parse))
  {
    var raws, ds := init + [e], done + [x];
    forall k | 0 <= k < |init|
      ensures ds[k] == done[k] && raws[k] == init[k]
    {
    }
  }

  /** Pair completeness of what is shown: when the raw pairs are complete
      (as `EntriesComplete` proves of every pass), every emitted pair has
      both texts, highlighted or not, and keeps its raw pair's timestamp. */
  lemma HighlightedKeepsComplete(raws: seq<Entry>, parse: string -> Option<Playlist>)
    requires forall k :: 0 <= k < |raws| ==> Complete(raws[k])
    requires Highlighted(raws, parse).Ok?
    ensures var ds := Highlighted(raws, parse).value;
            |ds| == |raws| && forall k :: 0 <= k < |ds| ==> Complete(ds[k]) && ds[k].timestamp == raws[k].timestamp
  {
    HighlightedShape(raws, parse);
    var ds := Highlighted(raws, parse).value;
    forall k | 0 <= k < |ds|
      ensures Complete(ds[k]) && ds[k].timestamp == raws[k].timestamp
    {
      if k >= 2 {
        HighlightPairComplete(raws[k - 1], raws[k], parse);
      }
    }
  }

  /** Once a prefix of the pairs fails to highlight, the whole pass fails
      with that error. */
  lemma {:induction false} HighlightedErrPersists(raws: seq<Entry>, m: nat, parse: string -> Option<Playlist>)
    requires m <= |raws| && Highlighted(raws[..m], parse).Err?
    ensures Highlighted(raws, parse) == Highlighted(raws[..m], parse)
    decreases |raws| - m
  {
    if m < |raws| {
      assert raws[..m + 1][..m] == raws[..m];
      assert Highlighted(raws[..m + 1], parse) == Highlighted(raws[..m], parse);
      HighlightedErrPersists(raws, m + 1, parse);
    } else {
      assert raws[..m] == raws;
    }
  }

  /** The pairs of a prefix of the input are a prefix of the pairs. */
  lemma {:induction false} ReconcilePrefix(rs: seq<CWLog>, i: nat, now: int)
    requires i <= |rs|
    ensures var p := Reconcile(rs[..i], now).entries;
            var q := Reconcile(rs, now).entries;
            |p| <= |q| && q[..|p|] == p
    decreases |rs| - i
  {
    if i < |rs| {
      ReconcilePrefix(rs[..|rs| - 1], i, now);
      assert rs[..|rs| - 1][..i] == rs[..i];
    } else {
      assert rs[..i] == rs;
    }
  }

  /** A failure on a prefix of the records is the failure of the whole
      pass. */
  lemma AbortedPass(rs: seq<CWLog>, i: nat, now: int, parse: string -> Option<Playlist>)
    requires i <= |rs| && Highlighted(Reconcile(rs[..i], now).entries, parse).Err?
    ensures Highlighted(Reconcile(rs, now).entries, parse) == Highlighted(Reconcile(rs[..i], now).entries, parse)
  {
    var p := Reconcile(rs[..i], now).entries;
    ReconcilePrefix(rs, i, now);
    HighlightedErrPersists(Reconcile(rs, now).entries, |p|, parse);
  }

  /** A pair's parse cache is filled from index 2 on, and at index 1 once a
      third pair was compared with it; index 0 is never parsed. */
  predicate CachedAt(k: nat, count: nat)
  {
    k >= 2 || (k == 1 && count >= 3)
  }

  /** A `Log`: a snapshot object the pass fills in place, with the parse
      caches `useCache` writes. */
  class Log {
    var originManifest: string
    var originManifestObj: Option<Playlist>
    var generatedManifest: string
    var generatedManifestObj: Option<Playlist>
    var timestamp: int

    constructor (now: int)
      ensures Value() == Blank(now)
      ensures originManifestObj == None && generatedManifestObj == None
    {
      originManifest := "";
      originManifestObj := None;
      generatedManifest := "";
      generatedManifestObj := None;
      timestamp := now;
    }

    function Value(): Entry
      reads this
    {
      Entry(originManifest, generatedManifest, timestamp)
    }
  }

  /** `useCache(log)`: the two parsed playlists of `log`, parsed on first
      use and stored; a stored playlist is never parsed again or replaced.
      A failing parse aborts after the origin side may have been stored. */
  method UseCache(log: Log, parse: string -> Option<Playlist>) returns (r: Result<(Playlist, Playlist), Error>)
    modifies log
    ensures log.Value() == old(log.Value())
    ensures var o := Resolve(old(log.originManifestObj), old(log.originManifest), parse);
            var g := Resolve(old(log.generatedManifestObj), old(log.generatedManifest), parse);
            && r == (if o.Err? then Err(o.error) else if g.Err? then Err(g.error) else Ok((o.value, g.value)))
            && log.originManifestObj == (if o.Ok? then Some(o.value) else old(log.originManifestObj))
            && log.generatedManifestObj == (if o.Ok? && g.Ok? then Some(g.value) else old(log.generatedManifestObj))
    ensures old(log.originManifestObj).Some? ==> log.originManifestObj == old(log.originManifestObj)
    ensures old(log.generatedManifestObj).Some? ==> log.generatedManifestObj == old(log.generatedManifestObj)
  {
    var o: Playlist;
    if log.originManifestObj.Some? {
      o := log.originManifestObj.value;
    } else {
      var parsed := parse(log.originManifest);
      if parsed.None? {
        return Err(Unparsable(log.originManifest));
      }
      o := parsed.value;
    }
    log.originManifestObj := Some(o);
    var g: Playlist;
    if log.generatedManifestObj.Some? {
      g := log.generatedManifestObj.value;
    } else {
      var parsed := parse(log.generatedManifest);
      if parsed.None? {
        return Err(Unparsable(log.generatedManifest));
      }
      g := parsed.value;
    }
    log.generatedManifestObj := Some(g);
    r := Ok((o, g));
  }

  /** `highlightChangedPart(prev, curr)`: fill both pairs' parse caches and
      overwrite `curr`'s texts with their highlighted difference against
      `prev`'s parsed playlists. */
  method HighlightChangedPart(prev: Log, curr: Log, parse: string -> Option<Playlist>) returns (r: Result<Log, Error>)
    requires prev != curr
    modifies prev, curr
    ensures var po := Resolve(old(prev.originManifestObj), old(prev.originManifest), parse);
            var pg := Resolve(old(prev.generatedManifestObj), old(prev.generatedManifest), parse);
            var co := Resolve(old(curr.originManifestObj), old(curr.originManifest), parse);
            var cg := Resolve(old(curr.generatedManifestObj), old(curr.generatedManifest), parse);
            var sides := HighlightSides(po, pg, co, cg);
            && r.Ok? == sides.Ok?
            && (r.Err? ==> r.error == sides.error)
            && (r.Ok? ==>
                  && r.value == curr
                  && curr.Value() == Entry(sides.value.0, sides.value.1, old(curr.timestamp))
                  && prev.Value() == old(prev.Value())
                  && prev.originManifestObj == Some(po.value) && prev.generatedManifestObj == Some(pg.value)
                  && curr.originManifestObj == Some(co.value) && curr.generatedManifestObj == Some(cg.value))
  {
    var prevObjs := UseCache(prev, parse);
    if prevObjs.Err? {
      return Err(prevObjs.error);
    }
    var currObjs := UseCache(curr, parse);
    if currObjs.Err? {
      return Err(currObjs.error);
    }
    var o := HighlightDiff(prevObjs.value.0, currObjs.value.0);
    if o.Err? {
      return Err(o.error);
    }
    curr.originManifest := o.value;
    var g := HighlightDiff(prevObjs.value.1, currObjs.value.1);
    if g.Err? {
      return Err(g.error);
    }
    curr.generatedManifest := g.value;
    return Ok(curr);
  }

  /** The emitted `Log` objects `out` show the raw pairs `raws` as
      `shown`: one distinct object per pair, holding the shown texts, with
      the parse caches filled as `CachedAt` says, from the raw texts. */
  ghost predicate Shows(out: seq<Log>, raws: seq<Entry>, shown: seq<Entry>, parse: string -> Option<Playlist>)
    reads out
  {
    && |out| == |raws| == |shown|
    && HoldsTexts(out, shown)
    && HoldsCaches(out, raws, parse)
    && Distinct(out)
  }

  ghost predicate HoldsTexts(out: seq<Log>, shown: seq<Entry>)
    requires |out| == |shown|
    reads out
  {
    forall k :: 0 <= k < |out| ==> out[k].Value() == shown[k]
  }

  ghost predicate HoldsCaches(out: seq<Log>, raws: seq<Entry>, parse: string -> Option<Playlist>)
    requires |out| == |raws|
    reads out
  {
    && (forall k :: 0 <= k < |out| ==>
          out[k].originManifestObj == (if CachedAt(k, |out|) then parse(raws[k].originManifest) else None))
    && (forall k :: 0 <= k < |out| ==>
          out[k].generatedManifestObj == (if CachedAt(k, |out|) then parse(raws[k].generatedManifest) else None))
    && (forall k :: 0 <= k < |out| && CachedAt(k, |out|) ==>
          parse(raws[k].originManifest).Some? && parse(raws[k].generatedManifest).Some?)
  }

  /** `log` holds both playlists parsed from the raw pair `raw`. */
  ghost predicate Cached(log: Log, raw: Entry, parse: string -> Option<Playlist>)
    reads log
  {
    && log.originManifestObj == parse(raw.originManifest) && log.originManifestObj.Some?
    && log.generatedManifestObj == parse(raw.generatedManifest) && log.generatedManifestObj.Some?
  }

  predicate Distinct(out: seq<Log>)
  {
    forall j, k :: 0 <= j < k < |out| ==> out[j] != out[k]
  }

  /** `out` is what the pass emits for the raw pairs `raws`. */
  ghost predicate Formatted(out: seq<Log>, raws: seq<Entry>, parse: string -> Option<Playlist>)
    reads out
  {
    Highlighted(raws, parse).Ok? && Shows(out, raws, Highlighted(raws, parse).value, parse)
  }

  /** The first step of the loop body: a manifest record's body goes into
      the matching side of the accumulator and its time becomes the
      accumulator's; any other record is skipped. */
  method Absorb(curr: Log, log: CWLog) returns (manifest: bool)
    modifies curr
    ensures manifest == IsManifest(log)
    ensures curr.Value() == if manifest then Assign(old(curr.Value()), log) else old(curr.Value())
    ensures curr.originManifestObj == old(curr.originManifestObj)
    ensures curr.generatedManifestObj == old(curr.generatedManifestObj)
  {
    if log.eventType == OriginManifest {
      curr.originManifest := log.responseBody;
      curr.timestamp := log.timestamp;
    } else if log.eventType == GeneratedManifest {
      curr.generatedManifest := log.responseBody;
      curr.timestamp := log.timestamp;
    } else {
      return false;
    }
    return true;
  }

  /** The flush of a complete accumulator: from the third pair on,
      highlight it against the last emitted pair, then append it. */
  method Flush(out: seq<Log>, curr: Log, parse: string -> Option<Playlist>, ghost raws: seq<Entry>)
    returns (r: Result<seq<Log>, Error>)
    requires Formatted(out, raws, parse) && curr !in out
    requires curr.originManifestObj == None && curr.generatedManifestObj == None
    modifies curr, if |out| > 0 then {out[|out| - 1]} else {}
    ensures r.Ok? ==> r.value == out + [curr] && Formatted(r.value, raws + [old(curr.Value())], parse)
    ensures r.Err? ==> Highlighted(raws + [old(curr.Value())], parse) == Err(r.error)
  {
    if |out| > 1 {
      r := FlushHighlighted(out, curr, parse, raws);
      return;
    }
    ghost var raws' := raws + [curr.Value()];
    assert raws'[..|raws'| - 1] == raws;
    r := Ok(out + [curr]);
  }

  /** `Flush` from the third pair on. */
  method FlushHighlighted(out: seq<Log>, curr: Log, parse: string -> Option<Playlist>, ghost raws: seq<Entry>)
    returns (r: Result<seq<Log>, Error>)
    requires Formatted(out, raws, parse) && curr !in out && |out| > 1
    requires curr.originManifestObj == None && curr.generatedManifestObj == None
    modifies curr, out[|out| - 1]
    ensures r.Ok? ==> r.value == out + [curr] && Formatted(r.value, raws + [old(curr.Value())], parse)
    ensures r.Err? ==> Highlighted(raws + [old(curr.Value())], parse) == Err(r.error)
  {
    ghost var raws' := raws + [curr.Value()];
    ghost var ds := Highlighted(raws, parse).value;
    assert raws'[..|raws'| - 1] == raws;
    var prev := out[|out| - 1];
    ghost var last := |out| - 1;
    assert Resolve(prev.originManifestObj, prev.originManifest, parse)
           == ParseOrFail(raws[last].originManifest, parse);
    assert Resolve(prev.generatedManifestObj, prev.generatedManifest, parse)
           == ParseOrFail(raws[last].generatedManifest, parse);
    SettledPrefix(out, raws, ds, parse);
    ghost var pre := out[..last];
    assert prev !in pre && curr !in pre;
    var res := HighlightChangedPart(prev, curr, parse);
    if res.Err? {
      return Err(res.error);
    }
    assert Highlighted(raws', parse) == Ok(ds + [curr.Value()]);
    ShowsAppend(out, raws, ds, curr, old(curr.Value()), parse);
    r := Ok(out + [curr]);
  }

  /** All emitted objects but the last, which the next flush leaves alone:
      each holds its shown texts, and from index 1 on both parsed raw
      playlists (index 1 is only before the last once a third pair is
      out). */
  ghost predicate Settled(pre: seq<Log>, raws: seq<Entry>, shown: seq<Entry>, parse: string -> Option<Playlist>)
    requires |pre| <= |raws| && |pre| <= |shown|
    reads pre
  {
    && (forall k :: 0 <= k < |pre| ==> pre[k].Value() == shown[k])
    && (forall k :: 0 <= k < |pre| ==>
          pre[k].originManifestObj == (if k >= 1 then parse(raws[k].originManifest) else None))
    && (forall k :: 0 <= k < |pre| ==>
          pre[k].generatedManifestObj == (if k >= 1 then parse(raws[k].generatedManifest) else None))
    && (forall k :: 1 <= k < |pre| ==>
          parse(raws[k].originManifest).Some? && parse(raws[k].generatedManifest).Some?)
  }

  lemma SettledPrefix(out: seq<Log>, raws: seq<Entry>, ds: seq<Entry>, parse: string -> Option<Playlist>)
    requires |out| >= 2 && Shows(out, raws, ds, parse)
    ensures Settled(out[..|out| - 1], raws, ds, parse)
  {
    var pre := out[..|out| - 1];
    forall k | 1 <= k < |pre|
      ensures CachedAt(k, |out|)
    {
    }
  }

  /** Appending a pair whose caches are filled, after a last pair whose
      caches are filled and whose texts are kept, to a settled prefix. */
  lemma ShowsAppend(out: seq<Log>, raws: seq<Entry>, ds: seq<Entry>, c: Log, e: Entry, parse: string -> Option<Playlist>)
    requires |out| >= 2 && |out| == |raws| == |ds|
    requires Settled(out[..|out| - 1], raws, ds, parse)
    requires out[|out| - 1].Value() == ds[|out| - 1] && Cached(out[|out| - 1], raws[|out| - 1], parse)
    requires Distinct(out) && c !in out && Cached(c, e, parse)
    ensures Shows(out + [c], raws + [e], ds + [c.Value()], parse)
  {
    var out', raws', ds' := out + [c], raws + [e], ds + [c.Value()];
    var pre := out[..|out| - 1];
    forall k | 0 <= k < |out'|
      ensures out'[k].Value() == ds'[k]
      ensures out'[k].originManifestObj == (if CachedAt(k, |out'|) then parse(raws'[k].originManifest) else None)
      ensures out'[k].generatedManifestObj == (if CachedAt(k, |out'|) then parse(raws'[k].generatedManifest) else None)
      ensures CachedAt(k, |out'|) ==> parse(raws'[k].originManifest).Some? && parse(raws'[k].generatedManifest).Some?
    {
      if k < |pre| {
        assert out'[k] == pre[k];
      }
    }
  }

  /** The pass state after the first `i` records, counted from the front
      as the loop in `formatLogs` visits them. */
  function ReconcileUpTo(rs: seq<CWLog>, i: nat, now: int): Reconciled
    requires i <= |rs|
  {
    if i == 0 then Reconciled([], Blank(now), 0)
    else Consume(ReconcileUpTo(rs, i - 1, now), rs[i - 1], now)
  }

  lemma {:induction false} ReconcileUpToPrefix(rs: seq<CWLog>, i: nat, now: int)
    requires i <= |rs|
    ensures ReconcileUpTo(rs, i, now) == Reconcile(rs[..i], now)
  {
    if i > 0 {
      ReconcileUpToPrefix(rs, i - 1, now);
      assert rs[..i] == rs[..i - 1] + [rs[i - 1]];
      ReconcileSnoc(rs[..i - 1], rs[i - 1], now);
    }
  }

  lemma ReconcileUpToAll(rs: seq<CWLog>, now: int)
    ensures ReconcileUpTo(rs, |rs|, now) == Reconcile(rs, now)
  {
    ReconcileUpToPrefix(rs, |rs|, now);
    assert rs[..|rs|] == rs;
  }

  /** The pairs shown after the first `i` records: each record that
      completes a pair shows it with `ShowNext`. */
  function ShownUpTo(rs: seq<CWLog>, i: nat, now: int, parse: string -> Option<Playlist>): Result<seq<Entry>, Error>
    requires i <= |rs|
  {
    if i == 0 then Ok([])
    else
      var done :- ShownUpTo(rs, i - 1, now, parse);
      var z := ReconcileUpTo(rs, i - 1, now);
      var r := rs[i - 1];
      if IsManifest(r) && Complete(Assign(z.pending, r)) then ShowNext(done, z.entries, Assign(z.pending, r), parse)
      else Ok(done)
  }

  /** Showing record by record is highlighting the pairs found so far. */
  lemma {:induction false} ShownUpToIsHighlighted(rs: seq<CWLog>, i: nat, now: int, parse: string -> Option<Playlist>)
    requires i <= |rs|
    ensures ShownUpTo(rs, i, now, parse) == Highlighted(ReconcileUpTo(rs, i, now).entries, parse)
  {
    if i > 0 {
      var z := ReconcileUpTo(rs, i - 1, now);
      assert ReconcileUpTo(rs, i, now) == Consume(z, rs[i - 1], now);
      ShownUpToIsHighlighted(rs, i - 1, now, parse);
      ShowStep(z, rs[i - 1], now, parse);
    }
  }

  /** Highlighting after one more record: the pairs before it as they were
      shown, plus, when the record completes a pair, that pair shown with
      `ShowNext`. */
  lemma ShowStep(z: Reconciled, r: CWLog, now: int, parse: string -> Option<Playlist>)
    ensures var shown := Highlighted(z.entries, parse);
            Highlighted(Consume(z, r, now).entries, parse)
            == if shown.Err? then Err(shown.error)
               else if IsManifest(r) && Complete(Assign(z.pending, r))
               then ShowNext(shown.value, z.entries, Assign(z.pending, r), parse)
               else Ok(shown.value)
  {
    if IsManifest(r) && Complete(Assign(z.pending, r)) {
      HighlightedSnoc(z.entries, Assign(z.pending, r), parse);
    }
  }

  /** Highlighting one more raw pair shows it with `ShowNext`. */
  lemma HighlightedSnoc(es: seq<Entry>, e: Entry, parse: string -> Option<Playlist>)
    ensures Highlighted(es + [e], parse)
            == if Highlighted(es, parse).Err? then Err(Highlighted(es, parse).error)
               else ShowNext(Highlighted(es, parse).value, es, e, parse)
  {
    assert (es + [e])[..|es|] == es;
  }

  /** Once showing fails, it fails the same way on every longer run. */
  lemma {:induction false} ShownErrPersists(rs: seq<CWLog>, i: nat, j: nat, now: int, parse: string -> Option<Playlist>)
    requires i <= j <= |rs| && ShownUpTo(rs, i, now, parse).Err?
    ensures ShownUpTo(rs, j, now, parse) == ShownUpTo(rs, i, now, parse)
  {
    if j > i {
      ShownErrPersists(rs, i, j - 1, now, parse);
    }
  }

  /** The loop state after `i` records: the emitted objects show the pairs
      so far, the accumulator holds the pending pair, and the row count is
      the pass's. */
  ghost predicate LoopState(out: seq<Log>, curr: Log, rows: nat, rs: seq<CWLog>, i: nat,
                            now: int, parse: string -> Option<Playlist>)
    requires i <= |rs|
    reads out, curr
  {
    var z := ReconcileUpTo(rs, i, now);
    && ShownUpTo(rs, i, now, parse).Ok?
    && Shows(out, z.entries, ShownUpTo(rs, i, now, parse).value, parse)
    && curr.Value() == z.pending && rows == z.maxRows
    && curr.originManifestObj == None && curr.generatedManifestObj == None
    && curr !in out
  }

  /** One iteration of the loop in `formatLogs`: absorb record `i` into the
      accumulator `curr`, count its lines and, once both sides are filled,
      flush it and start a fresh accumulator. */
  method FormatStep(out: seq<Log>, curr: Log, rows: nat, log: CWLog, parse: string -> Option<Playlist>,
                    now: int, ghost rs: seq<CWLog>, ghost i: nat)
    returns (r: Result<(seq<Log>, Log, nat), Error>)
    requires i < |rs| && log == rs[i]
    requires LoopState(out, curr, rows, rs, i, now, parse)
    modifies curr, if |out| > 0 then {out[|out| - 1]} else {}
    ensures r.Err? ==> ShownUpTo(rs, i + 1, now, parse) == Err(r.error)
    ensures r.Ok? ==> LoopState(r.value.0, r.value.1, r.value.2, rs, i + 1, now, parse)
    ensures r.Ok? ==> && (r.value.0 == out || r.value.0 == out + [curr])
                      && (r.value.1 == curr || fresh(r.value.1))
  {
    ghost var z := ReconcileUpTo(rs, i, now);
    ghost var z' := ReconcileUpTo(rs, i + 1, now);
    var manifest := Absorb(curr, log);
    if !manifest {
      return Ok((out, curr, rows));
    }
    var rows' := Max(LineCount(log.responseBody), rows);
    if curr.originManifest != "" && curr.generatedManifest != "" {
      r := FlushStep(out, curr, rows', parse, now, rs, i);
      return;
    }
    return Ok((out, curr, rows'));
  }

  /** The flushing branch of `FormatStep`: record `i` has completed the
      accumulator `curr`, which is appended and replaced by a fresh one. */
  method FlushStep(out: seq<Log>, curr: Log, rows: nat, parse: string -> Option<Playlist>,
                   now: int, ghost rs: seq<CWLog>, ghost i: nat)
    returns (r: Result<(seq<Log>, Log, nat), Error>)
    requires i < |rs| && IsManifest(rs[i])
    requires var z := ReconcileUpTo(rs, i, now);
             && ShownUpTo(rs, i, now, parse).Ok?
             && Shows(out, z.entries, ShownUpTo(rs, i, now, parse).value, parse)
             && curr.Value() == Assign(z.pending, rs[i]) && Complete(curr.Value())
             && rows == ReconcileUpTo(rs, i + 1, now).maxRows
    requires curr.originManifestObj == None && curr.generatedManifestObj == None && curr !in out
    modifies curr, if |out| > 0 then {out[|out| - 1]} else {}
    ensures r.Err? ==> ShownUpTo(rs, i + 1, now, parse) == Err(r.error)
    ensures r.Ok? ==> LoopState(r.value.0, r.value.1, r.value.2, rs, i + 1, now, parse)
    ensures r.Ok? ==> r.value.0 == out + [curr] && fresh(r.value.1)
  {
    ghost var z := ReconcileUpTo(rs, i, now);
    ghost var z' := ReconcileUpTo(rs, i + 1, now);
    assert z'.entries == z.entries + [curr.Value()];
    ShownUpToIsHighlighted(rs, i, now, parse);
    ShownUpToIsHighlighted(rs, i + 1, now, parse);
    var res := Flush(out, curr, parse, z.entries);
    if res.Err? {
      return Err(res.error);
    }
    var next := new Log(now);
    return Ok((res.value, next, rows));
  }

  /** The loop of `formatLogs` over the sorted records: the emitted objects
      and the row count after all records, or the first error. */
  method PairLogs(records: seq<CWLog>, parse: string -> Option<Playlist>, now: int)
    returns (r: Result<(seq<Log>, nat), Error>)
    ensures var z := ReconcileUpTo(records, |records|, now);
            var shown := ShownUpTo(records, |records|, now, parse);
            && r.Ok? == shown.Ok?
            && (r.Err? ==> shown == Err(r.error))
            && (r.Ok? ==> r.value.1 == z.maxRows && Shows(r.value.0, z.entries, shown.value, parse))
    ensures r.Ok? ==> forall o :: o in r.value.0 ==> fresh(o)
  {
    var formatted: seq<Log> := [];
    var curr := new Log(now);
    var maxRows: nat := 0;
    for i := 0 to |records|
      invariant LoopState(formatted, curr, maxRows, records, i, now, parse)
      invariant fresh(curr)
      invariant forall o :: o in formatted ==> fresh(o)
    {
      assert |formatted| > 0 ==> formatted[|formatted| - 1] in formatted;
      var step := FormatStep(formatted, curr, maxRows, records[i], parse, now, records, i);
      if step.Err? {
        ShownErrPersists(records, i + 1, |records|, now, parse);
        return Err(step.error);
      }
      formatted, curr, maxRows := step.value.0, step.value.1, step.value.2;
    }
    r := Ok((formatted, maxRows));
  }

  /** `formatLogs(logs)`: sort the records in place, then pair, flush and
      highlight in one pass; the result is the emitted `Log` objects and
      the row count, or the error that aborted the pass. */
  method FormatLogs(logs: array<CWLog>, parse: string -> Option<Playlist>, now: int)
    returns (r: Result<(seq<Log>, nat), Error>)
    modifies logs
    ensures logs[..] == SortByKey(old(logs[..]))
    ensures var z := Reconcile(logs[..], now);
            var shown := Highlighted(z.entries, parse);
            && r.Ok? == shown.Ok?
            && (r.Err? ==> shown == Err(r.error))
            && (r.Ok? ==> r.value.1 == z.maxRows && Formatted(r.value.0, z.entries, parse))
    ensures r.Ok? ==> forall o :: o in r.value.0 ==> fresh(o)
  {
    SortLogs(logs);
    r := PairLogs(logs[..], parse, now);
    ReconcileUpToAll(logs[..], now);
    ShownUpToIsHighlighted(logs[..], logs.Length, now, parse);
  }
}
