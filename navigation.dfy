/** The cursor that the viewer moves over the emitted pairs: the current
    list of `Log` objects and the row count (module-level variables that
    every `useLogs` call replaces), and the position kept as component
    state across those calls. */
module Navigation {
  import opened Wrappers
  import opened Hls
  import opened CloudWatch
  import opened EventOrder
  import opened Highlight
  import opened Pairing

  /** `increment`: one step forward, unless already at the last entry. */
  function NextPos(pos: int, length: nat): (q: int)
    ensures pos < length - 1 ==> q == pos + 1
    ensures pos >= length - 1 ==> q == pos
  {
    if pos < length - 1 then pos + 1 else pos
  }

  /** `decrement`: one step back, unless already at the first entry. */
  function PrevPos(pos: int): (q: int)
    ensures pos > 0 ==> q == pos - 1
    ensures pos <= 0 ==> q == pos
  {
    if pos > 0 then pos - 1 else pos
  }

  /** `getLog(p)`: a requested position inside the list becomes the
      current one; any other request leaves the position alone. */
  function SeekPos(pos: int, p: int, length: nat): (q: int)
    ensures 0 <= p < length ==> q == p
    ensures !(0 <= p < length) ==> q == pos
  {
    if 0 <= p < length then p else pos
  }

  /** A position that addresses an entry, or the start of an empty list. */
  predicate InRange(pos: int, length: nat)
  {
    0 <= pos && (pos < length || pos == 0)
  }

  /** Every move keeps an in-range position in range. */
  lemma MovesStayInRange(pos: int, p: int, length: nat)
    requires InRange(pos, length)
    ensures InRange(NextPos(pos, length), length)
    ensures InRange(PrevPos(pos), length)
    ensures InRange(SeekPos(pos, p, length), length)
  {
  }

  /** A step forward from any entry but the last is undone by a step back,
      and a step back from any entry but the first by a step forward. */
  lemma StepsUndo(pos: int, length: nat)
    ensures 0 <= pos < length - 1 ==> PrevPos(NextPos(pos, length)) == pos
    ensures 0 < pos < length ==> NextPos(PrevPos(pos), length) == pos
  {
  }

  /** `k` presses of the forward button. */
  function Forward(pos: int, length: nat, k: nat): (q: int)
    ensures pos <= q
  {
    if k == 0 then pos else NextPos(Forward(pos, length, k - 1), length)
  }

  /** `k` presses of the back button. */
  function Back(pos: int, k: nat): (q: int)
    ensures q <= pos
  {
    if k == 0 then pos else PrevPos(Back(pos, k - 1))
  }

  /** Pressing forward `k` times from an entry reaches `k` entries further
      on, or stops at the last one. */
  lemma {:induction false} ForwardClamps(pos: int, length: nat, k: nat)
    requires 0 <= pos < length
    ensures Forward(pos, length, k) == if pos + k < length then pos + k else length - 1
  {
    if k > 0 {
      ForwardClamps(pos, length, k - 1);
    }
  }

  /** Pressing back `k` times from a non-negative position reaches `k`
      entries earlier, or stops at the first one. */
  lemma {:induction false} BackClamps(pos: int, k: nat)
    requires 0 <= pos
    ensures Back(pos, k) == if pos - k > 0 then pos - k else 0
  {
    if k > 0 {
      BackClamps(pos, k - 1);
    }
  }

  /** The entry at `pos`, if `pos` addresses one (in the source, reading
      outside the list gives `undefined`). */
  function EntryAt(logs: seq<Log>, pos: int): (r: Option<Log>)
    ensures r.Some? <==> 0 <= pos < |logs|
    ensures r.Some? ==> r.value in logs
  {
    if 0 <= pos < |logs| then Some(logs[pos]) else None
  }

  /** The state `LogProvider` exposes through its method set. */
  class LogStore {
    var logs: seq<Log>
    var maxRows: nat
    var pos: int

    /** The position never goes below zero. */
    ghost predicate Valid()
      reads this
    {
      0 <= pos
    }

    /** Mounting the provider, before any `useLogs`: no entries, a row
        count of zero, and the position at zero. */
    constructor ()
      ensures Valid()
      ensures logs == [] && maxRows == 0 && pos == 0
    {
      logs := [];
      maxRows := 0;
      pos := 0;
    }

    /** `useLogs(logJson)`: format the records and replace the list and the
        row count; the position is component state and is kept. A pass
        that aborts leaves the list and the row count as they were. */
    method UseLogs(records: array<CWLog>, parse: string -> Option<Playlist>, now: int)
      returns (r: Result<(), Error>)
      requires Valid()
      modifies this, records
      ensures Valid() && pos == old(pos)
      ensures var z := Reconcile(records[..], now);
              && (r.Ok? <==> Highlighted(z.entries, parse).Ok?)
              && (r.Err? ==> Highlighted(z.entries, parse) == Err(r.error)
                             && logs == old(logs) && maxRows == old(maxRows))
              && (r.Ok? ==> maxRows == z.maxRows && Formatted(logs, z.entries, parse))
      ensures records[..] == SortByKey(old(records[..]))
    {
      var res := FormatLogs(records, parse, now);
      if res.Err? {
        return Err(res.error);
      }
      logs, maxRows := res.value.0, res.value.1;
      r := Ok(());
    }

    /** `getLog(p)`: a position inside the list is selected and its entry
        returned; otherwise the entry at the current position, which is
        absent when the position is outside the list. */
    method GetLog(p: int) returns (r: Option<Log>)
      requires Valid()
      modifies this
      ensures Valid()
      ensures pos == SeekPos(old(pos), p, |logs|)
      ensures r == EntryAt(logs, pos)
      ensures logs == old(logs) && maxRows == old(maxRows)
    {
      if 0 <= p < |logs| {
        pos := p;
        return Some(logs[p]);
      }
      r := EntryAt(logs, pos);
    }

    /** `increment()`: move one entry forward, stopping at the last. */
    method Increment()
      requires Valid()
      modifies this
      ensures Valid()
      ensures pos == NextPos(old(pos), |logs|)
      ensures logs == old(logs) && maxRows == old(maxRows)
    {
      if pos < |logs| - 1 {
        pos := pos + 1;
      }
    }

    /** `decrement()`: move one entry back, stopping at the first. */
    method Decrement()
      requires Valid()
      modifies this
      ensures Valid()
      ensures pos == PrevPos(old(pos))
      ensures logs == old(logs) && maxRows == old(maxRows)
    {
      if pos > 0 {
        pos := pos - 1;
      }
    }

    /** `getLength()`: the number of emitted pairs. */
    function GetLength(): (n: nat)
      reads this
      ensures n == 0 <==> logs == []
      ensures forall k :: 0 <= k < n <==> EntryAt(logs, k).Some?
    {
      |logs|
    }

    /** `getCurrentPos()`: the position, never negative. */
    function GetCurrentPos(): (p: nat)
      requires Valid()
      reads this
      ensures p == pos
      ensures EntryAt(logs, p).Some? <==> p < |logs|
    {
      pos
    }

    /** `getRows()`: the row count of the last formatted pass. */
    function GetRows(): nat
      reads this
    {
      maxRows
    }
  }
}
