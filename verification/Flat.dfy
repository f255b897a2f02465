/** The flat byte array a run of /mem requests presents: what each byte must hold, given every
    request so far. */
module Flat {
  import opened Bytes
  import opened Device

  /** What a write has done: stored bytes, or spoiled what a failed transfer may have touched. */
  datatype Event = Stored(offset: nat, data: seq<byte>) | Spoiled(lo: nat, hi: nat)

  predicate Covers(e: Event, k: nat) {
    match e
    case Stored(offset, data) => offset <= k < offset + |data|
    case Spoiled(lo, hi) => lo <= k < hi
  }

  /** What is known of a byte: its value, or nothing. */
  datatype Knowledge = Known(value: byte) | Unknown

  /** The byte at k: what the latest event covering it says, or what was there at first. */
  function Latest(start: seq<byte>, events: seq<Event>, k: nat): Knowledge
    requires k < |start|
  {
    if events == [] then Known(start[k])
    else
      var e := events[|events| - 1];
      if !Covers(e, k) then Latest(start, events[..|events| - 1], k)
      else if e.Stored? then Known(e.data[k - e.offset])
      else Unknown
  }

  /** A memory that started as `start` and lived through `events`. */
  ghost predicate Explains(start: seq<byte>, events: seq<Event>, mem: seq<byte>) {
    && |start| == |mem|
    && forall k :: 0 <= k < |mem| ==> Latest(start, events, k) == Unknown || Latest(start, events, k) == Known(mem[k])
  }

  lemma LatestOfLast(start: seq<byte>, events: seq<Event>, e: Event, k: nat)
    requires k < |start|
    ensures Latest(start, events + [e], k) ==
            if !Covers(e, k) then Latest(start, events, k)
            else if e.Stored? then Known(e.data[k - e.offset])
            else Unknown
  {
    assert (events + [e])[..|events|] == events;
  }

  lemma StoreExplained(start: seq<byte>, events: seq<Event>, mem: seq<byte>, offset: nat, data: seq<byte>)
    requires Explains(start, events, mem) && offset + |data| <= |mem|
    ensures Explains(start, events + [Stored(offset, data)], Splice(mem, offset, data))
  {
    var e, mem' := Stored(offset, data), Splice(mem, offset, data);
    forall k | 0 <= k < |mem|
      ensures Latest(start, events + [e], k) == Unknown || Latest(start, events + [e], k) == Known(mem'[k])
    {
      LatestOfLast(start, events, e, k);
      SpliceAt(mem, offset, data, k);
    }
  }

  lemma SpoilExplained(start: seq<byte>, events: seq<Event>, mem: seq<byte>, mem': seq<byte>, lo: nat, hi: nat)
    requires Explains(start, events, mem) && SameOutside(mem, mem', lo, hi)
    ensures Explains(start, events + [Spoiled(lo, hi)], mem')
  {
    var e := Spoiled(lo, hi);
    forall k | 0 <= k < |mem|
      ensures Latest(start, events + [e], k) == Unknown || Latest(start, events + [e], k) == Known(mem'[k])
    {
      LatestOfLast(start, events, e, k);
    }
  }

  /** Splicing pointwise. */
  lemma SpliceAt(mem: seq<byte>, at: nat, data: seq<byte>, k: nat)
    requires at + |data| <= |mem| && k < |mem|
    ensures Splice(mem, at, data)[k] == if at <= k < at + |data| then data[k - at] else mem[k]
  {
  }

  /** Once written, a byte stays through everything that misses it: whatever came before the
      write, and whatever followed, failed writes elsewhere included. */
  lemma {:induction false} WrittenStays(start: seq<byte>, before: seq<Event>, e: Event, after: seq<Event>, k: nat)
    requires k < |start| && e.Stored? && Covers(e, k)
    requires forall i :: 0 <= i < |after| ==> !Covers(after[i], k)
    ensures Latest(start, before + [e] + after, k) == Known(e.data[k - e.offset])
    decreases |after|
  {
    if after == [] {
      assert before + [e] + after == before + [e];
      LatestOfLast(start, before, e, k);
    } else {
      var rest := after[..|after| - 1];
      WrittenStays(start, before, e, rest, k);
      assert before + [e] + after == before + [e] + rest + [after[|after| - 1]];
      LatestOfLast(start, before + [e] + rest, after[|after| - 1], k);
    }
  }

  /** Writes to disjoint ranges can change places. */
  lemma DisjointStoresCommute(mem: seq<byte>, a: nat, x: seq<byte>, b: nat, y: seq<byte>)
    requires a + |x| <= b && b + |y| <= |mem|
    ensures Splice(Splice(mem, a, x), b, y) == Splice(Splice(mem, b, y), a, x)
  {
    var l, r := Splice(Splice(mem, a, x), b, y), Splice(Splice(mem, b, y), a, x);
    forall k | 0 <= k < |mem|
      ensures l[k] == r[k]
    {
      SpliceAt(mem, a, x, k);
      SpliceAt(mem, b, y, k);
      SpliceAt(Splice(mem, a, x), b, y, k);
      SpliceAt(Splice(mem, b, y), a, x, k);
    }
  }
}
