/** FPGA configuration over SelectMAP: fic_prog_sm8, fic_prog_sm16 and their fast versions. */
module SelectMap {
  import opened Bytes
  import opened Gpio
  import opened RunLength

  datatype ProgMode = PM_NORMAL | PM_PR
  datatype ProgStatus = PM_STAT_INIT | PM_STAT_PROG | PM_STAT_DONE | PM_STAT_FAIL
  datatype SmapMode = PM_SMAP_8 | PM_SMAP_16

  /** The data pins of a SelectMAP width. */
  function DataPins(width: SmapMode): Pins {
    if width == PM_SMAP_8 then DATA8 else DATA16
  }

  /** The bus switch of mk2. */
  predicate IsConfig(board: Board, g: nat) {
    board == Mk2 && g == RP_CFSEL
  }

  /** Pins fic_prog_init_sm8 and _sm16 turn into outputs driven low, and driven high. */
  predicate DrivenLow(width: SmapMode, g: nat) {
    g == RP_CCLK || g in DataPins(width)
  }

  predicate DrivenHigh(board: Board, g: nat) {
    g == RP_PROG_B || g == RP_CSI_B || g == RP_RDWR_B || IsConfig(board, g)
  }

  /** A datum shifted to the data pins. */
  function OnBus8(b: byte): Pins {
    Shifted(b, RP_CD0, 8)
  }

  function OnBus16(w: half): Pins {
    Shifted(w, RP_CD0, 16)
  }

  /** The samples taken since the first `from` ones carry exactly these bytes. */
  ghost predicate Sampled8(edges: seq<Pins>, from: nat, bytes: seq<byte>) {
    && |edges| == from + |bytes|
    && forall k :: 0 <= k < |bytes| ==> edges[from + k] * DATA8 == OnBus8(bytes[k])
  }

  ghost predicate Sampled16(edges: seq<Pins>, from: nat, words: seq<half>) {
    && |edges| == from + |words|
    && forall k :: 0 <= k < |words| ==> edges[from + k] * DATA16 == OnBus16(words[k])
  }

  /** A trace determines what was sampled, so a stream is a property of the wires alone. */
  lemma SamplesDetermine8(edges: seq<Pins>, from: nat, a: seq<byte>, b: seq<byte>)
    requires Sampled8(edges, from, a) && Sampled8(edges, from, b)
    ensures a == b
  {
    forall k | 0 <= k < |a|
      ensures a[k] == b[k]
    {
      assert edges[from + k] * DATA8 == OnBus8(a[k]);
      PowersOfTwo();
      ShiftedDetermines(a[k], b[k], RP_CD0, 8);
    }
  }

  lemma SamplesDetermine16(edges: seq<Pins>, from: nat, a: seq<half>, b: seq<half>)
    requires Sampled16(edges, from, a) && Sampled16(edges, from, b)
    ensures a == b
  {
    forall k | 0 <= k < |a|
      ensures a[k] == b[k]
    {
      assert edges[from + k] * DATA16 == OnBus16(a[k]);
      PowersOfTwo();
      ShiftedDetermines(a[k], b[k], RP_CD0, 16);
    }
  }

  /** What a byte looks like on the wires: the pins from RP_CD0 on, lowest bit first, show it. */
  lemma ByteOnPins(wires: Pins, b: byte)
    ensures wires * DATA8 == OnBus8(b) <==> ValueOn(wires, RP_CD0, 8) == b
  {
    PowersOfTwo();
    ShowsIff(wires, b, RP_CD0, 8);
  }

  /** And a half-word: its low byte is on RP_CD0 to RP_CD7, its high one on the eight pins above. */
  lemma PairOnPins(wires: Pins, hi: byte, lo: byte)
    ensures wires * DATA16 == OnBus16(Word(hi, lo)) <==>
            ValueOn(wires, RP_CD0, 8) == lo && ValueOn(wires, RP_CD0 + 8, 8) == hi
  {
    PowersOfTwo();
    HalvesShown(wires, Word(hi, lo), hi, lo, RP_CD0, 8);
  }

  predicate IsControl(g: nat) {
    g == RP_PROG_B || g == RP_CSI_B || g == RP_RDWR_B
  }

  /** The control lines are outputs. */
  ghost predicate Controlling(fsel: seq<Pins>)
    requires |fsel| == 3
  {
    forall g: nat | g < 30 && IsControl(g) :: Mode(fsel, g) == OutputMode(g)
  }

  /** Levels at which a slave takes samples: out of reset, selected, and being written to. */
  predicate Selected(wires: Pins) {
    RP_PROG_B in wires && RP_CSI_B !in wires && RP_RDWR_B !in wires
  }

  /** The slave is selected at every sample from `from` on. */
  ghost predicate SelectedFrom(edges: seq<Pins>, from: nat) {
    forall k :: from <= k < |edges| ==> Selected(edges[k])
  }

  /** The clock, the data pins and the control lines are outputs, so the wires show the latch. */
  ghost predicate Driving(fsel: seq<Pins>, width: SmapMode) {
    && |fsel| == 3
    && Controlling(fsel)
    && forall g: nat | g < 30 && DrivenLow(width, g) :: Mode(fsel, g) == OutputMode(g)
  }

  /** The clock and the data pins keep their modes. */
  ghost predicate SameBusModes(fsel: seq<Pins>, fsel': seq<Pins>)
    requires |fsel| == |fsel'| == 3
  {
    forall g: nat | g < 30 && (g == RP_CCLK || g in DATA16) :: Mode(fsel', g) == Mode(fsel, g)
  }

  lemma WiresShowLatch(fsel: seq<Pins>, width: SmapMode, latch: Pins)
    requires Driving(fsel, width)
    ensures OnWires(fsel, latch) * DataPins(width) == latch * DataPins(width)
    ensures RP_CCLK in OnWires(fsel, latch) <==> RP_CCLK in latch
    ensures Selected(OnWires(fsel, latch)) <==> Selected(latch)
  {
    assert DrivenLow(width, RP_CCLK);
    assert IsControl(RP_PROG_B) && IsControl(RP_CSI_B) && IsControl(RP_RDWR_B);
    forall g: nat | g in DataPins(width)
      ensures g in OnWires(fsel, latch) <==> g in latch
    {
      assert DrivenLow(width, g);
    }
  }

  /** The trace grew by edges that all show `image` on the data pins. */
  ghost predicate Shown(before: seq<Pins>, after: seq<Pins>, n: nat, width: SmapMode, image: Pins) {
    && before <= after
    && |after| == |before| + n
    && forall k :: |before| <= k < |after| ==> after[k] * DataPins(width) == image
  }

  /** The same, with the slave selected. */
  ghost predicate Sampled(before: seq<Pins>, after: seq<Pins>, n: nat, width: SmapMode, image: Pins) {
    Shown(before, after, n, width, image) && SelectedFrom(after, |before|)
  }

  lemma SampledTwice(e0: seq<Pins>, e1: seq<Pins>, e2: seq<Pins>, n: nat, m: nat, width: SmapMode, image: Pins)
    requires Sampled(e0, e1, n, width, image) && Sampled(e1, e2, m, width, image)
    ensures Sampled(e0, e2, n + m, width, image)
  {
    ShownTwice(e0, e1, e2, n, m, width, image);
    SelectedGrows(e1, e2, |e0|);
  }

  lemma SelectedGrows(before: seq<Pins>, after: seq<Pins>, from: nat)
    requires SelectedFrom(before, from) && before <= after && SelectedFrom(after, |before|)
    ensures SelectedFrom(after, from)
  {
    forall k | from <= k < |after|
      ensures Selected(after[k])
    {
      assert k < |before| ==> after[k] == before[k];
    }
  }

  /** How many samples the set-up makes: one if the clock's level is left high from before. */
  function Leads(latch: Pins): nat {
    if RP_CCLK in latch then 1 else 0
  }

  lemma ShownTwice(e0: seq<Pins>, e1: seq<Pins>, e2: seq<Pins>, n: nat, m: nat, width: SmapMode, image: Pins)
    requires Shown(e0, e1, n, width, image) && Shown(e1, e2, m, width, image)
    ensures Shown(e0, e2, n + m, width, image)
  {
    forall k | |e0| <= k < |e2|
      ensures e2[k] * DataPins(width) == image
    {
      assert k < |e1| ==> e2[k] == e1[k];
    }
  }

  /** Clocking one datum n more times appends n copies of it to the stream. */
  lemma StreamGrows8(before: seq<Pins>, after: seq<Pins>, from: nat, bytes: seq<byte>, n: nat, b: byte)
    requires Sampled8(before, from, bytes) && Sampled(before, after, n, PM_SMAP_8, OnBus8(b))
    ensures Sampled8(after, from, bytes + Repeat(b, n))
  {
    forall k | 0 <= k < |bytes| + n
      ensures after[from + k] * DATA8 == OnBus8((bytes + Repeat(b, n))[k])
    {
      if k < |bytes| {
        assert after[from + k] == before[from + k];
      }
    }
  }

  lemma StreamGrows16(before: seq<Pins>, after: seq<Pins>, from: nat, words: seq<half>, n: nat, w: half)
    requires Sampled16(before, from, words) && Sampled(before, after, n, PM_SMAP_16, OnBus16(w))
    ensures Sampled16(after, from, words + Repeat(w, n))
  {
    forall k | 0 <= k < |words| + n
      ensures after[from + k] * DATA16 == OnBus16((words + Repeat(w, n))[k])
    {
      if k < |words| {
        assert after[from + k] == before[from + k];
      }
    }
  }

  /** Samples of empty data pins in front of a stream are zeros. */
  lemma LeadIn8(e0: seq<Pins>, e1: seq<Pins>, e2: seq<Pins>, lead: nat, bytes: seq<byte>)
    requires Shown(e0, e1, lead, PM_SMAP_16, {}) && e1 <= e2 && Sampled8(e2, |e1|, bytes)
    ensures e0 <= e2 && Sampled8(e2, |e0|, Repeat(0, lead) + bytes)
  {
    ZeroShowsNothing();
    forall k | 0 <= k < lead + |bytes|
      ensures e2[|e0| + k] * DATA8 == OnBus8((Repeat(0, lead) + bytes)[k])
    {
      if k < lead {
        assert e2[|e0| + k] == e1[|e0| + k];
        assert DATA8 <= DATA16;
      } else {
        assert e2[|e1| + (k - lead)] * DATA8 == OnBus8(bytes[k - lead]);
      }
    }
  }

  lemma LeadIn16(e0: seq<Pins>, e1: seq<Pins>, e2: seq<Pins>, lead: nat, words: seq<half>)
    requires Shown(e0, e1, lead, PM_SMAP_16, {}) && e1 <= e2 && Sampled16(e2, |e1|, words)
    ensures e0 <= e2 && Sampled16(e2, |e0|, Repeat(0, lead) + words)
  {
    ZeroShowsNothing();
    forall k | 0 <= k < lead + |words|
      ensures e2[|e0| + k] * DATA16 == OnBus16((Repeat(0, lead) + words)[k])
    {
      if k < lead {
        assert e2[|e0| + k] == e1[|e0| + k];
      } else {
        assert e2[|e1| + (k - lead)] * DATA16 == OnBus16(words[k - lead]);
      }
    }
  }

  /** A run's trace: `lead` zeros, `sent` of the data and `ticks` copies of the last of them, with
      the slave selected behind the lead. */
  ghost predicate Run8(e0: seq<Pins>, edges: seq<Pins>, data: seq<byte>, lead: nat, sent: nat, ticks: nat) {
    && sent <= |data| && e0 <= edges
    && Sampled8(edges, |e0|, Stream(data, 0, lead, sent, ticks))
    && SelectedFrom(edges, |e0| + lead)
  }

  lemma RunBegins8(e0: seq<Pins>, e1: seq<Pins>, e2: seq<Pins>, data: seq<byte>, lead: nat, sent: nat)
    requires Shown(e0, e1, lead, PM_SMAP_16, {}) && e1 <= e2 && sent <= |data|
    requires Sampled8(e2, |e1|, data[..sent]) && SelectedFrom(e2, |e1|)
    ensures Run8(e0, e2, data, lead, sent, 0)
  {
    LeadIn8(e0, e1, e2, lead, data[..sent]);
    assert Stream(data, 0, lead, sent, 0) == Repeat(0, lead) + data[..sent];
  }

  lemma RunEnds8(e0: seq<Pins>, e1: seq<Pins>, e2: seq<Pins>, data: seq<byte>, lead: nat, sent: nat, ticks: nat)
    requires Run8(e0, e1, data, lead, sent, 0)
    requires Sampled(e1, e2, ticks, PM_SMAP_8, OnBus8(Prev(data, 0, sent)))
    ensures Run8(e0, e2, data, lead, sent, ticks)
  {
    SelectedGrows(e1, e2, |e0| + lead);
    StreamGrows8(e1, e2, |e0|, Stream(data, 0, lead, sent, 0), ticks, Prev(data, 0, sent));
    assert Stream(data, 0, lead, sent, ticks) == Stream(data, 0, lead, sent, 0) + Repeat(Prev(data, 0, sent), ticks);
  }

  /** A run's trace: `lead` zeros, `sent` of the data and `ticks` copies of the last of them, with
      the slave selected behind the lead. */
  ghost predicate Run16(e0: seq<Pins>, edges: seq<Pins>, ws: seq<half>, lead: nat, sent: nat, ticks: nat) {
    && sent <= |ws| && e0 <= edges
    && Sampled16(edges, |e0|, Stream(ws, 0, lead, sent, ticks))
    && SelectedFrom(edges, |e0| + lead)
  }

  lemma RunBegins16(e0: seq<Pins>, e1: seq<Pins>, e2: seq<Pins>, ws: seq<half>, lead: nat, sent: nat)
    requires Shown(e0, e1, lead, PM_SMAP_16, {}) && e1 <= e2 && sent <= |ws|
    requires Sampled16(e2, |e1|, ws[..sent]) && SelectedFrom(e2, |e1|)
    ensures Run16(e0, e2, ws, lead, sent, 0)
  {
    LeadIn16(e0, e1, e2, lead, ws[..sent]);
    assert Stream(ws, 0, lead, sent, 0) == Repeat(0, lead) + ws[..sent];
  }

  lemma RunEnds16(e0: seq<Pins>, e1: seq<Pins>, e2: seq<Pins>, ws: seq<half>, lead: nat, sent: nat, ticks: nat)
    requires Run16(e0, e1, ws, lead, sent, 0)
    requires Sampled(e1, e2, ticks, PM_SMAP_16, OnBus16(Prev(ws, 0, sent)))
    ensures Run16(e0, e2, ws, lead, sent, ticks)
  {
    SelectedGrows(e1, e2, |e0| + lead);
    StreamGrows16(e1, e2, |e0|, Stream(ws, 0, lead, sent, 0), ticks, Prev(ws, 0, sent));
    assert Stream(ws, 0, lead, sent, ticks) == Stream(ws, 0, lead, sent, 0) + Repeat(Prev(ws, 0, sent), ticks);
  }

  /** What a run puts on the data pins at each of its samples: the lead's zero, the bytes of the
      buffer one by one, and the last of them again. */
  lemma RunCarries8(e0: seq<Pins>, edges: seq<Pins>, data: seq<byte>, lead: nat, sent: nat, ticks: nat, k: nat)
    requires Run8(e0, edges, data, lead, sent, ticks) && k < lead + sent + ticks
    ensures |edges| == |e0| + lead + sent + ticks
    ensures ValueOn(edges[|e0| + k], RP_CD0, 8) ==
            if k < lead then 0 else if k < lead + sent then data[k - lead] else Prev(data, 0, sent)
  {
    var b := Stream(data, 0, lead, sent, ticks)[k];
    assert edges[|e0| + k] * DATA8 == OnBus8(b);
    ByteOnPins(edges[|e0| + k], b);
  }

  /** The same for the byte pairs of a buffer. */
  lemma RunCarries16(e0: seq<Pins>, edges: seq<Pins>, data: seq<byte>, lead: nat, sent: nat, ticks: nat, k: nat)
    requires Run16(e0, edges, Halves(data), lead, sent, ticks) && k < lead + sent + ticks
    ensures |edges| == |e0| + lead + sent + ticks
    ensures var pair := if k < lead + sent then k - lead else sent - 1;
            && ValueOn(edges[|e0| + k], RP_CD0, 8) == (if k < lead || pair < 0 then 0 else data[2 * pair])
            && ValueOn(edges[|e0| + k], RP_CD0 + 8, 8) == (if k < lead || pair < 0 then 0 else data[2 * pair + 1])
  {
    var hi, lo := StreamPair(data, lead, sent, ticks, k);
    var wires, w := edges[|e0| + k], Stream(Halves(data), 0, lead, sent, ticks)[k];
    assert wires * DATA16 == OnBus16(w);
    PairOnPins(wires, hi, lo);
  }

  lemma StreamPair(data: seq<byte>, lead: nat, sent: nat, ticks: nat, k: nat) returns (hi: byte, lo: byte)
    requires k < lead + sent + ticks && sent <= |Halves(data)|
    ensures Stream(Halves(data), 0, lead, sent, ticks)[k] == Word(hi, lo)
    ensures var pair := if k < lead + sent then k - lead else sent - 1;
            && lo == (if k < lead || pair < 0 then 0 else data[2 * pair])
            && hi == (if k < lead || pair < 0 then 0 else data[2 * pair + 1])
  {
    var ws, pair := Halves(data), if k < lead + sent then k - lead else sent - 1;
    StreamAt(ws, 0, lead, sent, ticks, k);
    if k < lead || pair < 0 {
      hi, lo := 0, 0;
    } else {
      hi, lo := data[2 * pair + 1], data[2 * pair];
      assert ws[pair] == Word(hi, lo);
    }
  }

  lemma {:induction false} ZeroHasNoBits(k: nat)
    ensures !Bit(0, k)
  {
    if k > 0 {
      ZeroHasNoBits(k - 1);
    }
  }

  lemma ZeroShifted(n: nat, low: nat, width: nat)
    requires n == 0 && width > 0
    ensures Shifted(n, low, width) == {}
  {
    forall k: nat
      ensures !Bit(0, k)
    {
      ZeroHasNoBits(k);
    }
  }

  lemma ZeroShowsNothing()
    ensures OnBus8(0) == {} && OnBus16(0) == {} && OnBus16(Word(0, 0)) == {}
  {
    ZeroShifted(0, RP_CD0, 8);
    ZeroShifted(0, RP_CD0, 16);
    ZeroShifted(Word(0, 0), RP_CD0, 16);
  }

  /** Four half-words in a row equal hi:lo. */
  lemma SameFour(data: seq<byte>, h: nat, hi: byte, lo: byte)
    requires 2 * h + 8 <= |data|
    ensures var i := 2 * h;
            (forall k :: h <= k < h + 4 ==> Halves(data)[k] == Word(hi, lo)) <==>
            && hi == data[i + 1] && lo == data[i] && hi == data[i + 3] && lo == data[i + 2]
            && hi == data[i + 5] && lo == data[i + 4] && hi == data[i + 7] && lo == data[i + 6]
  {
    var i, ws := 2 * h, Halves(data);
    assert ws[h] == Word(data[i + 1], data[i]) && ws[h + 1] == Word(data[i + 3], data[i + 2]);
    assert ws[h + 2] == Word(data[i + 5], data[i + 4]) && ws[h + 3] == Word(data[i + 7], data[i + 6]);
    SameWord(data[i + 1], data[i], hi, lo);
    SameWord(data[i + 3], data[i + 2], hi, lo);
    SameWord(data[i + 5], data[i + 4], hi, lo);
    SameWord(data[i + 7], data[i + 6], hi, lo);
  }

  lemma SameWord(hi: byte, lo: byte, hi': byte, lo': byte)
    ensures Word(hi, lo) == Word(hi', lo') <==> hi == hi' && lo == lo'
  {
  }

  lemma RunOfEight<T>(ws: seq<T>, h: nat, w: T)
    requires h + 8 <= |ws|
    ensures (forall k :: h <= k < h + 8 ==> ws[k] == w) <==>
            (forall k :: h <= k < h + 4 ==> ws[k] == w) && (forall k :: h + 4 <= k < h + 4 + 4 ==> ws[k] == w)
  {
  }

  /** The comparisons of the fast 16-bit loop decide its pass. */
  lemma PassByBytes(data: seq<byte>, h: nat, hi': byte, lo': byte)
    requires 2 * h + 16 <= |data| && Word(hi', lo') == Prev(Halves(data), 0, h)
    ensures var i := 2 * h;
            var hi, lo := data[i + 1], data[i];
            var four := hi == data[i + 3] && lo == data[i + 2] && hi == data[i + 5] && lo == data[i + 4] &&
                        hi == data[i + 7] && lo == data[i + 6];
            var eight := hi == data[i + 9] && lo == data[i + 8] && hi == data[i + 11] && lo == data[i + 10] &&
                         hi == data[i + 13] && lo == data[i + 12] && hi == data[i + 15] && lo == data[i + 14];
            && Halves(data)[h] == Word(hi, lo)
            && Pass(Halves(data), 0, h, 8) == if hi == hi' && lo == lo' && four then (if eight then 8 else 4) else 1
  {
    var ws := Halves(data);
    PassOfEight(ws, 0, h);
    SameFour(data, h, data[2 * h + 1], data[2 * h]);
    SameFour(data, h + 4, data[2 * h + 1], data[2 * h]);
    RunOfEight(ws, h, ws[h]);
    SameWord(data[2 * h + 1], data[2 * h], hi', lo');
  }

  /** The reset that the set-up of the pins makes: one if PROG_B's level is low from before. */
  function Pulls(latch: Pins, samples: nat): seq<nat> {
    if RP_PROG_B in latch then [] else [samples]
  }

  /** The resets of a run that starts with these levels and samples: the one the set-up may make,
      and unless this is a partial reconfiguration the one that is meant, behind the lead and in
      front of all data. */
  function Resets(latch: Pins, samples: nat, pm: ProgMode): seq<nat> {
    Pulls(latch, samples) + if pm == PM_PR then [] else [samples + Leads(latch)]
  }

  /** A run has made those resets, or some of the first of them if it failed before the data. */
  ghost predicate Reset(r0: seq<nat>, r1: seq<nat>, latch: Pins, samples: nat, pm: ProgMode, all: bool) {
    var pulls := Resets(latch, samples, pm);
    r0 <= r1 <= r0 + pulls && (all ==> r1 == r0 + pulls)
  }

  /** The resets of the set-up of the pins, some or all, and those of fic_prog_init. */
  lemma ResetsJoin(r0: seq<nat>, r1: seq<nat>, r2: seq<nat>, latch: Pins, samples: nat, pm: ProgMode, all: bool)
    requires r0 <= r1 <= r0 + Pulls(latch, samples)
    requires var more := if pm == PM_PR then [] else [samples + Leads(latch)];
             if r1 == r0 + Pulls(latch, samples) then r1 <= r2 <= r1 + more && (all ==> r2 == r1 + more)
             else r2 == r1 && !all
    ensures Reset(r0, r2, latch, samples, pm, all)
  {
    var more := if pm == PM_PR then [] else [samples + Leads(latch)];
    assert r0 + Pulls(latch, samples) + more == r0 + Resets(latch, samples, pm);
  }

  /** What a run has seen and done that is reported as done. */
  ghost predicate Approved(r0: seq<Level>, ready: seq<Level>, r1: seq<Level>, n: nat, pm: ProgMode,
                           ticks: nat, high: bool) {
    Prepared(r0, ready, pm) && Confirmed(ready, r1, n, pm, ticks, high)
  }

  /** What the set-up has seen: nothing for partial reconfiguration, otherwise that INIT_B rose
      and that DONE was then low. */
  ghost predicate Prepared(r0: seq<Level>, r1: seq<Level>, pm: ProgMode) {
    if pm == PM_PR then r1 == r0
    else r0 <= r1 && |r1| >= |r0| + 2 && r1[|r1| - 2..] == [Level(RP_INIT, true), Level(RP_DONE, false)]
  }

  /** What a wait for DONE has seen that is not given up: DONE, high or not, at last, and INIT_B
      never low. Between two looks at DONE the clock rises once, except that the first time it
      may be `high` already. */
  ghost predicate Polled(r0: seq<Level>, r1: seq<Level>, done: bool, ticks: nat, high: bool) {
    && r0 <= r1 && |r0| < |r1| && r1[|r1| - 1] == Level(RP_DONE, done)
    && Level(RP_INIT, false) !in r1[|r0|..]
    && |r1| - |r0| == 2 * ticks + if high && |r1| > |r0| + 1 then 3 else 1
  }

  lemma PolledAgain(r0: seq<Level>, r1: seq<Level>, r2: seq<Level>, done: bool, ticks: nat, more: nat, high: bool)
    requires Polled(r0, r1, false, ticks, high) && r2 == r1 + [INIT_HIGH, Level(RP_DONE, done)]
    requires more == if high && |r1| == |r0| + 1 then 0 else 1
    ensures Polled(r0, r2, done, ticks + more, high)
  {
    assert r2[|r0|..] == r1[|r0|..] + [INIT_HIGH, Level(RP_DONE, done)];
  }

  const INIT_HIGH: Level := Level(RP_INIT, true)

  /** What a run that is reported as done has seen: INIT_B high at each of its n checks, and then,
      unless this is a partial reconfiguration, DONE high. */
  ghost predicate Confirmed(r0: seq<Level>, r1: seq<Level>, n: nat, pm: ProgMode, ticks: nat, high: bool) {
    if pm == PM_PR then r1 == r0 + Repeat(INIT_HIGH, n) else Polled(r0 + Repeat(INIT_HIGH, n), r1, true, ticks, high)
  }

  /** Pins below i have their modes and levels, and the others are inputs. */
  ghost predicate PinsSet(board: Board, width: SmapMode, i: nat, fsel: seq<Pins>, latch: Pins)
    requires |fsel| == 3
  {
    && (forall g: nat | g < 30 ::
          Mode(fsel, g) == if g < i && (DrivenLow(width, g) || DrivenHigh(board, g)) then OutputMode(g) else {})
    && forall g: nat | g < i :: (DrivenLow(width, g) ==> g !in latch) && (DrivenHigh(board, g) ==> g in latch)
  }

  lemma NextPinSet(board: Board, width: SmapMode, i: nat, fsel: seq<Pins>, latch: Pins, fsel': seq<Pins>, latch': Pins)
    requires |fsel| == |fsel'| == 3 && i < 30 && PinsSet(board, width, i, fsel, latch)
    requires forall g: nat | g < 30 ::
               Mode(fsel', g) == if g == i && (DrivenLow(width, i) || DrivenHigh(board, i)) then OutputMode(g)
                                 else Mode(fsel, g)
    requires latch' == if DrivenHigh(board, i) then latch + {i} else if DrivenLow(width, i) then latch - {i} else latch
    ensures PinsSet(board, width, i + 1, fsel', latch')
  {
    forall g: nat | g < i + 1
      ensures (DrivenLow(width, g) ==> g !in latch') && (DrivenHigh(board, g) ==> g in latch')
    {
      assert DrivenHigh(board, i) ==> !DrivenLow(width, i);
    }
  }

  /** fic_prog_init leaves clock and data as the set-up of the pins left them. */
  lemma StillDriving(board: Board, width: SmapMode, fsel: seq<Pins>, latch: Pins, fsel': seq<Pins>, latch': Pins)
    requires |fsel| == |fsel'| == 3 && PinsSet(board, width, GPIO_PIN_MAX + 1, fsel, latch)
    requires SameBusModes(fsel, fsel') && Controlling(fsel') && latch' * BUS == latch * BUS
    ensures Driving(fsel', width) && latch' * DataPins(width) == {} && RP_CCLK !in latch'
  {
    assert forall g: nat | g in BUS :: g in latch' * BUS <==> g in latch * BUS;
    forall g: nat | DrivenLow(width, g)
      ensures g < GPIO_PIN_MAX + 1 && g !in latch'
    {
      assert g in BUS && g !in latch;
    }
    assert DrivenLow(width, RP_CCLK);
    assert forall g: nat | g in DataPins(width) :: DrivenLow(width, g);
  }

  /** Setting it again changes nothing. */
  lemma ConfigStillSet(board: Board, width: SmapMode, fsel: seq<Pins>, latch: Pins, fsel': seq<Pins>, latch': Pins)
    requires |fsel| == |fsel'| == 3 && PinsSet(board, width, GPIO_PIN_MAX + 1, fsel, latch)
    requires latch' == latch + if board == Mk2 then {RP_CFSEL} else {}
    requires forall h: nat | h < 30 ::
               Mode(fsel', h) == Mode(fsel, h) + if IsConfig(board, h) then OutputMode(h) else {}
    ensures PinsSet(board, width, GPIO_PIN_MAX + 1, fsel', latch')
  {
    assert board == Mk2 ==> DrivenHigh(board, RP_CFSEL);
  }

  class Programmer {
    const board: Board
    const gpio: Registers
    // PROG_STAT
    var stat: ProgStatus
    var smapMode: SmapMode
    var progMode: ProgMode
    var progSize: nat
    var txSize: nat

    constructor (board: Board, gpio: Registers)
      ensures this.board == board && this.gpio == gpio
    {
      this.board, this.gpio := board, gpio;
      stat, smapMode, progMode, progSize, txSize := PM_STAT_INIT, PM_SMAP_8, PM_NORMAL, 0, 0;
    }

    /** What fic_prog_init_sm8 and fic_prog_init_sm16 do to one pin. Turning the clock into an
        output while its level is high makes a sample, of data pins that are still inputs. */
    method InitPin(width: SmapMode, i: nat) returns (ret: int)
      requires gpio.Valid() && i <= GPIO_PIN_MAX
      requires Mode(gpio.fsel, i) == {} && RP_CCLK !in gpio.Wires() && (i > RP_CCLK ==> RP_CCLK !in gpio.latch)
      requires i <= RP_CCLK ==> gpio.Wires() * DATA16 == {}
      modifies gpio
      ensures gpio.Valid() && Explained(ret, old(gpio.faults), gpio.faults)
      ensures Shown(old(gpio.edges), gpio.edges, if i == RP_CCLK then Leads(old(gpio.latch)) else 0, PM_SMAP_16, {})
      ensures RP_CCLK !in gpio.Wires() && gpio.steady == old(gpio.steady)
      ensures forall g: nat | g < 30 ::
                Mode(gpio.fsel, g) == if g == i && (DrivenLow(width, i) || DrivenHigh(board, i)) then OutputMode(g)
                                      else old(Mode(gpio.fsel, g))
      ensures gpio.latch == if DrivenHigh(board, i) then old(gpio.latch) + {i}
                            else if DrivenLow(width, i) then old(gpio.latch) - {i} else old(gpio.latch)
      ensures gpio.resets == old(gpio.resets) + if i == RP_PROG_B then Pulls(old(gpio.latch), |gpio.edges|) else []
      ensures gpio.readings == old(gpio.readings)
    {
      ret := 0;
      if i == RP_PWOK || i == RP_INIT || i == RP_DONE || (board == Mk1 && i == RP_CFSEL) {
        gpio.SetInput(i);
      }
      if DrivenHigh(board, i) {
        gpio.MakeOutput(i);
        ret := gpio.SetChecked({i});
      }
      if DrivenLow(width, i) {
        ghost var fsel := gpio.fsel;
        gpio.MakeOutput(i);
        ModeOnly(fsel, gpio.fsel, gpio.latch, i);
        ret := gpio.ClrChecked({i});
      }
    }

    /** Pins below i are set up and the others are inputs; the clock, if set up, is low. */
    ghost predicate PinsDone(width: SmapMode, i: nat)
      reads this, gpio
    {
      gpio.Valid() && RP_CCLK !in gpio.Wires() && PinsSet(board, width, i, gpio.fsel, gpio.latch)
    }

    /** Samples and resets made by the time the pins below i are set up. */
    ghost predicate LedIn(e0: seq<Pins>, r0: seq<nat>, latch0: Pins, i: nat, lead: nat)
      reads gpio
    {
      && gpio.resets == r0 + (if i <= RP_PROG_B then [] else Pulls(latch0, |e0|))
      && (i <= RP_PROG_B ==> (RP_PROG_B in gpio.latch <==> RP_PROG_B in latch0))
      && Shown(e0, gpio.edges, lead, PM_SMAP_16, {})
      && lead == (if i <= RP_CCLK then 0 else Leads(latch0))
      && (i <= RP_CCLK ==> (RP_CCLK in gpio.latch <==> RP_CCLK in latch0))
    }

    /** Set up pin i next. */
    method InitNext(width: SmapMode, i: nat,
                    ghost e0: seq<Pins>, ghost r0: seq<nat>, ghost latch0: Pins, ghost l0: nat)
      returns (ret: int, ghost lead: nat)
      requires i <= GPIO_PIN_MAX && PinsDone(width, i) && LedIn(e0, r0, latch0, i, l0)
      modifies gpio
      ensures PinsDone(width, i + 1) && LedIn(e0, r0, latch0, i + 1, lead)
      ensures Explained(ret, old(gpio.faults), gpio.faults) && gpio.steady == old(gpio.steady)
      ensures gpio.readings == old(gpio.readings)
    {
      assert i > RP_CCLK ==> DrivenLow(width, RP_CCLK);
      ghost var more := if i == RP_CCLK then Leads(gpio.latch) else 0;
      ghost var before, fsel, latch := gpio.edges, gpio.fsel, gpio.latch;
      ret := InitPin(width, i);
      NextPinSet(board, width, i, fsel, latch, gpio.fsel, gpio.latch);
      ShownTwice(e0, before, gpio.edges, l0, more, PM_SMAP_16, {});
      lead := l0 + more;
    }

    /** fic_prog_init_sm8 and fic_prog_init_sm16: pin directions, control lines high, clock and
        data lines low. If the clock's level was high before, the slave takes `lead`, one sample
        that shows zero; otherwise it takes none. */
    method InitPins(width: SmapMode) returns (ret: int, ghost lead: nat)
      requires gpio.Valid()
      modifies gpio
      ensures gpio.Valid() && Explained(ret, old(gpio.faults), gpio.faults)
      ensures lead <= Leads(old(gpio.latch)) && (ret == 0 ==> lead == Leads(old(gpio.latch)))
      ensures Shown(old(gpio.edges), gpio.edges, lead, PM_SMAP_16, {}) && gpio.steady == old(gpio.steady)
      ensures ret == 0 ==> PinsDone(width, GPIO_PIN_MAX + 1)
      ensures old(gpio.resets) <= gpio.resets <= old(gpio.resets) + Pulls(old(gpio.latch), |old(gpio.edges)|)
      ensures ret == 0 ==> gpio.resets == old(gpio.resets) + Pulls(old(gpio.latch), |old(gpio.edges)|)
      ensures gpio.readings == old(gpio.readings)
    {
      gpio.SetAllInput();
      var i := 0;
      ghost var e0, r0, latch0 := gpio.edges, gpio.resets, gpio.latch;
      lead := 0;
      while i <= GPIO_PIN_MAX
        invariant i <= 28 && gpio.faults == old(gpio.faults) && gpio.steady == old(gpio.steady)
        invariant gpio.readings == old(gpio.readings)
        invariant PinsDone(width, i) && LedIn(e0, r0, latch0, i, lead)
      {
        ret, lead := InitNext(width, i, e0, r0, latch0, lead);
        if ret < 0 { return -1, lead; }
        i := i + 1;
      }
      ghost var fsel, latch := gpio.fsel, gpio.latch;
      ret := SelectConfig();
      ConfigStillSet(board, width, fsel, latch, gpio.fsel, gpio.latch);
    }

    /** On mk2: the bus switch is set to configuration. */
    method SelectConfig() returns (ret: int)
      requires gpio.Valid()
      modifies gpio`fsel, gpio`latch, gpio`edges, gpio`steady, gpio`resets, gpio`faults
      ensures gpio.Valid() && Explained(ret, old(gpio.faults), gpio.faults)
      ensures gpio.edges == old(gpio.edges) && gpio.steady == old(gpio.steady) && gpio.resets == old(gpio.resets)
      ensures gpio.latch == old(gpio.latch) + if board == Mk2 then {RP_CFSEL} else {}
      ensures forall h: nat | h < 30 ::
                Mode(gpio.fsel, h) == Mode(old(gpio.fsel), h) + if IsConfig(board, h) then OutputMode(h) else {}
    {
      ret := 0;
      if board == Mk2 {
        gpio.SetOutput(RP_CFSEL);
        ret := gpio.SetChecked({RP_CFSEL});
      }
    }

    /** fic_prog_init: reset the FPGA, or select it for partial reconfiguration, which does not
        reset it if PROG_B is high. */
    method InitFpga(pm: ProgMode) returns (ret: int)
      requires gpio.Valid()
      modifies gpio
      ensures gpio.Valid() && Explained(ret, old(gpio.faults), gpio.faults)
      ensures gpio.edges == old(gpio.edges) && gpio.steady == old(gpio.steady)
      ensures ret == 0 ==> Controlling(gpio.fsel) && Selected(gpio.latch) && (board == Mk2 ==> RP_CFSEL in gpio.latch)
      ensures board == Mk2 ==> OutputMode(RP_CFSEL) <= Mode(gpio.fsel, RP_CFSEL)
      ensures SameBusModes(old(gpio.fsel), gpio.fsel) && gpio.latch * BUS == old(gpio.latch) * BUS
      ensures var pulls := Pulls(old(gpio.latch), |gpio.edges|) + if pm == PM_PR then [] else [|gpio.edges|];
              && old(gpio.resets) <= gpio.resets <= old(gpio.resets) + pulls
              && (ret == 0 ==> gpio.resets == old(gpio.resets) + pulls)
      ensures old(gpio.readings) <= gpio.readings
      ensures ret == 0 ==> Prepared(old(gpio.readings), gpio.readings, pm)
    {
      ret := SelectConfig();
      if ret < 0 { return -1; }
      ret := Select(pm);
      if ret < 0 || pm == PM_PR { return; }
      ret := ResetFpga();
    }

    /** The control lines become outputs, high; for partial reconfiguration CSI_B and RDWR_B go
        low again. */
    method Select(pm: ProgMode) returns (ret: int)
      requires gpio.Valid()
      modifies gpio
      ensures gpio.Valid() && Explained(ret, old(gpio.faults), gpio.faults)
      ensures gpio.edges == old(gpio.edges) && gpio.steady == old(gpio.steady)
      ensures Controlling(gpio.fsel) && RP_PROG_B in gpio.latch
      ensures SameBusModes(old(gpio.fsel), gpio.fsel) && gpio.latch * BUS == old(gpio.latch) * BUS
      ensures ret == 0 && pm == PM_PR ==> Selected(gpio.latch)
      ensures RP_CFSEL in old(gpio.latch) ==> RP_CFSEL in gpio.latch
      ensures Mode(gpio.fsel, RP_CFSEL) == old(Mode(gpio.fsel, RP_CFSEL))
      ensures gpio.resets == old(gpio.resets) + Pulls(old(gpio.latch), |gpio.edges|)
      ensures gpio.readings == old(gpio.readings)
    {
      gpio.MakeOutput(RP_PROG_B);
      gpio.MakeOutput(RP_CSI_B);
      gpio.MakeOutput(RP_RDWR_B);
      ret := gpio.SetChecked({RP_PROG_B, RP_CSI_B, RP_RDWR_B});
      if ret < 0 { return -1; }
      if pm == PM_PR {
        ret := gpio.ClrChecked({RP_CSI_B, RP_RDWR_B});
      }
    }

    /** The reset sequence of fic_prog_init: PROG_B goes low and high again, INIT_B rises, and DONE
        is low. */
    method ResetFpga() returns (ret: int)
      requires gpio.Valid() && Controlling(gpio.fsel) && RP_PROG_B in gpio.latch
      modifies gpio`latch, gpio`edges, gpio`steady, gpio`resets, gpio`readings, gpio`faults
      ensures Explained(ret, old(gpio.faults), gpio.faults)
      ensures gpio.edges == old(gpio.edges) && gpio.steady == old(gpio.steady)
      ensures gpio.latch * BUS == old(gpio.latch) * BUS
      ensures ret == 0 ==> Selected(gpio.latch)
      ensures RP_CFSEL in old(gpio.latch) ==> RP_CFSEL in gpio.latch
      ensures old(gpio.resets) <= gpio.resets <= old(gpio.resets) + [|gpio.edges|]
      ensures ret == 0 ==> gpio.resets == old(gpio.resets) + [|gpio.edges|]
      ensures old(gpio.readings) <= gpio.readings
      ensures ret == 0 ==> Prepared(old(gpio.readings), gpio.readings, PM_NORMAL)
    {
      assert IsControl(RP_PROG_B);
      ret := gpio.SetChecked({RP_PROG_B, RP_CSI_B, RP_RDWR_B});
      if ret < 0 { return -1; }
      ret := gpio.ClrChecked({RP_PROG_B, RP_CSI_B, RP_RDWR_B});
      if ret < 0 { return -1; }
      ret := gpio.SetChecked({RP_PROG_B});
      if ret < 0 { return -1; }
      ret := CheckReset();
    }

    /** Polls INIT_B until it is high, which it becomes in the end, and then looks at DONE. */
    method CheckReset() returns (ret: int)
      modifies gpio`readings, gpio`faults
      ensures Explained(ret, old(gpio.faults), gpio.faults)
      ensures old(gpio.readings) <= gpio.readings
      ensures ret == 0 ==> Prepared(old(gpio.readings), gpio.readings, PM_NORMAL)
    {
      gpio.AwaitHigh(RP_INIT);
      var done := gpio.Get(RP_DONE);
      ret := gpio.Demand(!done);
    }

    /** What all four programming functions do first; the clock ends low and the data pins show
        zero. */
    method Begin(width: SmapMode, size: nat, pm: ProgMode) returns (ret: int, ghost lead: nat)
      requires gpio.Valid()
      modifies this, gpio
      ensures gpio.Valid() && Explained(ret, old(gpio.faults), gpio.faults)
      ensures lead <= Leads(old(gpio.latch)) && (ret == 0 ==> lead == Leads(old(gpio.latch)))
      ensures Shown(old(gpio.edges), gpio.edges, lead, PM_SMAP_16, {}) && gpio.steady == old(gpio.steady)
      ensures stat == PM_STAT_PROG && smapMode == width && progMode == pm && progSize == size && txSize == 0
      ensures ret == 0 ==> Driving(gpio.fsel, width) && gpio.latch * DataPins(width) == {} && RP_CCLK !in gpio.latch
      ensures ret == 0 ==> Selected(gpio.latch) && (board == Mk2 ==> RP_CFSEL in gpio.latch)
      ensures Reset(old(gpio.resets), gpio.resets, old(gpio.latch), |old(gpio.edges)|, pm, ret == 0)
      ensures old(gpio.readings) <= gpio.readings
      ensures ret == 0 ==> Prepared(old(gpio.readings), gpio.readings, pm)
    {
      stat, smapMode, progMode, progSize, txSize := PM_STAT_PROG, width, pm, size, 0;
      ghost var r0, latch0, samples := gpio.resets, gpio.latch, |gpio.edges|;
      ret, lead := InitPins(width);
      ghost var r1 := gpio.resets;
      if ret < 0 {
        assert gpio.resets <= r0 + Resets(latch0, samples, pm);
        return;
      }
      ret := InitAndClear(width, pm);
      ResetsJoin(r0, r1, gpio.resets, latch0, samples, pm, ret == 0);
    }

    /** fic_prog_init, and the clock low. */
    method InitAndClear(width: SmapMode, pm: ProgMode) returns (ret: int)
      requires gpio.Valid() && PinsDone(width, GPIO_PIN_MAX + 1)
      modifies gpio
      ensures gpio.Valid() && Explained(ret, old(gpio.faults), gpio.faults)
      ensures gpio.edges == old(gpio.edges) && gpio.steady == old(gpio.steady)
      ensures ret == 0 ==> Driving(gpio.fsel, width) && gpio.latch * DataPins(width) == {} && RP_CCLK !in gpio.latch
      ensures ret == 0 ==> Selected(gpio.latch) && (board == Mk2 ==> RP_CFSEL in gpio.latch)
      ensures var pull := if pm == PM_PR then [] else [|gpio.edges|];
              && old(gpio.resets) <= gpio.resets <= old(gpio.resets) + pull
              && (ret == 0 ==> gpio.resets == old(gpio.resets) + pull)
      ensures old(gpio.readings) <= gpio.readings
      ensures ret == 0 ==> Prepared(old(gpio.readings), gpio.readings, pm)
    {
      ghost var fsel, latch := gpio.fsel, gpio.latch;
      assert DrivenHigh(board, RP_PROG_B);
      ret := InitFpga(pm);
      if ret < 0 { return; }
      StillDriving(board, width, fsel, latch, gpio.fsel, gpio.latch);
      ret := gpio.ClrChecked({RP_CCLK});
    }

    /** CLR_GPIO = CCLK, then SET_GPIO = CCLK `sets` times: one more sample of the same datum. */
    method ClockAgain(width: SmapMode, sets: nat)
      requires Driving(gpio.fsel, width) && Selected(gpio.latch) && sets > 0
      modifies gpio`latch, gpio`edges, gpio`steady, gpio`resets
      ensures Sampled(old(gpio.edges), gpio.edges, 1, width, old(gpio.latch) * DataPins(width))
      ensures gpio.latch == old(gpio.latch) + {RP_CCLK}
      ensures gpio.steady == old(gpio.steady) && gpio.resets == old(gpio.resets)
      ensures Selected(gpio.latch)
    {
      gpio.Clr({RP_CCLK});
      ghost var low := gpio.latch;
      gpio.Set({RP_CCLK});
      LevelsHoldData(gpio.fsel, low, gpio.latch);
      WiresShowLatch(gpio.fsel, width, gpio.latch);
      WiresShowLatch(gpio.fsel, width, low);
      var j := 1;
      while j < sets
        invariant Sampled(old(gpio.edges), gpio.edges, 1, width, old(gpio.latch) * DataPins(width))
        invariant gpio.latch == old(gpio.latch) + {RP_CCLK}
        invariant gpio.steady == old(gpio.steady) && gpio.resets == old(gpio.resets)
      {
        ghost var high := gpio.latch;
        gpio.Set({RP_CCLK});
        LevelsHoldData(gpio.fsel, high, gpio.latch);
        WiresShowLatch(gpio.fsel, width, high);
        j := j + 1;
      }
    }

    /** The zeros with the clock down, the ones, then the ones with the clock up, `sets` times. */
    method ClockDatum(width: SmapMode, image: Pins, sets: nat)
      requires Driving(gpio.fsel, width) && Selected(gpio.latch) && image <= DataPins(width) && sets > 0
      modifies gpio`latch, gpio`edges, gpio`steady, gpio`resets
      ensures Sampled(old(gpio.edges), gpio.edges, 1, width, image)
      ensures gpio.latch * DataPins(width) == image && RP_CCLK in gpio.latch && Selected(gpio.latch)
      ensures gpio.steady == old(gpio.steady) && gpio.resets == old(gpio.resets)
    {
      gpio.Clr((DataPins(width) - image) + {RP_CCLK});
      WiresShowLatch(gpio.fsel, width, gpio.latch);
      gpio.Set(image);
      ghost var low := gpio.latch;
      WiresShowLatch(gpio.fsel, width, low);
      gpio.Set(image + {RP_CCLK});
      LevelsHoldData(gpio.fsel, low, gpio.latch);
      WiresShowLatch(gpio.fsel, width, gpio.latch);
      var j := 1;
      while j < sets
        invariant Sampled(old(gpio.edges), gpio.edges, 1, width, image)
        invariant gpio.latch * DataPins(width) == image && image <= gpio.latch && RP_CCLK in gpio.latch
        invariant Selected(gpio.latch)
        invariant gpio.steady == old(gpio.steady) && gpio.resets == old(gpio.resets)
      {
        ghost var high := gpio.latch;
        gpio.Set(image + {RP_CCLK});
        LevelsHoldData(gpio.fsel, high, gpio.latch);
        WiresShowLatch(gpio.fsel, width, high);
        j := j + 1;
      }
    }

    /** _toggle_cclk4, 8, 12 and 16: the clock alone, n times down twice and up twice. */
    method ToggleCclk(width: SmapMode, n: nat)
      requires Driving(gpio.fsel, width) && Selected(gpio.latch) && n > 0
      modifies gpio`latch, gpio`edges, gpio`steady, gpio`resets
      ensures Sampled(old(gpio.edges), gpio.edges, n, width, old(gpio.latch) * DataPins(width))
      ensures gpio.latch == old(gpio.latch) + {RP_CCLK}
      ensures gpio.steady == old(gpio.steady) && gpio.resets == old(gpio.resets)
      ensures Selected(gpio.latch)
    {
      var i := 0;
      while i < n
        invariant i <= n
        invariant Sampled(old(gpio.edges), gpio.edges, i, width, old(gpio.latch) * DataPins(width))
        invariant gpio.latch == if i == 0 then old(gpio.latch) else old(gpio.latch) + {RP_CCLK}
        invariant gpio.steady == old(gpio.steady) && gpio.resets == old(gpio.resets)
      {
        gpio.Clr({RP_CCLK});
        ClockAgain(width, 2);
        i := i + 1;
      }
    }

    /** fic_set_gpio(CCLK): one more sample of the same datum if the clock was low. */
    method RaiseClock(width: SmapMode) returns (ret: int)
      requires Driving(gpio.fsel, width) && Selected(gpio.latch)
      modifies gpio`latch, gpio`edges, gpio`steady, gpio`resets, gpio`faults
      ensures Explained(ret, old(gpio.faults), gpio.faults)
      ensures Sampled(old(gpio.edges), gpio.edges, 1 - Leads(old(gpio.latch)), width, old(gpio.latch) * DataPins(width))
      ensures gpio.latch == old(gpio.latch) + {RP_CCLK}
      ensures gpio.steady == old(gpio.steady) && gpio.resets == old(gpio.resets)
      ensures Selected(gpio.latch)
    {
      ghost var before := gpio.latch;
      ret := gpio.SetChecked({RP_CCLK});
      LevelsHoldData(gpio.fsel, before, gpio.latch);
      WiresShowLatch(gpio.fsel, width, before);
      WiresShowLatch(gpio.fsel, width, gpio.latch);
    }

    /** The wait for DONE that closes every programming function: clock on, with the last datum
        still on the pins, until DONE rises, INIT_B falls or time runs out. `ticks` counts the
        samples this adds. */
    method AwaitDone(width: SmapMode) returns (ret: int, ghost ticks: nat)
      requires Driving(gpio.fsel, width) && Selected(gpio.latch)
      modifies gpio`latch, gpio`edges, gpio`steady, gpio`resets, gpio`readings, gpio`faults
      ensures Explained(ret, old(gpio.faults), gpio.faults)
      ensures Sampled(old(gpio.edges), gpio.edges, ticks, width, old(gpio.latch) * DataPins(width))
      ensures gpio.steady == old(gpio.steady) && gpio.resets == old(gpio.resets)
      ensures ret == 0 ==> forall g :: g in DataPins(width) || g == RP_CCLK ==> g !in gpio.latch
      ensures old(gpio.readings) <= gpio.readings
      ensures ret == 0 ==> Polled(old(gpio.readings), gpio.readings, true, ticks, RP_CCLK in old(gpio.latch))
    {
      ticks := 0;
      ghost var e0, r0, image := gpio.edges, gpio.readings, gpio.latch * DataPins(width);
      ghost var high := RP_CCLK in gpio.latch;
      var patience: nat := *;
      var done := gpio.Get(RP_DONE);
      while !done
        invariant Sampled(e0, gpio.edges, ticks, width, image) && gpio.latch * DataPins(width) == image
        invariant gpio.steady == old(gpio.steady) && gpio.resets == old(gpio.resets)
        invariant gpio.faults == old(gpio.faults)
        invariant Polled(r0, gpio.readings, done, ticks, high)
        invariant RP_CCLK in gpio.latch <==> high && |gpio.readings| == |r0| + 1
        invariant Selected(gpio.latch)
        decreases patience
      {
        ghost var e1, r1, more := gpio.edges, gpio.readings, 0;
        ret, done, more := PollDone(width, patience);
        SampledTwice(e0, e1, gpio.edges, ticks, more, width, image);
        if ret < 0 { return -1, ticks + more; }
        PolledAgain(r0, r1, gpio.readings, done, ticks, more, high);
        ticks := ticks + more;
        patience := patience - 1;
      }
      ret := gpio.ClrChecked(DataPins(width) + {RP_CCLK});
    }

    /** One round of that wait. */
    method PollDone(width: SmapMode, patience: nat) returns (ret: int, done: bool, ghost more: nat)
      requires Driving(gpio.fsel, width) && Selected(gpio.latch)
      modifies gpio`latch, gpio`edges, gpio`steady, gpio`resets, gpio`readings, gpio`faults
      ensures Explained(ret, old(gpio.faults), gpio.faults)
      ensures Sampled(old(gpio.edges), gpio.edges, more, width, old(gpio.latch) * DataPins(width))
      ensures gpio.latch * DataPins(width) == old(gpio.latch) * DataPins(width) && Selected(gpio.latch)
      ensures gpio.steady == old(gpio.steady) && gpio.resets == old(gpio.resets)
      ensures old(gpio.readings) <= gpio.readings
      ensures ret == 0 ==> patience > 0 && gpio.readings == old(gpio.readings) + [INIT_HIGH, Level(RP_DONE, done)]
      ensures ret == 0 ==> more == 1 - Leads(old(gpio.latch)) && RP_CCLK !in gpio.latch
    {
      done, more := false, 0;
      ret := StillWorking(patience);
      if ret < 0 { return; }
      more := 1 - Leads(gpio.latch);
      ret := RaiseClock(width);
      if ret < 0 { return; }
      ret := gpio.ClrChecked({RP_CCLK});
      if ret < 0 { return; }
      done := gpio.Get(RP_DONE);
    }

    /** INIT_B is high and there is time left. */
    method StillWorking(patience: nat) returns (ret: int)
      modifies gpio`readings, gpio`faults
      ensures Explained(ret, old(gpio.faults), gpio.faults)
      ensures old(gpio.readings) <= gpio.readings
      ensures ret == 0 ==> patience > 0 && gpio.readings == old(gpio.readings) + [INIT_HIGH]
    {
      var init := gpio.Get(RP_INIT);
      ret := gpio.Demand(init && patience > 0);
    }

    /** All pins are inputs. */
    ghost predicate Released()
      reads gpio
    {
      gpio.Valid() && forall g: nat | g < 30 :: Mode(gpio.fsel, g) == {}
    }

    /** Both exits of every programming function: release the pins, record the status. */
    method Finish(status: ProgStatus, result: nat) returns (r: nat)
      requires gpio.Valid()
      modifies this`stat, gpio`fsel, gpio`edges, gpio`steady, gpio`resets
      ensures Released() && stat == status && r == result
      ensures gpio.edges == old(gpio.edges) && gpio.steady == old(gpio.steady) && gpio.resets == old(gpio.resets)
    {
      gpio.SetAllInput();
      stat := status;
      r := result;
    }

    /** What the four functions do after their data loop: wait for DONE unless this is a partial
        reconfiguration, and report how many bytes the loop went through. */
    method Complete(width: SmapMode, pm: ProgMode, count: nat) returns (r: nat, ghost ticks: nat)
      requires Driving(gpio.fsel, width) && Selected(gpio.latch)
      modifies this`stat, gpio
      ensures gpio.Valid() && Released() && gpio.steady == old(gpio.steady) && gpio.resets == old(gpio.resets)
      ensures Sampled(old(gpio.edges), gpio.edges, ticks, width, old(gpio.latch) * DataPins(width))
      ensures || (stat == PM_STAT_DONE && r == count && gpio.faults == old(gpio.faults))
              || (stat == PM_STAT_FAIL && r == 0 && old(gpio.faults) < gpio.faults)
      ensures old(gpio.readings) <= gpio.readings
      ensures stat == PM_STAT_DONE ==>
                if pm == PM_PR then gpio.readings == old(gpio.readings)
                else Polled(old(gpio.readings), gpio.readings, true, ticks, RP_CCLK in old(gpio.latch))
      ensures ticks > 0 ==> pm == PM_NORMAL
      ensures stat == PM_STAT_DONE ==> (RP_CCLK in gpio.latch <==> pm == PM_PR && RP_CCLK in old(gpio.latch))
    {
      ticks := 0;
      if pm == PM_NORMAL {
        var ret;
        ret, ticks := AwaitDone(width);
        if ret < 0 {
          r := Finish(PM_STAT_FAIL, 0);
          return;
        }
      }
      r := Finish(PM_STAT_DONE, count);
    }

    /** The same at the end of a run that has sent `sent` bytes. */
    method Complete8(pm: ProgMode, count: nat, ghost data: seq<byte>, ghost e0: seq<Pins>,
                     ghost lead: nat, ghost sent: nat, ghost ready: seq<Level>, ghost n: nat)
      returns (r: nat, ghost ticks: nat)
      requires Run8(e0, gpio.edges, data, lead, sent, 0) && Driving(gpio.fsel, PM_SMAP_8) && Selected(gpio.latch)
      requires gpio.latch * DATA8 == OnBus8(Prev(data, 0, sent)) && (RP_CCLK in gpio.latch <==> sent > 0)
      requires gpio.readings == ready + Repeat(INIT_HIGH, n)
      modifies this`stat, gpio
      ensures Released() && gpio.steady == old(gpio.steady) && gpio.resets == old(gpio.resets)
      ensures Run8(e0, gpio.edges, data, lead, sent, ticks)
      ensures || (stat == PM_STAT_DONE && r == count && gpio.faults == old(gpio.faults))
              || (stat == PM_STAT_FAIL && r == 0 && old(gpio.faults) < gpio.faults)
      ensures stat == PM_STAT_DONE ==> Confirmed(ready, gpio.readings, n, pm, ticks, sent > 0)
      ensures ticks > 0 ==> pm == PM_NORMAL
      ensures stat == PM_STAT_DONE ==> (RP_CCLK in gpio.latch <==> pm == PM_PR && sent > 0)
    {
      ghost var e1 := gpio.edges;
      r, ticks := Complete(PM_SMAP_8, pm, count);
      RunEnds8(e0, e1, gpio.edges, data, lead, sent, ticks);
    }

    /** The same at the end of a run that has sent `sent` half-words. */
    method Complete16(pm: ProgMode, count: nat, ghost ws: seq<half>, ghost e0: seq<Pins>,
                      ghost lead: nat, ghost sent: nat, ghost ready: seq<Level>, ghost n: nat)
      returns (r: nat, ghost ticks: nat)
      requires Run16(e0, gpio.edges, ws, lead, sent, 0) && Driving(gpio.fsel, PM_SMAP_16) && Selected(gpio.latch)
      requires gpio.latch * DATA16 == OnBus16(Prev(ws, 0, sent)) && (RP_CCLK in gpio.latch <==> sent > 0)
      requires gpio.readings == ready + Repeat(INIT_HIGH, n)
      modifies this`stat, gpio
      ensures Released() && gpio.steady == old(gpio.steady) && gpio.resets == old(gpio.resets)
      ensures Run16(e0, gpio.edges, ws, lead, sent, ticks)
      ensures || (stat == PM_STAT_DONE && r == count && gpio.faults == old(gpio.faults))
              || (stat == PM_STAT_FAIL && r == 0 && old(gpio.faults) < gpio.faults)
      ensures stat == PM_STAT_DONE ==> Confirmed(ready, gpio.readings, n, pm, ticks, sent > 0)
      ensures ticks > 0 ==> pm == PM_NORMAL
      ensures stat == PM_STAT_DONE ==> (RP_CCLK in gpio.latch <==> pm == PM_PR && sent > 0)
    {
      ghost var e1 := gpio.edges;
      r, ticks := Complete(PM_SMAP_16, pm, count);
      RunEnds16(e0, e1, gpio.edges, ws, lead, sent, ticks);
    }

    /** The first i bytes are out, the last of them, d, is still on the pins, and the clock is up
        since. */
    ghost predicate Sent8(data: seq<byte>, e0: seq<Pins>, i: nat, d: byte)
      reads gpio
    {
      && Driving(gpio.fsel, PM_SMAP_8) && Selected(gpio.latch) && SelectedFrom(gpio.edges, |e0|)
      && i <= |data| && d == Prev(data, 0, i) && gpio.latch * DATA8 == OnBus8(d)
      && e0 <= gpio.edges && Sampled8(gpio.edges, |e0|, data[..i])
      && (RP_CCLK in gpio.latch <==> i > 0)
    }

    /** The same for half-words. */
    ghost predicate Sent16(ws: seq<half>, e0: seq<Pins>, h: nat, d: half)
      reads gpio
    {
      && Driving(gpio.fsel, PM_SMAP_16) && Selected(gpio.latch) && SelectedFrom(gpio.edges, |e0|)
      && h <= |ws| && d == Prev(ws, 0, h) && gpio.latch * DATA16 == OnBus16(d)
      && e0 <= gpio.edges && Sampled16(gpio.edges, |e0|, ws[..h])
      && (RP_CCLK in gpio.latch <==> h > 0)
    }

    /** Before the first datum the pins show zero. */
    lemma NothingSent8(data: seq<byte>)
      requires Driving(gpio.fsel, PM_SMAP_8) && Selected(gpio.latch)
      requires RP_CCLK !in gpio.latch && gpio.latch * DATA8 == {}
      ensures Sent8(data, gpio.edges, 0, 0)
    {
      ZeroShowsNothing();
    }

    lemma NothingSent16(ws: seq<half>)
      requires Driving(gpio.fsel, PM_SMAP_16) && Selected(gpio.latch)
      requires RP_CCLK !in gpio.latch && gpio.latch * DATA16 == {}
      ensures Sent16(ws, gpio.edges, 0, 0)
    {
      ZeroShowsNothing();
    }

    lemma NothingSentPair(ws: seq<half>)
      requires Driving(gpio.fsel, PM_SMAP_16) && Selected(gpio.latch)
      requires RP_CCLK !in gpio.latch && gpio.latch * DATA16 == {}
      ensures Sent16(ws, gpio.edges, 0, Word(0, 0))
    {
      ZeroShowsNothing();
    }

    /** The check that INIT_B has not fallen. */
    method CheckInit() returns (ret: int)
      modifies gpio`readings, gpio`faults
      ensures Explained(ret, old(gpio.faults), gpio.faults)
      ensures gpio.readings == old(gpio.readings) + [Level(RP_INIT, ret == 0)]
    {
      var init := gpio.Get(RP_INIT);
      ret := gpio.Demand(init);
    }

    /** One iteration of the slow 8-bit loop. */
    method SlowStep8(data: seq<byte>, i: nat, d': byte, ghost e0: seq<Pins>)
      requires Sent8(data, e0, i, d') && i < |data|
      modifies gpio`latch, gpio`edges, gpio`steady, gpio`resets
      ensures Sent8(data, e0, i + 1, data[i])
      ensures gpio.steady == old(gpio.steady) && gpio.resets == old(gpio.resets)
    {
      var d := data[i];
      if d == d' {
        ClockAgain(PM_SMAP_8, 1);
      } else {
        ClockDatum(PM_SMAP_8, OnBus8(d), 1);
      }
      SelectedGrows(old(gpio.edges), gpio.edges, |e0|);
      StreamGrows8(old(gpio.edges), gpio.edges, |e0|, data[..i], 1, d);
      OneMore(data, i);
    }

    /** One iteration of the slow 16-bit loop; its read-back checks may fail. */
    method SlowStep16(ghost ws: seq<half>, ghost h: nat, d: half, d': half, ghost e0: seq<Pins>) returns (ret: int)
      requires Sent16(ws, e0, h, d') && h < |ws| && d == ws[h]
      modifies gpio`latch, gpio`edges, gpio`steady, gpio`resets, gpio`faults
      ensures Sent16(ws, e0, h + 1, d)
      ensures gpio.steady == old(gpio.steady) && gpio.resets == old(gpio.resets)
      ensures Explained(ret, old(gpio.faults), gpio.faults)
    {
      ret := 0;
      if d == d' {
        ClockAgain(PM_SMAP_16, 1);
      } else {
        ClockDatum(PM_SMAP_16, OnBus16(d), 1);
        ret := gpio.Chance();
      }
      SelectedGrows(old(gpio.edges), gpio.edges, |e0|);
      StreamGrows16(old(gpio.edges), gpio.edges, |e0|, ws[..h], 1, d);
      OneMore(ws, h);
    }

    /** The data loop of fic_prog_sm8: one sample a byte, stopped when INIT_B falls. */
    method Bytes8(data: seq<byte>, size: nat) returns (ok: bool, ghost sent: nat)
      requires size <= |data| && txSize == 0
      requires Sent8(data, gpio.edges, 0, 0)
      modifies this`txSize, gpio`latch, gpio`edges, gpio`steady, gpio`resets, gpio`readings, gpio`faults
      ensures if ok then gpio.faults == old(gpio.faults) else old(gpio.faults) < gpio.faults
      ensures old(gpio.readings) <= gpio.readings
      ensures ok ==> gpio.readings == old(gpio.readings) + Repeat(INIT_HIGH, sent)
      ensures gpio.steady == old(gpio.steady) && gpio.resets == old(gpio.resets)
      ensures txSize == sent <= size && (ok ==> sent == size)
      ensures Sent8(data, old(gpio.edges), sent, Prev(data, 0, sent))
    {
      var d': byte := 0;
      var i := 0;
      sent := 0;
      while i < size
        invariant i == sent == txSize <= size
        invariant gpio.faults == old(gpio.faults)
        invariant gpio.readings == old(gpio.readings) + Repeat(INIT_HIGH, sent)
        invariant gpio.steady == old(gpio.steady) && gpio.resets == old(gpio.resets)
        invariant Sent8(data, old(gpio.edges), i, d')
      {
        SlowStep8(data, i, d', old(gpio.edges));
        d' := data[i];
        txSize := txSize + 1;
        i, sent := i + 1, sent + 1;
        var failed := CheckInit();
        if failed < 0 {
          return false, sent;
        }
      }
      ok := true;
    }

    /** fic_prog_sm8 */
    method ProgSm8(data: seq<byte>, size: nat, pm: ProgMode)
      returns (r: nat, ghost lead: nat, ghost sent: nat, ghost ticks: nat, ghost ready: seq<Level>)
      requires gpio.Valid() && size <= |data|
      modifies this, gpio
      ensures Released() && gpio.steady == old(gpio.steady)
      ensures sent <= size
      ensures lead <= Leads(old(gpio.latch)) && (sent > 0 || stat == PM_STAT_DONE ==> lead == Leads(old(gpio.latch)))
      ensures Run8(old(gpio.edges), gpio.edges, data, lead, sent, ticks)
      ensures Reset(old(gpio.resets), gpio.resets, old(gpio.latch), |old(gpio.edges)|, pm,
                    sent > 0 || stat == PM_STAT_DONE)
      ensures stat == PM_STAT_DONE ==>
                Approved(old(gpio.readings), ready, gpio.readings, size, pm, ticks, sent > 0)
      ensures txSize == sent && progSize == size && smapMode == PM_SMAP_8 && progMode == pm
      ensures || (stat == PM_STAT_DONE && r == sent == size && gpio.faults == old(gpio.faults))
              || (stat == PM_STAT_FAIL && r == 0 && old(gpio.faults) < gpio.faults)
      ensures ticks > 0 ==> sent == size && pm == PM_NORMAL
      ensures stat == PM_STAT_DONE ==> (RP_CCLK in gpio.latch <==> pm == PM_PR && sent > 0)
      ensures sent > 0 && sent < size ==> RP_CCLK in gpio.latch
    {
      lead, sent, ticks := 0, 0, 0;
      ghost var e0 := gpio.edges;
      var ret;
      ret, lead := Begin(PM_SMAP_8, size, pm);
      ghost var begun := gpio.edges;
      ready := gpio.readings;
      var ok := ret == 0;
      if ok {
        NothingSent8(data);
        ok, sent := Bytes8(data, size);
      }
      RunBegins8(e0, begun, gpio.edges, data, lead, sent);
      if !ok {
        r := Finish(PM_STAT_FAIL, 0);
        return;
      }
      r, ticks := Complete8(pm, size, data, e0, lead, sent, ready, size);
    }

    /** One iteration of the fast 8-bit loop at byte i, after byte value d'. */
    method FastPass8(data: seq<byte>, i: nat, d': byte) returns (n: nat)
      requires i + 16 <= |data| && d' == Prev(data, 0, i)
      requires Driving(gpio.fsel, PM_SMAP_8) && Selected(gpio.latch) && gpio.latch * DATA8 == OnBus8(d')
      modifies gpio`latch, gpio`edges, gpio`steady, gpio`resets
      ensures n == Pass(data, 0, i, 16)
      ensures Sampled(old(gpio.edges), gpio.edges, n, PM_SMAP_8, OnBus8(data[i]))
      ensures gpio.latch * DATA8 == OnBus8(data[i]) && RP_CCLK in gpio.latch && Selected(gpio.latch)
      ensures gpio.steady == old(gpio.steady) && gpio.resets == old(gpio.resets)
    {
      var d := data[i];
      PassAtLeast(data, 0, i, 16, 4);
      PassAtLeast(data, 0, i, 16, 8);
      PassAtLeast(data, 0, i, 16, 12);
      PassAtLeast(data, 0, i, 16, 16);
      if d == d' {
        if d == data[i + 1] && d == data[i + 2] && d == data[i + 3] {
          if d == data[i + 4] && d == data[i + 5] && d == data[i + 6] && d == data[i + 7] {
            if d == data[i + 8] && d == data[i + 9] && d == data[i + 10] && d == data[i + 11] {
              if d == data[i + 12] && d == data[i + 13] && d == data[i + 14] && d == data[i + 15] {
                ToggleCclk(PM_SMAP_8, 16);
                n := 1 + 15;
              } else {
                ToggleCclk(PM_SMAP_8, 12);
                n := 1 + 11;
              }
            } else {
              ToggleCclk(PM_SMAP_8, 8);
              n := 1 + 7;
            }
          } else {
            ToggleCclk(PM_SMAP_8, 4);
            n := 1 + 3;
          }
        } else {
          ClockAgain(PM_SMAP_8, 2);
          n := 1;
        }
      } else {
        ClockDatum(PM_SMAP_8, OnBus8(d), 2);
        n := 1;
      }
    }

    /** The same, seen by a stream that started after `from` samples. */
    method FastStep8(data: seq<byte>, i: nat, d': byte, ghost e0: seq<Pins>, ghost window: nat) returns (n: nat)
      requires window == 16 && i + 16 <= |data| && Sent8(data, e0, i, d') && txSize <= i <= 16 * txSize
      modifies this`txSize, gpio`latch, gpio`edges, gpio`steady, gpio`resets
      ensures n == Pass(data, 0, i, window)
      ensures txSize == old(txSize) + 1 && txSize <= i + n <= 16 * txSize
      ensures gpio.steady == old(gpio.steady) && gpio.resets == old(gpio.resets)
      ensures Sent8(data, e0, i + n, data[i])
    {
      n := FastPass8(data, i, d');
      SelectedGrows(old(gpio.edges), gpio.edges, |e0|);
      StreamGrows8(old(gpio.edges), gpio.edges, |e0|, data[..i], n, data[i]);
      CopiesExtend(data, 0, i, window);
      txSize := txSize + 1;
    }

    /** The data loop of fic_prog_sm8_fast. Look-ahead reads reach up to fifteen bytes behind
        `size`, whatever they hold; the bytes clocked are the buffer's up to exactly StopsAt. */
    method Bytes8Fast(data: seq<byte>, size: nat, ghost window: nat) returns (sent: nat)
      requires window == 16 && size + 15 <= |data| && txSize == 0
      requires Sent8(data, gpio.edges, 0, 0)
      modifies this`txSize, gpio`latch, gpio`edges, gpio`steady, gpio`resets
      ensures gpio.steady == old(gpio.steady) && gpio.resets == old(gpio.resets)
      ensures sent == StopsAt(data, 0, size, window, 0) && txSize <= sent <= 16 * txSize
      ensures Sent8(data, old(gpio.edges), sent, Prev(data, 0, sent))
    {
      var d': byte := 0;
      var i := 0;
      ghost var e0, stop := gpio.edges, StopsAt(data, 0, size, window, 0);
      while i < size
        invariant stop == StopsAt(data, 0, size, window, i)
        invariant i < size + 16 && txSize <= i <= 16 * txSize
        invariant gpio.steady == old(gpio.steady) && gpio.resets == old(gpio.resets)
        invariant Sent8(data, e0, i, d')
      {
        StopsNext(data, 0, size, window, i);
        var n := FastStep8(data, i, d', e0, window);
        d' := data[i];
        i := i + n;
      }
      sent := i;
    }

    /** The data of fic_prog_sm8_fast and the check behind it. */
    method Send8Fast(data: seq<byte>, size: nat) returns (ret: int, sent: nat)
      requires size + 15 <= |data| && txSize == 0
      requires Sent8(data, gpio.edges, 0, 0)
      modifies this`txSize, gpio`latch, gpio`edges, gpio`steady, gpio`resets, gpio`readings, gpio`faults
      ensures Explained(ret, old(gpio.faults), gpio.faults)
      ensures gpio.steady == old(gpio.steady) && gpio.resets == old(gpio.resets)
      ensures sent == StopsAt(data, 0, size, 16, 0) && txSize <= sent <= 16 * txSize
      ensures Sent8(data, old(gpio.edges), sent, Prev(data, 0, sent))
      ensures gpio.readings == old(gpio.readings) + [Level(RP_INIT, ret == 0)]
    {
      sent := Bytes8Fast(data, size, 16);
      ret := CheckInit();
    }

    /** fic_prog_sm8_fast */
    method ProgSm8Fast(data: seq<byte>, size: nat, pm: ProgMode)
      returns (r: nat, ghost lead: nat, ghost sent: nat, ghost ticks: nat, ghost ready: seq<Level>)
      requires gpio.Valid() && size + 15 <= |data|
      modifies this, gpio
      ensures Released() && gpio.steady == old(gpio.steady)
      ensures sent == 0 || sent == StopsAt(data, 0, size, 16, 0)
      ensures lead <= Leads(old(gpio.latch)) && (sent > 0 || stat == PM_STAT_DONE ==> lead == Leads(old(gpio.latch)))
      ensures Run8(old(gpio.edges), gpio.edges, data, lead, sent, ticks)
      ensures Reset(old(gpio.resets), gpio.resets, old(gpio.latch), |old(gpio.edges)|, pm,
                    sent > 0 || stat == PM_STAT_DONE)
      ensures stat == PM_STAT_DONE ==>
                Approved(old(gpio.readings), ready, gpio.readings, 1, pm, ticks, sent > 0)
      ensures txSize <= sent <= 16 * txSize && progSize == size && smapMode == PM_SMAP_8 && progMode == pm
      ensures || (stat == PM_STAT_DONE && r == sent == StopsAt(data, 0, size, 16, 0) && gpio.faults == old(gpio.faults))
              || (stat == PM_STAT_FAIL && r == 0 && old(gpio.faults) < gpio.faults)
      ensures ticks > 0 ==> sent == StopsAt(data, 0, size, 16, 0) && pm == PM_NORMAL
      ensures stat == PM_STAT_DONE ==> (RP_CCLK in gpio.latch <==> pm == PM_PR && sent > 0)
    {
      lead, sent, ticks := 0, 0, 0;
      ghost var e0 := gpio.edges;
      var ret;
      ret, lead := Begin(PM_SMAP_8, size, pm);
      ghost var begun := gpio.edges;
      ready := gpio.readings;
      var ok := ret == 0;
      var count := 0;
      if ok {
        NothingSent8(data);
        ret, count := Send8Fast(data, size);
        sent, ok := count, ret == 0;
      }
      RunBegins8(e0, begun, gpio.edges, data, lead, sent);
      if !ok {
        r := Finish(PM_STAT_FAIL, 0);
        return;
      }
      r, ticks := Complete8(pm, count, data, e0, lead, sent, ready, 1);
    }

    /** The data loop of fic_prog_sm16: one sample a half-word, low byte first; an odd size
        takes the byte behind it along. A failed read-back stops it before the datum is
        counted. */
    method Halves16(data: seq<byte>, size: nat) returns (ok: bool, ghost sent: nat)
      requires size + size % 2 <= |data| && txSize == 0
      requires Sent16(Halves(data), gpio.edges, 0, 0)
      modifies this`txSize, gpio`latch, gpio`edges, gpio`steady, gpio`resets, gpio`readings, gpio`faults
      ensures if ok then gpio.faults == old(gpio.faults) else old(gpio.faults) < gpio.faults
      ensures old(gpio.readings) <= gpio.readings
      ensures ok ==> gpio.readings == old(gpio.readings) + Repeat(INIT_HIGH, sent)
      ensures gpio.steady == old(gpio.steady) && gpio.resets == old(gpio.resets)
      ensures sent <= (size + 1) / 2 && txSize <= 2 * sent <= txSize + 2
      ensures ok ==> sent == (size + 1) / 2 && txSize == 2 * sent
      ensures Sent16(Halves(data), old(gpio.edges), sent, Prev(Halves(data), 0, sent))
    {
      var d': half := 0;
      var i := 0;
      ghost var ws, words := Halves(data), (size + 1) / 2;
      sent := 0;
      while i < size
        invariant i == 2 * sent == txSize && sent <= words
        invariant gpio.faults == old(gpio.faults)
        invariant gpio.readings == old(gpio.readings) + Repeat(INIT_HIGH, sent)
        invariant gpio.steady == old(gpio.steady) && gpio.resets == old(gpio.resets)
        invariant Sent16(ws, old(gpio.edges), sent, d')
      {
        var d := Word(data[i + 1], data[i]);
        assert d == ws[sent];
        var failed := SlowStep16(ws, sent, d, d', old(gpio.edges));
        sent := sent + 1;
        if failed < 0 {
          return false, sent;
        }
        d' := d;
        txSize := txSize + 2;
        i := i + 2;
        failed := CheckInit();
        if failed < 0 {
          return false, sent;
        }
      }
      ok := true;
    }

    /** fic_prog_sm16 */
    method ProgSm16(data: seq<byte>, size: nat, pm: ProgMode)
      returns (r: nat, ghost lead: nat, ghost sent: nat, ghost ticks: nat, ghost ready: seq<Level>)
      requires gpio.Valid() && size + size % 2 <= |data|
      modifies this, gpio
      ensures Released() && gpio.steady == old(gpio.steady)
      ensures sent <= (size + 1) / 2
      ensures lead <= Leads(old(gpio.latch)) && (sent > 0 || stat == PM_STAT_DONE ==> lead == Leads(old(gpio.latch)))
      ensures Run16(old(gpio.edges), gpio.edges, Halves(data), lead, sent, ticks)
      ensures Reset(old(gpio.resets), gpio.resets, old(gpio.latch), |old(gpio.edges)|, pm,
                    sent > 0 || stat == PM_STAT_DONE)
      ensures stat == PM_STAT_DONE ==>
                Approved(old(gpio.readings), ready, gpio.readings, (size + 1) / 2, pm, ticks, sent > 0)
      ensures txSize <= 2 * sent <= txSize + 2 && progSize == size && smapMode == PM_SMAP_16 && progMode == pm
      ensures || (&& stat == PM_STAT_DONE && r == 2 * sent == txSize && gpio.faults == old(gpio.faults)
                  && sent == (size + 1) / 2)
              || (stat == PM_STAT_FAIL && r == 0 && old(gpio.faults) < gpio.faults)
      ensures ticks > 0 ==> sent == (size + 1) / 2 && pm == PM_NORMAL
      ensures stat == PM_STAT_DONE ==> (RP_CCLK in gpio.latch <==> pm == PM_PR && sent > 0)
      ensures sent > 0 && 2 * sent < size ==> RP_CCLK in gpio.latch
    {
      lead, sent, ticks := 0, 0, 0;
      ghost var e0 := gpio.edges;
      ghost var ws := Halves(data);
      var count := (size + 1) / 2;
      var ret;
      ret, lead := Begin(PM_SMAP_16, size, pm);
      ghost var begun := gpio.edges;
      ready := gpio.readings;
      var ok := ret == 0;
      if ok {
        NothingSent16(ws);
        ok, sent := Halves16(data, size);
      }
      RunBegins16(e0, begun, gpio.edges, ws, lead, sent);
      if !ok {
        r := Finish(PM_STAT_FAIL, 0);
        return;
      }
      r, ticks := Complete16(pm, 2 * count, ws, e0, lead, sent, ready, count);
    }

    /** One iteration of the fast 16-bit loop at half-word h, after hi':lo'. */
    method FastPass16(data: seq<byte>, h: nat, hi': byte, lo': byte, ghost ws: seq<half>)
      returns (n: nat, hi: byte, lo: byte)
      requires ws == Halves(data) && 2 * h + 16 <= |data| && Word(hi', lo') == Prev(ws, 0, h)
      requires Driving(gpio.fsel, PM_SMAP_16) && Selected(gpio.latch) && gpio.latch * DATA16 == OnBus16(Word(hi', lo'))
      modifies gpio`latch, gpio`edges, gpio`steady, gpio`resets
      ensures n == Pass(ws, 0, h, 8) && Word(hi, lo) == ws[h]
      ensures Sampled(old(gpio.edges), gpio.edges, n, PM_SMAP_16, OnBus16(Word(hi, lo)))
      ensures gpio.latch * DATA16 == OnBus16(Word(hi, lo)) && RP_CCLK in gpio.latch && Selected(gpio.latch)
      ensures gpio.steady == old(gpio.steady) && gpio.resets == old(gpio.resets)
    {
      var i := 2 * h;
      hi, lo := data[i + 1], data[i];
      PassByBytes(data, h, hi', lo');
      if hi == hi' && lo == lo' {
        if hi == data[i + 3] && lo == data[i + 2] && hi == data[i + 5] && lo == data[i + 4] &&
           hi == data[i + 7] && lo == data[i + 6] {
          if hi == data[i + 9] && lo == data[i + 8] && hi == data[i + 11] && lo == data[i + 10] &&
             hi == data[i + 13] && lo == data[i + 12] && hi == data[i + 15] && lo == data[i + 14] {
            ToggleCclk(PM_SMAP_16, 8);
            n := 1 + 14 / 2;
          } else {
            ToggleCclk(PM_SMAP_16, 4);
            n := 1 + 6 / 2;
          }
        } else {
          ClockAgain(PM_SMAP_16, 2);
          n := 1;
        }
      } else {
        ClockDatum(PM_SMAP_16, OnBus16(Word(hi, lo)), 2);
        n := 1;
      }
    }

    method FastStep16(data: seq<byte>, h: nat, hi': byte, lo': byte,
                      ghost e0: seq<Pins>, ghost ws: seq<half>, ghost window: nat)
      returns (n: nat, hi: byte, lo: byte)
      requires window == 8 && ws == Halves(data) && 2 * h + 16 <= |data| && Sent16(ws, e0, h, Word(hi', lo'))
      requires txSize <= 2 * h <= 8 * txSize
      modifies this`txSize, gpio`latch, gpio`edges, gpio`steady, gpio`resets
      ensures n == Pass(ws, 0, h, window)
      ensures txSize == old(txSize) + 2 && txSize <= 2 * (h + n) <= 8 * txSize
      ensures gpio.steady == old(gpio.steady) && gpio.resets == old(gpio.resets)
      ensures Sent16(ws, e0, h + n, Word(hi, lo))
    {
      n, hi, lo := FastPass16(data, h, hi', lo', ws);
      SelectedGrows(old(gpio.edges), gpio.edges, |e0|);
      StreamGrows16(old(gpio.edges), gpio.edges, |e0|, ws[..h], n, Word(hi, lo));
      CopiesExtend(ws, 0, h, window);
      txSize := txSize + 2;
    }

    /** The data loop of fic_prog_sm16_fast, with the pins equal to hi':lo' throughout. */
    method Halves16Fast(data: seq<byte>, size: nat, ghost ws: seq<half>, ghost words: nat, ghost window: nat)
      returns (sent: nat)
      requires window == 8 && ws == Halves(data) && size + 15 <= |data| && txSize == 0
      requires size <= 2 * words <= size + 1 && words + 7 <= |ws|
      requires Sent16(ws, gpio.edges, 0, Word(0, 0))
      modifies this`txSize, gpio`latch, gpio`edges, gpio`steady, gpio`resets
      ensures gpio.steady == old(gpio.steady) && gpio.resets == old(gpio.resets)
      ensures sent == StopsAt(ws, 0, words, window, 0)
      ensures txSize <= 2 * sent <= 8 * txSize
      ensures Sent16(ws, old(gpio.edges), sent, Prev(ws, 0, sent))
    {
      var hi': byte, lo': byte := 0, 0;
      var h := 0;
      ghost var stop := StopsAt(ws, 0, words, window, 0);
      ghost var e0, d: half := gpio.edges, Word(hi', lo');
      while 2 * h < size
        invariant stop == StopsAt(ws, 0, words, window, h)
        invariant txSize <= 2 * h <= 8 * txSize
        invariant gpio.steady == old(gpio.steady) && gpio.resets == old(gpio.resets)
        invariant d == Word(hi', lo') && Sent16(ws, e0, h, d)
      {
        StopsNext(ws, 0, words, window, h);
        var n;
        n, hi', lo' := FastStep16(data, h, hi', lo', e0, ws, window);
        h, d := h + n, Word(hi', lo');
      }
      sent := h;
    }

    /** The data of fic_prog_sm16_fast and the check behind it. */
    method Send16Fast(data: seq<byte>, size: nat, ghost ws: seq<half>) returns (ret: int, sent: nat)
      requires ws == Halves(data) && size + 15 <= |data| && txSize == 0
      requires Sent16(ws, gpio.edges, 0, Word(0, 0))
      modifies this`txSize, gpio`latch, gpio`edges, gpio`steady, gpio`resets, gpio`readings, gpio`faults
      ensures Explained(ret, old(gpio.faults), gpio.faults)
      ensures gpio.steady == old(gpio.steady) && gpio.resets == old(gpio.resets)
      ensures sent == StopsAt(ws, 0, (size + 1) / 2, 8, 0) && txSize <= 2 * sent <= 8 * txSize
      ensures Sent16(ws, old(gpio.edges), sent, Prev(ws, 0, sent))
      ensures gpio.readings == old(gpio.readings) + [Level(RP_INIT, ret == 0)]
    {
      sent := Halves16Fast(data, size, ws, (size + 1) / 2, 8);
      ret := CheckInit();
    }

    /** fic_prog_sm16_fast */
    method ProgSm16Fast(data: seq<byte>, size: nat, pm: ProgMode)
      returns (r: nat, ghost lead: nat, ghost sent: nat, ghost ticks: nat, ghost ready: seq<Level>)
      requires gpio.Valid() && size + 15 <= |data|
      modifies this, gpio
      ensures Released() && gpio.steady == old(gpio.steady)
      ensures sent == 0 || sent == StopsAt(Halves(data), 0, (size + 1) / 2, 8, 0)
      ensures lead <= Leads(old(gpio.latch)) && (sent > 0 || stat == PM_STAT_DONE ==> lead == Leads(old(gpio.latch)))
      ensures Run16(old(gpio.edges), gpio.edges, Halves(data), lead, sent, ticks)
      ensures Reset(old(gpio.resets), gpio.resets, old(gpio.latch), |old(gpio.edges)|, pm,
                    sent > 0 || stat == PM_STAT_DONE)
      ensures stat == PM_STAT_DONE ==>
                Approved(old(gpio.readings), ready, gpio.readings, 1, pm, ticks, sent > 0)
      ensures txSize <= 2 * sent <= 8 * txSize && progSize == size && smapMode == PM_SMAP_16 && progMode == pm
      ensures || (&& stat == PM_STAT_DONE && r == 2 * sent && gpio.faults == old(gpio.faults)
                  && sent == StopsAt(Halves(data), 0, (size + 1) / 2, 8, 0))
              || (stat == PM_STAT_FAIL && r == 0 && old(gpio.faults) < gpio.faults)
      ensures ticks > 0 ==> sent == StopsAt(Halves(data), 0, (size + 1) / 2, 8, 0) && pm == PM_NORMAL
      ensures stat == PM_STAT_DONE ==> (RP_CCLK in gpio.latch <==> pm == PM_PR && sent > 0)
    {
      lead, sent, ticks := 0, 0, 0;
      ghost var e0 := gpio.edges;
      ghost var ws := Halves(data);
      var ret;
      ret, lead := Begin(PM_SMAP_16, size, pm);
      ghost var begun := gpio.edges;
      ready := gpio.readings;
      var ok := ret == 0;
      var count := 0;
      if ok {
        NothingSentPair(ws);
        ret, count := Send16Fast(data, size, ws);
        sent, ok := count, ret == 0;
      }
      RunBegins16(e0, begun, gpio.edges, ws, lead, sent);
      if !ok {
        r := Finish(PM_STAT_FAIL, 0);
        return;
      }
      r, ticks := Complete16(pm, 2 * count, ws, e0, lead, sent, ready, 1);
    }

    /** Two partial reconfigurations in a row with fic_prog_sm8. The first, if not empty, leaves
        the clock's level high, so that the set-up of the second makes the FPGA sample a zero
        byte that is in neither buffer. */
    method PartialTwice(a: seq<byte>, b: seq<byte>) returns (done: bool, ghost e1: seq<Pins>)
      requires gpio.Valid() && a != []
      modifies this, gpio
      ensures gpio.Valid() && (!done ==> old(gpio.faults) < gpio.faults)
      ensures done ==> Sampled8(e1, |old(gpio.edges)|, Repeat(0, Leads(old(gpio.latch))) + a)
      ensures done ==> Sampled8(gpio.edges, |e1|, [0] + b) && e1 <= gpio.edges
    {
      var r, lead, sent, ticks, ready := ProgSm8(a, |a|, PM_PR);
      e1 := gpio.edges;
      done := stat == PM_STAT_DONE;
      if done {
        assert Stream(a, 0, lead, sent, ticks) == Repeat(0, lead) + a;
        r, lead, sent, ticks, ready := ProgSm8(b, |b|, PM_PR);
        done := stat == PM_STAT_DONE;
        if done {
          assert Stream(b, 0, 1, sent, 0) == [0] + b;
        }
      }
    }
  }

  /** The fast functions do not always return the size they were given: seventeen zero bytes
      take one window of sixteen, and the single byte left, followed by zeros, another. */
  lemma FastMayOverrun()
    ensures StopsAt(Repeat<byte>(0, 32), 0, 17, 16, 0) == 32
  {
    var data := Repeat<byte>(0, 32);
    RepeatsMeaning(data, 0, 0, 16, 16);
    RepeatsMeaning(data, 0, 16, 16, 16);
    assert Pass(data, 0, 0, 16) == 16 && Pass(data, 0, 16, 16) == 16;
  }
}
