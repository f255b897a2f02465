/** The Raspberry Pi's GPIO block as ficlib2.h drives it: packed three-bit pin modes, and an
    output latch behind write-one-to-set and write-one-to-clear registers. A 32-bit register
    value stands as the set of its one bits: `|` is union, `& ~` difference, `1 << g` is {g}. */
module Gpio {
  import opened Bytes

  /** Which board the library is compiled for (FICMK2 undefined or defined). */
  datatype Board = Mk1 | Mk2

  type Pins = set<nat>

  // Pin numbers
  const RP_INIT: nat := 4
  const RP_PROG_B: nat := 5
  const RP_DONE: nat := 6
  const RP_CCLK: nat := 7
  const RP_CD0: nat := 8
  const RP_CD7: nat := 15
  const RP_CD15: nat := 23
  const RP_PWOK: nat := 24
  const RP_CFSEL: nat := 25
  const RP_CSI_B: nat := 26
  const RP_RDWR_B: nat := 27
  const GPIO_PIN_MAX: nat := RP_RDWR_B

  predicate Within(lo: nat, g: nat, hi: nat) {
    lo <= g <= hi
  }

  /** Bits lo up to and including hi. */
  function Range(lo: nat, hi: nat): Pins {
    set g: nat | g <= hi && Within(lo, g, hi)
  }

  /** The configuration data pins of SelectMAP x8 (0x0000ff00) and x16 (0x00ffff00). */
  const DATA8: Pins := Range(RP_CD0, RP_CD7)
  const DATA16: Pins := Range(RP_CD0, RP_CD15)

  // ----- Values on pins -----

  /** n << low, for an n of `width` bits. */
  function Shifted(n: nat, low: nat, width: nat): Pins
    requires width > 0
  {
    var pins := Range(low, low + width - 1);
    set g | g in pins && Bit(n, g - low)
  }

  /** The value on `width` pins from `low` on. */
  function ValueOn(pins: Pins, low: nat, width: nat): (n: nat)
    ensures n < Pow2(width)
    decreases width
  {
    if width == 0 then 0 else (if low in pins then 1 else 0) + 2 * ValueOn(pins, low + 1, width - 1)
  }

  lemma {:induction false} BitOfValueOn(pins: Pins, low: nat, width: nat, k: nat)
    requires k < width
    ensures Bit(ValueOn(pins, low, width), k) == (low + k in pins)
    decreases width
  {
    var rest := ValueOn(pins, low + 1, width - 1);
    assert ValueOn(pins, low, width) / 2 == rest;
    if k > 0 {
      BitOfValueOn(pins, low + 1, width - 1, k - 1);
    }
  }

  /** Pins show the value that was put on them. */
  lemma ValueOnShifted(pins: Pins, n: nat, low: nat, width: nat)
    requires width > 0 && n < Pow2(width)
    requires forall g :: Within(low, g, low + width - 1) ==> (g in pins <==> g in Shifted(n, low, width))
    ensures ValueOn(pins, low, width) == n
  {
    forall k: nat | k < width
      ensures Bit(ValueOn(pins, low, width), k) == Bit(n, k)
    {
      BitOfValueOn(pins, low, width, k);
      assert Within(low, low + k, low + width - 1);
    }
    BitsDetermine(ValueOn(pins, low, width), n, width);
  }

  /** Exactly the pins of a number's one bits are high iff the pins show that number. */
  lemma ShowsIff(wires: Pins, n: nat, low: nat, width: nat)
    requires width > 0 && n < Pow2(width)
    ensures wires * Range(low, low + width - 1) == Shifted(n, low, width) <==> ValueOn(wires, low, width) == n
  {
    var pins := Range(low, low + width - 1);
    if wires * pins == Shifted(n, low, width) {
      assert forall g :: g in pins ==> (g in wires <==> g in wires * pins);
      ValueOnShifted(wires, n, low, width);
    }
    if ValueOn(wires, low, width) == n {
      forall g | g in pins
        ensures g in wires <==> g in Shifted(n, low, width)
      {
        BitOfValueOn(wires, low, width, g - low);
      }
    }
  }

  /** The value on some pins is made up of those on the lower and the upper of them. */
  lemma {:induction false} ValueSplits(wires: Pins, low: nat, w: nat, v: nat)
    ensures ValueOn(wires, low, w + v) == ValueOn(wires, low, w) + Pow2(w) * ValueOn(wires, low + w, v)
    decreases w
  {
    if w > 0 {
      ValueSplits(wires, low + 1, w - 1, v);
      assert low + 1 + (w - 1) == low + w && w - 1 + v == w + v - 1;
      TwiceProduct(Pow2(w - 1), ValueOn(wires, low + w, v));
    }
  }

  lemma TwiceProduct(p: nat, x: nat)
    ensures 2 * p * x == 2 * (p * x)
  {
  }

  /** So a number of two halves is on the pins iff each half is on its own. */
  lemma HalvesShown(wires: Pins, n: nat, hi: nat, lo: nat, low: nat, w: nat)
    requires w > 0 && hi < Pow2(w) && lo < Pow2(w) && n == Pow2(w) * hi + lo && n < Pow2(w + w)
    ensures wires * Range(low, low + w + w - 1) == Shifted(n, low, w + w) <==>
            ValueOn(wires, low, w) == lo && ValueOn(wires, low + w, w) == hi
  {
    var x, y := ValueOn(wires, low, w), ValueOn(wires, low + w, w);
    ShowsIff(wires, n, low, w + w);
    ValueSplits(wires, low, w, w);
    DigitsUnique(Pow2(w), hi, lo, y, x);
  }

  lemma DigitsUnique(base: nat, hi: nat, lo: nat, hi': nat, lo': nat)
    requires lo < base && lo' < base
    ensures base * hi + lo == base * hi' + lo' <==> hi == hi' && lo == lo'
  {
    if hi < hi' {
      StepProduct(base, hi, hi');
    } else if hi' < hi {
      StepProduct(base, hi', hi);
    }
  }

  lemma {:induction false} StepProduct(base: nat, x: nat, y: nat)
    requires x < y
    ensures base * x + base <= base * y
    decreases y
  {
    Distribute(base, y - 1);
    if x < y - 1 {
      StepProduct(base, x, y - 1);
    }
  }

  lemma Distribute(base: nat, x: nat)
    ensures base * (x + 1) == base * x + base
  {
  }

  /** Pins shifted by a known amount determine the value they carry. */
  lemma ShiftedDetermines(n: nat, m: nat, low: nat, width: nat)
    requires width > 0 && n < Pow2(width) && m < Pow2(width)
    requires Shifted(n, low, width) == Shifted(m, low, width)
    ensures n == m
  {
    ValueOnShifted(Shifted(n, low, width), n, low, width);
    ValueOnShifted(Shifted(n, low, width), m, low, width);
  }

  // ----- Pin modes -----

  // The function-select words GPFSEL0..2 hold ten three-bit fields each: field g%10 of word
  // g/10 is the mode of pin g.

  /** The field of a word's k-th pin, 7 << 3*k, and the output mode in it, 1 << 3*k. */
  function FieldMask(k: nat): Pins {
    {3 * k, 3 * k + 1, 3 * k + 2}
  }

  /** The ten fields share out the lower thirty bits of a word. */
  lemma FieldsPartition(b: nat)
    ensures forall k: nat :: b in FieldMask(k) <==> k == b / 3
    ensures b / 3 < 10 <==> b < 30
  {
  }

  const ALL_INPUT: seq<Pins> := [{}, {}, {}]

  /** The mode bits of pin g, left in place. */
  function Mode(fsel: seq<Pins>, g: nat): Pins
    requires |fsel| == 3 && g < 30
  {
    fsel[g / 10] * FieldMask(g % 10)
  }

  /** The output mode of pin g; the input mode is {}. */
  function OutputMode(g: nat): Pins {
    {3 * (g % 10)}
  }

  /** The high pins a wire can show: those the latch holds high and the mode drives. */
  function OnWires(fsel: seq<Pins>, latch: Pins): Pins
    requires |fsel| == 3
  {
    set g | g in latch && g < 30 && Mode(fsel, g) == OutputMode(g)
  }

  // ----- What a SelectMAP slave sees of the wires -----

  /** The clock and the data pins. */
  const BUS: Pins := DATA16 + {RP_CCLK}

  predicate Rises(before: Pins, after: Pins) {
    RP_CCLK !in before && RP_CCLK in after
  }

  /** Whatever raises CCLK on the wires, a level or a mode, makes the slave sample them. */
  function Traced(edges: seq<Pins>, before: Pins, after: Pins): seq<Pins> {
    if Rises(before, after) then edges + [after] else edges
  }

  /** A change that leaves CCLK high must leave the configuration data alone. */
  predicate HoldsData(before: Pins, after: Pins) {
    RP_CCLK in after ==> after * DATA16 == before * DATA16
  }

  /** Nothing a slave sees has changed. */
  predicate SameBus(before: Pins, after: Pins) {
    before * BUS == after * BUS
  }

  lemma SameBusUnseen(edges: seq<Pins>, before: Pins, after: Pins)
    requires SameBus(before, after)
    ensures Traced(edges, before, after) == edges && HoldsData(before, after)
  {
    assert forall g :: g in BUS ==> (g in before * BUS <==> g in before) && (g in after * BUS <==> g in after);
  }

  /** Levels reach the wires pin by pin. */
  lemma WiresOfSet(fsel: seq<Pins>, latch: Pins, v: Pins)
    requires |fsel| == 3
    ensures OnWires(fsel, latch + v) == OnWires(fsel, latch) + OnWires(fsel, v)
    ensures OnWires(fsel, latch - v) == OnWires(fsel, latch) - v
    ensures OnWires(fsel, v) <= v
  {
  }

  /** Raising or lowering other pins than the data pins leaves the data wires alone. */
  lemma LevelsHoldData(fsel: seq<Pins>, latch: Pins, latch': Pins)
    requires |fsel| == 3 && latch' * DATA16 == latch * DATA16
    ensures HoldsData(OnWires(fsel, latch), OnWires(fsel, latch'))
  {
    assert forall g :: g in DATA16 ==> (g in latch * DATA16 <==> g in latch) && (g in latch' * DATA16 <==> g in latch');
  }

  /** Pins with the same mode and level look the same. */
  lemma WiresAgree(fsel: seq<Pins>, fsel': seq<Pins>, latch: Pins, latch': Pins, g: nat)
    requires |fsel| == |fsel'| == 3 && g < 30
    requires Mode(fsel, g) == Mode(fsel', g) && (g in latch <==> g in latch')
    ensures g in OnWires(fsel, latch) <==> g in OnWires(fsel', latch')
  {
  }

  /** PROG_B is driven low, which resets the FPGA. */
  predicate Resetting(fsel: seq<Pins>, latch: Pins)
    requires |fsel| == 3
  {
    Mode(fsel, RP_PROG_B) == OutputMode(RP_PROG_B) && RP_PROG_B !in latch
  }

  /** Resets begun, each as the number of samples taken before it. */
  function Pulled(resets: seq<nat>, before: bool, after: bool, samples: nat): seq<nat> {
    if !before && after then resets + [samples] else resets
  }

  /** The level the program saw on an input pin. */
  datatype Level = Level(pin: nat, high: bool)

  /** A call fails exactly if something outside the program has failed: `ret` is 0 if there was no
      fault since `before`, and otherwise -1. */
  ghost predicate Explained(ret: int, before: nat, after: nat) {
    if ret == 0 then after == before else ret == -1 && before < after
  }

  class Registers {
    var fsel: seq<Pins>
    var latch: Pins
    /** What a SelectMAP slave samples: the wires at each rising edge of CCLK, whether a level or
        a mode makes it. */
    ghost var edges: seq<Pins>
    /** No register write so far changed the data wires while leaving CCLK high. */
    ghost var steady: bool
    /** When the host began to pull PROG_B low, whether by a level or by a mode. */
    ghost var resets: seq<nat>
    /** The input pins it looked at, in order. */
    ghost var readings: seq<Level>
    /** How often something outside the program failed: a read-back check or a wait that timed
        out, a status pin at the wrong level. */
    ghost var faults: nat

    ghost predicate Valid()
      reads this`fsel
    {
      |fsel| == 3
    }

    function Wires(): Pins
      requires Valid()
      reads this`fsel, this`latch
    {
      OnWires(fsel, latch)
    }

    /** The slave's view of a register write, whatever it changed. */
    ghost method Record(before: Pins, resetting: bool)
      requires Valid()
      modifies this`edges, this`steady, this`resets
      ensures edges == Traced(old(edges), before, Wires())
      ensures steady == (old(steady) && HoldsData(before, Wires()))
      ensures resets == Pulled(old(resets), resetting, Resetting(fsel, latch), |edges|)
    {
      edges, steady := Traced(edges, before, Wires()), steady && HoldsData(before, Wires());
      resets := Pulled(resets, resetting, Resetting(fsel, latch), |edges|);
    }

    /** GET_GPIO_PIN(g) */
    method Get(g: nat) returns (high: bool)
      modifies this`readings
      ensures readings == old(readings) + [Level(g, high)]
    {
      high := *;
      readings := readings + [Level(g, high)];
    }

    /** SET_GPIO = v */
    method Set(v: Pins)
      requires Valid()
      modifies this`latch, this`edges, this`steady, this`resets
      ensures latch == old(latch) + v
      ensures edges == Traced(old(edges), old(Wires()), Wires())
      ensures steady == (old(steady) && HoldsData(old(Wires()), Wires()))
      ensures v !! BUS ==> edges == old(edges) && steady == old(steady)
      ensures resets == old(resets)
    {
      ghost var before, resetting := Wires(), Resetting(fsel, latch);
      latch := latch + v;
      WiresOfSet(fsel, old(latch), v);
      if v !! BUS {
        SameBusUnseen(edges, before, Wires());
      }
      Record(before, resetting);
    }

    /** CLR_GPIO = v, which never raises CCLK. */
    method Clr(v: Pins)
      requires Valid()
      modifies this`latch, this`edges, this`steady, this`resets
      ensures latch == old(latch) - v
      ensures edges == old(edges)
      ensures steady == (old(steady) && HoldsData(old(Wires()), Wires()))
      ensures v !! BUS ==> edges == old(edges) && steady == old(steady)
      ensures resets == Pulled(old(resets), Resetting(fsel, old(latch)), Resetting(fsel, latch), |edges|)
      ensures RP_PROG_B !in v ==> resets == old(resets)
    {
      ghost var before, resetting := Wires(), Resetting(fsel, latch);
      latch := latch - v;
      WiresOfSet(fsel, old(latch), v);
      if v !! BUS {
        SameBusUnseen(edges, before, Wires());
      }
      Record(before, resetting);
    }

    /** Something outside the program that may fail, at any time. */
    method Chance() returns (ret: int)
      modifies this`faults
      ensures Explained(ret, old(faults), faults)
    {
      var fails: bool := *;
      ret := 0;
      if fails {
        faults := faults + 1;
        ret := -1;
      }
    }

    /** Polls an input pin until it is high. That it becomes high is assumed. */
    method AwaitHigh(g: nat)
      modifies this`readings
      ensures old(readings) <= readings && |old(readings)| < |readings|
      ensures readings[|readings| - 1] == Level(g, true)
      ensures forall k :: |old(readings)| <= k < |readings| - 1 ==> readings[k] == Level(g, false)
    {
      var polls: nat := *;
      var i := 0;
      while i < polls
        invariant old(readings) <= readings
        invariant forall k :: |old(readings)| <= k < |readings| ==> readings[k] == Level(g, false)
      {
        readings := readings + [Level(g, false)];
        i := i + 1;
      }
      readings := readings + [Level(g, true)];
    }

    /** A status that must be good. */
    method Demand(good: bool) returns (ret: int)
      modifies this`faults
      ensures Explained(ret, old(faults), faults) && (ret == 0 <==> good)
    {
      ret := if good then 0 else -1;
      faults := if good then faults else faults + 1;
    }

    /** fic_set_gpio: the read-back check may time out, at any time. */
    method SetChecked(v: Pins) returns (ret: int)
      requires Valid()
      modifies this`latch, this`edges, this`steady, this`resets, this`faults
      ensures latch == old(latch) + v
      ensures edges == Traced(old(edges), old(Wires()), Wires())
      ensures steady == (old(steady) && HoldsData(old(Wires()), Wires()))
      ensures Explained(ret, old(faults), faults)
      ensures v !! BUS ==> edges == old(edges) && steady == old(steady)
      ensures resets == old(resets)
    {
      Set(v);
      ret := Chance();
    }

    /** fic_clr_gpio */
    method ClrChecked(v: Pins) returns (ret: int)
      requires Valid()
      modifies this`latch, this`edges, this`steady, this`resets, this`faults
      ensures latch == old(latch) - v
      ensures edges == old(edges)
      ensures steady == (old(steady) && HoldsData(old(Wires()), Wires()))
      ensures Explained(ret, old(faults), faults)
      ensures v !! BUS ==> edges == old(edges) && steady == old(steady)
      ensures resets == Pulled(old(resets), Resetting(fsel, old(latch)), Resetting(fsel, latch), |edges|)
      ensures RP_PROG_B !in v ==> resets == old(resets)
    {
      Clr(v);
      ret := Chance();
    }

    /** SET_INPUT(g), which never raises CCLK. */
    method SetInput(g: nat)
      requires Valid() && g < 30
      modifies this`fsel, this`edges, this`steady, this`resets
      ensures Valid()
      ensures forall h: nat | h < 30 :: Mode(fsel, h) == if h == g then {} else Mode(old(fsel), h)
      ensures edges == old(edges)
      ensures steady == (old(steady) && HoldsData(old(Wires()), Wires()))
      ensures resets == old(resets)
    {
      ghost var before, resetting := Wires(), Resetting(fsel, latch);
      ClearField(g);
      assert RP_CCLK in Wires() ==> RP_CCLK in before by {
        if g != RP_CCLK {
          WiresAgree(old(fsel), fsel, latch, latch, RP_CCLK);
        }
      }
      Record(before, resetting);
    }

    method ClearField(g: nat)
      requires Valid() && g < 30
      modifies this`fsel
      ensures Valid()
      ensures forall h: nat | h < 30 :: Mode(fsel, h) == if h == g then {} else Mode(old(fsel), h)
    {
      fsel := fsel[g / 10 := fsel[g / 10] - FieldMask(g % 10)];
    }

    /** SET_OUTPUT(g): ORs in the output mode, so any other mode bit already set survives. A pin
        whose level is high rises on the wires, and if it is CCLK the slave samples. */
    method SetOutput(g: nat)
      requires Valid() && g < 30
      modifies this`fsel, this`edges, this`steady, this`resets
      ensures Valid()
      ensures forall h: nat | h < 30 :: Mode(fsel, h) == Mode(old(fsel), h) + if h == g then OutputMode(g) else {}
      ensures edges == Traced(old(edges), old(Wires()), Wires())
      ensures steady == (old(steady) && HoldsData(old(Wires()), Wires()))
      ensures g !in BUS ==> edges == old(edges) && steady == old(steady)
      ensures resets == Pulled(old(resets), old(Resetting(fsel, latch)), Resetting(fsel, latch), |edges|)
      ensures g != RP_PROG_B ==> resets == old(resets)
    {
      ghost var before, resetting := Wires(), Resetting(fsel, latch);
      AddOutputBit(g);
      if g !in BUS {
        ModeOnly(old(fsel), fsel, latch, g);
        SameBusUnseen(edges, before, Wires());
      }
      Record(before, resetting);
    }

    method AddOutputBit(g: nat)
      requires Valid() && g < 30
      modifies this`fsel
      ensures Valid()
      ensures forall h: nat | h < 30 :: Mode(fsel, h) == Mode(old(fsel), h) + if h == g then OutputMode(g) else {}
    {
      fsel := fsel[g / 10 := fsel[g / 10] + OutputMode(g)];
    }

    /** SET_INPUT(g); SET_OUTPUT(g). On CCLK this makes exactly one sample if its level is high,
        on PROG_B exactly one reset if its level is low, and nothing otherwise. */
    method MakeOutput(g: nat)
      requires Valid() && g < 30
      modifies this`fsel, this`edges, this`steady, this`resets
      ensures Valid()
      ensures forall h: nat | h < 30 :: Mode(fsel, h) == if h == g then OutputMode(g) else Mode(old(fsel), h)
      ensures edges == if g == RP_CCLK && RP_CCLK in latch then old(edges) + [Wires()] else old(edges)
      ensures RP_CCLK !in old(Wires()) || g !in DATA16 ==> steady == old(steady)
      ensures resets == if g == RP_PROG_B && RP_PROG_B !in latch then old(resets) + [|edges|] else old(resets)
    {
      ghost var w0 := Wires();
      SetInput(g);
      ghost var w1 := Wires();
      ModeOnly(old(fsel), fsel, latch, g);
      SetOutput(g);
      ModeOnly(old(fsel), fsel, latch, g);
      ghost var w2 := Wires();
      assert g == RP_CCLK ==> RP_CCLK !in w1 && (RP_CCLK in w2 <==> RP_CCLK in latch);
    }

    /** SET_ALL_INPUT */
    method SetAllInput()
      requires Valid()
      modifies this`fsel, this`edges, this`steady, this`resets
      ensures Valid()
      ensures forall h: nat | h < 30 :: Mode(fsel, h) == {}
      ensures Wires() == {}
      ensures edges == old(edges) && steady == old(steady)
      ensures resets == old(resets)
    {
      ghost var before, resetting := Wires(), Resetting(fsel, latch);
      fsel := ALL_INPUT;
      assert forall h: nat | h < 30 :: Mode(fsel, h) == {};
      Record(before, resetting);
    }
  }

  /** Changing the mode of one pin shows on that pin only. */
  lemma ModeOnly(fsel: seq<Pins>, fsel': seq<Pins>, latch: Pins, g: nat)
    requires |fsel| == |fsel'| == 3 && g < 30
    requires forall h: nat | h < 30 && h != g :: Mode(fsel', h) == Mode(fsel, h)
    ensures OnWires(fsel', latch) - {g} == OnWires(fsel, latch) - {g}
    ensures g !in DATA16 ==> OnWires(fsel', latch) * DATA16 == OnWires(fsel, latch) * DATA16
    ensures g !in BUS ==> SameBus(OnWires(fsel, latch), OnWires(fsel', latch))
  {
    forall h | h in OnWires(fsel', latch) - {g} || h in OnWires(fsel, latch) - {g}
      ensures h in OnWires(fsel', latch) <==> h in OnWires(fsel, latch)
    {
      WiresAgree(fsel, fsel', latch, latch, h);
    }
  }
}
