/** The host side of the strobe link over the GPIO pins, down to single register writes, with
    the device reacting to the wires. The device ends its transaction when RREQ falls, before the
    host's next access. It answers a rising RSTB after any delay or not at all; it lowers FACK
    after a falling RSTB when it gets round to it, and if it is prompt before the next rise. A
    call that fails may leave its transaction open, RREQ high and RSTB high or low: the next
    call's set-up ends it, and the device does what it then does with what it has. */
module Link {
  import opened Bytes
  import opened Gpio
  import opened Device
  import opened Subsequences

  // ----- Pin assignments of the two boards -----

  function RreqPin(board: Board): nat { if board == Mk1 then 23 else 6 }
  function RstbPin(board: Board): nat { if board == Mk1 then 22 else 4 }
  function FreqPin(board: Board): nat { if board == Mk1 then 21 else 26 }
  function FackPin(board: Board): nat { if board == Mk1 then 20 else 27 }
  function DataLow(board: Board): nat { if board == Mk1 then 16 else 8 }
  function DataTop(board: Board): nat { if board == Mk1 then 19 else 23 }
  function DataWidth(board: Board): nat { if board == Mk1 then 4 else 16 }

  function DataBus(board: Board): Pins {
    Range(DataLow(board), DataTop(board))
  }

  predicate CommOutput(board: Board, g: nat) {
    g == RreqPin(board) || g == RstbPin(board) || Within(DataLow(board), g, DataTop(board))
  }

  /** The values one word can have. */
  predicate Fits(board: Board, w: half) {
    board == Mk1 ==> w < 16
  }

  /** The word a device reads off the wires. */
  function BusWord(board: Board, wires: Pins): half {
    ValueOn(wires, DataLow(board), DataWidth(board)) % 0x1_0000
  }

  lemma FitsWidth(board: Board, w: half)
    requires Fits(board, w)
    ensures w < Pow2(DataWidth(board))
    ensures DataLow(board) + DataWidth(board) - 1 == DataTop(board)
  {
    PowersOfTwo();
  }

  lemma BusCarries(board: Board, wires: Pins, w: half)
    requires Fits(board, w)
    requires forall g :: Within(DataLow(board), g, DataTop(board)) ==>
               (g in wires <==> g in Shifted(w, DataLow(board), DataWidth(board)))
    ensures BusWord(board, wires) == w
  {
    FitsWidth(board, w);
    ValueOnShifted(wires, w, DataLow(board), DataWidth(board));
  }

  /** How the device follows wires that have gone, or stayed, low. */
  function Framed(board: Board, d: Device, wires: Pins): Device {
    if RreqPin(board) !in wires then EndTransaction(board, d) else d
  }

  /** A call of fic_write. */
  datatype RegWrite = RegWrite(addr: half, value: half)

  /** What a read of register addr, or of the stream, returns. */
  function ReadValue(board: Board, c: Contents, addr: half): half {
    var a := AnswerAt(board, c, addr);
    if board == Mk1 then JoinNibbles(WordAt(board, a, 0), WordAt(board, a, 1)) else WordAt(board, a, 0)
  }

  class Host {
    const board: Board
    const gpio: Registers
    /** Whether the device lowers FACK before RSTB rises again. */
    const prompt: bool
    var dev: Device

    constructor (board: Board, gpio: Registers, prompt: bool, dev: Device)
      ensures this.board == board && this.gpio == gpio && this.prompt == prompt && this.dev == dev
    {
      this.board, this.gpio, this.prompt, this.dev := board, gpio, prompt, dev;
    }

    /** What the device holds once the transaction under way, if any, has ended. */
    ghost function Due(): Contents
      reads this
    {
      Carried(board, dev.held, dev.words)
    }

    /** The device will notice the next rise of RSTB. */
    ghost predicate Ready()
      reads this
    {
      prompt || !dev.fack
    }

    /** The device is going to take the next n words rather than answer. */
    ghost predicate Listens(n: nat)
      reads this
    {
      (dev.words != [] && dev.words[0] != COMM_CMD_READ) || |dev.words| + n <= HeadLen(board)
    }

    /** All pins are inputs. */
    ghost predicate Released()
      reads this, gpio
    {
      gpio.Valid() && forall g: nat | g < 30 :: Mode(gpio.fsel, g) == {}
    }

    /** FREQ was low when last looked at. */
    ghost predicate FreqFell()
      reads this, gpio
    {
      gpio.readings != [] && gpio.readings[|gpio.readings| - 1] == Level(FreqPin(board), false)
    }

    /** How a transaction that has gone well leaves the pins. */
    ghost predicate Ended()
      reads this, gpio
    {
      Released() && FreqFell() && RreqPin(board) !in gpio.latch && RstbPin(board) !in gpio.latch
    }

    /** RREQ is up and the control lines are outputs. */
    ghost predicate Open()
      reads this, gpio
    {
      && gpio.Valid()
      && Mode(gpio.fsel, RreqPin(board)) == OutputMode(RreqPin(board))
      && Mode(gpio.fsel, RstbPin(board)) == OutputMode(RstbPin(board))
      && RreqPin(board) in gpio.latch
    }

    /** The host drives the data pins. */
    ghost predicate Sending()
      reads this, gpio
    {
      && Open()
      && forall g: nat | g < 30 && Within(DataLow(board), g, DataTop(board)) :: Mode(gpio.fsel, g) == OutputMode(g)
    }

    /** The device drives the data pins. */
    ghost predicate Receiving()
      reads this, gpio
    {
      Open() && forall g: nat | g < 30 && Within(DataLow(board), g, DataTop(board)) :: Mode(gpio.fsel, g) == {}
    }

    /** fic_clr_gpio, or fic_clr_gpio_fast, which does not fail; and the device's reaction. */
    method Clr(v: Pins, fast: bool) returns (ret: int)
      requires gpio.Valid()
      modifies this`dev, gpio`latch, gpio`edges, gpio`steady, gpio`resets, gpio`faults
      ensures gpio.latch == old(gpio.latch) - v
      ensures dev == Framed(board, old(dev), OnWires(gpio.fsel, gpio.latch))
      ensures Explained(ret, old(gpio.faults), gpio.faults) && (fast ==> ret == 0)
    {
      if fast {
        gpio.Clr(v);
        ret := 0;
      } else {
        ret := gpio.ClrChecked(v);
      }
      dev := Framed(board, dev, OnWires(gpio.fsel, gpio.latch));
    }

    /** SET_ALL_INPUT, which lets every wire go low. */
    method ReleaseAll()
      requires gpio.Valid()
      modifies this`dev, gpio`fsel, gpio`edges, gpio`steady, gpio`resets
      ensures Released()
      ensures dev == Framed(board, old(dev), {})
    {
      gpio.SetAllInput();
      dev := Framed(board, dev, gpio.Wires());
    }

    /** fic_set_gpio, or fic_set_gpio_fast, raising RSTB. A prompt device has lowered FACK by now,
        another one may not. */
    method Raise(v: Pins, fast: bool) returns (ret: int)
      requires Open() && RstbPin(board) in v && RstbPin(board) !in gpio.latch
      modifies this`dev, gpio`latch, gpio`edges, gpio`steady, gpio`resets, gpio`faults
      ensures gpio.latch == old(gpio.latch) + v
      ensures dev == old(dev).(fack := dev.fack) && (old(Ready()) ==> !dev.fack)
      ensures Explained(ret, old(gpio.faults), gpio.faults) && (fast ==> ret == 0)
    {
      var lowered: bool := *;
      if prompt || lowered {
        dev := dev.(fack := false);
      }
      if fast {
        gpio.Set(v);
        ret := 0;
      } else {
        ret := gpio.SetChecked(v);
      }
    }

    /** Both control lines are up. */
    ghost predicate Strobing()
      reads this, gpio
    {
      gpio.Valid() && RreqPin(board) in gpio.Wires() && RstbPin(board) in gpio.Wires()
    }

    /** The device may, or may not, answer the strobe before the host's next register write,
        whether or not the host still looks. With FACK still up it cannot. */
    method Late()
      requires Strobing()
      modifies this`dev
      ensures dev == old(dev) || dev == Strobe(board, old(dev), BusWord(board, gpio.Wires()))
      ensures old(dev).fack ==> dev == old(dev)
    {
      var reacts: bool := *;
      if reacts && !dev.fack {
        dev := Strobe(board, dev, BusWord(board, gpio.Wires()));
      }
    }

    /** fic_comm_wait_fack_up: polls while the device may or may not react to the strobe. A FACK
        that is still up from before ends the wait at once. */
    method WaitFackUp() returns (ret: int)
      requires Strobing()
      modifies this`dev, gpio`faults
      ensures Explained(ret, old(gpio.faults), gpio.faults)
      ensures dev == old(dev) || dev == Strobe(board, old(dev), BusWord(board, gpio.Wires()))
      ensures ret == 0 && !old(dev).fack ==> dev == Strobe(board, old(dev), BusWord(board, gpio.Wires()))
    {
      var patience: nat := *;
      while !dev.fack
        invariant gpio.faults == old(gpio.faults)
        invariant dev == old(dev) || dev == Strobe(board, old(dev), BusWord(board, gpio.Wires()))
        decreases patience
      {
        if patience == 0 {
          gpio.faults := gpio.faults + 1;
          Late();
          return -1;
        }
        patience := patience - 1;
        Late();
      }
      return 0;
    }

    /** fic_comm_wait_fack_down: with RSTB low the device lowers FACK when it gets round to it. */
    method WaitFackDown() returns (ret: int)
      requires gpio.Valid() && RstbPin(board) !in gpio.Wires()
      modifies this`dev, gpio`faults
      ensures Explained(ret, old(gpio.faults), gpio.faults)
      ensures dev == old(dev).(fack := dev.fack) && (ret == 0 ==> !dev.fack)
    {
      var patience: nat := *;
      while dev.fack
        invariant gpio.faults == old(gpio.faults) && dev == old(dev).(fack := dev.fack)
        decreases patience
      {
        if patience == 0 {
          gpio.faults := gpio.faults + 1;
          return -1;
        }
        patience := patience - 1;
        var reacts: bool := *;
        if reacts {
          dev := dev.(fack := false);
        }
      }
      return 0;
    }

    /** fic_comm_send, or fic_comm_send_fast when `fast`: the same accesses, but the fast form
        goes on after a failure, checks only the first write, and leaves out the wait for FACK to
        fall. A device that was not ready may lose the word without an error. */
    method CommSend(w: half, fast: bool) returns (ret: int)
      requires Sending() && Fits(board, w)
      modifies this`dev, gpio`latch, gpio`edges, gpio`steady, gpio`resets, gpio`faults
      ensures Sending() && Explained(ret, old(gpio.faults), gpio.faults)
      ensures dev == old(dev).(fack := dev.fack) || dev == Strobe(board, old(dev), w).(fack := dev.fack)
      ensures ret == 0 && old(Ready()) ==> dev == Strobe(board, old(dev), w).(fack := dev.fack)
      ensures ret == 0 && !fast ==> !dev.fack
      ensures ret == 0 || fast ==> RstbPin(board) !in gpio.latch
    {
      var cleared := Clr({RstbPin(board)} + DataBus(board), false);
      if cleared < 0 && !fast { return -1; }
      ret := Put(w, fast);
      if ret < 0 && !fast { return -1; }
      var failed := cleared < 0 || ret < 0;
      ret := Clr({RstbPin(board)}, fast);
      if fast { return if failed then -1 else 0; }
      if ret < 0 { return -1; }
      ret := WaitFackDown();
    }

    /** A word goes on the cleared bus together with the strobe, and the device may take it. */
    method Put(w: half, fast: bool) returns (ret: int)
      requires Sending() && Fits(board, w)
      requires RstbPin(board) !in gpio.latch && forall g :: g in DataBus(board) ==> g !in gpio.latch
      modifies this`dev, gpio`latch, gpio`edges, gpio`steady, gpio`resets, gpio`faults
      ensures Sending() && Explained(ret, old(gpio.faults), gpio.faults)
      ensures dev == old(dev).(fack := dev.fack) || dev == Strobe(board, old(dev), w).(fack := dev.fack)
      ensures ret == 0 && old(Ready()) ==> dev == Strobe(board, old(dev), w).(fack := dev.fack)
    {
      ret := Raise({RstbPin(board)} + Shifted(w, DataLow(board), DataWidth(board)), fast);
      assert BusWord(board, gpio.Wires()) == w by { BusCarries(board, gpio.Wires(), w); }
      if ret < 0 {
        Late();
        return -1;
      }
      ret := WaitFackUp();
    }

    /** The same send behind words `sent` of which the device has got `got`, `base` being what it
        had before. */
    method SendNext(w: half, fast: bool, ghost base: seq<half>, ghost got: seq<half>, ghost sent: seq<half>)
      returns (ret: int, ghost more: seq<half>)
      requires Sending() && Fits(board, w) && dev.words == base + got && Subsequence(got, sent)
      modifies this`dev, gpio`latch, gpio`edges, gpio`steady, gpio`resets, gpio`faults
      ensures Sending() && Explained(ret, old(gpio.faults), gpio.faults)
      ensures dev.held == old(dev).held && dev.words == base + more
      ensures Subsequence(more, sent + [w]) && (more == got || more == got + [w])
      ensures old(Listens(1)) ==> dev.supplied == old(dev).supplied
      ensures old(Listens(1)) && old(Ready()) && ret == 0 ==>
                more == got + [w] && (Reading(board, dev) ==> dev.answer == Answer(board, dev))
      ensures ret == 0 && !fast ==> !dev.fack
    {
      ret := CommSend(w, fast);
      OneMoreOffered(got, sent, w);
      more := if dev.words == old(dev).words then got else got + [w];
      assert base + got + [w] == base + (got + [w]);
    }

    /** The data pins as the host reads them back. */
    method ReadBus() returns (rcv: half)
      requires gpio.Valid()
      ensures Receiving() ==> rcv == dev.drive
    {
      var inputs := forall g: nat | g < 30 && Within(DataLow(board), g, DataTop(board)) :: Mode(gpio.fsel, g) == {};
      rcv := if inputs then dev.drive else BusWord(board, OnWires(gpio.fsel, gpio.latch));
    }

    /** Strobe for the next word of the answer, with the checks of the slow or the fast form. */
    method Fetch(fast: bool) returns (ret: int, rcv: half)
      requires Receiving() && Reading(board, dev)
      modifies this`dev, gpio`latch, gpio`edges, gpio`steady, gpio`resets, gpio`faults
      ensures Receiving() && Reading(board, dev) && Explained(ret, old(gpio.faults), gpio.faults)
      ensures dev.held == old(dev).held && dev.words == old(dev).words && dev.answer == old(dev).answer
      ensures ret == 0 && old(Ready()) ==> dev.supplied == old(dev).supplied + 1 && rcv == NextWord(board, old(dev))
      ensures ret == 0 && !fast ==> !dev.fack
      ensures ret == 0 ==> RstbPin(board) !in gpio.latch
    {
      rcv := 0;
      ret := Clr({RstbPin(board)}, fast);
      if ret < 0 { return; }
      ret := Raise({RstbPin(board)}, fast);
      if ret < 0 {
        Late();
        return;
      }
      ret := WaitFackUp();
      if ret < 0 { return; }
      rcv := ReadBus();
      ret := Clr({RstbPin(board)}, fast);
      if fast || ret < 0 { return; }
      ret := WaitFackDown();
    }

    /** fic_comm_receive_fast and, when not `fast`, fic_comm_receive. On mk1 the slow form returns
        eight pins, of which the upper four are not data. */
    method CommReceive(fast: bool) returns (ret: int, rcv: half)
      requires Receiving() && Reading(board, dev)
      modifies this`dev, gpio`latch, gpio`edges, gpio`steady, gpio`resets, gpio`faults
      ensures Receiving() && Reading(board, dev) && Explained(ret, old(gpio.faults), gpio.faults)
      ensures dev.held == old(dev).held && dev.words == old(dev).words && dev.answer == old(dev).answer
      ensures ret == 0 && old(Ready()) ==>
                && dev.supplied == old(dev).supplied + 1
                && NextWord(board, old(dev)) == if board == Mk1 && !fast then rcv % 16 else rcv
      ensures ret == 0 && !fast ==> !dev.fack
      ensures ret == 0 ==> RstbPin(board) !in gpio.latch
    {
      ret, rcv := Fetch(fast);
      if board == Mk1 {
        rcv := rcv % 16;
        if !fast {
          var others: nat := *;
          rcv := 16 * (others % 16) + rcv;
        }
      }
    }

    /** Two nibbles with fic_comm_send, of which the device gets `got`. */
    method SendTwo(a: half, b: half) returns (ret: int, ghost got: seq<half>)
      requires Sending() && board == Mk1 && a < 16 && b < 16
      modifies this`dev, gpio`latch, gpio`edges, gpio`steady, gpio`resets, gpio`faults
      ensures Sending() && Explained(ret, old(gpio.faults), gpio.faults)
      ensures dev.held == old(dev).held && dev.words == old(dev).words + got && Subsequence(got, [a, b])
      ensures old(Listens(2)) && old(Ready()) ==>
                && dev.supplied == old(dev).supplied
                && got <= [a, b]
                && (ret == 0 ==> got == [a, b] && (Reading(board, dev) ==> dev.answer == Answer(board, dev)))
      ensures ret == 0 ==> !dev.fack
    {
      ghost var base := dev.words;
      ret, got := SendNext(a, false, base, [], []);
      assert [] + [a] == [a] && [a] + [b] == [a, b];
      if ret < 0 {
        OneMoreOffered(got, [a], b);
        return;
      }
      ret, got := SendNext(b, false, base, got, [a]);
    }

    /** fic_comm_setaddr. However it fails, a device that was ready has a prefix of the address. */
    method SetAddr(addr: half) returns (ret: int, ghost got: seq<half>)
      requires Sending()
      modifies this`dev, gpio`latch, gpio`edges, gpio`steady, gpio`resets, gpio`faults
      ensures Sending() && Explained(ret, old(gpio.faults), gpio.faults)
      ensures dev.held == old(dev).held && dev.words == old(dev).words + got
      ensures Subsequence(got, EncodeAddr(board, addr))
      ensures old(Listens(HeadLen(board) - 1)) && old(Ready()) ==>
                && dev.supplied == old(dev).supplied
                && got <= EncodeAddr(board, addr)
                && (ret == 0 ==>
                      got == EncodeAddr(board, addr) && (Reading(board, dev) ==> dev.answer == Answer(board, dev)))
      ensures ret == 0 ==> !dev.fack
    {
      if board == Mk1 {
        ret, got := SendFour(addr);
      } else {
        assert [] + [addr] == EncodeAddr(board, addr);
        ret, got := SendNext(addr, false, dev.words, [], []);
      }
    }

    /** The four nibbles of an address. */
    method SendFour(addr: half) returns (ret: int, ghost got: seq<half>)
      requires Sending() && board == Mk1
      modifies this`dev, gpio`latch, gpio`edges, gpio`steady, gpio`resets, gpio`faults
      ensures Sending() && Explained(ret, old(gpio.faults), gpio.faults)
      ensures dev.held == old(dev).held && dev.words == old(dev).words + got
      ensures Subsequence(got, EncodeAddr(Mk1, addr))
      ensures old(Listens(4)) && old(Ready()) ==>
                && dev.supplied == old(dev).supplied
                && got <= EncodeAddr(Mk1, addr)
                && (ret == 0 ==>
                      got == EncodeAddr(Mk1, addr) && (Reading(board, dev) ==> dev.answer == Answer(board, dev)))
      ensures ret == 0 ==> !dev.fack
    {
      var n3: half, n2: half, n1: half, n0: half := addr / 16 / 16 / 16, addr / 16 / 16 % 16, addr / 16 % 16, addr % 16;
      ghost var high: seq<half>, low: seq<half> := [n3, n2], [n1, n0];
      assert high + low == EncodeAddr(Mk1, addr);
      ghost var more;
      ret, got := SendTwo(n3, n2);
      if ret < 0 {
        AllLost(low);
        PartsLeft(got, high, [], low);
        assert got + [] == got;
        return;
      }
      ret, more := SendTwo(n1, n0);
      PartsLeft(got, high, more, low);
      got := got + more;
    }

    /** fic_comm_setup: from any register state, exactly RREQ, RSTB and the data pins become
        outputs among pins 0 to 29, driven low, although the loop stops before pin 27. A
        transaction a failed call left open ends here. */
    method CommSetup() returns (ret: int)
      requires gpio.Valid()
      modifies this`dev, gpio
      ensures gpio.Valid() && Explained(ret, old(gpio.faults), gpio.faults)
      ensures ret == 0 ==> forall g: nat | g < 30 ::
                Mode(gpio.fsel, g) == if CommOutput(board, g) then OutputMode(g) else {}
      ensures ret == 0 ==> forall g: nat | CommOutput(board, g) :: g !in gpio.latch
      ensures dev == EndTransaction(board, old(dev))
    {
      ReleaseAll();
      var i := 0;
      while i < GPIO_PIN_MAX
        invariant i <= GPIO_PIN_MAX && gpio.Valid() && gpio.faults == old(gpio.faults)
        invariant forall g: nat | g < 30 ::
                    Mode(gpio.fsel, g) == if g < i && CommOutput(board, g) then OutputMode(g) else {}
        invariant forall g: nat | g < i && CommOutput(board, g) :: g !in gpio.latch
        invariant dev == EndTransaction(board, old(dev))
      {
        if i == FackPin(board) || i == FreqPin(board) {
          gpio.SetInput(i);
        }
        if CommOutput(board, i) {
          gpio.MakeOutput(i);
          ret := Clr({i}, false);
          if ret < 0 { return -1; }
        }
        i := i + 1;
      }
      return 0;
    }

    /** fic_comm_portdir */
    method PortDir(send: bool)
      requires gpio.Valid()
      modifies gpio`fsel, gpio`edges, gpio`steady, gpio`resets
      ensures gpio.Valid()
      ensures forall g: nat | g < 30 :: Mode(gpio.fsel, g) ==
                if Within(DataLow(board), g, DataTop(board)) then (if send then OutputMode(g) else {})
                else old(Mode(gpio.fsel, g))
    {
      var i := DataLow(board);
      while i <= DataTop(board)
        invariant DataLow(board) <= i <= DataTop(board) + 1 && gpio.Valid()
        invariant forall g: nat | g < 30 :: Mode(gpio.fsel, g) ==
                    if DataLow(board) <= g < i then (if send then OutputMode(g) else {}) else old(Mode(gpio.fsel, g))
      {
        gpio.SetInput(i);
        if send {
          gpio.SetOutput(i);
        }
        i := i + 1;
      }
    }

    /** Set-up, with the data pins as outputs, and RREQ raised. */
    method Claim() returns (ret: int)
      requires gpio.Valid()
      modifies this`dev, gpio
      ensures gpio.Valid() && Explained(ret, old(gpio.faults), gpio.faults)
      ensures dev == EndTransaction(board, old(dev))
      ensures ret == 0 ==> Sending()
    {
      ret := CommSetup();
      if ret < 0 { return; }
      PortDir(true);
      ret := gpio.SetChecked({RreqPin(board)});
    }

    /** The start of every transaction: set-up, RREQ, command word, address. A device that is not
        ready may lose words of them; one that is has a prefix of them however it fails. */
    method Begin(cmd: half, addr: half) returns (ret: int)
      requires gpio.Valid() && cmd < 16
      modifies this`dev, gpio
      ensures gpio.Valid() && Explained(ret, old(gpio.faults), gpio.faults) && (ret == 0 ==> Sending())
      ensures dev.held == old(Due()) && Subsequence(dev.words, Head(board, cmd, addr))
      ensures old(Ready()) ==>
                && dev.words <= Head(board, cmd, addr)
                && (ret == 0 ==> dev.supplied == 0 && dev.words == Head(board, cmd, addr))
                && (ret == 0 && cmd == COMM_CMD_READ ==> dev.answer == Answer(board, dev))
      ensures ret == 0 ==> Ready()
    {
      AllLost(Head(board, cmd, addr));
      ret := Claim();
      if ret < 0 { return; }
      ret := SendHead(cmd, addr);
    }

    /** Command word and address. */
    method SendHead(cmd: half, addr: half) returns (ret: int)
      requires Sending() && cmd < 16 && dev.words == []
      modifies this`dev, gpio`latch, gpio`edges, gpio`steady, gpio`resets, gpio`faults
      ensures Sending() && Explained(ret, old(gpio.faults), gpio.faults)
      ensures dev.held == old(dev).held && Subsequence(dev.words, Head(board, cmd, addr))
      ensures old(Ready()) ==>
                && dev.words <= Head(board, cmd, addr)
                && (ret == 0 ==> dev.supplied == old(dev).supplied && dev.words == Head(board, cmd, addr))
                && (ret == 0 && cmd == COMM_CMD_READ ==> dev.answer == Answer(board, dev))
      ensures ret == 0 ==> Ready()
    {
      ghost var first, rest;
      ghost var command: seq<half>, address := [cmd], EncodeAddr(board, addr);
      ret, first := SendNext(cmd, false, [], [], []);
      assert [] + [cmd] == command && [] + first == first;
      if ret < 0 {
        AllLost(address);
        PartsLeft(first, command, [], address);
        assert first + [] == first;
        return;
      }
      ret, rest := SetAddr(addr);
      PartsLeft(first, command, rest, address);
    }

    /** fic_comm_wait_freq_down. FREQ is the board's business, and the wait may time out. */
    method WaitFreqDown() returns (ret: int)
      modifies gpio`readings, gpio`faults
      ensures Explained(ret, old(gpio.faults), gpio.faults) && (ret == 0 ==> FreqFell())
    {
      var patience: nat := *;
      var up := gpio.Get(FreqPin(board));
      while up
        invariant gpio.faults == old(gpio.faults) && (up || FreqFell())
        decreases patience
      {
        ret := gpio.Demand(patience > 0);
        if ret < 0 { return; }
        patience := patience - 1;
        up := gpio.Get(FreqPin(board));
      }
      return 0;
    }

    /** The end of every transaction: RREQ goes down and with it the pins in `v`, the board has
        lowered FREQ, and all pins become inputs. */
    method End(v: Pins) returns (ret: int)
      requires gpio.Valid() && RreqPin(board) in v
      modifies this`dev, gpio
      ensures gpio.Valid() && Explained(ret, old(gpio.faults), gpio.faults)
      ensures dev == EndTransaction(board, old(dev)) && Due() == old(Due())
      ensures ret == 0 ==> Released() && FreqFell()
      ensures gpio.latch == old(gpio.latch) - v && (ret != 0 ==> gpio.fsel == old(gpio.fsel))
    {
      ret := Clr(v, false);
      if ret < 0 { return; }
      ret := WaitFreqDown();
      if ret < 0 { return; }
      ReleaseAll();
    }

    /** fic_comm_reset; its callers ignore what it returns. Whatever a failed call left open has
        ended afterwards; on success RREQ is low and RSTB high on the wires. */
    method CommReset() returns (ret: int)
      requires gpio.Valid()
      modifies this`dev, gpio
      ensures gpio.Valid() && Explained(ret, old(gpio.faults), gpio.faults)
      ensures dev == EndTransaction(board, old(dev)) && Due() == old(Due())
      ensures ret == 0 ==> RreqPin(board) !in gpio.Wires() && RstbPin(board) in gpio.Wires()
    {
      ret := CommSetup();
      if ret < 0 { return; }
      ret := Clr({RreqPin(board)}, false);
      if ret < 0 { return; }
      ret := gpio.SetChecked({RstbPin(board)});
    }

    // ----- Byte streams -----

    /** _fic_hls_send_bytes: a failed word does not stop the loop, it only spoils the result. The
        device gets what is not lost on the way. If it is not prompt, words can be lost without
        spoiling the result. */
    method SendBytes(data: seq<byte>) returns (ret: int, ghost got: seq<half>)
      requires Sending()
      modifies this`dev, gpio`latch, gpio`edges, gpio`steady, gpio`resets, gpio`faults
      ensures Sending() && (ret == 0 || ret == -1)
      ensures Sendable(board, |data|) ==> Explained(ret, old(gpio.faults), gpio.faults)
      ensures dev.held == old(dev).held && dev.words == old(dev).words + got
      ensures Subsequence(got, EncodeBytes(board, data)) && (!Sendable(board, |data|) ==> got == [])
      ensures ret == 0 ==> Sendable(board, |data|)
      ensures ret == 0 && prompt && old(Taking()) ==> got == EncodeBytes(board, data)
    {
      if !Sendable(board, |data|) {
        AllLost(EncodeBytes(board, data));
        return -1, [];
      }
      if board == Mk1 {
        ret, got := SendNibbles(data);
      } else {
        ret, got := SendPairs(data);
      }
    }

    /** The transaction under way is not a read. */
    ghost predicate Taking()
      reads this
    {
      dev.words != [] && dev.words[0] != COMM_CMD_READ
    }

    method SendNibbles(data: seq<byte>) returns (ret: int, ghost got: seq<half>)
      requires board == Mk1 && Sending()
      modifies this`dev, gpio`latch, gpio`edges, gpio`steady, gpio`resets, gpio`faults
      ensures Sending() && Explained(ret, old(gpio.faults), gpio.faults)
      ensures dev.held == old(dev).held && dev.words == old(dev).words + got
      ensures Subsequence(got, EncodeBytes(Mk1, data))
      ensures ret == 0 && prompt && old(Taking()) ==> got == EncodeBytes(Mk1, data)
    {
      ret, got := 0, [];
      ghost var base := dev.words;
      var i := 0;
      assert EncodeBytes(Mk1, data[..0]) == [];
      while i < |data|
        invariant i <= |data|
        invariant Sending() && Explained(ret, old(gpio.faults), gpio.faults)
        invariant dev.held == old(dev).held && dev.words == base + got
        invariant Subsequence(got, EncodeBytes(Mk1, data[..i]))
        invariant ret == 0 && prompt && old(Taking()) ==> got == EncodeBytes(Mk1, data[..i])
      {
        var r, high, low := 0, HighNibble(data[i]), LowNibble(data[i]);
        ghost var sent := EncodeBytes(Mk1, data[..i]);
        EncodeNextByte(data, i);
        r, got := SendByte(high, low, base, got, sent);
        if r < 0 { ret := -1; }
        i := i + 1;
      }
      assert data[..i] == data;
    }

    /** One byte as two nibbles, high one first. */
    method SendByte(high: half, low: half, ghost base: seq<half>, ghost got: seq<half>, ghost sent: seq<half>)
      returns (ret: int, ghost more: seq<half>)
      requires board == Mk1 && high < 16 && low < 16
      requires Sending() && dev.words == base + got && Subsequence(got, sent)
      modifies this`dev, gpio`latch, gpio`edges, gpio`steady, gpio`resets, gpio`faults
      ensures Sending() && Explained(ret, old(gpio.faults), gpio.faults)
      ensures dev.held == old(dev).held && dev.words == base + more && (old(Taking()) ==> Taking())
      ensures Subsequence(more, sent + [high] + [low])
      ensures ret == 0 && prompt && old(Taking()) ==> more == got + [high] + [low]
    {
      var r;
      r, more := SendNext(high, true, base, got, sent);
      ret, more := SendNext(low, true, base, more, sent + [high]);
      if r < 0 { ret := -1; }
    }

    method SendPairs(data: seq<byte>) returns (ret: int, ghost got: seq<half>)
      requires board == Mk2 && |data| % 2 == 0 && Sending()
      modifies this`dev, gpio`latch, gpio`edges, gpio`steady, gpio`resets, gpio`faults
      ensures Sending() && Explained(ret, old(gpio.faults), gpio.faults)
      ensures dev.held == old(dev).held && dev.words == old(dev).words + got
      ensures Subsequence(got, EncodeBytes(Mk2, data))
      ensures ret == 0 && prompt && old(Taking()) ==> got == EncodeBytes(Mk2, data)
    {
      ret, got := 0, [];
      ghost var base := dev.words;
      ghost var j, m := 0, |data| / 2;
      var i := 0;
      assert EncodeBytes(Mk2, data[..0]) == [];
      while i < |data|
        invariant i == 2 * j && j <= m && |data| == 2 * m
        invariant Sending() && Explained(ret, old(gpio.faults), gpio.faults)
        invariant dev.held == old(dev).held && dev.words == base + got
        invariant Subsequence(got, EncodeBytes(Mk2, data[..i]))
        invariant ret == 0 && prompt && old(Taking()) ==> got == EncodeBytes(Mk2, data[..i])
      {
        var r;
        ghost var sent := EncodeBytes(Mk2, data[..i]);
        Doubled(j);
        EncodeNextPair(data, i);
        r, got := SendPair(data[i + 1], data[i], base, got, sent);
        if r < 0 { ret := -1; }
        i, j := i + 2, j + 1;
      }
      assert data[..i] == data;
    }

    /** Two bytes as one word. */
    method SendPair(hi: byte, lo: byte, ghost base: seq<half>, ghost got: seq<half>, ghost sent: seq<half>)
      returns (ret: int, ghost more: seq<half>)
      requires board == Mk2 && Sending() && dev.words == base + got && Subsequence(got, sent)
      modifies this`dev, gpio`latch, gpio`edges, gpio`steady, gpio`resets, gpio`faults
      ensures Sending() && Explained(ret, old(gpio.faults), gpio.faults)
      ensures dev.held == old(dev).held && dev.words == base + more && (old(Taking()) ==> Taking())
      ensures Subsequence(more, sent + [Word(hi, lo)])
      ensures ret == 0 && prompt && old(Taking()) ==> more == got + [Word(hi, lo)]
    {
      ret, more := SendNext(Word(hi, lo), true, base, got, sent);
    }

    /** Two nibbles of the answer, high one first; the slow form masks them first. */
    method ReceiveByte(fast: bool) returns (ret: int, b: byte)
      requires board == Mk1 && prompt && Receiving() && Reading(board, dev)
      modifies this`dev, gpio`latch, gpio`edges, gpio`steady, gpio`resets, gpio`faults
      ensures Receiving() && Reading(board, dev) && Explained(ret, old(gpio.faults), gpio.faults)
      ensures dev.held == old(dev).held && dev.words == old(dev).words && dev.answer == old(dev).answer
      ensures ret == 0 ==> dev.supplied == old(dev).supplied + 2
      ensures ret == 0 ==> var a, k := old(dev).answer, old(dev).supplied;
                           b == JoinNibbles(WordAt(Mk1, a, k), WordAt(Mk1, a, k + 1))
      ensures ret == 0 ==> RstbPin(board) !in gpio.latch
    {
      b := 0;
      var rvh, rvl;
      ret, rvh := CommReceive(fast);
      if ret < 0 { return; }
      ret, rvl := CommReceive(fast);
      if ret < 0 { return; }
      b := if fast then JoinNibbles(rvh, rvl) else JoinNibbles(rvh % 16, rvl % 16);
    }

    /** _fic_hls_receive_bytes into buf[at..at+size], from a device with at least `size` bytes
        ready: what it stores is what the device was given to send. */
    method ReceiveBytes(buf: array<byte>, at: nat, size: nat) returns (ret: int)
      requires at + size <= buf.Length
      requires prompt && Receiving() && Reading(board, dev) && dev.supplied == 0
      requires dev.answer == EncodeBytes(board, dev.held.out) && size <= |dev.held.out|
      modifies this`dev, gpio`latch, gpio`edges, gpio`steady, gpio`resets, gpio`faults, buf
      ensures Receiving() && (ret == 0 || ret == -1)
      ensures Sendable(board, size) ==> Explained(ret, old(gpio.faults), gpio.faults)
      ensures dev.held == old(dev).held && dev.words == old(dev).words && dev.answer == old(dev).answer
      ensures forall k :: 0 <= k < buf.Length && !(at <= k < at + size) ==> buf[k] == old(buf[k])
      ensures ret == 0 ==> Sendable(board, size) && buf[at..at + size] == dev.held.out[..size]
    {
      if !Sendable(board, size) { return -1; }
      if board == Mk1 {
        ret := ReceiveNibbles(buf, at, size);
      } else {
        ret := ReceivePairs(buf, at, size);
      }
    }

    method ReceiveNibbles(buf: array<byte>, at: nat, size: nat) returns (ret: int)
      requires board == Mk1
      requires at + size <= buf.Length
      requires prompt && Receiving() && Reading(board, dev) && dev.supplied == 0
      requires dev.answer == EncodeBytes(board, dev.held.out) && size <= |dev.held.out|
      modifies this`dev, gpio`latch, gpio`edges, gpio`steady, gpio`resets, gpio`faults, buf
      ensures Receiving() && Explained(ret, old(gpio.faults), gpio.faults)
      ensures dev.held == old(dev).held && dev.words == old(dev).words && dev.answer == old(dev).answer
      ensures forall k :: 0 <= k < buf.Length && !(at <= k < at + size) ==> buf[k] == old(buf[k])
      ensures ret == 0 ==> forall k :: 0 <= k < size ==> buf[at + k] == dev.held.out[k]
    {
      ret := 0;
      var i := 0;
      while i < size
        invariant ret == 0 && i <= size
        invariant gpio.faults == old(gpio.faults)
        invariant Receiving() && Reading(board, dev)
        invariant dev.words == old(dev).words && dev.answer == old(dev).answer && dev.held == old(dev).held
        invariant dev.supplied == 2 * i
        invariant forall k :: 0 <= k < buf.Length && !(at <= k < at + i) ==> buf[k] == old(buf[k])
        invariant forall k :: 0 <= k < i ==> buf[at + k] == dev.held.out[k]
      {
        NextNibbles(dev.held.out, i);
        var b;
        ret, b := ReceiveByte(true);
        if ret < 0 { return; }
        buf[at + i] := b;
        i := i + 1;
      }
    }

    method ReceivePairs(buf: array<byte>, at: nat, size: nat) returns (ret: int)
      requires board == Mk2 && size % 2 == 0
      requires at + size <= buf.Length
      requires prompt && Receiving() && Reading(board, dev) && dev.supplied == 0
      requires dev.answer == EncodeBytes(board, dev.held.out) && size <= |dev.held.out|
      modifies this`dev, gpio`latch, gpio`edges, gpio`steady, gpio`resets, gpio`faults, buf
      ensures Receiving() && Explained(ret, old(gpio.faults), gpio.faults)
      ensures dev.held == old(dev).held && dev.words == old(dev).words && dev.answer == old(dev).answer
      ensures forall k :: 0 <= k < buf.Length && !(at <= k < at + size) ==> buf[k] == old(buf[k])
      ensures ret == 0 ==> forall k :: 0 <= k < size ==> buf[at + k] == dev.held.out[k]
    {
      ret := 0;
      var i := 0;
      ghost var j := 0;
      while i < size
        invariant ret == 0 && i == 2 * j <= size
        invariant gpio.faults == old(gpio.faults)
        invariant Receiving() && Reading(board, dev)
        invariant dev.words == old(dev).words && dev.answer == old(dev).answer && dev.held == old(dev).held
        invariant dev.supplied == j
        invariant forall k :: 0 <= k < buf.Length && !(at <= k < at + i) ==> buf[k] == old(buf[k])
        invariant forall k :: 0 <= k < i ==> buf[at + k] == dev.held.out[k]
      {
        PairWord(dev.held.out, j);
        var rv;
        ret, rv := CommReceive(true);
        if ret < 0 { return; }
        buf[at + i] := rv % 0x100;
        buf[at + i + 1] := rv / 0x100;
        i, j := i + 2, j + 1;
      }
    }

    /** The device picks what it would leave of a DDR write in this transaction. */
    method Pick()
      modifies this`dev
      ensures dev == old(dev).(held := old(dev).held.(torn := dev.held.torn))
    {
      var torn: seq<byte> := *;
      dev := dev.(held := dev.held.(torn := torn));
    }

    /** A write transaction to the HLS port up to its first bytes; `got` is what a prompt device
        has of them. */
    method OpenStream(bytes: seq<byte>) returns (ret: int, ghost got: seq<half>)
      requires gpio.Valid()
      modifies this`dev, gpio
      ensures gpio.Valid() && (ret == 0 || ret == -1) && (ret == 0 ==> Sending() && Sendable(board, |bytes|))
      ensures Sendable(board, |bytes|) ==> Explained(ret, old(gpio.faults), gpio.faults)
      ensures dev.held == old(Due()).(torn := dev.held.torn)
      ensures Subsequence(dev.words, StreamHead(board) + EncodeBytes(board, bytes))
      ensures prompt ==>
                && Subsequence(got, EncodeBytes(board, bytes))
                && ((dev.words <= StreamHead(board) && got == []) || dev.words == StreamHead(board) + got)
      ensures prompt && ret == 0 ==> got == EncodeBytes(board, bytes) && dev.words == StreamHead(board) + got
    {
      AllLost(EncodeBytes(board, bytes));
      ret := Begin(COMM_CMD_WRITE, COMM_ADDR_HLS);
      Pick();
      ghost var head := dev.words;
      PartsLeft(head, StreamHead(board), [], EncodeBytes(board, bytes));
      assert head + [] == head;
      if ret < 0 { return ret, []; }
      ret, got := SendBytes(bytes);
      PartsLeft(head, StreamHead(board), got, EncodeBytes(board, bytes));
    }

    /** fic_hls_send. Whatever is lost, the DDR module works on what is left, `got`, once the
        transaction ends. */
    method HlsSend(bytes: seq<byte>) returns (ret: int, ghost got: seq<half>)
      requires Valid()
      modifies this`dev, gpio
      ensures Valid() && (ret == 0 || ret == -1)
      ensures Sendable(board, |bytes|) ==> Explained(ret, old(gpio.faults), gpio.faults)
      ensures Subsequence(got, EncodeBytes(board, bytes))
      ensures Due() == RasDdr(old(Due()).(torn := Due().torn), DecodeBytes(board, got))
      ensures ret == 0 ==>
                Sendable(board, |bytes|) && Due() == RasDdr(old(Due()).(torn := Due().torn), bytes) && Ended()
    {
      ret, got := OpenStream(bytes);
      StreamCut(board, dev.held, dev.words, got);
      if ret < 0 { return; }
      BytesRoundTrip(board, bytes);
      ret := End({RreqPin(board), RstbPin(board)});
    }

    /** fic_hls_write. Whatever the device, it works on some of the words sent, `taken`, once the
        transaction ends. A prompt device does what header and payload say, or what the header
        without its payload does, or nothing. */
    method HlsWrite(data: seq<byte>, addr: nat, ctrl: nat) returns (ret: int, ghost taken: seq<half>)
      requires gpio.Valid() && ctrl < WORD32 && addr < WORD32 && |data| < WORD32
      modifies this`dev, gpio
      ensures gpio.Valid() && (ret == 0 || ret == -1)
      ensures Sendable(board, |data|) ==> Explained(ret, old(gpio.faults), gpio.faults)
      ensures Subsequence(taken, StreamHead(board) + EncodeBytes(board, Header(ctrl, addr, |data|))
                                 + EncodeBytes(board, data))
      ensures Due() == Carried(board, old(Due()).(torn := Due().torn), taken)
      ensures prompt ==>
                var c, header := old(Due()).(torn := Due().torn), Header(ctrl, addr, |data|);
                Due() == c || Due() == RasDdr(c, header) || Due() == RasDdr(c, header + data)
      ensures ret == 0 ==> Sendable(board, |data|) && Ended()
      ensures ret == 0 && prompt ==>
                Due() == RasDdr(old(Due()).(torn := Due().torn), Header(ctrl, addr, |data|) + data)
    {
      var header := Header(ctrl, addr, |data|);
      ghost var got, more;
      ret, got := OpenStream(header);
      taken := dev.words;
      AllLost(EncodeBytes(board, data));
      PartsLeft(taken, StreamHead(board) + EncodeBytes(board, header), [], EncodeBytes(board, data));
      assert taken + [] == taken;
      if ret < 0 {
        if prompt {
          StreamCut(board, dev.held, dev.words, got);
          HeaderCut(board, dev.held, got, header);
        }
        return;
      }
      ret, more := SendBytes(data);
      PartsLeft(taken, StreamHead(board) + EncodeBytes(board, header), more, EncodeBytes(board, data));
      taken := dev.words;
      if prompt {
        WriteCut(board, dev.held, dev.words, more, ctrl, addr, data);
      }
      if ret < 0 { return; }
      ret := End({RreqPin(board), RstbPin(board)});
    }

    /** What the calls below rely on: the pins are in order, and the device lowers FACK in time. */
    ghost predicate Valid()
      reads this, gpio
    {
      gpio.Valid() && prompt
    }

    /** fic_hls_read with RASDDR_CMD_READ, into buf[at..at+size]. */
    method DdrRead(buf: array<byte>, at: nat, size: nat, addr: nat) returns (ret: int)
      requires Valid()
      requires at + size <= buf.Length && addr < WORD32 && size < WORD32 && Base(addr) + size <= |dev.held.mem|
      modifies this`dev, gpio, buf
      ensures Valid() && (ret == 0 || ret == -1)
      ensures Sendable(board, size) ==> Explained(ret, old(gpio.faults), gpio.faults)
      ensures Due() == old(Due()).(out := Due().out, torn := Due().torn)
      ensures forall k :: 0 <= k < buf.Length && !(at <= k < at + size) ==> buf[k] == old(buf[k])
      ensures ret == 0 ==> Sendable(board, size) && buf[at..at + size] == Due().mem[Base(addr)..Base(addr) + size]
      ensures ret == 0 ==> Ended()
    {
      ret := Request(addr, size);
      if ret < 0 { return; }
      ret := Collect(buf, at, size);
    }

    /** The second transaction of fic_hls_read: the bytes the DDR module has ready. */
    method Collect(buf: array<byte>, at: nat, size: nat) returns (ret: int)
      requires Valid() && at + size <= buf.Length && size <= |Due().out|
      modifies this`dev, gpio, buf
      ensures Valid() && (ret == 0 || ret == -1)
      ensures Sendable(board, size) ==> Explained(ret, old(gpio.faults), gpio.faults)
      ensures Due() == old(Due())
      ensures forall k :: 0 <= k < buf.Length && !(at <= k < at + size) ==> buf[k] == old(buf[k])
      ensures ret == 0 ==> Sendable(board, size) && buf[at..at + size] == old(Due()).out[..size] && Ended()
    {
      ret := BeginRead(COMM_ADDR_HLS);
      if ret < 0 { return; }
      ret := ReceiveBytes(buf, at, size);
      if ret < 0 { return; }
      ret := End({RreqPin(board), RstbPin(board)});
    }

    /** The command of fic_hls_read to the DDR module. */
    method Request(addr: nat, size: nat) returns (ret: int)
      requires Valid() && addr < WORD32 && size < WORD32 && Base(addr) + size <= |dev.held.mem|
      modifies this`dev, gpio
      ensures Valid() && Explained(ret, old(gpio.faults), gpio.faults)
      ensures Due() == old(Due()).(out := Due().out, torn := Due().torn)
      ensures ret == 0 ==> Due().out == Due().mem[Base(addr)..Base(addr) + size]
    {
      var cmd := Header(RASDDR_CMD_READ, addr, size);
      ghost var got;
      ret, got := HlsSend(cmd);
      ghost var c := old(Due()).(torn := Due().torn);
      HeaderCut(board, c, got, cmd);
      RasDdrReads(c, addr, size);
    }

    /** The start of a read: the device has fetched the answer, and the port is turned round. */
    method BeginRead(addr: half) returns (ret: int)
      requires Valid()
      modifies this`dev, gpio
      ensures Valid() && Explained(ret, old(gpio.faults), gpio.faults)
      ensures dev.held == old(Due()) && Due() == old(Due())
      ensures ret == 0 ==> Receiving() && Reading(board, dev) && dev.supplied == 0
      ensures ret == 0 ==> dev.answer == AnswerAt(board, dev.held, addr)
    {
      ret := Begin(COMM_CMD_READ, addr);
      HeadEndsIdle(board, dev.held, dev.words, COMM_CMD_READ, addr);
      if ret < 0 { return; }
      PortDir(false);
      AddrRoundTrip(board, COMM_CMD_READ, addr, []);
      assert Head(board, COMM_CMD_READ, addr) + [] == dev.words;
    }

    /** fic_hls_ddr_write. A call that fails leaves everything outside its range alone, and a DDR
        module that does not stream carries it out in full or not at all. */
    method DdrWrite(data: seq<byte>, addr: nat) returns (ret: int)
      requires Valid()
      requires addr < WORD32 && |data| < WORD32 && Base(addr) + |data| <= |dev.held.mem|
      modifies this`dev, gpio
      ensures Valid() && (ret == 0 || ret == -1)
      ensures Sendable(board, |data|) ==> Explained(ret, old(gpio.faults), gpio.faults)
      ensures Due() == old(Due()).(mem := Due().mem, torn := Due().torn)
      ensures SameOutside(old(Due()).mem, Due().mem, Base(addr), Base(addr) + |data|)
      ensures !Due().streams ==>
                Due().mem == old(Due()).mem || Due().mem == Splice(old(Due()).mem, Base(addr), data)
      ensures ret == 0 ==>
                Sendable(board, |data|) && Due().mem == Splice(old(Due()).mem, Base(addr), data) && Ended()
    {
      ghost var taken;
      ret, taken := HlsWrite(data, addr, RASDDR_CMD_WRITE);
      ghost var c := old(Due()).(torn := Due().torn);
      RasDdrWrites(c, addr, data);
      HeaderOnly(c, addr, data);
      SpliceWithin(c.mem, Base(addr), data);
    }

    // ----- Registers -----

    /** fic_write. A call that fails is carried out in full or not at all. */
    method FicWrite(addr: half, data: half) returns (ret: int)
      requires Valid()
      modifies this`dev, gpio
      ensures Valid() && Explained(ret, old(gpio.faults), gpio.faults)
      ensures Due() == old(Due()) || Due() == RegWritten(board, old(Due()), addr, data)
      ensures ret == 0 ==>
                Due() == RegWritten(board, old(Due()), addr, data) && Ended() && gpio.latch !! DataBus(board)
    {
      ret := Begin(COMM_CMD_WRITE, addr);
      if ret < 0 {
        HeadEndsIdle(board, dev.held, dev.words, COMM_CMD_WRITE, addr);
        return;
      }
      ret := SendReg(data);
      RegisterCut(board, dev.held, dev.words, addr, data);
      if ret < 0 { return; }
      ret := End({RreqPin(board), RstbPin(board)} + if board == Mk1 then Range(12, 19) else Range(8, 23));
    }

    /** The data of fic_write. However it fails, the device has a prefix of it. */
    method SendReg(data: half) returns (ret: int)
      requires Sending() && Ready() && Taking()
      modifies this`dev, gpio`latch, gpio`edges, gpio`steady, gpio`resets, gpio`faults
      ensures Sending() && Explained(ret, old(gpio.faults), gpio.faults) && dev.held == old(dev).held
      ensures old(dev).words <= dev.words <= old(dev).words + EncodeReg(board, data)
      ensures ret == 0 ==> dev.words == old(dev).words + EncodeReg(board, data)
    {
      ghost var got;
      if board == Mk1 {
        ret, got := SendTwo(HighNibble(data % 0x100), LowNibble(data % 0x100));
      } else {
        assert [] + [data] == [data];
        ret, got := SendNext(data, false, dev.words, [], []);
      }
    }

    /** fic_read */
    method FicRead(addr: half) returns (ret: int)
      requires Valid()
      modifies this`dev, gpio
      ensures Valid() && Due() == old(Due())
      ensures if ret == -1 then old(gpio.faults) < gpio.faults else gpio.faults == old(gpio.faults)
      ensures ret == -1 || (ret == ReadValue(board, old(Due()), addr) && Ended())
      ensures addr != COMM_ADDR_HLS ==> ret == -1 || ret == Kept(board, Register(old(Due()), addr))
    {
      ret := BeginRead(addr);
      if ret < 0 { return -1; }
      var rcv;
      ret, rcv := ReceiveReg();
      if ret < 0 { return -1; }
      ret := End({RreqPin(board)});
      if ret < 0 { return -1; }
      RegisterReads(board, old(Due()), addr);
      ret := rcv;
    }

    method ReceiveReg() returns (ret: int, rcv: half)
      requires prompt && Receiving() && Reading(board, dev) && dev.supplied == 0
      modifies this`dev, gpio`latch, gpio`edges, gpio`steady, gpio`resets, gpio`faults
      ensures Receiving() && Reading(board, dev) && Explained(ret, old(gpio.faults), gpio.faults)
      ensures dev.held == old(dev).held && dev.words == old(dev).words && dev.answer == old(dev).answer
      ensures ret == 0 ==> var a := old(dev).answer;
                           rcv == if board == Mk1 then JoinNibbles(WordAt(Mk1, a, 0), WordAt(Mk1, a, 1))
                                  else WordAt(Mk2, a, 0)
      ensures ret == 0 ==> RstbPin(board) !in gpio.latch
    {
      if board == Mk1 {
        ret, rcv := ReceiveByte(false);
      } else {
        ret, rcv := CommReceive(false);
      }
    }

    /** The register round trip: a write that got through, then writes to other registers, whether
        they get through or not, then a read that gets through. */
    method WriteThenRead(a: half, v: half, others: seq<RegWrite>) returns (written: bool, got: int)
      requires Valid() && a != COMM_ADDR_HLS
      requires forall i :: 0 <= i < |others| ==> others[i].addr != a
      modifies this`dev, gpio
      ensures Valid()
      ensures written && got != -1 ==> got == Kept(board, v)
      ensures !written || got == -1 ==> old(gpio.faults) < gpio.faults
    {
      var ret := FicWrite(a, v);
      written := ret == 0;
      var i := 0;
      while i < |others|
        invariant Valid() && old(gpio.faults) <= gpio.faults
        invariant written ==> Register(Due(), a) == Kept(board, v)
        invariant !written ==> old(gpio.faults) < gpio.faults
      {
        ret := FicWrite(others[i].addr, others[i].value);
        i := i + 1;
      }
      got := FicRead(a);
    }
  }

  lemma RegisterReads(board: Board, c: Contents, addr: half)
    ensures addr != COMM_ADDR_HLS ==> ReadValue(board, c, addr) == Kept(board, Register(c, addr))
  {
    NibblesOfReg(Register(c, addr));
  }

  lemma SpliceWithin(m: seq<byte>, at: nat, data: seq<byte>)
    requires at + |data| <= |m|
    ensures SameOutside(m, Splice(m, at, data), at, at + |data|)
  {
  }

  /** What the device makes of a stream it has `got` of, if that is all it gets. */
  lemma StreamCut(board: Board, c: Contents, words: seq<half>, got: seq<half>)
    requires (words <= StreamHead(board) && got == []) || words == StreamHead(board) + got
    ensures Carried(board, c, words) == RasDdr(c, DecodeBytes(board, got))
  {
    if words <= StreamHead(board) && got == [] {
      HeadEndsIdle(board, c, words, COMM_CMD_WRITE, COMM_ADDR_HLS);
      assert DecodeBytes(board, got) == [];
    } else {
      StreamEnds(board, c, got);
    }
  }

  /** What the device makes of a whole header and as much of the payload as it has got. */
  lemma WriteCut(board: Board, c: Contents, words: seq<half>, more: seq<half>, ctrl: nat, addr: nat, data: seq<byte>)
    requires ctrl < WORD32 && addr < WORD32 && |data| < WORD32
    requires words == StreamHead(board) + EncodeBytes(board, Header(ctrl, addr, |data|)) + more
    requires Subsequence(more, EncodeBytes(board, data)) && (!Sendable(board, |data|) ==> more == [])
    ensures var header, e := Header(ctrl, addr, |data|), Carried(board, c, words);
            e == c || e == RasDdr(c, header) || e == RasDdr(c, header + data)
    ensures more == EncodeBytes(board, data) && Sendable(board, |data|) ==>
              Carried(board, c, words) == RasDdr(c, Header(ctrl, addr, |data|) + data)
  {
    var header := Header(ctrl, addr, |data|);
    Reassociate(StreamHead(board), EncodeBytes(board, header), more);
    StreamCut(board, c, words, EncodeBytes(board, header) + more);
    DecodeConcat(board, header, more);
    PayloadCut(board, c, more, ctrl, addr, data);
    if more == EncodeBytes(board, data) && Sendable(board, |data|) {
      BytesRoundTrip(board, data);
    }
  }

  lemma EncodeNextByte(data: seq<byte>, i: nat)
    requires i < |data|
    ensures EncodeBytes(Mk1, data[..i]) + [HighNibble(data[i])] + [LowNibble(data[i])] ==
            EncodeBytes(Mk1, data[..i + 1])
  {
    assert data[..i + 1] == data[..i] + [data[i]];
    EncodeConcat(Mk1, data[..i], [data[i]]);
  }

  lemma EncodeNextPair(data: seq<byte>, i: nat)
    requires i + 1 < |data| && i % 2 == 0
    ensures EncodeBytes(Mk2, data[..i]) + [Word(data[i + 1], data[i])] == EncodeBytes(Mk2, data[..i + 2])
  {
    assert data[..i + 2] == data[..i] + [data[i], data[i + 1]];
    EncodeConcat(Mk2, data[..i], [data[i], data[i + 1]]);
  }

  lemma NibblesOfReg(v: half)
    ensures var a := EncodeReg(Mk1, v); JoinNibbles(WordAt(Mk1, a, 0), WordAt(Mk1, a, 1)) == Kept(Mk1, v)
  {
    var b: byte := v % 0x100;
    var a := EncodeReg(Mk1, v);
    assert a[0] == HighNibble(b) && HighNibble(b) % 16 == HighNibble(b);
    assert a[1] == LowNibble(b) && LowNibble(b) % 16 == LowNibble(b);
    JoinOfNibbles(b);
  }

  /** The words that carry byte i on mk1, and bytes 2*j and 2*j+1 on mk2, of what the device sends. */
  lemma NextNibbles(out: seq<byte>, i: nat)
    requires i < |out|
    ensures var a := EncodeBytes(Mk1, out); JoinNibbles(WordAt(Mk1, a, 2 * i), WordAt(Mk1, a, 2 * i + 1)) == out[i]
  {
    var a := EncodeBytes(Mk1, out);
    assert a[2 * i] == NibbleAt(out, 2 * i) == HighNibble(out[i]);
    assert a[2 * i + 1] == NibbleAt(out, 2 * i + 1) == LowNibble(out[i]);
    JoinOfNibbles(out[i]);
  }

  lemma PairWord(out: seq<byte>, j: nat)
    requires 2 * j + 1 < |out|
    ensures var a := EncodeBytes(Mk2, out); j < |a| && a[j] % 0x100 == out[2 * j] && a[j] / 0x100 == out[2 * j + 1]
  {
    var a, hi, lo := EncodeBytes(Mk2, out), out[2 * j + 1], out[2 * j];
    assert |a| == |out| / 2 > j;
    assert a[j] == Word(hi, lo);
    WordParts(hi, lo);
  }
}
