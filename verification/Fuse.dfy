/** The /mem file of ficfuse.c: reads and writes of any offset and length over a DDR memory that
    is only accessible in aligned four-byte words. */
module Fuse {
  import opened Bytes
  import opened Gpio
  import opened Device
  import opened Link
  import opened Flat
  import opened Cuts

  const EIO: int := 5
  const EFAULT: int := 14

  /** What a callback comes to: a return value, or an access behind the caller's buffer, where
      the program has no defined behaviour and the model stops. */
  datatype Outcome = Done(ret: int) | OutOfBounds

  /** How far the transfers of a callback get: all of them, up to a failing one, or to one that
      would leave the buffer. */
  datatype Transfer = Complete | Failed | Behind

  /** A call fails exactly if there was a fault. */
  ghost predicate Noticed(failed: bool, before: int, after: int) {
    if failed then before < after else after == before
  }

  // ----- Sequence facts -----

  /** Storing the next bytes of a buffer behind those already stored. */
  lemma SpliceMore(m: seq<byte>, at: nat, data: seq<byte>, p: nat, q: nat)
    requires p <= q <= |data| && at + |data| <= |m|
    ensures Splice(Splice(m, at, data[..p]), at + p, data[p..q]) == Splice(m, at, data[..q])
  {
    var l, r := Splice(Splice(m, at, data[..p]), at + p, data[p..q]), Splice(m, at, data[..q]);
    forall k | 0 <= k < |m|
      ensures l[k] == r[k]
    {
      SpliceAt(m, at, data[..p], k);
      SpliceAt(Splice(m, at, data[..p]), at + p, data[p..q], k);
      SpliceAt(m, at, data[..q], k);
    }
  }

  /** Writing back an aligned word with some of its bytes replaced replaces those bytes. */
  lemma SpliceInWord(m: seq<byte>, w: nat, i: nat, x: seq<byte>)
    requires w + 4 <= |m| && i + |x| <= 4
    ensures Splice(m, w, Splice(m[w..w + 4], i, x)) == Splice(m, w + i, x)
  {
    var word := Splice(m[w..w + 4], i, x);
    var l, r := Splice(m, w, word), Splice(m, w + i, x);
    forall k | 0 <= k < |m|
      ensures l[k] == r[k]
    {
      SpliceAt(m, w, word, k);
      SpliceAt(m, w + i, x, k);
      if w <= k < w + 4 {
        SpliceAt(m[w..w + 4], i, x, k - w);
      }
    }
  }

  /** A write of buf at offset to a memory that was m0, within the words from lo to below hi. */
  datatype Job = Job(m0: seq<byte>, buf: seq<byte>, offset: nat, lo: nat, hi: nat)

  /** What is known of a job that has stored q bytes, or has spoiled its words. */
  function EventOf(j: Job, q: nat, exact: bool): Event
    requires exact ==> q <= |j.buf|
  {
    if exact then Stored(j.offset, j.buf[..q]) else Spoiled(j.lo, j.hi)
  }

  /** The first p bytes of the job are stored, and nothing else has changed. */
  ghost predicate Held(j: Job, m: seq<byte>, p: nat) {
    && p <= |j.buf| && j.offset + |j.buf| <= |j.m0|
    && j.lo <= j.offset && j.offset + |j.buf| <= j.hi
    && m == Splice(j.m0, j.offset, j.buf[..p])
  }

  /** How far the job has got: no word outside its own has changed; and if that is known exactly,
      the first q bytes are stored. */
  ghost predicate Reached(j: Job, m: seq<byte>, q: nat, exact: bool) {
    SameOutside(j.m0, m, j.lo, j.hi) && (exact ==> Held(j, m, q))
  }

  class Mount {
    const host: Host
    ghost var calls: seq<Call>
    /** fic_gpio_open calls that succeeded, the calls of fic_comm_reset and of fic_gpio_close. */
    ghost var opens: nat
    ghost var resets: nat
    ghost var closes: nat
    /** How many faults fic_comm_reset reported; its result is ignored. */
    ghost var ignored: nat
    /** The DDR module does not touch the memory before it has a whole transfer. */
    ghost const buffers: bool
    /** The memory at mount time, and what the writes since then have done to it. */
    ghost const start: seq<byte>
    ghost var events: seq<Event>

    constructor (host: Host)
      ensures this.host == host && calls == [] && opens == resets == closes == ignored == 0
      ensures buffers == !host.dev.held.streams && start == host.Due().mem && events == [] && Consistent()
    {
      this.host := host;
      buffers := !host.dev.held.streams;
      start := host.Due().mem;
      calls, events := [], [];
      opens, resets, closes, ignored := 0, 0, 0, 0;
    }

    ghost predicate Sound()
      reads this, host, host.gpio
    {
      host.Valid() && |host.dev.held.mem| == MEM_BYTES && host.dev.held.streams == !buffers
    }

    /** Between two callbacks the GPIO is closed. */
    ghost predicate Valid()
      reads this, host, host.gpio
    {
      Sound() && opens == resets == closes
    }

    /** The GPIO is open, and the link has been reset since. */
    ghost predicate Busy()
      reads this, host, host.gpio
    {
      Sound() && opens == resets == closes + 1
    }

    /** The faults that count. */
    ghost function Felt(): int
      reads this, host, host.gpio
    {
      host.gpio.faults - ignored
    }

    /** The memory, once a transaction a failed call has left open has ended. */
    ghost function Mem(): (m: seq<byte>)
      reads this, host
      ensures |m| == |host.dev.held.mem|
    {
      host.Due().mem
    }

    /** Every byte of the memory is what the latest event to touch it says. */
    ghost predicate Consistent()
      reads this, host
    {
      Explains(start, events, Mem())
    }

    /** fic_hls_ddr_read */
    method DdrRead(buf: array<byte>, at: nat, size: nat, addr: nat) returns (ret: int)
      requires Busy() && at + size <= buf.Length
      requires 0 < size < WORD32 && size % 4 == 0 && Base(addr) + size <= MEM_BYTES
      modifies this`calls, host`dev, host.gpio, buf
      ensures Busy() && Mem() == old(Mem()) && Explained(ret, old(host.gpio.faults), host.gpio.faults)
      ensures calls == old(calls) + [Call(false, addr, size)]
      ensures forall k :: 0 <= k < buf.Length && !(at <= k < at + size) ==> buf[k] == old(buf[k])
      ensures ret == 0 ==> buf[at..at + size] == Mem()[Base(addr)..Base(addr) + size]
    {
      calls := calls + [Call(false, addr, size)];
      DdrCallFits(host.board, addr, size);
      ret := host.DdrRead(buf, at, size, addr);
    }

    /** fic_hls_ddr_write. A failed call may leave anything in its own range; if the DDR module
        buffers, it is carried out in full or not at all. */
    method DdrWrite(data: seq<byte>, addr: nat) returns (ret: int, ghost done: bool)
      requires Busy()
      requires 0 < |data| < WORD32 && |data| % 4 == 0 && Base(addr) + |data| <= MEM_BYTES
      modifies this`calls, host`dev, host.gpio
      ensures Busy() && Explained(ret, old(host.gpio.faults), host.gpio.faults)
      ensures calls == old(calls) + [Call(true, addr, |data|)]
      ensures SameOutside(old(Mem()), Mem(), Base(addr), Base(addr) + |data|) && (ret == 0 ==> done)
      ensures ret == 0 || buffers ==> Mem() == if done then Splice(old(Mem()), Base(addr), data) else old(Mem())
    {
      calls := calls + [Call(true, addr, |data|)];
      DdrCallFits(host.board, addr, |data|);
      ret := host.DdrWrite(data, addr);
      done := ret == 0 || Mem() != old(Mem());
    }

    /** Read a word into r_buf. */
    method FetchWord(addr: nat) returns (ret: int, word: seq<byte>)
      requires Busy() && Base(addr) + 4 <= MEM_BYTES
      modifies this`calls, host`dev, host.gpio
      ensures Busy() && Mem() == old(Mem()) && Explained(ret, old(host.gpio.faults), host.gpio.faults)
      ensures calls == old(calls) + [Call(false, addr, 4)]
      ensures ret == 0 ==> word == Mem()[Base(addr)..Base(addr) + 4]
    {
      var r_buf := new byte[4];
      ret := DdrRead(r_buf, 0, 4, addr);
      word := r_buf[..];
      assert word == r_buf[0..4];
    }

    /** Read a word, copy x over it from byte i on, write it back. */
    method ModifyWord(addr: nat, i: nat, x: seq<byte>) returns (ret: int, ghost done: bool)
      requires Busy() && Base(addr) + 4 <= MEM_BYTES && i + |x| <= 4
      modifies this`calls, host`dev, host.gpio
      ensures Busy() && Explained(ret, old(host.gpio.faults), host.gpio.faults)
      ensures ret == 0 ==> calls == old(calls) + [Call(false, addr, 4), Call(true, addr, 4)]
      ensures SameOutside(old(Mem()), Mem(), Base(addr), Base(addr) + 4) && (ret == 0 ==> done)
      ensures ret == 0 || buffers ==> Mem() == if done then Splice(old(Mem()), Base(addr) + i, x) else old(Mem())
    {
      ghost var m0, w := Mem(), Base(addr);
      done := false;
      var word;
      ret, word := FetchWord(addr);
      if ret < 0 { return; }
      ret, done := DdrWrite(Splice(word, i, x), addr);
      ghost var after, exact := Mem(), ret == 0 || buffers;
      WordModified(m0, after, w, i, x, done, exact);
    }

    /** Store n bytes from buf[p] on as whole words at `addr`. */
    method StoreBody(p: nat, n: nat, addr: nat, buf: seq<byte>, ghost j: Job) returns (ret: int, ghost q: nat)
      requires Busy() && buf == j.buf && Held(j, Mem(), p) && addr == j.offset + p && |j.m0| == MEM_BYTES
      requires 0 < n < WORD32 && n % 4 == 0 && Base(addr) == addr && p + n <= |buf|
      modifies this`calls, host`dev, host.gpio
      ensures Busy() && Explained(ret, old(host.gpio.faults), host.gpio.faults)
      ensures Reached(j, Mem(), q, ret == 0 || buffers) && (ret == 0 ==> q == p + n)
      ensures calls == old(calls) + [Call(true, addr, n)]
    {
      ghost var before, done := Mem(), false;
      var x := buf[p..p + n];
      assert |x| == n;
      ret, done := DdrWrite(x, addr);
      q := if done then p + |x| else p;
      ghost var w, after, exact := Base(addr), Mem(), ret == 0 || buffers;
      JobGrows(j, before, after, p, x, w, w, w + |x|, done, exact);
    }

    /** Store n bytes from buf[p] on within the word around `addr`. */
    method StoreInWord(p: nat, n: nat, addr: nat, i: nat, buf: seq<byte>, ghost j: Job) returns (ret: int, ghost q: nat)
      requires Busy() && buf == j.buf && Held(j, Mem(), p) && addr == j.offset + p && |j.m0| == MEM_BYTES
      requires Base(addr) + i == addr && i + n <= 4 && Base(addr) + 4 <= MEM_BYTES && p + n <= |buf|
      requires j.lo <= Base(addr) && Base(addr) + 4 <= j.hi
      modifies this`calls, host`dev, host.gpio
      ensures Busy() && Explained(ret, old(host.gpio.faults), host.gpio.faults)
      ensures Reached(j, Mem(), q, ret == 0 || buffers) && (ret == 0 ==> q == p + n)
      ensures ret == 0 ==> calls == old(calls) + [Call(false, addr, 4), Call(true, addr, 4)]
    {
      ghost var before, done := Mem(), false;
      var x := buf[p..p + n];
      assert |x| == n;
      ret, done := ModifyWord(addr, i, x);
      q := if done then p + |x| else p;
      ghost var w, after, exact := Base(addr), Mem(), ret == 0 || buffers;
      JobGrows(j, before, after, p, x, w + i, w, w + 4, done, exact);
    }

    /** The part of _write from a word boundary on: buf[at..] goes to off. */
    method WriteRest(buf: seq<byte>, at: nat, off: nat, ghost j: Job) returns (ret: int, ghost q: nat)
      requires Busy() && buf == j.buf && Held(j, Mem(), at) && off == j.offset + at && |j.m0| == MEM_BYTES
      requires at < |buf| < WORD32 && off % 4 == 0 && j.offset + |buf| <= FIC_MEM_SIZE
      requires j.hi == HullEnd(off, |buf| - at)
      modifies this`calls, host`dev, host.gpio
      ensures Busy() && Explained(ret, old(host.gpio.faults), host.gpio.faults)
      ensures Reached(j, Mem(), q, ret == 0 || buffers) && (ret == 0 ==> q == |buf|)
      ensures ret == 0 ==> calls == old(calls) + RestCalls(off, |buf| - at)
    {
      var size_left := |buf| - at;
      RestShape(off, size_left);
      var mis_off_ed := (off + size_left) % 4;
      if mis_off_ed != 0 {
        ret, q := WriteTail(buf, at, size_left - mis_off_ed, mis_off_ed, off, j);
      } else {
        ret, q := StoreBody(at, size_left, off, buf, j);
      }
    }

    method WriteTail(buf: seq<byte>, at: nat, tx_size: nat, mis_off_ed: nat, off: nat, ghost j: Job)
      returns (ret: int, ghost q: nat)
      requires Busy() && buf == j.buf && Held(j, Mem(), at) && off == j.offset + at && |j.m0| == MEM_BYTES
      requires 0 < mis_off_ed < 4 && |buf| == at + tx_size + mis_off_ed && |buf| < WORD32 && Base(off) == off
      requires tx_size % 4 == 0 && Base(off + tx_size) == off + tx_size && off + tx_size + 4 <= MEM_BYTES
      requires off + tx_size + 4 <= j.hi
      modifies this`calls, host`dev, host.gpio
      ensures Busy() && Explained(ret, old(host.gpio.faults), host.gpio.faults)
      ensures Reached(j, Mem(), q, ret == 0 || buffers) && (ret == 0 ==> q == |buf|)
      ensures ret == 0 ==> calls == old(calls) + TailCalls(off, tx_size)
    {
      var buf_p, last := at + tx_size, off + tx_size;
      if tx_size > 3 {
        ret, q := StoreBody(at, tx_size, off, buf, j);
        if ret < 0 { return; }
      }
      assert Held(j, Mem(), buf_p);
      ret, q := StoreInWord(buf_p, mis_off_ed, last, 0, buf, j);
    }

    /** _write on /mem between opening and closing the GPIO. A head word the request does not fill
        up makes size_left wrap around; the transfer it asks for next runs behind `buf`. */
    method WriteAll(buf: seq<byte>, offset: nat, ghost j: Job) returns (t: Transfer, ghost q: nat)
      requires Busy() && Accepted(offset, |buf|)
      requires j == Job(Mem(), buf, offset, Base(offset), HullEnd(offset, |buf|))
      modifies this`calls, host`dev, host.gpio
      ensures Busy() && Noticed(t == Failed, old(host.gpio.faults), host.gpio.faults)
      ensures Reached(j, Mem(), q, t != Failed || buffers)
      ensures t == Complete ==> HeadFits(offset, |buf|) && q == |buf| && calls == old(calls) + WriteCalls(offset, |buf|)
      ensures t == Behind ==> !HeadFits(offset, |buf|)
    {
      NothingStored(Mem(), offset);
      HeadShape(offset, |buf|);
      HullHolds(offset, |buf|);
      if offset % 4 != 0 {
        AcrossShape(offset, |buf|);
        if 4 - offset % 4 > |buf| {
          t, q := WriteShort(buf, offset, j);
        } else {
          t, q := WriteAcross(buf, offset, j);
        }
      } else {
        t, q := WriteMore(buf, 0, offset, |buf|, j);
      }
    }

    /** WriteAll from inside a word that the request does not fill up. */
    method WriteShort(buf: seq<byte>, offset: nat, ghost j: Job) returns (t: Transfer, ghost q: nat)
      requires Busy() && Accepted(offset, |buf|)
      requires offset % 4 != 0 && HeadLength(offset) > |buf|
      requires j == Job(Mem(), buf, offset, Base(offset), HullEnd(offset, |buf|)) && Held(j, Mem(), 0)
      modifies this`calls, host`dev, host.gpio
      ensures Busy() && Noticed(t == Failed, old(host.gpio.faults), host.gpio.faults)
      ensures Reached(j, Mem(), q, t != Failed || buffers)
      ensures t == Behind || t == Failed
    {
      var size, tx_size, ret := |buf|, 4 - offset % 4, 0;
      var off, size_left := offset + tx_size, Minus(size, tx_size);
      AcrossShape(offset, size);
      ret, q := WriteHead(buf, offset, j);
      if ret < 0 { return Failed, q; }
      ghost var q1 := q;
      t, q := WriteMore(buf, tx_size, off, size_left, j);
      q := q1;
    }

    /** WriteAll from inside a word, up to its end at least: the head word, then the rest. */
    method WriteAcross(buf: seq<byte>, offset: nat, ghost j: Job) returns (t: Transfer, ghost q: nat)
      requires Busy() && Accepted(offset, |buf|)
      requires offset % 4 != 0 && HeadLength(offset) <= |buf|
      requires j == Job(Mem(), buf, offset, Base(offset), HullEnd(offset, |buf|)) && Held(j, Mem(), 0)
      modifies this`calls, host`dev, host.gpio
      ensures Busy() && Noticed(t == Failed, old(host.gpio.faults), host.gpio.faults)
      ensures Reached(j, Mem(), q, t != Failed || buffers)
      ensures t == Complete || t == Failed
      ensures t == Complete ==> HeadFits(offset, |buf|) && q == |buf| && calls == old(calls) + WriteCalls(offset, |buf|)
    {
      var size, tx_size, ret := |buf|, 4 - offset % 4, 0;
      var off, size_left := offset + tx_size, Minus(size, tx_size);
      AcrossShape(offset, size);
      assert tx_size == HeadLength(offset) && size_left == size - tx_size;
      ghost var c0 := calls;
      ret, q := WriteHead(buf, offset, j);
      if ret < 0 { return Failed, q; }
      ghost var c1 := calls;
      t, q := WriteMore(buf, tx_size, off, size_left, j);
      if t == Complete {
        CallsJoin(c0, c1, calls, offset, size, tx_size);
      }
    }

    /** The part of _write that stores the bytes in front of the first word boundary. */
    method WriteHead(buf: seq<byte>, offset: nat, ghost j: Job) returns (ret: int, ghost q: nat)
      requires Busy() && Accepted(offset, |buf|) && offset % 4 != 0
      requires j == Job(Mem(), buf, offset, Base(offset), HullEnd(offset, |buf|)) && Held(j, Mem(), 0)
      modifies this`calls, host`dev, host.gpio
      ensures Busy() && Explained(ret, old(host.gpio.faults), host.gpio.faults)
      ensures Reached(j, Mem(), q, ret == 0 || buffers)
      ensures ret == 0 ==> q == if HeadLength(offset) > |buf| then |buf| else HeadLength(offset)
      ensures ret == 0 ==> calls == old(calls) + HeadCalls(offset)
    {
      HeadShape(offset, |buf|);
      var mis_off_st := offset % 4;
      var tx_size := 4 - mis_off_st;
      if tx_size > |buf| {
        ret, q := StoreInWord(0, |buf|, offset, mis_off_st, buf, j);
      } else {
        ret, q := StoreInWord(0, tx_size, offset, mis_off_st, buf, j);
      }
    }

    /** _write behind the head word. */
    method WriteMore(buf: seq<byte>, buf_p: nat, off: nat, size_left: nat, ghost j: Job)
      returns (t: Transfer, ghost q: nat)
      requires Busy() && |buf| < WORD32 && off % 4 == 0 && buf == j.buf && off == j.offset + buf_p
      requires buf_p + size_left == |buf| || (buf_p + size_left > |buf| && size_left > 0)
      requires buf_p + size_left == |buf| ==>
                 Held(j, Mem(), buf_p) && |j.m0| == MEM_BYTES && j.hi == HullEnd(off, |buf| - buf_p)
      requires j.offset + |buf| <= FIC_MEM_SIZE
      modifies this`calls, host`dev, host.gpio
      ensures Busy() && Noticed(t == Failed, old(host.gpio.faults), host.gpio.faults)
      ensures t == Behind <==> buf_p + size_left > |buf|
      ensures if t == Behind then Mem() == old(Mem()) else Reached(j, Mem(), q, t == Complete || buffers)
      ensures t == Complete ==>
                q == |buf| && calls == old(calls) + if size_left == 0 then [] else RestCalls(off, size_left)
    {
      if size_left == 0 {
        JobWithin(j, Mem(), |buf|);
        return Complete, |buf|;
      }
      if buf_p + size_left > |buf| { return Behind, 0; }
      var ret;
      ret, q := WriteRest(buf, buf_p, off, j);
      t := if ret < 0 then Failed else Complete;
    }

    /** fic_gpio_open; the lock or the mapping behind it may fail. */
    method Open() returns (ret: int)
      requires Valid()
      modifies this`opens, host.gpio`faults
      ensures Sound() && Explained(ret, old(host.gpio.faults), host.gpio.faults)
      ensures opens == if ret < 0 then old(opens) else old(opens) + 1
    {
      ret := host.gpio.Chance();
      opens := if ret < 0 then opens else opens + 1;
    }

    /** fic_comm_reset, whatever it returns. */
    method Reset()
      requires Sound() && opens == resets + 1 == closes + 1
      modifies this`resets, this`ignored, host`dev, host.gpio
      ensures Busy() && Mem() == old(Mem()) && Felt() == old(Felt())
      ensures host.dev == EndTransaction(host.board, old(host.dev))
      ensures ignored == old(ignored) ==> RstbPin(host.board) in host.gpio.Wires()
    {
      var ret := host.CommReset();
      ignored := ignored + (host.gpio.faults - old(host.gpio.faults));
      resets := resets + 1;
    }

    /** fic_gpio_close */
    method Close()
      requires Busy()
      modifies this`closes
      ensures Valid()
    {
      closes := closes + 1;
    }

    /** _write on /mem. Of a request that is not refused no word outside its own is changed,
        whatever fails; if the DDR module buffers, or the write succeeds, exactly the first q
        bytes are stored, all of them on success. Without the GPIO nothing is. Nothing is
        promised once a write runs behind its buffer. */
    method Write(buf: seq<byte>, offset: nat) returns (r: Outcome, ghost q: nat)
      requires Valid() && |buf| < WORD32
      modifies this`calls, this`opens, this`resets, this`closes, this`ignored, this`events, host`dev, host.gpio
      ensures offset + |buf| > FIC_MEM_SIZE ==> r == Done(-EFAULT)
      ensures offset + |buf| <= FIC_MEM_SIZE && buf == [] ==> r == Done(-EIO)
      ensures !Accepted(offset, |buf|) ==>
                && Mem() == old(Mem()) && calls == old(calls) && events == old(events)
                && opens == old(opens) && Felt() == old(Felt())
      ensures Accepted(offset, |buf|) ==>
                || (r == Done(-EIO) && old(Felt()) < Felt())
                || (r == OutOfBounds && !HeadFits(offset, |buf|))
                || (&& r == Done(ToInt(|buf|)) && HeadFits(offset, |buf|) && Felt() == old(Felt())
                    && Mem() == Splice(old(Mem()), offset, buf)
                    && calls == old(calls) + WriteCalls(offset, |buf|)
                    && events == old(events) + [Stored(offset, buf)])
      ensures Accepted(offset, |buf|) ==>
                || opens == old(opens) + 1
                || (opens == old(opens) && r == Done(-EIO) && calls == old(calls) && Mem() == old(Mem()))
      ensures r.Done? ==> SameOutside(old(Mem()), Mem(), Base(offset), HullEnd(offset, |buf|))
      ensures r.Done? && buffers && Accepted(offset, |buf|) ==>
                && q <= |buf| && Mem() == Splice(old(Mem()), offset, buf[..q])
                && events == old(events) + [Stored(offset, buf[..q])]
      ensures r.Done? ==> Valid() && (old(Consistent()) ==> Consistent())
    {
      if offset + |buf| > FIC_MEM_SIZE { return Done(-EFAULT), 0; }
      if |buf| == 0 { return Done(-EIO), 0; }
      var ret := Open();
      if ret < 0 {
        NothingDone(buf, offset);
        return Done(-EIO), 0;
      }
      Reset();
      r, q := WriteOpen(buf, offset);
    }

    /** A write that could not open the GPIO. */
    ghost method NothingDone(buf: seq<byte>, offset: nat)
      requires offset + |buf| <= |Mem()|
      modifies this`events
      ensures events == old(events) + [Stored(offset, buf[..0])] && Mem() == Splice(Mem(), offset, buf[..0])
      ensures old(Consistent()) ==> Consistent()
    {
      ghost var j := Job(Mem(), buf, offset, Base(offset), HullEnd(offset, |buf|));
      NothingStored(Mem(), offset);
      HullHolds(offset, |buf|);
      Note(j, 0, true);
    }

    /** _write with the GPIO open, up to its close. */
    method WriteOpen(buf: seq<byte>, offset: nat) returns (r: Outcome, ghost q: nat)
      requires Busy() && Accepted(offset, |buf|)
      modifies this`calls, this`closes, this`events, host`dev, host.gpio
      ensures r.Done? ==> Valid() && (old(Consistent()) ==> Consistent())
      ensures || (r == Done(-EIO) && old(Felt()) < Felt())
              || (r == OutOfBounds && !HeadFits(offset, |buf|))
              || (&& r == Done(ToInt(|buf|)) && HeadFits(offset, |buf|) && Felt() == old(Felt())
                  && Mem() == Splice(old(Mem()), offset, buf)
                  && calls == old(calls) + WriteCalls(offset, |buf|)
                  && events == old(events) + [Stored(offset, buf)])
      ensures r.Done? ==> SameOutside(old(Mem()), Mem(), Base(offset), HullEnd(offset, |buf|))
      ensures r.Done? && buffers ==>
                && q <= |buf| && Mem() == Splice(old(Mem()), offset, buf[..q])
                && events == old(events) + [Stored(offset, buf[..q])]
    {
      ghost var j := Job(Mem(), buf, offset, Base(offset), HullEnd(offset, |buf|));
      NothingStored(Mem(), offset);
      HullHolds(offset, |buf|);
      var t;
      t, q := WriteAll(buf, offset, j);
      Note(j, q, t != Failed);
      assert t == Complete ==> buf[..q] == buf;
      if t == Behind { return OutOfBounds, q; }
      Close();
      r := Done(if t == Complete then ToInt(|buf|) else -EIO);
    }

    /** Record what a write has done. */
    ghost method Note(j: Job, q: nat, clean: bool)
      requires Reached(j, Mem(), q, clean || buffers)
      modifies this`events
      ensures events == old(events) + [EventOf(j, q, clean || buffers)]
      ensures Explains(start, old(events), j.m0) ==> Consistent()
    {
      if Explains(start, events, j.m0) {
        if clean || buffers {
          StoreExplained(start, events, j.m0, j.offset, j.buf[..q]);
        } else {
          SpoilExplained(start, events, j.m0, Mem(), j.lo, j.hi);
        }
      }
      events := events + [EventOf(j, q, clean || buffers)];
    }

    /** Read a word and copy n bytes of it, from byte i on, to buf[at..]. */
    method ReadWord(buf: array<byte>, at: nat, n: nat, addr: nat, i: nat) returns (ret: int)
      requires Busy() && Base(addr) + 4 <= MEM_BYTES && i + n <= 4 && at + n <= buf.Length
      modifies this`calls, host`dev, host.gpio, buf
      ensures Busy() && Mem() == old(Mem()) && Explained(ret, old(host.gpio.faults), host.gpio.faults)
      ensures calls == old(calls) + [Call(false, addr, 4)]
      ensures forall j :: 0 <= j < buf.Length && !(ret == 0 && at <= j < at + n) ==> buf[j] == old(buf[j])
      ensures ret == 0 ==> forall j :: at <= j < at + n ==> buf[j] == Mem()[Base(addr) + i + (j - at)]
    {
      var r_buf := new byte[4];
      ret := DdrRead(r_buf, 0, 4, addr);
      if ret < 0 { return; }
      assert forall j :: 0 <= j < 4 ==> r_buf[j] == r_buf[0..4][j];
      forall k | 0 <= k < n {
        buf[at + k] := r_buf[i + k];
      }
    }

    /** The part of _read from a word boundary on. */
    method ReadRest(buf: array<byte>, at: nat, size_left: nat, offset: nat) returns (ret: int)
      requires Busy() && 0 < size_left && at + size_left <= buf.Length
      requires offset % 4 == 0 && offset + size_left <= FIC_MEM_SIZE
      modifies this`calls, host`dev, host.gpio, buf
      ensures Busy() && Mem() == old(Mem()) && Explained(ret, old(host.gpio.faults), host.gpio.faults)
      ensures forall j :: 0 <= j < buf.Length && !(at <= j < at + size_left) ==> buf[j] == old(buf[j])
      ensures ret == 0 ==> calls == old(calls) + ReadRestCalls(offset, size_left)
      ensures ret == 0 ==> forall j :: at <= j < at + size_left ==>
                buf[j] == if j - at < GoodLength(size_left) then Mem()[offset + (j - at)] else old(buf[j])
    {
      RestShape(offset, size_left);
      var mis_off_ed := (offset + size_left) % 4;
      if mis_off_ed != 0 {
        ret := ReadTail(buf, at, size_left - mis_off_ed, mis_off_ed, offset);
      } else {
        ret := DdrRead(buf, at, size_left, offset);
        assert forall j :: at <= j < at + size_left ==> buf[j] == buf[at..at + size_left][j - at];
      }
    }

    /** The length of the body goes through an int: one of 2^31 bytes or more turns negative, and
        the body is skipped. */
    method ReadTail(buf: array<byte>, at: nat, body: nat, mis_off_ed: nat, offset: nat) returns (ret: int)
      requires Busy() && 0 < mis_off_ed < 4 && at + body + mis_off_ed <= buf.Length
      requires body % 4 == 0 && Base(offset) == offset && Base(offset + body) == offset + body
      requires offset + body + 4 <= MEM_BYTES
      modifies this`calls, host`dev, host.gpio, buf
      ensures Busy() && Mem() == old(Mem()) && Explained(ret, old(host.gpio.faults), host.gpio.faults)
      ensures forall j :: 0 <= j < buf.Length && !(at <= j < at + body + mis_off_ed) ==> buf[j] == old(buf[j])
      ensures ret == 0 ==> calls == old(calls) + ReadTailCalls(offset, ToInt(body))
      ensures ret == 0 ==> forall j :: at <= j < at + body + mis_off_ed ==>
                buf[j] == if body < 0x8000_0000 || j - at < mis_off_ed then Mem()[offset + (j - at)] else old(buf[j])
    {
      BodyLength(body);
      var tx_size := ToInt(body);
      var p, off := at, offset;
      if tx_size > 3 {
        ret := DdrRead(buf, p, tx_size, off);
        if ret < 0 { return; }
        assert forall j :: at <= j < at + tx_size ==> buf[j] == buf[at..at + tx_size][j - at];
        p := p + tx_size;
        off := off + tx_size;
      }
      ret := ReadWord(buf, p, mis_off_ed, off, 0);
    }

    /** The part of _read that fetches the bytes in front of the first word boundary. */
    method ReadHead(buf: array<byte>, size: nat, offset: nat) returns (ret: int, tx_size: nat)
      requires Busy() && Accepted(offset, size) && size <= buf.Length && offset % 4 != 0
      modifies this`calls, host`dev, host.gpio, buf
      ensures Busy() && Mem() == old(Mem()) && Explained(ret, old(host.gpio.faults), host.gpio.faults)
      ensures tx_size == if HeadLength(offset) > size then size else HeadLength(offset)
      ensures calls == old(calls) + [Call(false, offset, 4)]
      ensures forall j :: tx_size <= j < buf.Length ==> buf[j] == old(buf[j])
      ensures ret == 0 ==> forall j :: 0 <= j < tx_size ==> buf[j] == Mem()[offset + j]
    {
      HeadShape(offset, size);
      var mis_off_st := offset % 4;
      tx_size := 4 - mis_off_st;
      if tx_size > size {
        tx_size := size;
      }
      ret := ReadWord(buf, 0, tx_size, offset, mis_off_st);
    }

    /** _read on /mem between opening and closing the GPIO. */
    method ReadAll(buf: array<byte>, size: nat, offset: nat) returns (ret: int)
      requires Busy() && Accepted(offset, size) && size <= buf.Length
      modifies this`calls, host`dev, host.gpio, buf
      ensures Busy() && Mem() == old(Mem()) && Explained(ret, old(host.gpio.faults), host.gpio.faults)
      ensures forall k :: size <= k < buf.Length ==> buf[k] == old(buf[k])
      ensures ret == 0 ==> calls == old(calls) + ReadCalls(offset, size)
      ensures ret == 0 ==> forall k :: 0 <= k < size ==>
                buf[k] == if k < ReadLength(offset, size) then Mem()[offset + k] else old(buf[k])
    {
      ret := 0;
      var p := 0;
      if offset % 4 != 0 {
        ret, p := ReadHead(buf, size, offset);
        if ret < 0 { return; }
      }
      assert calls == old(calls) + if HeadLength(offset) == 0 then [] else [Call(false, offset, 4)];
      assert p == if HeadLength(offset) > size then size else HeadLength(offset);
      HeadShape(offset, size);
      if p < size {
        ret := ReadRest(buf, p, size - p, offset + p);
      }
    }

    /** _read on /mem. */
    method Read(buf: array<byte>, size: nat, offset: nat) returns (ret: int)
      requires Valid() && size <= buf.Length && size < WORD32
      modifies this`calls, this`opens, this`resets, this`closes, this`ignored, host`dev, host.gpio, buf
      ensures Valid() && Mem() == old(Mem())
      ensures offset + size > FIC_MEM_SIZE ==> ret == -EFAULT
      ensures offset + size <= FIC_MEM_SIZE && size == 0 ==> ret == -EIO
      ensures !Accepted(offset, size) ==>
                buf[..] == old(buf[..]) && calls == old(calls) && opens == old(opens) && Felt() == old(Felt())
      ensures Accepted(offset, size) ==>
                || (ret == -EIO && old(Felt()) < Felt())
                || (&& ret == ToInt(size) && Felt() == old(Felt())
                    && buf[..size] == ReadImage(Mem(), old(buf[..size]), offset, size)
                    && calls == old(calls) + ReadCalls(offset, size))
      ensures Accepted(offset, size) ==>
                || opens == old(opens) + 1
                || (opens == old(opens) && ret == -EIO && calls == old(calls) && buf[..] == old(buf[..]))
      ensures forall k :: size <= k < buf.Length ==> buf[k] == old(buf[k])
    {
      if offset + size > FIC_MEM_SIZE { return -EFAULT; }
      if size == 0 { return -EIO; }
      ret := Open();
      if ret < 0 { return -EIO; }
      Reset();
      ret := ReadAll(buf, size, offset);
      Close();
      if ret < 0 { return -EIO; }
      ImageIs(Mem(), old(buf[..size]), buf[..size], offset);
      return ToInt(size);
    }
  }

  lemma ImageIs(mem: seq<byte>, was: seq<byte>, now: seq<byte>, offset: nat)
    requires |was| == |now| && offset + |now| <= |mem|
    requires forall k :: 0 <= k < |now| ==>
               now[k] == if k < ReadLength(offset, |now|) then mem[offset + k] else was[k]
    ensures now == ReadImage(mem, was, offset, |now|)
  {
  }

  /** Bytes stored by a job stay within its words. */
  lemma JobWithin(j: Job, m: seq<byte>, p: nat)
    requires Held(j, m, p)
    ensures SameOutside(j.m0, m, j.lo, j.hi)
  {
    forall k | 0 <= k < |m| && !(j.lo <= k < j.hi)
      ensures m[k] == j.m0[k]
    {
      SpliceAt(j.m0, j.offset, j.buf[..p], k);
    }
  }

  /** A transfer of bytes x in a job, behind the p bytes stored so far: what it changes lies
      between lo and hi, and if that is known exactly it is all of x or nothing. */
  lemma JobGrows(j: Job, m1: seq<byte>, m2: seq<byte>, p: nat, x: seq<byte>, at: nat, lo: nat, hi: nat,
                 done: bool, exact: bool)
    requires Held(j, m1, p) && j.lo <= lo && hi <= j.hi && SameOutside(m1, m2, lo, hi)
    requires p + |x| <= |j.buf| && x == j.buf[p..p + |x|] && at == j.offset + p
    requires exact ==> m2 == if done then Splice(m1, at, x) else m1
    ensures Reached(j, m2, if done then p + |x| else p, exact)
  {
    JobWithin(j, m1, p);
    SameOutsideTwice(j.m0, m1, m2, j.lo, j.hi, lo, hi);
    if exact && done {
      JobStores(j, m1, m2, p, x, at);
    }
  }

  lemma JobStores(j: Job, m1: seq<byte>, m2: seq<byte>, p: nat, x: seq<byte>, at: nat)
    requires Held(j, m1, p) && p + |x| <= |j.buf| && x == j.buf[p..p + |x|] && at == j.offset + p
    requires m2 == Splice(m1, at, x)
    ensures Held(j, m2, p + |x|)
  {
    var q := p + |x|;
    assert x == j.buf[p..q];
    SpliceMore(j.m0, j.offset, j.buf, p, q);
  }

  lemma SameOutsideTwice(m0: seq<byte>, m1: seq<byte>, m2: seq<byte>, lo: nat, hi: nat, lo': nat, hi': nat)
    requires SameOutside(m0, m1, lo, hi) && SameOutside(m1, m2, lo', hi') && lo <= lo' && hi' <= hi
    ensures SameOutside(m0, m2, lo, hi)
  {
  }

  /** What writing back a modified word does, if it is known exactly. */
  lemma WordModified(m0: seq<byte>, m2: seq<byte>, w: nat, i: nat, x: seq<byte>, done: bool, exact: bool)
    requires w + 4 <= |m0| && i + |x| <= 4
    requires exact ==> m2 == if done then Splice(m0, w, Splice(m0[w..w + 4], i, x)) else m0
    ensures exact ==> m2 == if done then Splice(m0, w + i, x) else m0
  {
    SpliceInWord(m0, w, i, x);
  }

  lemma CallsJoin(c0: seq<Call>, c1: seq<Call>, c2: seq<Call>, offset: nat, size: nat, n: nat)
    requires HeadFits(offset, size) && n == HeadLength(offset) <= size && c1 == c0 + HeadCalls(offset)
    requires c2 == c1 + if size - n == 0 then [] else RestCalls(offset + n, size - n)
    ensures c2 == c0 + WriteCalls(offset, size)
  {
  }

  lemma NothingStored(m: seq<byte>, at: nat)
    requires at <= |m|
    ensures Splice(m, at, []) == m
  {
  }
}
