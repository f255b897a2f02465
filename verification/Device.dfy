/** The far end of the strobe link: what the FPGA's register and DDR modules make of the words
    strobed to them. The repository does not contain this side; it is the environment the
    library's framing is proved against. */
module Device {
  import opened Bytes
  import opened Gpio
  import opened Subsequences

  // Commands on the link, and inside the DDR module's stream
  const COMM_CMD_WRITE: half := 0x02
  const COMM_CMD_READ: half := 0x03
  const RASDDR_CMD_WRITE: nat := 0x0001
  const RASDDR_CMD_READ: nat := 0x0002
  const COMM_ADDR_HLS: half := 0x1000

  /** What the modules behind the link hold: `mem` is the DDR memory, `out` the bytes the DDR
      module has ready, `regs` the register file. A DDR module that `streams` stores payload as it
      arrives, not when the transaction ends: an incomplete write leaves the bytes `torn`, whatever
      they are, in the write's range. */
  datatype Contents = Contents(mem: seq<byte>, out: seq<byte>, regs: map<half, half>, streams: bool, torn: seq<byte>)

  /** `words` are the words taken in the transaction under way; `answer` is what a read is
      answered with, `supplied` how much of it has been strobed out and `drive` what is on the
      data pins. */
  datatype Device = Device(fack: bool, words: seq<half>, answer: seq<half>, supplied: nat, drive: half, held: Contents)

  // ----- Words on the wire: nibbles, high one first, on mk1; byte pairs, low one first, on mk2 -----

  function NibbleAt(data: seq<byte>, k: nat): half
    requires k < 2 * |data|
  {
    if k % 2 == 0 then HighNibble(data[k / 2]) else LowNibble(data[k / 2])
  }

  function EncodeBytes(board: Board, data: seq<byte>): (ws: seq<half>)
    ensures |ws| == if board == Mk1 then 2 * |data| else |data| / 2
  {
    if board == Mk1 then seq(2 * |data|, k requires 0 <= k < 2 * |data| => NibbleAt(data, k)) else Halves(data)
  }

  function JoinNibbles(high: nat, low: nat): byte {
    (16 * high + low % 16) % 0x100
  }

  function ByteAt(board: Board, ws: seq<half>, k: nat): byte
    requires if board == Mk1 then 2 * k + 1 < |ws| else k < 2 * |ws|
  {
    if board == Mk1 then JoinNibbles(ws[2 * k], ws[2 * k + 1])
    else if k % 2 == 0 then ws[k / 2] % 0x100 else ws[k / 2] / 0x100
  }

  function DecodeBytes(board: Board, ws: seq<half>): (data: seq<byte>)
    ensures |data| == if board == Mk1 then |ws| / 2 else 2 * |ws|
  {
    var n := if board == Mk1 then |ws| / 2 else 2 * |ws|;
    seq(n, k requires 0 <= k < n => ByteAt(board, ws, k))
  }

  /** The lengths a transfer can have: any on mk1, even ones of at least 2 on mk2. */
  predicate Sendable(board: Board, n: nat) {
    board == Mk1 || (n >= 2 && n % 2 == 0)
  }

  /** Those on mk2 are what one or more whole words carry. */
  lemma SendableInWords(n: nat)
    ensures Sendable(Mk2, n) <==> exists ws: seq<half> :: ws != [] && |DecodeBytes(Mk2, ws)| == n
  {
    if Sendable(Mk2, n) {
      var ws: seq<half> := seq(n / 2, _ => 0);
      assert ws != [] && |DecodeBytes(Mk2, ws)| == n;
    }
  }

  lemma JoinOfNibbles(b: byte)
    ensures JoinNibbles(HighNibble(b), LowNibble(b)) == b
  {
  }

  lemma NibblesBack(data: seq<byte>, k: nat)
    requires k < |data|
    ensures ByteAt(Mk1, EncodeBytes(Mk1, data), k) == data[k]
  {
    var ws := EncodeBytes(Mk1, data);
    assert ws[2 * k] == NibbleAt(data, 2 * k) == HighNibble(data[k]);
    assert ws[2 * k + 1] == NibbleAt(data, 2 * k + 1) == LowNibble(data[k]);
    JoinOfNibbles(data[k]);
  }

  lemma WordParts(hi: byte, lo: byte)
    ensures Word(hi, lo) % 0x100 == lo && Word(hi, lo) / 0x100 == hi
  {
  }

  lemma PairsBack(data: seq<byte>, j: nat)
    requires 2 * j + 1 < |data| && |data| % 2 == 0
    ensures ByteAt(Mk2, EncodeBytes(Mk2, data), 2 * j) == data[2 * j]
    ensures ByteAt(Mk2, EncodeBytes(Mk2, data), 2 * j + 1) == data[2 * j + 1]
  {
    var ws := EncodeBytes(Mk2, data);
    WordParts(data[2 * j + 1], data[2 * j]);
    assert ws[j] == Word(data[2 * j + 1], data[2 * j]);
    Doubled(j);
  }

  lemma Doubled(j: nat)
    ensures 2 * j / 2 == j && 2 * j % 2 == 0
    ensures (2 * j + 1) / 2 == j && (2 * j + 1) % 2 == 1
  {
  }

  lemma PairBack(data: seq<byte>, k: nat)
    requires k < |data| && |data| % 2 == 0
    ensures ByteAt(Mk2, EncodeBytes(Mk2, data), k) == data[k]
  {
    PairsBack(data, k / 2);
    assert k == 2 * (k / 2) || k == 2 * (k / 2) + 1;
  }

  lemma BytesRoundTrip(board: Board, data: seq<byte>)
    requires board == Mk1 || |data| % 2 == 0
    ensures DecodeBytes(board, EncodeBytes(board, data)) == data
  {
    forall k | 0 <= k < |data|
      ensures ByteAt(board, EncodeBytes(board, data), k) == data[k]
    {
      if board == Mk1 {
        NibblesBack(data, k);
      } else {
        PairBack(data, k);
      }
    }
  }

  lemma NibblesConcat(a: seq<byte>, b: seq<byte>)
    ensures EncodeBytes(Mk1, a + b) == EncodeBytes(Mk1, a) + EncodeBytes(Mk1, b)
  {
    forall k | 0 <= k < 2 * |a + b|
      ensures NibbleAt(a + b, k) == if k < 2 * |a| then NibbleAt(a, k) else NibbleAt(b, k - 2 * |a|)
    {
      assert (a + b)[k / 2] == if k / 2 < |a| then a[k / 2] else b[k / 2 - |a|];
    }
  }

  lemma PairsConcat(a: seq<byte>, b: seq<byte>)
    requires |a| % 2 == 0
    ensures EncodeBytes(Mk2, a + b) == EncodeBytes(Mk2, a) + EncodeBytes(Mk2, b)
  {
  }

  lemma EncodeConcat(board: Board, a: seq<byte>, b: seq<byte>)
    requires board == Mk1 || |a| % 2 == 0
    ensures EncodeBytes(board, a + b) == EncodeBytes(board, a) + EncodeBytes(board, b)
  {
    if board == Mk1 {
      NibblesConcat(a, b);
    } else {
      PairsConcat(a, b);
    }
  }

  // ----- Frames -----

  /** The 16-bit address a transaction opens with, after its command word. */
  function EncodeAddr(board: Board, addr: half): seq<half> {
    if board == Mk1 then [addr / 16 / 16 / 16, addr / 16 / 16 % 16, addr / 16 % 16, addr % 16] else [addr]
  }

  function HeadLen(board: Board): nat {
    if board == Mk1 then 5 else 2
  }

  function Head(board: Board, cmd: half, addr: half): (ws: seq<half>)
    ensures |ws| == HeadLen(board)
  {
    [cmd] + EncodeAddr(board, addr)
  }

  function FourNibbles(a: nat, b: nat, c: nat, d: nat): half {
    (16 * (16 * (16 * a + b) + c) + d) % 0x1_0000
  }

  function AddrOf(board: Board, ws: seq<half>): half
    requires |ws| >= HeadLen(board)
  {
    if board == Mk1 then FourNibbles(ws[1], ws[2], ws[3], ws[4]) else ws[1]
  }

  lemma AddrRoundTrip(board: Board, cmd: half, addr: half, rest: seq<half>)
    ensures AddrOf(board, Head(board, cmd, addr) + rest) == addr
  {
    if board == Mk1 {
      var q1, q2, q3 := addr / 16, addr / 16 / 16, addr / 16 / 16 / 16;
      var ws := Head(board, cmd, addr) + rest;
      assert ws[1] == q3 && ws[2] == q2 % 16 && ws[3] == q1 % 16 && ws[4] == addr % 16;
      NibblesOf(addr);
    }
  }

  lemma NibblesOf(addr: half)
    ensures FourNibbles(addr / 16 / 16 / 16, addr / 16 / 16 % 16, addr / 16 % 16, addr % 16) == addr
  {
    DivMod16(addr);
    DivMod16(addr / 16);
    DivMod16(addr / 16 / 16);
  }

  lemma DivMod16(n: nat)
    ensures 16 * (n / 16) + n % 16 == n
  {
  }

  /** fic_hls_write's 12-byte header. */
  function Header(ctrl: nat, addr: nat, size: nat): (s: seq<byte>)
    requires ctrl < WORD32 && addr < WORD32 && size < WORD32
    ensures |s| == 12
  {
    Le32(ctrl) + Le32(addr) + Le32(size)
  }

  /** The DDR module ignores the low two address bits. */
  function Base(addr: nat): nat {
    addr / 4 * 4
  }

  function Splice(mem: seq<byte>, at: nat, data: seq<byte>): (m: seq<byte>)
    requires at + |data| <= |mem|
    ensures |m| == |mem|
  {
    mem[..at] + data + mem[at + |data|..]
  }

  /** What an incomplete write of `size` bytes leaves. */
  function Torn(c: Contents, at: nat, size: nat): (e: Contents)
    requires at + size <= |c.mem|
    ensures |e.mem| == |c.mem| && e.streams == c.streams && e.torn == c.torn
  {
    if c.streams && |c.torn| == size then c.(mem := Splice(c.mem, at, c.torn)) else c
  }

  /** What the DDR module does with the bytes of one transaction. */
  function RasDdr(c: Contents, bytes: seq<byte>): (e: Contents)
    ensures |e.mem| == |c.mem| && e.streams == c.streams && e.torn == c.torn
  {
    if |bytes| < 12 then c
    else Execute(c, UnLe32(bytes[0..4]), UnLe32(bytes[4..8]), UnLe32(bytes[8..12]), bytes[12..])
  }

  function Execute(c: Contents, ctrl: nat, addr: nat, size: nat, payload: seq<byte>): (e: Contents)
    ensures |e.mem| == |c.mem| && e.streams == c.streams && e.torn == c.torn
  {
    if Base(addr) + size > |c.mem| then c
    else if ctrl == RASDDR_CMD_WRITE && |payload| == size then c.(mem := Splice(c.mem, Base(addr), payload))
    else if ctrl == RASDDR_CMD_WRITE && |payload| < size then Torn(c, Base(addr), size)
    else if ctrl == RASDDR_CMD_READ && payload == [] then c.(out := c.mem[Base(addr)..Base(addr) + size])
    else c
  }

  // ----- Registers: 8 bits wide on mk1, 16 on mk2 -----

  function EncodeReg(board: Board, v: half): seq<half> {
    if board == Mk1 then [HighNibble(v % 0x100), LowNibble(v % 0x100)] else [v]
  }

  function DecodeReg(board: Board, ws: seq<half>): half
    requires |ws| == if board == Mk1 then 2 else 1
  {
    if board == Mk1 then JoinNibbles(ws[0], ws[1]) else ws[0]
  }

  /** What is left of a value written to a register. */
  function Kept(board: Board, v: half): half {
    if board == Mk1 then v % 0x100 else v
  }

  lemma RegRoundTrip(board: Board, v: half)
    ensures DecodeReg(board, EncodeReg(board, v)) == Kept(board, v)
  {
    JoinOfNibbles(v % 0x100);
  }

  function Register(c: Contents, addr: half): half {
    if addr in c.regs then c.regs[addr] else 0
  }

  // ----- Reactions to the wires -----

  predicate Reading(board: Board, d: Device) {
    |d.words| >= HeadLen(board) && d.words[0] == COMM_CMD_READ
  }

  /** What a read of `addr` is answered with. */
  function AnswerAt(board: Board, c: Contents, addr: half): seq<half> {
    if addr == COMM_ADDR_HLS then EncodeBytes(board, c.out) else EncodeReg(board, Register(c, addr))
  }

  function Answer(board: Board, d: Device): seq<half>
    requires |d.words| >= HeadLen(board)
  {
    AnswerAt(board, d.held, AddrOf(board, d.words))
  }

  /** A word taken off the bus; when it completes the head of a read, the answer is fetched. */
  function Take(board: Board, d: Device, word: half): Device {
    var e := d.(words := d.words + [word]);
    if Reading(board, e) then e.(answer := Answer(board, e)) else e
  }

  /** Word k of an answer, on as many pins as there are, and zero behind its end. */
  function WordAt(board: Board, answer: seq<half>, k: nat): half {
    var w := if k < |answer| then answer[k] else 0;
    if board == Mk1 then w % 16 else w
  }

  /** The word the device answers the next strobe of a read with. */
  function NextWord(board: Board, d: Device): half {
    WordAt(board, d.answer, d.supplied)
  }

  /** A strobe: in a read whose head is complete the next word of the answer is put out,
      otherwise the word on the bus is taken. */
  function Strobe(board: Board, d: Device, word: half): Device {
    if Reading(board, d) then d.(fack := true, supplied := d.supplied + 1, drive := NextWord(board, d))
    else Take(board, d, word).(fack := true)
  }

  /** What a transaction of these words comes to when it ends: a write is carried out. */
  function Carried(board: Board, c: Contents, words: seq<half>): (e: Contents)
    ensures |e.mem| == |c.mem| && e.streams == c.streams && e.torn == c.torn
  {
    if |words| < HeadLen(board) || words[0] != COMM_CMD_WRITE then c
    else
      var addr, rest := AddrOf(board, words), words[HeadLen(board)..];
      if addr == COMM_ADDR_HLS then RasDdr(c, DecodeBytes(board, rest))
      else if |rest| == |EncodeReg(board, 0)| then c.(regs := c.regs[addr := DecodeReg(board, rest)])
      else c
  }

  function EndTransaction(board: Board, d: Device): (e: Device)
    ensures |e.held.mem| == |d.held.mem| && e.words == []
  {
    d.(words := [], supplied := 0, held := Carried(board, d.held, d.words))
  }

  /** The framing round trip: whatever was strobed by a write to the DDR module, its command,
      address, size and payload are what the module works with. */
  lemma WriteFrame(board: Board, c: Contents, addr: nat, data: seq<byte>)
    requires addr < WORD32 && |data| < WORD32 && Base(addr) + |data| <= |c.mem|
    requires board == Mk1 || |data| % 2 == 0
    ensures Carried(board, c, StreamHead(board) + EncodeBytes(board, Header(RASDDR_CMD_WRITE, addr, |data|))
                              + EncodeBytes(board, data)) ==
            c.(mem := Splice(c.mem, Base(addr), data))
  {
    FrameBytes(board, c, Header(RASDDR_CMD_WRITE, addr, |data|), data);
    RasDdrWrites(c, addr, data);
  }

  lemma ReadFrame(board: Board, c: Contents, addr: nat, size: nat)
    requires addr < WORD32 && size < WORD32 && Base(addr) + size <= |c.mem|
    ensures Carried(board, c, StreamHead(board) + EncodeBytes(board, Header(RASDDR_CMD_READ, addr, size))) ==
            c.(out := c.mem[Base(addr)..Base(addr) + size])
  {
    var h := Header(RASDDR_CMD_READ, addr, size);
    BytesRoundTrip(board, h);
    StreamEnds(board, c, EncodeBytes(board, h));
    RasDdrReads(c, addr, size);
  }

  lemma RasDdrWrites(c: Contents, addr: nat, data: seq<byte>)
    requires addr < WORD32 && |data| < WORD32 && Base(addr) + |data| <= |c.mem|
    ensures RasDdr(c, Header(RASDDR_CMD_WRITE, addr, |data|) + data) == c.(mem := Splice(c.mem, Base(addr), data))
  {
    var h := Header(RASDDR_CMD_WRITE, addr, |data|);
    HeaderParses(h + data, RASDDR_CMD_WRITE, addr, |data|);
    assert (h + data)[12..] == data;
  }

  lemma RasDdrReads(c: Contents, addr: nat, size: nat)
    requires addr < WORD32 && size < WORD32 && Base(addr) + size <= |c.mem|
    ensures RasDdr(c, Header(RASDDR_CMD_READ, addr, size)) == c.(out := c.mem[Base(addr)..Base(addr) + size])
  {
    HeaderParses(Header(RASDDR_CMD_READ, addr, size), RASDDR_CMD_READ, addr, size);
  }

  /** A transaction to the DDR module hands it exactly the bytes sent. */
  lemma FrameBytes(board: Board, c: Contents, h: seq<byte>, data: seq<byte>)
    requires |h| == 12 && (board == Mk1 || |data| % 2 == 0)
    ensures Carried(board, c, StreamHead(board) + EncodeBytes(board, h) + EncodeBytes(board, data)) ==
            RasDdr(c, h + data)
  {
    EncodeConcat(board, h, data);
    BytesRoundTrip(board, h + data);
    Reassociate(StreamHead(board), EncodeBytes(board, h), EncodeBytes(board, data));
    StreamEnds(board, c, EncodeBytes(board, h + data));
  }

  lemma Reassociate<T>(a: seq<T>, b: seq<T>, c: seq<T>)
    ensures a + b + c == a + (b + c)
  {
  }

  /** The head of a stream to the DDR module. */
  function StreamHead(board: Board): seq<half> {
    Head(board, COMM_CMD_WRITE, COMM_ADDR_HLS)
  }

  /** The words of a command to the DDR module, as numbers. */
  lemma FirstWords2(ctrl: nat, addr: nat, size: nat)
    requires ctrl < 16 && addr < WORD32 && size < WORD32
    ensures StreamHead(Mk2) == [2, 0x1000] && Head(Mk2, COMM_CMD_READ, COMM_ADDR_HLS) == [3, 0x1000]
    ensures EncodeBytes(Mk2, Header(ctrl, addr, size)) ==
            [ctrl, 0, addr % 0x1_0000, addr / 0x1_0000, size % 0x1_0000, size / 0x1_0000]
  {
    PairsOfHeader(Le32(ctrl), Le32(addr), Le32(size));
    PairsOfWord(ctrl);
    PairsOfWord(addr);
    PairsOfWord(size);
  }

  lemma PairsOfHeader(a: seq<byte>, b: seq<byte>, c: seq<byte>)
    requires |a| == |b| == 4
    ensures EncodeBytes(Mk2, a + b + c) == EncodeBytes(Mk2, a) + EncodeBytes(Mk2, b) + EncodeBytes(Mk2, c)
  {
    PairsConcat(a + b, c);
    PairsConcat(a, b);
  }

  /** On mk1, the nibbles up to the address. */
  lemma FirstWords1(ctrl: nat, addr: nat, size: nat)
    requires ctrl < 16 && addr < WORD32 && size < WORD32
    ensures StreamHead(Mk1) == [2, 1, 0, 0, 0] && Head(Mk1, COMM_CMD_READ, COMM_ADDR_HLS) == [3, 1, 0, 0, 0]
    ensures EncodeBytes(Mk1, Header(ctrl, addr, size))[..8] == [0, ctrl, 0, 0, 0, 0, 0, 0]
  {
    var a, rest := Le32(ctrl), Le32(addr) + Le32(size);
    assert Header(ctrl, addr, size) == a + rest;
    NibblesConcat(a, rest);
    NibblesOfSmall(ctrl);
  }

  lemma NibblesOfSmall(n: nat)
    requires n < 16
    ensures EncodeBytes(Mk1, Le32(n)) == [0, n, 0, 0, 0, 0, 0, 0]
  {
    var s: seq<byte> := [n, 0, 0, 0];
    assert Le32(n) == s;
    forall k | 0 <= k < 8
      ensures NibbleAt(s, k) == if k == 1 then n else 0
    {
    }
  }

  lemma PairsOfWord(n: nat)
    requires n < WORD32
    ensures EncodeBytes(Mk2, Le32(n)) == [n % 0x1_0000, n / 0x1_0000]
  {
    var q := n / 0x100;
    assert n % 0x1_0000 == 0x100 * (q % 0x100) + n % 0x100;
    assert n / 0x1_0000 == q / 0x100;
    WordJoins(n / 0x1_0000);
  }

  lemma WordJoins(n: nat)
    ensures 0x100 * (n / 0x100) + n % 0x100 == n
  {
  }

  lemma StreamEnds(board: Board, c: Contents, rest: seq<half>)
    ensures Carried(board, c, StreamHead(board) + rest) == RasDdr(c, DecodeBytes(board, rest))
  {
    var words := StreamHead(board) + rest;
    AddrRoundTrip(board, COMM_CMD_WRITE, COMM_ADDR_HLS, rest);
    assert words[0] == COMM_CMD_WRITE;
    assert words[HeadLen(board)..] == rest;
  }

  lemma HeaderParses(bytes: seq<byte>, ctrl: nat, addr: nat, size: nat)
    requires ctrl < WORD32 && addr < WORD32 && size < WORD32
    requires |bytes| >= 12 && bytes[..12] == Header(ctrl, addr, size)
    ensures UnLe32(bytes[0..4]) == ctrl && UnLe32(bytes[4..8]) == addr && UnLe32(bytes[8..12]) == size
  {
    assert bytes[0..4] == bytes[..12][0..4] == Le32(ctrl);
    assert bytes[4..8] == bytes[..12][4..8] == Le32(addr);
    assert bytes[8..12] == bytes[..12][8..12] == Le32(size);
    Le32RoundTrip(ctrl);
    Le32RoundTrip(addr);
    Le32RoundTrip(size);
  }

  lemma RegisterFrame(board: Board, c: Contents, addr: half, v: half)
    requires addr != COMM_ADDR_HLS
    ensures Carried(board, c, Head(board, COMM_CMD_WRITE, addr) + EncodeReg(board, v)) ==
            c.(regs := c.regs[addr := Kept(board, v)])
  {
    var words := Head(board, COMM_CMD_WRITE, addr) + EncodeReg(board, v);
    AddrRoundTrip(board, COMM_CMD_WRITE, addr, EncodeReg(board, v));
    assert words[HeadLen(board)..] == EncodeReg(board, v);
    RegRoundTrip(board, v);
  }

  // ----- Transactions cut short -----

  /** Only bytes from lo to below hi differ. */
  ghost predicate SameOutside(m: seq<byte>, n: seq<byte>, lo: nat, hi: nat) {
    |m| == |n| && forall k :: 0 <= k < |m| && !(lo <= k < hi) ==> n[k] == m[k]
  }

  /** A transaction whose head is all there is of it changes nothing. */
  lemma HeadEndsIdle(board: Board, c: Contents, words: seq<half>, cmd: half, addr: half)
    requires words <= Head(board, cmd, addr)
    ensures Carried(board, c, words) == c
  {
    if |words| == HeadLen(board) && words[0] == COMM_CMD_WRITE {
      assert words[HeadLen(board)..] == [];
      assert DecodeBytes(board, []) == [];
    }
  }

  /** What a completed register write leaves; the stream's address is not a register. */
  function RegWritten(board: Board, c: Contents, addr: half, v: half): Contents {
    if addr == COMM_ADDR_HLS then c else c.(regs := c.regs[addr := Kept(board, v)])
  }

  /** Wherever a register write is cut short, it is carried out in full or not at all. */
  lemma RegisterCut(board: Board, c: Contents, words: seq<half>, addr: half, v: half)
    requires words <= Head(board, COMM_CMD_WRITE, addr) + EncodeReg(board, v)
    ensures Carried(board, c, words) == c || Carried(board, c, words) == RegWritten(board, c, addr, v)
    ensures words == Head(board, COMM_CMD_WRITE, addr) + EncodeReg(board, v) ==>
              Carried(board, c, words) == RegWritten(board, c, addr, v)
  {
    var head, reg := Head(board, COMM_CMD_WRITE, addr), EncodeReg(board, v);
    if |words| <= |head| {
      assert words <= head;
      HeadEndsIdle(board, c, words, COMM_CMD_WRITE, addr);
    } else {
      var rest := words[|head|..];
      assert words == head + rest;
      if addr == COMM_ADDR_HLS {
        StreamEnds(board, c, rest);
      } else if |rest| == |reg| {
        assert words == head + reg;
        RegisterFrame(board, c, addr, v);
      } else {
        AddrRoundTrip(board, COMM_CMD_WRITE, addr, rest);
      }
    }
  }

  lemma DecodeConcat(board: Board, h: seq<byte>, ws: seq<half>)
    requires board == Mk1 || |h| % 2 == 0
    ensures DecodeBytes(board, EncodeBytes(board, h) + ws) == h + DecodeBytes(board, ws)
  {
    var l, r := DecodeBytes(board, EncodeBytes(board, h) + ws), DecodeBytes(board, ws);
    LengthOfConcat(board, h, ws);
    forall k | 0 <= k < |l|
      ensures l[k] == if k < |h| then h[k] else r[k - |h|]
    {
      ByteOfConcat(board, h, ws, k);
    }
  }

  lemma LengthOfConcat(board: Board, h: seq<byte>, ws: seq<half>)
    requires board == Mk1 || |h| % 2 == 0
    ensures |DecodeBytes(board, EncodeBytes(board, h) + ws)| == |h| + |DecodeBytes(board, ws)|
  {
    if board == Mk1 {
      assert |EncodeBytes(board, h) + ws| == 2 * |h| + |ws|;
    } else {
      assert |h| == 2 * (|h| / 2);
    }
  }

  lemma ByteOfConcat(board: Board, h: seq<byte>, ws: seq<half>, k: nat)
    requires board == Mk1 || |h| % 2 == 0
    requires k < |h| + |DecodeBytes(board, ws)|
    ensures ByteAt(board, EncodeBytes(board, h) + ws, k) == if k < |h| then h[k] else ByteAt(board, ws, k - |h|)
  {
    var e := EncodeBytes(board, h);
    if board == Mk1 {
      if k < |h| {
        assert (e + ws)[2 * k] == e[2 * k] && (e + ws)[2 * k + 1] == e[2 * k + 1];
        NibblesBack(h, k);
      } else {
        var j := k - |h|;
        assert (e + ws)[2 * k] == ws[2 * j] && (e + ws)[2 * k + 1] == ws[2 * j + 1];
      }
    } else {
      HalfOf(|h|, k);
      if k < |h| {
        assert (e + ws)[k / 2] == e[k / 2];
        PairBack(h, k);
      } else {
        assert (e + ws)[k / 2] == ws[(k - |h|) / 2];
      }
    }
  }

  lemma HalfOf(n: nat, k: nat)
    requires n % 2 == 0
    ensures k < n <==> k / 2 < n / 2
    ensures k >= n ==> (k - n) / 2 == k / 2 - n / 2 && (k - n) % 2 == k % 2
  {
    assert n == 2 * (n / 2);
  }

  /** Fewer words than were sent decode to fewer bytes. */
  lemma LostBytes(board: Board, got: seq<half>, data: seq<byte>)
    requires Subsequence(got, EncodeBytes(board, data)) && (board == Mk1 || |data| % 2 == 0)
    ensures (got == EncodeBytes(board, data) && DecodeBytes(board, got) == data) || |DecodeBytes(board, got)| < |data|
  {
    FullLength(got, EncodeBytes(board, data));
    if |got| == |EncodeBytes(board, data)| {
      BytesRoundTrip(board, data);
    }
  }

  /** A header that lost words anywhere does nothing. */
  lemma HeaderCut(board: Board, c: Contents, got: seq<half>, header: seq<byte>)
    requires |header| == 12 && Subsequence(got, EncodeBytes(board, header))
    ensures RasDdr(c, DecodeBytes(board, got)) == if got == EncodeBytes(board, header) then RasDdr(c, header) else c
  {
    LostBytes(board, got, header);
  }

  /** Behind a whole header, a payload that lost words does what no payload would, or nothing. */
  lemma PayloadCut(board: Board, c: Contents, got: seq<half>, ctrl: nat, addr: nat, data: seq<byte>)
    requires ctrl < WORD32 && addr < WORD32 && |data| < WORD32
    requires Subsequence(got, EncodeBytes(board, data)) && (got != [] ==> board == Mk1 || |data| % 2 == 0)
    ensures var header := Header(ctrl, addr, |data|);
            var e := RasDdr(c, header + DecodeBytes(board, got));
            e == c || e == RasDdr(c, header) || e == RasDdr(c, header + data)
  {
    var header := Header(ctrl, addr, |data|);
    var some := DecodeBytes(board, got);
    if some == [] {
      assert header + some == header;
    } else {
      LostBytes(board, got, data);
      HeaderParses(header + some, ctrl, addr, |data|);
      HeaderParses(header, ctrl, addr, |data|);
    }
  }

  /** The header of a DDR write with no payload, or with too little of it, may spoil the write's
      range, and nothing else; in a device that waits for the end it spoils nothing. */
  lemma HeaderOnly(c: Contents, addr: nat, data: seq<byte>)
    requires addr < WORD32 && |data| < WORD32 && Base(addr) + |data| <= |c.mem|
    ensures var e := RasDdr(c, Header(RASDDR_CMD_WRITE, addr, |data|));
            && e == c.(mem := e.mem)
            && SameOutside(c.mem, e.mem, Base(addr), Base(addr) + |data|)
            && (!c.streams ==> e == c)
  {
    var header := Header(RASDDR_CMD_WRITE, addr, |data|);
    HeaderParses(header, RASDDR_CMD_WRITE, addr, |data|);
    if data == [] {
      assert Splice(c.mem, Base(addr), header[12..]) == c.mem;
    }
  }

  // ----- Words lost without anyone noticing -----

  lemma MiddleLost(board: Board, first: seq<byte>, lost: seq<byte>, last: seq<byte>)
    requires |first| % 2 == 0 && |lost| % 2 == 0
    ensures Subsequence(EncodeBytes(board, first + last), EncodeBytes(board, first + lost + last))
  {
    var a, b, c := EncodeBytes(board, first), EncodeBytes(board, lost), EncodeBytes(board, last);
    EncodeConcat(board, first + lost, last);
    EncodeConcat(board, first, lost);
    EncodeConcat(board, first, last);
    NoneLost(a);
    NoneLost(c);
    AllLost(b);
    PartsLeft(a, a, [], b);
    assert a + [] == a;
    PartsLeft(a, a + b, c, c);
  }

  /** Lost payload words cost a write its own range at most, but lost header words can send it
      anywhere. The payload here is a length and that many bytes x. When the four bytes of the
      address are lost, size, length and x are taken for address, size and payload, and x is
      written at the address |x| + 4, whatever `addr` was. */
  lemma SilentLossGoesAstray(board: Board, c: Contents, addr: nat, x: seq<byte>, m: nat) returns (got: seq<half>)
    requires addr < WORD32 && |x| == 2 * m && |x| + 4 < WORD32 && Base(|x| + 4) + |x| <= |c.mem|
    ensures var data := Le32(|x|) + x;
            Subsequence(got, EncodeBytes(board, Header(RASDDR_CMD_WRITE, addr, |data|) + data))
    ensures RasDdr(c, DecodeBytes(board, got)) == c.(mem := Splice(c.mem, Base(|x| + 4), x))
  {
    var n := |x|;
    var header, data := Header(RASDDR_CMD_WRITE, n + 4, n), Le32(n) + x;
    got := EncodeBytes(board, header + x);
    assert |data| == n + 4;
    AddressLost(board, RASDDR_CMD_WRITE, addr, n + 4, n, x);
    FrameRoundTrip(board, header, x, m);
    RasDdrWrites(c, n + 4, x);
  }

  lemma FrameRoundTrip(board: Board, header: seq<byte>, x: seq<byte>, m: nat)
    requires |header| == 12 && |x| == 2 * m
    ensures DecodeBytes(board, EncodeBytes(board, header + x)) == header + x
  {
    Doubled(6 + m);
    BytesRoundTrip(board, header + x);
  }

  lemma AddressLost(board: Board, ctrl: nat, addr: nat, size: nat, length: nat, x: seq<byte>)
    requires ctrl < WORD32 && addr < WORD32 && size < WORD32 && length < WORD32
    ensures Subsequence(EncodeBytes(board, Header(ctrl, size, length) + x),
                        EncodeBytes(board, Header(ctrl, addr, size) + (Le32(length) + x)))
  {
    var a, b, s, l := Le32(ctrl), Le32(addr), Le32(size), Le32(length);
    MiddleLost(board, a, b, s + l + x);
    Reassociate(a, s, l);
    Reassociate(a, s + l, x);
    Reassociate(s, l, x);
    Reassociate(a + b, s, l + x);
  }
}
