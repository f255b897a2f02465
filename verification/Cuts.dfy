/** How a /mem request of any offset and length is cut into DDR calls on whole words. */
module Cuts {
  import opened Bytes
  import opened Gpio
  import opened Device

  const FIC_MEM_SIZE: nat := 0xffff_ffff
  /** The DDR memory: four gigabytes. */
  const MEM_BYTES: nat := WORD32

  /** Conversion to a 32-bit int. */
  function ToInt(n: nat): (r: int)
    ensures -0x8000_0000 <= r < 0x8000_0000 && (r == n <==> n < 0x8000_0000)
    ensures n < WORD32 ==> r == n || r == n - WORD32
  {
    var m := n % WORD32;
    if m < 0x8000_0000 then m else m - WORD32
  }

  /** Subtraction in size_t. */
  function Minus(a: nat, b: nat): nat {
    (a - b) % WORD32
  }

  /** One call of fic_hls_ddr_write or fic_hls_ddr_read. */
  datatype Call = Call(write: bool, addr: nat, size: nat)

  /** Requests for /mem that are not refused. */
  predicate Accepted(offset: nat, size: nat) {
    0 < size && offset + size <= FIC_MEM_SIZE
  }

  predicate Covers(offset: nat, size: nat, k: nat) {
    Accepted(offset, size) && offset <= k < offset + size
  }

  /** Every byte of the memory but its last can be read and written. */
  lemma AllButLast(k: nat)
    ensures (exists offset: nat, size: nat :: Covers(offset, size, k)) <==> k < MEM_BYTES - 1
  {
    if k < MEM_BYTES - 1 {
      assert Covers(k, 1, k);
    }
  }

  // ----- How a request is cut -----

  /** Bytes up to the next word boundary. */
  function HeadLength(offset: nat): nat {
    if offset % 4 == 0 then 0 else 4 - offset % 4
  }

  /** The request is aligned or reaches the next word boundary. */
  predicate HeadFits(offset: nat, size: nat) {
    offset % 4 == 0 || offset % 4 + size >= 4
  }

  /** The end of the words a request touches. */
  function HullEnd(offset: nat, size: nat): nat {
    Base(offset + size + 3)
  }

  /** The DDR calls of a write: the head word read and written back, the body, the tail word read
      and written back. */
  function WriteCalls(offset: nat, size: nat): seq<Call>
    requires HeadFits(offset, size)
  {
    var n := HeadLength(offset);
    HeadCalls(offset) + if size == n then [] else RestCalls(offset + n, size - n)
  }

  function HeadCalls(offset: nat): seq<Call> {
    if offset % 4 == 0 then [] else [Call(false, offset, 4), Call(true, offset, 4)]
  }

  /** From a word boundary on. */
  function RestCalls(offset: nat, size: nat): seq<Call> {
    if size % 4 == 0 then [Call(true, offset, size)] else TailCalls(offset, size - size % 4)
  }

  function TailCalls(offset: nat, body: nat): seq<Call> {
    (if body == 0 then [] else [Call(true, offset, body)])
    + [Call(false, offset + body, 4), Call(true, offset + body, 4)]
  }

  /** The DDR calls of a read. */
  function ReadCalls(offset: nat, size: nat): seq<Call> {
    var n := HeadLength(offset);
    (if n == 0 then [] else [Call(false, offset, 4)]) + if size <= n then [] else ReadRestCalls(offset + n, size - n)
  }

  function ReadRestCalls(offset: nat, size: nat): seq<Call> {
    if size % 4 == 0 then [Call(false, offset, size)] else ReadTailCalls(offset, ToInt(size - size % 4))
  }

  function ReadTailCalls(offset: nat, body: int): seq<Call> {
    if body > 3 then [Call(false, offset, body), Call(false, offset + body, 4)] else [Call(false, offset, 4)]
  }

  lemma RestShape(offset: nat, size: nat)
    requires offset % 4 == 0
    ensures (offset + size) % 4 == size % 4 && Base(offset) == offset
    ensures (size - size % 4) % 4 == 0 && Base(offset + (size - size % 4)) == offset + (size - size % 4)
    ensures HullEnd(offset, size) == offset + (size - size % 4) + if size % 4 == 0 then 0 else 4
  {
  }

  /** How much of a transfer from a word boundary on arrives: all of it, unless its body is too
      long for an int; then only as many bytes as the tail has, at the body's place. */
  function GoodLength(size: nat): (n: nat)
    ensures n <= size
  {
    if size % 4 != 0 && size - size % 4 >= 0x8000_0000 then size % 4 else size
  }

  function ReadLength(offset: nat, size: nat): (n: nat)
    ensures n <= size
  {
    var head := HeadLength(offset);
    if size <= head then size else head + GoodLength(size - head)
  }

  /** The buffer after a read of `size` bytes that found `was` in it. */
  function ReadImage(mem: seq<byte>, was: seq<byte>, offset: nat, size: nat): seq<byte>
    requires offset + size <= |mem| && |was| == size
  {
    var n := ReadLength(offset, size);
    mem[offset..offset + n] + was[n..]
  }

  /** Whole words within the memory never trip the length checks of either board. */
  lemma DdrCallFits(board: Board, addr: nat, size: nat)
    requires 0 < size < WORD32 && size % 4 == 0 && Base(addr) + size <= MEM_BYTES
    ensures Sendable(board, size) && addr < WORD32 && size < WORD32
  {
    FourIsEven(size);
    WordHolds(addr);
  }

  lemma FourIsEven(n: nat)
    requires n % 4 == 0
    ensures n % 2 == 0
  {
    var q, h := n / 4, n / 2;
    assert n == 4 * q && n == 2 * h + n % 2;
    assert n % 2 == 2 * (2 * q - h);
  }

  lemma WordHolds(addr: nat)
    ensures Base(addr) <= addr < Base(addr) + 4
  {
  }

  /** A length that is a multiple of 4 survives the conversion, or turns negative. */
  lemma BodyLength(body: nat)
    requires body % 4 == 0 && body < WORD32
    ensures ToInt(body) == if body < 0x8000_0000 then body else body - WORD32
    ensures ToInt(body) > 3 <==> 0 < body < 0x8000_0000
  {
  }

  /** What the subtraction of the head's length leaves, and the hull of the rest. */
  lemma HeadLeft(offset: nat, size: nat)
    requires 0 < size < WORD32
    ensures HeadFits(offset, size) <==> HeadLength(offset) <= size
    ensures HeadFits(offset, size) ==> Minus(size, HeadLength(offset)) == size - HeadLength(offset)
    ensures !HeadFits(offset, size) ==> HeadLength(offset) + Minus(size, HeadLength(offset)) > size
  {
  }

  /** A request's hull is its head word and the hull of the rest. */
  lemma HullOfRest(offset: nat, size: nat)
    requires HeadLength(offset) <= size
    ensures HullEnd(offset + HeadLength(offset), size - HeadLength(offset)) == HullEnd(offset, size)
  {
  }

  /** The words of a request hold it. */
  lemma HullHolds(offset: nat, size: nat)
    ensures Base(offset) <= offset && offset + size <= HullEnd(offset, size)
  {
    WordHolds(offset);
    WordHolds(offset + size + 3);
  }

  lemma AcrossShape(offset: nat, size: nat)
    requires 0 < size < WORD32 && offset % 4 != 0
    ensures HeadLength(offset) == 4 - offset % 4 && (offset + HeadLength(offset)) % 4 == 0
    ensures HeadFits(offset, size) <==> HeadLength(offset) <= size
    ensures Minus(size, HeadLength(offset)) ==
            (if HeadLength(offset) <= size then 0 else WORD32) + size - HeadLength(offset)
    ensures Base(offset) + 4 <= HullEnd(offset, size)
    ensures HeadFits(offset, size) ==>
              HullEnd(offset, size) == HullEnd(offset + HeadLength(offset), size - HeadLength(offset))
  {
    HeadShape(offset, size);
    HeadLeft(offset, size);
    if HeadLength(offset) <= size {
      HullOfRest(offset, size);
    }
  }

  lemma HeadShape(offset: nat, size: nat)
    ensures Base(offset) + offset % 4 == offset
    ensures (offset + HeadLength(offset)) % 4 == 0
    ensures offset % 4 != 0 ==> Base(offset) + 4 == offset + HeadLength(offset)
    ensures size > 0 ==> HullEnd(offset, size) >= Base(offset) + 4
  {
  }

  // ----- Legality and tiling -----

  /** A call both boards carry out: whole words, at least one, within the memory. */
  predicate Legal(c: Call) {
    0 < c.size < WORD32 && c.size % 4 == 0 && Base(c.addr) + c.size <= MEM_BYTES
  }

  /** The writes among calls. */
  function Writes(calls: seq<Call>): seq<Call> {
    if calls == [] then [] else (if calls[0].write then [calls[0]] else []) + Writes(calls[1..])
  }

  /** The word ranges of the calls follow each other from lo up to hi. */
  predicate Tiles(calls: seq<Call>, lo: nat, hi: nat) {
    if calls == [] then lo == hi else Base(calls[0].addr) == lo && Tiles(calls[1..], lo + calls[0].size, hi)
  }

  lemma {:induction false} TilesJoin(a: seq<Call>, b: seq<Call>, lo: nat, mid: nat, hi: nat)
    requires Tiles(a, lo, mid)
    ensures Tiles(a + b, lo, hi) <==> Tiles(b, mid, hi)
  {
    if a == [] {
      assert a + b == b;
    } else {
      assert (a + b)[1..] == a[1..] + b;
      TilesJoin(a[1..], b, lo + a[0].size, mid, hi);
    }
  }

  lemma {:induction false} WritesJoin(a: seq<Call>, b: seq<Call>)
    ensures Writes(a + b) == Writes(a) + Writes(b)
  {
    if a == [] {
      assert a + b == b;
    } else {
      var first := if a[0].write then [a[0]] else [];
      assert (a + b)[0] == a[0] && (a + b)[1..] == a[1..] + b;
      WritesJoin(a[1..], b);
      assert first + (Writes(a[1..]) + Writes(b)) == first + Writes(a[1..]) + Writes(b);
    }
  }

  predicate AllLegal(calls: seq<Call>) {
    forall c :: c in calls ==> Legal(c)
  }

  /** Every DDR call of a write is legal, and what it writes tiles the words of the request
      without gap or overlap. */
  lemma WriteCallsTile(offset: nat, size: nat)
    requires Accepted(offset, size) && HeadFits(offset, size)
    ensures AllLegal(WriteCalls(offset, size))
    ensures Tiles(Writes(WriteCalls(offset, size)), Base(offset), HullEnd(offset, size))
  {
    CutAt(offset, size);
    HeadTiles(offset);
    var n, head, lo := HeadLength(offset), HeadCalls(offset), Base(offset);
    var at, left, hi := offset + n, size - n, HullEnd(offset, size);
    var calls := head + if left == 0 then [] else RestCalls(at, left);
    TilesGoOn(head, lo, at, left);
    assert WriteCalls(offset, size) == calls;
  }

  /** Tiles from lo on up to a word boundary, and those of what is left behind it. */
  lemma TilesGoOn(head: seq<Call>, lo: nat, at: nat, left: nat)
    requires AllLegal(head) && Tiles(Writes(head), lo, at)
    requires at % 4 == 0 && at + left <= FIC_MEM_SIZE
    ensures var calls := head + if left == 0 then [] else RestCalls(at, left);
            AllLegal(calls) && Tiles(Writes(calls), lo, HullEnd(at, left))
  {
    var rest, hi := if left == 0 then [] else RestCalls(at, left), HullEnd(at, left);
    if left > 0 {
      RestTiles(at, left);
    } else {
      HullOfNothing(at);
    }
    JoinCuts(head, rest, lo, at, hi);
  }

  lemma JoinCuts(a: seq<Call>, b: seq<Call>, lo: nat, mid: nat, hi: nat)
    requires AllLegal(a) && AllLegal(b)
    requires Tiles(Writes(a), lo, mid) && Tiles(Writes(b), mid, hi)
    ensures AllLegal(a + b) && Tiles(Writes(a + b), lo, hi)
  {
    WritesJoin(a, b);
    TilesJoin(Writes(a), Writes(b), lo, mid, hi);
  }

  /** The first word boundary in a write. */
  lemma CutAt(offset: nat, size: nat)
    requires 0 < size < WORD32 && HeadFits(offset, size)
    ensures HeadLength(offset) <= size && (offset + HeadLength(offset)) % 4 == 0
    ensures HullEnd(offset, size) == HullEnd(offset + HeadLength(offset), size - HeadLength(offset))
    ensures HeadLength(offset) == size ==> HullEnd(offset, size) == offset + size
  {
    HeadShape(offset, size);
    HeadLeft(offset, size);
    HullOfRest(offset, size);
    HullOfNothing(offset + HeadLength(offset));
  }

  lemma HullOfNothing(offset: nat)
    requires offset % 4 == 0
    ensures HullEnd(offset, 0) == offset
  {
  }

  lemma HeadTiles(offset: nat)
    requires offset < FIC_MEM_SIZE
    ensures AllLegal(HeadCalls(offset))
    ensures Tiles(Writes(HeadCalls(offset)), Base(offset), offset + HeadLength(offset))
  {
    HeadShape(offset, 0);
    if offset % 4 != 0 {
      PairWrites(offset);
      assert Tiles([Call(true, offset, 4)][1..], Base(offset) + 4, Base(offset) + 4);
    }
  }

  lemma PairWrites(addr: nat)
    ensures Writes([Call(false, addr, 4), Call(true, addr, 4)]) == [Call(true, addr, 4)]
  {
    var pair := [Call(false, addr, 4), Call(true, addr, 4)];
    assert pair[1..] == [Call(true, addr, 4)];
    assert Writes(pair[1..][1..]) == [];
  }

  lemma OneTile(write: bool, addr: nat, size: nat)
    ensures Tiles([Call(write, addr, size)], Base(addr), Base(addr) + size)
    ensures Writes([Call(true, addr, size)]) == [Call(true, addr, size)]
  {
    assert Tiles([Call(write, addr, size)][1..], Base(addr) + size, Base(addr) + size);
    assert Writes([Call(true, addr, size)][1..]) == [];
  }

  lemma RestTiles(offset: nat, size: nat)
    requires offset % 4 == 0 && Accepted(offset, size)
    ensures AllLegal(RestCalls(offset, size))
    ensures Tiles(Writes(RestCalls(offset, size)), offset, HullEnd(offset, size))
  {
    RestShape(offset, size);
    if size % 4 == 0 {
      OneTile(true, offset, size);
    } else {
      TailTiles(offset, size - size % 4);
    }
  }

  lemma TailTiles(offset: nat, body: nat)
    requires Base(offset) == offset && Base(offset + body) == offset + body
    requires body % 4 == 0 && body < WORD32 && offset + body + 4 <= MEM_BYTES
    ensures AllLegal(TailCalls(offset, body))
    ensures Tiles(Writes(TailCalls(offset, body)), offset, offset + body + 4)
  {
    var pair := [Call(false, offset + body, 4), Call(true, offset + body, 4)];
    PairWrites(offset + body);
    OneTile(true, offset + body, 4);
    if body == 0 {
      assert TailCalls(offset, body) == pair;
    } else {
      var first := [Call(true, offset, body)];
      OneTile(true, offset, body);
      JoinCuts(first, pair, offset, offset + body, offset + body + 4);
    }
  }

  /** Every DDR call of a read is legal. They tile the words of the request exactly when the read
      is not cut short. */
  lemma ReadCallsTile(offset: nat, size: nat)
    requires Accepted(offset, size)
    ensures AllLegal(ReadCalls(offset, size))
    ensures Tiles(ReadCalls(offset, size), Base(offset), HullEnd(offset, size)) <==> ReadLength(offset, size) == size
  {
    var at := offset + HeadLength(offset);
    var head := if at == offset then [] else [Call(false, offset, 4)];
    ReadHeadTiles(offset);
    if offset + size <= at {
      HullWithinHead(offset, size);
      TilesJoin(head, [], Base(offset), at, at);
      assert ReadCalls(offset, size) == head + [];
    } else {
      var rest := ReadRestCalls(at, offset + size - at);
      HullOfRest(offset, size);
      ReadRestTiles(at, offset + size - at);
      TilesJoin(head, rest, Base(offset), at, HullEnd(offset, size));
      assert ReadCalls(offset, size) == head + rest;
    }
  }

  lemma ReadHeadTiles(offset: nat)
    requires offset < FIC_MEM_SIZE
    ensures (offset + HeadLength(offset)) % 4 == 0
    ensures var head := if HeadLength(offset) == 0 then [] else [Call(false, offset, 4)];
            AllLegal(head) && Tiles(head, Base(offset), offset + HeadLength(offset))
  {
    HeadShape(offset, 0);
    if HeadLength(offset) > 0 {
      OneTile(false, offset, 4);
    }
  }

  lemma HullWithinHead(offset: nat, size: nat)
    requires 0 < size <= HeadLength(offset)
    ensures HullEnd(offset, size) == offset + HeadLength(offset)
  {
  }

  lemma ReadRestTiles(offset: nat, size: nat)
    requires offset % 4 == 0 && Accepted(offset, size)
    ensures AllLegal(ReadRestCalls(offset, size))
    ensures Tiles(ReadRestCalls(offset, size), offset, HullEnd(offset, size)) <==> GoodLength(size) == size
  {
    RestShape(offset, size);
    if size % 4 == 0 {
      OneTile(false, offset, size);
    } else {
      ReadTailTiles(offset, size - size % 4);
    }
  }

  lemma ReadTailTiles(offset: nat, body: nat)
    requires Base(offset) == offset && Base(offset + body) == offset + body
    requires body % 4 == 0 && body < WORD32 && offset + body + 4 <= MEM_BYTES
    ensures AllLegal(ReadTailCalls(offset, ToInt(body)))
    ensures Tiles(ReadTailCalls(offset, ToInt(body)), offset, offset + body + 4) <==> body < 0x8000_0000
  {
    BodyLength(body);
    if ToInt(body) > 3 {
      var first, last := [Call(false, offset, body)], [Call(false, offset + body, 4)];
      OneTile(false, offset, body);
      OneTile(false, offset + body, 4);
      TilesJoin(first, last, offset, offset + body, offset + body + 4);
      assert ReadTailCalls(offset, ToInt(body)) == first + last;
    } else {
      var only := [Call(false, offset, 4)];
      OneTile(false, offset, 4);
      TilesJoin(only, [], offset, offset + 4, offset + body + 4);
      assert ReadTailCalls(offset, ToInt(body)) == only + [];
    }
  }

  /** A read returns the memory's bytes, whatever they are and whatever was in the buffer,
      exactly when it is not cut short. */
  lemma ReadExact(offset: nat, size: nat)
    requires offset + size <= FIC_MEM_SIZE
    ensures ReadLength(offset, size) == size <==>
            forall mem: seq<byte>, was: seq<byte> ::
              |mem| == offset + size && |was| == size ==>
                ReadImage(mem, was, offset, size) == mem[offset..offset + size]
  {
    var n := ReadLength(offset, size);
    if n < size {
      var mem, was := seq<byte>(offset + size, _ => 0), seq<byte>(size, _ => 1);
      assert ReadImage(mem, was, offset, size)[n] == 1;
      assert mem[offset..offset + size][n] == 0;
    } else {
      forall mem: seq<byte>, was: seq<byte> | |mem| == offset + size && |was| == size
        ensures ReadImage(mem, was, offset, size) == mem[offset..offset + size]
      {
      }
    }
  }

  /** The requests a read cuts short, in terms a caller can check: the end is not on a word
      boundary and the words between the first and the last come to 2^31 bytes or more. */
  lemma ReadCutShort(offset: nat, size: nat)
    ensures ReadLength(offset, size) == size <==>
            !((offset + size) % 4 != 0 && (offset + size) / 4 * 4 >= offset + HeadLength(offset) + 0x8000_0000)
    ensures size < 0x8000_0000 ==> ReadLength(offset, size) == size
  {
    var n := HeadLength(offset);
    HeadShape(offset, size);
    if size > n {
      RestShape(offset + n, size - n);
      assert (offset + size) / 4 * 4 == offset + size - (offset + size) % 4;
    }
  }

  // ----- Requests that fail -----

  /** One byte at offset 1: the head word is not filled up, and what is left to do wraps to four
      gigabytes less two bytes. */
  lemma ShortWriteWraps()
    ensures !HeadFits(1, 1) && HeadLength(1) == 3 && Minus(1, HeadLength(1)) == 0xffff_fffe
  {
    assert 1 % 4 == 1;
  }

  /** Reading 2^31 + 1 bytes from the start of the memory fetches just the last one, to the
      beginning of the buffer, from the beginning of the memory. */
  lemma LongReadFails()
    ensures ReadLength(0, 0x8000_0001) == 1
    ensures ReadCalls(0, 0x8000_0001) == [Call(false, 0, 4)]
  {
    BodyLength(0x8000_0000);
    assert 0x8000_0001 % 4 == 1;
  }
}
