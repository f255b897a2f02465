/** What mmalloc.c's allocator does to its list of areas, as functions on sequences: the list
    is searched front to back for a place, a new entry goes where the search stopped, and
    mfree removes the first entry with the given pointer. */
module Areas {
  import opened Bytes

  datatype Option<T> = None | Some(value: T)

  const BLOCK: nat := 4096

  /** A live area: the pointer it is mapped at, its place in the file and its length. */
  datatype Area = Area(ptr: int, addr: nat, size: nat)

  /** The length reserved for a request, computed in size_t. */
  function FreeSize(size: nat): nat {
    (size / BLOCK + 1) * BLOCK % WORD32
  }

  /** The search loop from entry k on with candidate address `free`: the entry it stops at and
      the address it settles for. A hole that is too small leaves `free` as it is. */
  function Search(areas: seq<Area>, need: nat, k: nat, free: nat): (r: (nat, nat))
    requires k <= |areas|
    ensures k <= r.0 <= |areas|
    decreases |areas| - k
  {
    if k == |areas| then (k, free)
    else if free >= areas[k].addr then Search(areas, need, k + 1, areas[k].addr + areas[k].size + BLOCK)
    else if free + need < areas[k].addr then (k, free)
    else Search(areas, need, k + 1, free)
  }

  function Insert<T>(s: seq<T>, k: nat, x: T): seq<T>
    requires k <= |s|
  {
    s[..k] + [x] + s[k..]
  }

  /** mmalloc. `memory` says whether malloc of the list entry succeeds, `mapped` is where mmap
      puts the area or None when it fails, as it must on an empty length. */
  function Allocate(areas: seq<Area>, limit: nat, size: nat, memory: bool, mapped: Option<int>)
    : (seq<Area>, Option<int>)
  {
    var need := FreeSize(size);
    var (k, free) := Search(areas, need, 0, 0);
    if free + need > limit || !memory || mapped.None? || need == 0 then (areas, None)
    else (Insert(areas, k, Area(mapped.value, free, need)), mapped)
  }

  /** Index of the first entry with pointer p, or |areas|. */
  function Find(areas: seq<Area>, p: int): (k: nat)
    ensures k <= |areas|
    ensures k < |areas| ==> areas[k].ptr == p
    ensures forall i :: 0 <= i < k ==> areas[i].ptr != p
  {
    if areas == [] || areas[0].ptr == p then 0 else 1 + Find(areas[1..], p)
  }

  /** mfree. */
  function Release(areas: seq<Area>, p: int): seq<Area> {
    var k := Find(areas, p);
    if k == |areas| then areas else areas[..k] + areas[k + 1..]
  }

  /** mget_phy_addr. */
  function PhyAddr(areas: seq<Area>, p: int): nat {
    var k := Find(areas, p);
    if k == |areas| then 0 else areas[k].addr
  }

  // ----- One call: when is the layout kept? -----

  predicate Blocks(n: nat) {
    n % BLOCK == 0
  }

  /** Sorted by address, in whole blocks, with a guard block between neighbours. */
  ghost predicate Spaced(areas: seq<Area>) {
    && (forall i :: 0 <= i < |areas| ==> Blocks(areas[i].addr) && Blocks(areas[i].size) && areas[i].size > 0)
    && forall i, j :: 0 <= i < j < |areas| ==> areas[i].addr + areas[i].size + BLOCK <= areas[j].addr
  }

  /** First address behind entry k-1 and its guard block. */
  function Behind(areas: seq<Area>, k: nat): nat
    requires k <= |areas|
  {
    if k == 0 then 0 else areas[k - 1].addr + areas[k - 1].size + BLOCK
  }

  /** First entry from k on with unused space in front of it, or |areas|. */
  function FirstHole(areas: seq<Area>, k: nat): (h: nat)
    requires k <= |areas|
    ensures k <= h <= |areas|
    ensures h < |areas| ==> Behind(areas, h) < areas[h].addr
    ensures forall i :: k <= i < h ==> areas[i].addr <= Behind(areas, i)
    decreases |areas| - k
  {
    if k == |areas| || Behind(areas, k) < areas[k].addr then k else FirstHole(areas, k + 1)
  }

  lemma {:induction false} SearchToHole(areas: seq<Area>, need: nat, k: nat)
    requires Spaced(areas) && k <= |areas|
    ensures var h := FirstHole(areas, k);
            Search(areas, need, k, Behind(areas, k)) == Search(areas, need, h, Behind(areas, h))
    decreases |areas| - k
  {
    if k < |areas| && areas[k].addr <= Behind(areas, k) {
      SearchToHole(areas, need, k + 1);
    }
  }

  /** Past a hole that is too small the candidate address never moves again. */
  lemma {:induction false} SearchStuck(areas: seq<Area>, need: nat, h: nat, k: nat, free: nat)
    requires Spaced(areas) && h < k <= |areas| && free < areas[h].addr
    ensures Search(areas, need, k, free).1 == free
    decreases |areas| - k
  {
    if k < |areas| {
      assert areas[h].addr < areas[k].addr;
      SearchStuck(areas, need, h, k + 1, free);
    }
  }

  /** An entry with room on both sides keeps the list spaced; one that starts below an entry in
      front of it never does. */
  lemma InsertSpaced(areas: seq<Area>, k: nat, a: Area)
    requires Spaced(areas) && k <= |areas| && Blocks(a.addr) && Blocks(a.size) && a.size > 0
    requires Behind(areas, k) <= a.addr
    requires k < |areas| ==> a.addr + a.size + BLOCK <= areas[k].addr
    ensures Spaced(Insert(areas, k, a))
  {
    var after := Insert(areas, k, a);
    forall i, j | 0 <= i < j < |after|
      ensures after[i].addr + after[i].size + BLOCK <= after[j].addr
    {
      if j == k && i < k - 1 {
        assert areas[i].addr + areas[i].size + BLOCK <= areas[k - 1].addr;
      } else if i == k && j > k + 1 {
        assert areas[k].addr + areas[k].size + BLOCK <= areas[j - 1].addr;
      }
    }
  }

  lemma InsertUnsorted(areas: seq<Area>, h: nat, k: nat, a: Area)
    requires h < k <= |areas| && a.addr < areas[h].addr
    ensures !Spaced(Insert(areas, k, a))
  {
    var after := Insert(areas, k, a);
    assert after[h] == areas[h] && after[k] == a;
  }

  ghost predicate FirstHoleFits(areas: seq<Area>, need: nat) {
    var h := FirstHole(areas, 0);
    h == |areas| || Behind(areas, h) + need < areas[h].addr
  }

  lemma FittingHoleIsUsed(areas: seq<Area>, need: nat)
    requires Spaced(areas) && FirstHoleFits(areas, need)
    ensures var h := FirstHole(areas, 0);
            Search(areas, need, 0, 0) == (h, Behind(areas, h))
  {
    SearchToHole(areas, need, 0);
  }

  lemma WholeBlocksApart(x: nat, y: nat)
    requires Blocks(x) && Blocks(y) && x < y
    ensures x + BLOCK <= y
  {
  }

  lemma SumOfBlocks(x: nat, y: nat)
    requires Blocks(x) && Blocks(y)
    ensures Blocks(x + y) && Blocks(x + y + BLOCK)
  {
  }

  lemma BehindIsBlocks(areas: seq<Area>, h: nat)
    requires Spaced(areas) && h <= |areas|
    ensures Blocks(Behind(areas, h))
  {
    if h > 0 {
      SumOfBlocks(areas[h - 1].addr, areas[h - 1].size);
    }
  }

  lemma FittingInsert(areas: seq<Area>, need: nat, p: int)
    requires Spaced(areas) && Blocks(need) && need > 0 && FirstHoleFits(areas, need)
    ensures var (k, free) := Search(areas, need, 0, 0);
            Spaced(Insert(areas, k, Area(p, free, need)))
  {
    var h := FirstHole(areas, 0);
    FittingHoleIsUsed(areas, need);
    BehindIsBlocks(areas, h);
    if h < |areas| {
      SumOfBlocks(Behind(areas, h), need);
      WholeBlocksApart(Behind(areas, h) + need, areas[h].addr);
    }
    InsertSpaced(areas, h, Area(p, Behind(areas, h), need));
  }

  lemma SmallHoleIsReused(areas: seq<Area>, need: nat)
    requires Spaced(areas) && !FirstHoleFits(areas, need)
    ensures var (k, free) := Search(areas, need, 0, 0);
            var h := FirstHole(areas, 0);
            k > h && free == Behind(areas, h) < areas[h].addr
  {
    var h := FirstHole(areas, 0);
    SearchToHole(areas, need, 0);
    assert Search(areas, need, h, Behind(areas, h)) == Search(areas, need, h + 1, Behind(areas, h));
    SearchStuck(areas, need, h, h + 1, Behind(areas, h));
  }

  /** The exact condition: from a spaced list, the entry mmalloc adds keeps it spaced iff there
      is no hole in front of any area or the first hole is larger than the request. */
  lemma KeepsSpacedIff(areas: seq<Area>, need: nat, p: int)
    requires Spaced(areas) && Blocks(need) && need > 0
    ensures var (k, free) := Search(areas, need, 0, 0);
            Spaced(Insert(areas, k, Area(p, free, need))) <==> FirstHoleFits(areas, need)
  {
    var (k, free) := Search(areas, need, 0, 0);
    var a := Area(p, free, need);
    if FirstHoleFits(areas, need) {
      FittingInsert(areas, need, p);
    } else {
      SmallHoleIsReused(areas, need);
      InsertUnsorted(areas, FirstHole(areas, 0), k, a);
    }
  }

  lemma FreeSizeBlocks(size: nat)
    ensures Blocks(FreeSize(size))
  {
    var q := size / BLOCK + 1;
    assert FreeSize(size) == BLOCK * (q - 0x10_0000 * (q * BLOCK / WORD32));
  }

  /** The length reserved is the next multiple of the block size above the request. It wraps around
      to 0, which mmap refuses, exactly for requests that reach into the last block of size_t. */
  lemma FreeSizeHolds(size: nat)
    requires size < WORD32
    ensures if size < WORD32 - BLOCK then size < FreeSize(size) <= size + BLOCK else FreeSize(size) == 0
    ensures Blocks(FreeSize(size))
  {
    FreeSizeBlocks(size);
  }

  /** The same for a successful call of mmalloc. */
  lemma AllocateKeepsSpacedIff(areas: seq<Area>, limit: nat, size: nat, memory: bool, mapped: Option<int>)
    requires Spaced(areas) && Allocate(areas, limit, size, memory, mapped).1.Some?
    ensures Spaced(Allocate(areas, limit, size, memory, mapped).0) <==> FirstHoleFits(areas, FreeSize(size))
  {
    FreeSizeBlocks(size);
    KeepsSpacedIff(areas, FreeSize(size), mapped.value);
  }

  // ----- One call: when do live areas stay apart? -----

  predicate Overlap(a: Area, b: Area) {
    a.addr < b.addr + b.size && b.addr < a.addr + a.size
  }

  ghost predicate Disjoint(areas: seq<Area>) {
    forall i, j :: 0 <= i < j < |areas| ==> !Overlap(areas[i], areas[j])
  }

  /** The request does not end inside the area behind the first hole. */
  ghost predicate FirstHoleHolds(areas: seq<Area>, need: nat) {
    var h := FirstHole(areas, 0);
    h == |areas| || Behind(areas, h) + need <= areas[h].addr
  }

  lemma SpacedIsDisjoint(areas: seq<Area>)
    requires Spaced(areas)
    ensures Disjoint(areas)
  {
    forall i, j | 0 <= i < j < |areas|
      ensures !Overlap(areas[i], areas[j])
    {
      assert areas[i].addr + areas[i].size + BLOCK <= areas[j].addr;
    }
  }

  /** In a spaced list the address in front of hole h is clear of the areas before it, and of the
      areas from h on exactly if the first of those begins behind it. */
  lemma OverlapAtHole(areas: seq<Area>, h: nat, a: Area, i: nat)
    requires Spaced(areas) && h <= |areas| && a.addr == Behind(areas, h) && a.size > 0 && i < |areas|
    ensures i < h ==> !Overlap(a, areas[i])
    ensures i >= h ==> a.addr + a.size <= areas[h].addr ==> !Overlap(a, areas[i])
    ensures i == h && Behind(areas, h) < areas[h].addr ==> (Overlap(a, areas[i]) <==> a.addr + a.size > areas[h].addr)
  {
    if i < h - 1 {
      assert areas[i].addr + areas[i].size + BLOCK <= areas[h - 1].addr;
    } else if h < i {
      assert areas[h].addr + areas[h].size + BLOCK <= areas[i].addr;
    }
  }

  /** The address the search settles for is always the one in front of the first hole. */
  lemma SettlesAtHole(areas: seq<Area>, need: nat)
    requires Spaced(areas)
    ensures Search(areas, need, 0, 0).1 == Behind(areas, FirstHole(areas, 0))
  {
    if FirstHoleFits(areas, need) {
      FittingHoleIsUsed(areas, need);
    } else {
      SmallHoleIsReused(areas, need);
    }
  }

  /** The exact condition for an overlap: from a spaced list, the area mmalloc chooses overlaps a
      live one iff there is a hole and the first one is smaller than the request. */
  lemma OverlapsIff(areas: seq<Area>, need: nat, p: int)
    requires Spaced(areas) && need > 0
    ensures var a := Area(p, Search(areas, need, 0, 0).1, need);
            (exists i :: 0 <= i < |areas| && Overlap(a, areas[i])) <==> !FirstHoleHolds(areas, need)
  {
    var h := FirstHole(areas, 0);
    var a := Area(p, Search(areas, need, 0, 0).1, need);
    SettlesAtHole(areas, need);
    forall i: nat | i < |areas|
      ensures Overlap(a, areas[i]) ==> !FirstHoleHolds(areas, need)
    {
      OverlapAtHole(areas, h, a, i);
    }
    if !FirstHoleHolds(areas, need) {
      OverlapAtHole(areas, h, a, h);
      assert Overlap(a, areas[h]);
    }
  }

  lemma DisjointInsert(areas: seq<Area>, k: nat, a: Area)
    requires Disjoint(areas) && k <= |areas|
    ensures Disjoint(Insert(areas, k, a)) <==> forall i :: 0 <= i < |areas| ==> !Overlap(a, areas[i])
  {
    var after := Insert(areas, k, a);
    if Disjoint(after) {
      forall i | 0 <= i < |areas|
        ensures !Overlap(a, areas[i])
      {
        assert if i < k then !Overlap(after[i], after[k]) else !Overlap(after[k], after[i + 1]);
      }
    }
    if forall i :: 0 <= i < |areas| ==> !Overlap(a, areas[i]) {
      forall i, j | 0 <= i < j < |after|
        ensures !Overlap(after[i], after[j])
      {
        if i == k {
          assert !Overlap(a, areas[j - 1]);
        } else if j == k {
          assert !Overlap(a, areas[i]);
        } else {
          assert !Overlap(areas[if i < k then i else i - 1], areas[if j < k then j else j - 1]);
        }
      }
    }
  }

  /** The same for a successful call of mmalloc. */
  lemma AllocateKeepsDisjointIff(areas: seq<Area>, limit: nat, size: nat, memory: bool, mapped: Option<int>)
    requires Spaced(areas) && Allocate(areas, limit, size, memory, mapped).1.Some?
    ensures Disjoint(Allocate(areas, limit, size, memory, mapped).0) <==> FirstHoleHolds(areas, FreeSize(size))
  {
    var need := FreeSize(size);
    var (k, free) := Search(areas, need, 0, 0);
    SpacedIsDisjoint(areas);
    OverlapsIff(areas, need, mapped.value);
    DisjointInsert(areas, k, Area(mapped.value, free, need));
  }

  /** Areas that are merely apart are not enough for the next call: a request that fills the first
      hole to the brim keeps all areas apart but goes to the end of the list, and the next request
      is placed on top of it although it holds in the first hole as well. */
  lemma DisjointIsNotKept() returns (a0: seq<Area>, a1: seq<Area>, a2: seq<Area>)
    ensures Spaced(a0) && FirstHoleHolds(a0, FreeSize(8191))
    ensures a1 == Allocate(a0, 0x10_0000, 8191, true, Some(3)).0 && Disjoint(a1) && !Spaced(a1)
    ensures FirstHoleHolds(a1, FreeSize(1))
    ensures a2 == Allocate(a1, 0x10_0000, 1, true, Some(4)).0 && !Disjoint(a2)
  {
    var live := Area(2, 8192, 4096);
    a0 := [live];
    assert FirstHole(a0, 0) == 0 && FreeSize(8191) == 8192 && FreeSize(1) == 4096;
    assert Search(a0, 8192, 0, 0) == Search(a0, 8192, 1, 0) == (1, 0);
    a1 := [live, Area(3, 0, 8192)];
    assert Search(a1, 4096, 0, 0) == (0, 0);
    a2 := [Area(4, 0, 4096)] + a1;
    assert Overlap(a2[0], a2[2]);
  }

  /** The search starts at 0, not at the allocator's offset: the first area of an allocator lies
      within its window exactly if the offset is 0. */
  lemma FirstAreaAtZero(offset: nat, area_size: nat, size: nat, p: int)
    requires Allocate([], offset + area_size, size, true, Some(p)).1.Some?
    ensures var areas := Allocate([], offset + area_size, size, true, Some(p)).0;
            && areas == [Area(p, 0, FreeSize(size))]
            && (offset <= areas[0].addr && areas[0].addr + areas[0].size <= offset + area_size <==> offset == 0)
  {
  }

  // ----- Whole runs -----

  datatype Call = Mmalloc(size: nat, memory: bool, mapped: Option<int>) | Mfree(ptr: int)

  function Do(areas: seq<Area>, limit: nat, c: Call): seq<Area> {
    match c
    case Mmalloc(size, memory, mapped) => Allocate(areas, limit, size, memory, mapped).0
    case Mfree(p) => Release(areas, p)
  }

  /** The list after a run of calls. */
  function After(areas: seq<Area>, limit: nat, calls: seq<Call>): seq<Area> {
    if calls == [] then areas else Do(After(areas, limit, calls[..|calls| - 1]), limit, calls[|calls| - 1])
  }

  /** Requests of different sizes can end up on top of each other: two one-block areas, the
      first freed, then one of three blocks where a fourth area stops the search too late. */
  lemma MixedSizesOverlap() returns (calls: seq<Call>)
    ensures var areas := After([], 0x10_0000, calls);
            exists i, j :: 0 <= i < j < |areas| && Overlap(areas[i], areas[j])
  {
    var L := 0x10_0000;
    var m1, m2, m3 := Mmalloc(1, true, Some(1)), Mmalloc(1, true, Some(2)), Mmalloc(1, true, Some(3));
    var f, m4 := Mfree(1), Mmalloc(8192, true, Some(4));
    calls := [m1, m2, m3] + [f] + [m4];
    AfterThree(L, m1, m2, m3);
    AfterOne([], L, [m1, m2, m3], f);
    FreeFirstOfThree(L, f);
    AfterOne([], L, [m1, m2, m3] + [f], m4);
    AllocateTooLate(L, m4);
    assert Overlap(After([], L, calls)[0], After([], L, calls)[1]);
  }

  lemma AfterThree(limit: nat, m1: Call, m2: Call, m3: Call)
    requires limit == 0x10_0000
    requires m1 == Mmalloc(1, true, Some(1)) && m2 == Mmalloc(1, true, Some(2)) && m3 == Mmalloc(1, true, Some(3))
    ensures After([], limit, [m1, m2, m3]) == [Area(1, 0, 4096), Area(2, 8192, 4096), Area(3, 16384, 4096)]
  {
    AfterOne([], limit, [], m1);
    AfterOne([], limit, [m1], m2);
    AfterOne([], limit, [m1, m2], m3);
    assert [] + [m1] == [m1] && [m1] + [m2] == [m1, m2] && [m1, m2] + [m3] == [m1, m2, m3];
    var a1, a2 := Area(1, 0, 4096), Area(2, 8192, 4096);
    assert Do([], limit, m1) == [a1];
    assert Search([a1], 4096, 0, 0) == Search([a1], 4096, 1, 8192) == (1, 8192);
    assert Do([a1], limit, m2) == [a1, a2];
    assert Search([a1, a2], 4096, 0, 0) == Search([a1, a2], 4096, 1, 8192);
    assert Search([a1, a2], 4096, 1, 8192) == Search([a1, a2], 4096, 2, 16384) == (2, 16384);
  }

  lemma FreeFirstOfThree(limit: nat, f: Call)
    requires f == Mfree(1)
    ensures Do([Area(1, 0, 4096), Area(2, 8192, 4096), Area(3, 16384, 4096)], limit, f) ==
            [Area(2, 8192, 4096), Area(3, 16384, 4096)]
  {
  }

  lemma AllocateTooLate(limit: nat, m4: Call)
    requires limit == 0x10_0000 && m4 == Mmalloc(8192, true, Some(4))
    ensures Do([Area(2, 8192, 4096), Area(3, 16384, 4096)], limit, m4) ==
            [Area(2, 8192, 4096), Area(4, 0, 12288), Area(3, 16384, 4096)]
  {
    var before := [Area(2, 8192, 4096), Area(3, 16384, 4096)];
    assert Search(before, 12288, 0, 0) == Search(before, 12288, 1, 0) == (1, 0);
  }

  lemma AfterOne(areas: seq<Area>, limit: nat, calls: seq<Call>, c: Call)
    ensures After(areas, limit, calls + [c]) == Do(After(areas, limit, calls), limit, c)
  {
    assert (calls + [c])[..|calls|] == calls;
  }

  // ----- Runs with requests of any size -----

  lemma ReleaseKeepsSpaced(areas: seq<Area>, p: int)
    requires Spaced(areas)
    ensures Spaced(Release(areas, p))
  {
    var k, after := Find(areas, p), Release(areas, p);
    if k < |areas| {
      forall i, j | 0 <= i < j < |after|
        ensures after[i].addr + after[i].size + BLOCK <= after[j].addr
      {
        var i', j' := if i < k then i else i + 1, if j < k then j else j + 1;
        assert after[i] == areas[i'] && after[j] == areas[j'];
      }
    }
  }

  ghost predicate Succeeds(areas: seq<Area>, limit: nat, c: Call) {
    c.Mmalloc? && Allocate(areas, limit, c.size, c.memory, c.mapped).1.Some?
  }

  /** Call c either fails or takes a first hole that is larger than the request. */
  ghost predicate Suits(areas: seq<Area>, limit: nat, c: Call) {
    Succeeds(areas, limit, c) ==> FirstHoleFits(areas, FreeSize(c.size))
  }

  lemma DoKeepsSpacedIff(areas: seq<Area>, limit: nat, c: Call)
    requires Spaced(areas)
    ensures Spaced(Do(areas, limit, c)) <==> Suits(areas, limit, c)
  {
    match c
    case Mmalloc(size, memory, mapped) =>
      if Allocate(areas, limit, size, memory, mapped).1.Some? {
        AllocateKeepsSpacedIff(areas, limit, size, memory, mapped);
      }
    case Mfree(p) => ReleaseKeepsSpaced(areas, p);
  }

  /** Every call of the run suits the list it finds. */
  ghost predicate SuitingRun(limit: nat, calls: seq<Call>) {
    calls != [] ==>
      var rest := calls[..|calls| - 1];
      SuitingRun(limit, rest) && Suits(After([], limit, rest), limit, calls[|calls| - 1])
  }

  /** The list is spaced after every call of the run. */
  ghost predicate SpacedThroughout(limit: nat, calls: seq<Call>) {
    Spaced(After([], limit, calls)) && (calls != [] ==> SpacedThroughout(limit, calls[..|calls| - 1]))
  }

  /** A run keeps the list spaced throughout exactly when each success finds no hole or a larger
      first hole; and then no two live areas ever overlap, whatever the sizes requested. */
  lemma {:induction false} MixedRun(limit: nat, calls: seq<Call>)
    ensures SuitingRun(limit, calls) <==> SpacedThroughout(limit, calls)
    ensures SuitingRun(limit, calls) ==> Disjoint(After([], limit, calls))
  {
    if calls != [] {
      var rest := calls[..|calls| - 1];
      MixedRun(limit, rest);
      if SuitingRun(limit, rest) {
        DoKeepsSpacedIff(After([], limit, rest), limit, calls[|calls| - 1]);
      }
    }
    if SuitingRun(limit, calls) {
      SpacedIsDisjoint(After([], limit, calls));
    }
  }

  // ----- Runs in which all requests round to one length -----

  /** Where slot m of a grid of slots of length s with guard blocks begins. */
  function Slot(m: nat, s: nat): nat {
    m * (s + BLOCK)
  }

  /** Area k occupies slot ms[k] of a grid of slots one length and one guard block wide. */
  ghost predicate OnSlots(areas: seq<Area>, s: nat, ms: seq<nat>) {
    && |ms| == |areas| && s > 0
    && (forall k :: 0 <= k < |areas| ==> areas[k].size == s && areas[k].addr == Slot(ms[k], s))
    && forall i, j :: 0 <= i < j < |ms| ==> ms[i] < ms[j]
  }

  /** Slots 0 up to m are taken and slot m is free. */
  ghost predicate LowestFree(ms: seq<nat>, m: nat) {
    && m <= |ms|
    && (forall i :: 0 <= i < m ==> ms[i] == i)
    && (m < |ms| ==> m < ms[m])
  }

  lemma SlotOrder(a: nat, b: nat, width: nat)
    requires width > 0
    ensures a < b ==> a * width + width <= b * width
    ensures a * width >= b * width <==> a >= b
  {
    if a < b {
      assert (a + 1) * width <= b * width by {
        assert (b - a - 1) * width >= 0;
      }
    } else {
      assert (a - b) * width >= 0;
    }
  }

  lemma {:induction false} SlotSearch(areas: seq<Area>, s: nat, ms: seq<nat>, k: nat) returns (m: nat)
    requires OnSlots(areas, s, ms) && k <= |ms|
    requires forall i :: 0 <= i < k ==> ms[i] == i
    ensures LowestFree(ms, m)
    ensures Search(areas, s, k, Slot(k, s)) == (m, Slot(m, s))
    decreases |ms| - k
  {
    m := k;
    if k < |ms| {
      SlotOrder(k, ms[k], s + BLOCK);
      assert ms[k] >= k by {
        if k > 0 {
          assert ms[k - 1] < ms[k];
        }
      }
      if ms[k] == k {
        assert Slot(k + 1, s) == areas[k].addr + areas[k].size + BLOCK;
        m := SlotSearch(areas, s, ms, k + 1);
      }
    }
  }

  lemma InsertOnSlots(areas: seq<Area>, s: nat, ms: seq<nat>, m: nat, p: int)
    requires OnSlots(areas, s, ms) && LowestFree(ms, m)
    ensures OnSlots(Insert(areas, m, Area(p, Slot(m, s), s)), s, Insert(ms, m, m))
  {
    var ns := Insert(ms, m, m);
    forall i, j | 0 <= i < j < |ns|
      ensures ns[i] < ns[j]
    {
      if i == m && m < |ms| {
        assert ms[m] <= ns[j];
      }
    }
  }

  /** The lowest slot in front of which all slots are taken is unique, and no area is at it. */
  lemma LowestFreeIsFree(areas: seq<Area>, s: nat, ms: seq<nat>, m: nat)
    requires OnSlots(areas, s, ms) && LowestFree(ms, m)
    ensures forall i :: 0 <= i < m ==> areas[i].addr == Slot(i, s)
    ensures forall k :: 0 <= k < |areas| ==> areas[k].addr != Slot(m, s)
  {
    forall k | 0 <= k < |areas|
      ensures areas[k].addr != Slot(m, s)
    {
      SlotOrder(ms[k], m, s + BLOCK);
      SlotOrder(m, ms[k], s + BLOCK);
      assert k > m ==> ms[m] < ms[k];
    }
  }

  ghost predicate Uniform(calls: seq<Call>, s: nat) {
    s > 0 && forall i :: 0 <= i < |calls| && calls[i].Mmalloc? ==> FreeSize(calls[i].size) == s
  }

  lemma MmallocOnSlots(areas: seq<Area>, limit: nat, s: nat, ns: seq<nat>, c: Call) returns (ms: seq<nat>)
    requires OnSlots(areas, s, ns) && c.Mmalloc? && FreeSize(c.size) == s
    ensures OnSlots(Do(areas, limit, c), s, ms)
  {
    var m := SlotSearch(areas, s, ns, 0);
    if Slot(m, s) + s <= limit && c.memory && c.mapped.Some? {
      InsertOnSlots(areas, s, ns, m, c.mapped.value);
      ms := Insert(ns, m, m);
    } else {
      ms := ns;
    }
  }

  lemma MfreeOnSlots(areas: seq<Area>, limit: nat, s: nat, ns: seq<nat>, c: Call) returns (ms: seq<nat>)
    requires OnSlots(areas, s, ns) && c.Mfree?
    ensures OnSlots(Do(areas, limit, c), s, ms)
  {
    var k := Find(areas, c.ptr);
    ms := ns;
    if k < |areas| {
      RemoveOnSlots(areas, s, ns, k);
      ms := ns[..k] + ns[k + 1..];
    }
  }

  lemma RemoveOnSlots(areas: seq<Area>, s: nat, ns: seq<nat>, k: nat)
    requires OnSlots(areas, s, ns) && k < |areas|
    ensures OnSlots(areas[..k] + areas[k + 1..], s, ns[..k] + ns[k + 1..])
  {
    var after, ms := areas[..k] + areas[k + 1..], ns[..k] + ns[k + 1..];
    forall i | 0 <= i < |after|
      ensures after[i].size == s && after[i].addr == Slot(ms[i], s)
    {
      var o := if i < k then i else i + 1;
      assert after[i] == areas[o] && ms[i] == ns[o];
    }
  }

  /** Every run of mmalloc and mfree whose requests all round to one length keeps the live areas
      on distinct slots. */
  lemma {:induction false} UniformRun(limit: nat, calls: seq<Call>, s: nat) returns (ms: seq<nat>)
    requires Uniform(calls, s)
    ensures OnSlots(After([], limit, calls), s, ms)
  {
    ms := [];
    if calls != [] {
      var n := |calls| - 1;
      var ns := UniformRun(limit, calls[..n], s);
      if calls[n].Mmalloc? {
        ms := MmallocOnSlots(After([], limit, calls[..n]), limit, s, ns, calls[n]);
      } else {
        ms := MfreeOnSlots(After([], limit, calls[..n]), limit, s, ns, calls[n]);
      }
    }
  }

  lemma UniformApart(limit: nat, calls: seq<Call>, s: nat)
    requires Uniform(calls, s)
    ensures Disjoint(After([], limit, calls))
  {
    var areas := After([], limit, calls);
    var ms := UniformRun(limit, calls, s);
    forall i, j | 0 <= i < j < |areas|
      ensures !Overlap(areas[i], areas[j])
    {
      SlotOrder(ms[i], ms[j], s + BLOCK);
    }
  }

  /** In such a run live areas never overlap; a request gets the lowest slot with no area in it,
      and fails, memory and mmap willing, exactly when that slot ends past the limit. */
  lemma UniformAllocation(limit: nat, calls: seq<Call>, s: nat, size: nat, memory: bool, mapped: Option<int>)
    returns (m: nat)
    requires Uniform(calls, s) && FreeSize(size) == s
    ensures var areas := After([], limit, calls);
            && Disjoint(areas)
            && m <= |areas|
            && (forall i :: 0 <= i < m ==> areas[i].addr == Slot(i, s))
            && (forall k :: 0 <= k < |areas| ==> areas[k].addr != Slot(m, s))
            && Allocate(areas, limit, size, memory, mapped) ==
               if Slot(m, s) + s > limit || !memory || mapped.None? then (areas, None)
               else (Insert(areas, m, Area(mapped.value, Slot(m, s), s)), mapped)
  {
    var areas := After([], limit, calls);
    var ms := UniformRun(limit, calls, s);
    m := SlotSearch(areas, s, ms, 0);
    LowestFreeIsFree(areas, s, ms, m);
    UniformApart(limit, calls, s);
  }

  // ----- Pointers -----

  ghost predicate DistinctPtrs(areas: seq<Area>) {
    forall i, j :: 0 <= i < j < |areas| ==> areas[i].ptr != areas[j].ptr
  }

  ghost predicate Live(areas: seq<Area>, p: int) {
    exists k :: 0 <= k < |areas| && areas[k].ptr == p
  }

  /** mmap never returns a pointer that is still mapped. */
  ghost predicate Fresh(areas: seq<Area>, c: Call) {
    c.Mmalloc? && c.mapped.Some? ==> !Live(areas, c.mapped.value)
  }

  lemma FindLive(areas: seq<Area>, k: nat)
    requires DistinctPtrs(areas) && k < |areas|
    ensures Find(areas, areas[k].ptr) == k
  {
  }

  lemma InsertDistinctPtr(areas: seq<Area>, at: nat, a: Area)
    requires DistinctPtrs(areas) && at <= |areas| && !Live(areas, a.ptr)
    ensures DistinctPtrs(Insert(areas, at, a))
  {
    var after := Insert(areas, at, a);
    forall i, j | 0 <= i < j < |after|
      ensures after[i].ptr != after[j].ptr
    {
      assert i != at ==> after[i] == areas[if i < at then i else i - 1];
      assert j != at ==> after[j] == areas[if j < at then j else j - 1];
    }
  }

  lemma AllocateKeepsPointer(areas: seq<Area>, limit: nat, c: Call, k: nat)
    requires DistinctPtrs(areas) && Fresh(areas, c) && c.Mmalloc?
    ensures DistinctPtrs(Do(areas, limit, c))
    ensures k < |areas| ==>
              Live(Do(areas, limit, c), areas[k].ptr) && PhyAddr(Do(areas, limit, c), areas[k].ptr) == areas[k].addr
  {
    var after := Do(areas, limit, c);
    var at := Search(areas, FreeSize(c.size), 0, 0).0;
    if after != areas {
      InsertDistinctPtr(areas, at, after[at]);
    }
    if k < |areas| {
      var k' := if after == areas || k < at then k else k + 1;
      assert after[k'] == areas[k];
      FindLive(after, k');
    }
  }

  lemma ReleaseKeepsPointer(areas: seq<Area>, p: int, k: nat)
    requires DistinctPtrs(areas)
    ensures DistinctPtrs(Release(areas, p))
    ensures k < |areas| && areas[k].ptr != p ==>
              Live(Release(areas, p), areas[k].ptr) && PhyAddr(Release(areas, p), areas[k].ptr) == areas[k].addr
  {
    var after, at := Release(areas, p), Find(areas, p);
    forall i, j | 0 <= i < j < |after|
      ensures after[i].ptr != after[j].ptr
    {
      assert after[i] == areas[if i < at then i else i + 1];
      assert after[j] == areas[if j < at then j else j + 1];
    }
    if k < |areas| && areas[k].ptr != p {
      var k' := if k < at then k else k - 1;
      assert after[k'] == areas[k];
      FindLive(after, k');
    }
  }

  /** A call that does not free p changes neither whether p is live nor its address, and with
      fresh pointers no two live areas share one. */
  lemma CallKeepsPointer(areas: seq<Area>, limit: nat, c: Call, k: nat)
    requires DistinctPtrs(areas) && Fresh(areas, c)
    ensures DistinctPtrs(Do(areas, limit, c))
    ensures k < |areas| && c != Mfree(areas[k].ptr) ==>
              Live(Do(areas, limit, c), areas[k].ptr) && PhyAddr(Do(areas, limit, c), areas[k].ptr) == areas[k].addr
  {
    match c
    case Mmalloc(_, _, _) => AllocateKeepsPointer(areas, limit, c, k);
    case Mfree(p) => ReleaseKeepsPointer(areas, p, k);
  }

  ghost predicate FreshRun(areas: seq<Area>, limit: nat, calls: seq<Call>) {
    calls != [] ==>
      var rest := calls[..|calls| - 1];
      FreshRun(areas, limit, rest) && Fresh(After(areas, limit, rest), calls[|calls| - 1])
  }

  lemma {:induction false} RunKeepsPointer(areas: seq<Area>, limit: nat, calls: seq<Call>, k: nat)
    requires DistinctPtrs(areas) && FreshRun(areas, limit, calls) && k < |areas|
    requires Mfree(areas[k].ptr) !in calls
    ensures var after := After(areas, limit, calls);
            DistinctPtrs(after) && Live(after, areas[k].ptr) && PhyAddr(after, areas[k].ptr) == areas[k].addr
  {
    FindLive(areas, k);
    if calls != [] {
      var last, rest := calls[|calls| - 1], calls[..|calls| - 1];
      var before := After(areas, limit, rest);
      RunKeepsPointer(areas, limit, rest, k);
      CallKeepsPointer(before, limit, last, Find(before, areas[k].ptr));
    }
  }

  /** As long as it is not freed, and whatever else is allocated and freed meanwhile, a pointer
      mmalloc returned is answered by mget_phy_addr with the address chosen for it. */
  lemma AddressIsStable(areas: seq<Area>, limit: nat, size: nat, p: int, calls: seq<Call>)
    requires DistinctPtrs(areas) && !Live(areas, p)
    requires var (after, r) := Allocate(areas, limit, size, true, Some(p));
             r.Some? && FreshRun(after, limit, calls)
    requires Mfree(p) !in calls
    ensures var after := Allocate(areas, limit, size, true, Some(p)).0;
            PhyAddr(After(after, limit, calls), p) == Search(areas, FreeSize(size), 0, 0).1
  {
    var c := Mmalloc(size, true, Some(p));
    var after := Do(areas, limit, c);
    CallKeepsPointer(areas, limit, c, |areas|);
    var k := Search(areas, FreeSize(size), 0, 0).0;
    assert after[k].ptr == p;
    RunKeepsPointer(after, limit, calls, k);
  }

  /** Freeing what was just allocated undoes the allocation. */
  lemma ReleaseUndoesAllocate(areas: seq<Area>, limit: nat, size: nat, p: int)
    requires DistinctPtrs(areas) && !Live(areas, p)
    ensures Release(Allocate(areas, limit, size, true, Some(p)).0, p) == areas
  {
    var (after, r) := Allocate(areas, limit, size, true, Some(p));
    if r.Some? {
      var k := Search(areas, FreeSize(size), 0, 0).0;
      CallKeepsPointer(areas, limit, Mmalloc(size, true, Some(p)), |areas|);
      assert after[k].ptr == p;
      FindLive(after, k);
      assert after[..k] + after[k + 1..] == areas;
    } else if Find(areas, p) < |areas| {
      assert Live(areas, p);
    }
  }

  /** A pointer that was freed, or was never allocated, is answered with 0 until it is allocated. */
  lemma UnknownPointer(areas: seq<Area>, limit: nat, p: int, calls: seq<Call>)
    requires forall i :: 0 <= i < |calls| && calls[i].Mmalloc? ==> calls[i].mapped != Some(p)
    ensures !Live(areas, p) ==> PhyAddr(After(areas, limit, calls), p) == 0
    ensures DistinctPtrs(areas) ==> PhyAddr(After(Release(areas, p), limit, calls), p) == 0
  {
    if !Live(areas, p) {
      StaysUnknown(areas, limit, p, calls);
    }
    if DistinctPtrs(areas) {
      FreedIsUnknown(areas, p);
      StaysUnknown(Release(areas, p), limit, p, calls);
    }
  }

  lemma FreedIsUnknown(areas: seq<Area>, p: int)
    requires DistinctPtrs(areas)
    ensures !Live(Release(areas, p), p)
  {
    var k, after := Find(areas, p), Release(areas, p);
    forall i | 0 <= i < |after|
      ensures after[i].ptr != p
    {
      assert after[i] == areas[if i < k then i else i + 1];
    }
  }

  lemma {:induction false} StaysUnknown(areas: seq<Area>, limit: nat, p: int, calls: seq<Call>)
    requires !Live(areas, p)
    requires forall i :: 0 <= i < |calls| && calls[i].Mmalloc? ==> calls[i].mapped != Some(p)
    ensures !Live(After(areas, limit, calls), p) && PhyAddr(After(areas, limit, calls), p) == 0
  {
    var after := After(areas, limit, calls);
    if calls != [] {
      var last, rest := calls[|calls| - 1], calls[..|calls| - 1];
      var before := After(areas, limit, rest);
      StaysUnknown(areas, limit, p, rest);
      forall i | 0 <= i < |after|
        ensures after[i].ptr != p
      {
        NewOrOld(before, limit, last, i);
      }
    }
    assert forall i :: 0 <= i < |after| ==> after[i].ptr != p;
  }

  // ----- What the callers asked for -----

  /** What a successful call reserves. */
  function Granted(areas: seq<Area>, c: Call): Area
    requires c.Mmalloc? && c.mapped.Some?
  {
    Area(c.mapped.value, Search(areas, FreeSize(c.size), 0, 0).1, FreeSize(c.size))
  }

  /** A live area was live before the call, or is what the call was granted. */
  lemma NewOrOld(areas: seq<Area>, limit: nat, c: Call, i: nat)
    requires i < |Do(areas, limit, c)|
    ensures var a := Do(areas, limit, c)[i];
            a in areas || (Succeeds(areas, limit, c) && a == Granted(areas, c))
  {
  }

  /** The size the latest caller to get pointer p asked for. */
  ghost function Asked(limit: nat, calls: seq<Call>, p: int): nat {
    if calls == [] then 0
    else
      var last, rest := calls[|calls| - 1], calls[..|calls| - 1];
      if Succeeds(After([], limit, rest), limit, last) && last.mapped == Some(p) then last.size
      else Asked(limit, rest, p)
  }

  /** Requests are of type size_t. */
  ghost predicate Sizes(calls: seq<Call>) {
    forall i :: 0 <= i < |calls| && calls[i].Mmalloc? ==> calls[i].size < WORD32
  }

  /** In every run, every live area holds what its caller asked for, with at most a block to
      spare, and ends within the allocator's limit. */
  lemma {:induction false} AreasHoldRequests(limit: nat, calls: seq<Call>)
    requires FreshRun([], limit, calls) && Sizes(calls)
    ensures forall a :: a in After([], limit, calls) ==>
              Asked(limit, calls, a.ptr) < a.size <= Asked(limit, calls, a.ptr) + BLOCK && a.addr + a.size <= limit
  {
    if calls != [] {
      var last, rest := calls[|calls| - 1], calls[..|calls| - 1];
      var before, after := After([], limit, rest), After([], limit, calls);
      AreasHoldRequests(limit, rest);
      forall i | 0 <= i < |after|
        ensures var a := after[i];
                Asked(limit, calls, a.ptr) < a.size <= Asked(limit, calls, a.ptr) + BLOCK && a.addr + a.size <= limit
      {
        NewOrOld(before, limit, last, i);
        if Succeeds(before, limit, last) {
          FreeSizeHolds(last.size);
          assert after[i] in before ==> Live(before, after[i].ptr);
        }
      }
    }
  }

  /** No two live areas share a byte that either caller asked for. */
  ghost predicate RequestsApart(limit: nat, calls: seq<Call>) {
    var areas := After([], limit, calls);
    forall i, j :: 0 <= i < j < |areas| ==> !Overlap(Used(limit, calls, areas[i]), Used(limit, calls, areas[j]))
  }

  /** The part of a live area its caller asked for. */
  ghost function Used(limit: nat, calls: seq<Call>, a: Area): Area {
    a.(size := Asked(limit, calls, a.ptr))
  }

  /** So the bytes asked for stay apart, in a run in which each success finds no hole or a larger
      first one, and in one whose requests round to one length. */
  lemma RequestsStayApart(limit: nat, calls: seq<Call>)
    requires FreshRun([], limit, calls) && Sizes(calls)
    ensures SuitingRun(limit, calls) ==> RequestsApart(limit, calls)
    ensures forall s :: Uniform(calls, s) ==> RequestsApart(limit, calls)
  {
    var areas := After([], limit, calls);
    AreasHoldRequests(limit, calls);
    MixedRun(limit, calls);
    forall s | Uniform(calls, s)
      ensures Disjoint(areas)
    {
      UniformApart(limit, calls, s);
    }
    if Disjoint(areas) {
      forall i, j | 0 <= i < j < |areas|
        ensures !Overlap(Used(limit, calls, areas[i]), Used(limit, calls, areas[j]))
      {
        assert !Overlap(areas[i], areas[j]);
      }
    }
  }
}
