/** mmalloc.c itself: the areas on a heap-allocated doubly linked list behind a sentinel. */
module Mmalloc {
  import opened Areas

  class Ent {
    var ptr: int
    var p_addr: nat
    var p_size: nat
    var prev: Ent?
    var next: Ent?

    constructor ()
      ensures prev == null && next == null
    {
      ptr, p_addr, p_size := 0, 0, 0;
      prev, next := null, null;
    }
  }

  ghost predicate Describes(n: Ent, a: Area)
    reads n
  {
    n.ptr == a.ptr && n.p_addr == a.addr && n.p_size == a.size
  }

  /** Entry i of the list, null in front of it and behind it. */
  ghost function At(nodes: seq<Ent>, i: int): Ent? {
    if 0 <= i < |nodes| then nodes[i] else null
  }

  ghost predicate Distinct(nodes: seq<Ent>) {
    forall i, j {:trigger nodes[i], nodes[j]} :: 0 <= i < j < |nodes| ==> nodes[i] != nodes[j]
  }

  lemma InsertDistinct(nodes: seq<Ent>, k: nat, n: Ent)
    requires Distinct(nodes) && n !in nodes && k <= |nodes|
    ensures Distinct(Insert(nodes, k, n))
  {
  }

  lemma RemoveDistinct(nodes: seq<Ent>, k: nat)
    requires Distinct(nodes) && k < |nodes|
    ensures Distinct(nodes[..k] + nodes[k + 1..])
  {
  }

  lemma AtInsert(nodes: seq<Ent>, k: nat, n: Ent, i: int)
    requires k <= |nodes|
    ensures At(Insert(nodes, k, n), i) == if i < k then At(nodes, i) else if i == k then n else At(nodes, i - 1)
  {
  }

  class Allocator {
    var offset: nat
    var area_size: nat
    var ent: Ent
    /** The list from the sentinel on, and what it stands for. */
    ghost var nodes: seq<Ent>
    ghost var areas: seq<Area>

    /** Forward and backward links from the sentinel describe the same list of entries. */
    ghost predicate Linked()
      reads this, nodes
    {
      && |nodes| > 0 && nodes[0] == ent
      && Distinct(nodes)
      && (forall i {:trigger nodes[i].next} :: 0 <= i < |nodes| ==> nodes[i].next == At(nodes, i + 1))
      && (forall i {:trigger nodes[i].prev} :: 0 <= i < |nodes| ==> nodes[i].prev == At(nodes, i - 1))
    }

    /** The entries behind the sentinel hold the areas. */
    ghost predicate Holds()
      reads this, nodes
    {
      && |nodes| == |areas| + 1
      && forall i {:trigger areas[i]} :: 0 <= i < |areas| ==> Describes(nodes[i + 1], areas[i])
    }

    ghost predicate Valid()
      reads this, nodes
    {
      Linked() && Holds()
    }

    /** mmallocInit, once the file is open. */
    constructor (offset: nat, size: nat)
      ensures Valid() && areas == [] && this.offset == offset && area_size == size && fresh(nodes)
    {
      this.offset, area_size := offset, size;
      var sentinel := new Ent();
      ent := sentinel;
      nodes, areas := [sentinel], [];
    }

    /** The search of mmalloc: a candidate address, and the entries it falls between. */
    method FindPlace(free_size: nat) returns (free_offset: nat, ent_prev: Ent, cur: Ent?, ghost k: nat)
      requires Valid()
      ensures free_offset == Search(areas, free_size, 0, 0).1
      ensures k == Search(areas, free_size, 0, 0).0
      ensures ent_prev == nodes[k] && cur == At(nodes, k + 1)
    {
      free_offset, k := 0, 0;
      assert nodes[0].next == At(nodes, 1);
      ent_prev, cur := ent, ent.next;
      while cur != null
        invariant k <= |areas| && ent_prev == nodes[k]
        invariant cur == At(nodes, k + 1)
        invariant free_offset >= 0 && Search(areas, free_size, 0, 0) == Search(areas, free_size, k, free_offset)
        decreases |areas| - k
      {
        assert areas[k].addr == cur.p_addr && areas[k].size == cur.p_size;
        var st_addr := cur.p_addr;
        var ed_addr := st_addr + cur.p_size;
        if free_offset >= st_addr {
          free_offset := ed_addr + BLOCK;
        } else if free_offset + free_size < st_addr {
          break;
        }
        ent_prev, cur := cur, cur.next;
        k := k + 1;
      }
    }

    /** The new entry goes in front of the entry the search stopped at, or to the end. */
    method AddEntry(n: Ent, ent_prev: Ent, cur: Ent?, ghost k: nat)
      requires Valid() && n !in nodes && n.prev == null && n.next == null
      requires k <= |areas| && ent_prev == nodes[k] && cur == At(nodes, k + 1)
      modifies this`nodes, this`areas, (set o | o in nodes)`prev, (set o | o in nodes)`next, n`prev, n`next
      ensures Valid() && nodes == Insert(old(nodes), k + 1, n)
      ensures areas == Insert(old(areas), k, Area(n.ptr, n.p_addr, n.p_size))
    {
      ghost var was := nodes;
      if cur != null {
        LinkBefore(n, cur, k);
      } else {
        LinkLast(n, ent_prev);
      }
      areas := Insert(areas, k, Area(n.ptr, n.p_addr, n.p_size));
      forall i {:trigger areas[i]} | 0 <= i < |areas|
        ensures Describes(nodes[i + 1], areas[i])
      {
        if i != k {
          var o := if i < k then i else i - 1;
          assert nodes[i + 1] == was[o + 1] && areas[i] == old(areas)[o];
        }
      }
    }

    /** mmalloc: `memory` and `mapped` are what malloc and mmap answer. */
    method Mmalloc(size: nat, memory: bool, mapped: Option<int>) returns (ptr: Option<int>)
      requires Valid()
      modifies this`nodes, this`areas, nodes
      ensures Valid() && fresh(set n | n in nodes && n !in old(nodes))
      ensures (areas, ptr) == Allocate(old(areas), offset + area_size, size, memory, mapped)
    {
      var free_size := FreeSize(size);
      var free_offset, ent_prev, cur, k := FindPlace(free_size);
      if free_offset + free_size > offset + area_size {
        return None;
      }
      if !memory {
        return None;
      }
      if mapped.None? || free_size == 0 {
        return None;
      }
      var n := new Ent();
      n.ptr, n.p_addr, n.p_size := mapped.value, free_offset, free_size;
      AddEntry(n, ent_prev, cur, k);
      return mapped;
    }

    /** Insertion in front of `cur`, entry k of the list. */
    method LinkBefore(n: Ent, cur: Ent, ghost k: nat)
      requires Linked() && k + 1 < |nodes| && cur == nodes[k + 1] && n !in nodes && n.prev == null && n.next == null
      modifies this`nodes, (set o | o in nodes)`prev, (set o | o in nodes)`next, n`prev, n`next
      ensures Linked() && nodes == Insert(old(nodes), k + 1, n)
    {
      ghost var was := nodes;
      assert was[k].next == cur && cur.prev == was[k];
      n.prev := cur.prev;
      n.next := cur;
      if cur.prev != null {
        cur.prev.next := n;
      }
      cur.prev := n;
      InsertDistinct(was, k + 1, n);
      nodes := Insert(was, k + 1, n);
      forall i | 0 <= i < |nodes|
        ensures nodes[i].next == At(nodes, i + 1) && nodes[i].prev == At(nodes, i - 1)
      {
        AtInsert(was, k + 1, n, i - 1);
        AtInsert(was, k + 1, n, i);
        AtInsert(was, k + 1, n, i + 1);
      }
    }

    /** Insertion behind the last entry. */
    method LinkLast(n: Ent, last: Ent)
      requires Linked() && last == nodes[|nodes| - 1] && n !in nodes && n.prev == null && n.next == null
      modifies this`nodes, last`next, n`prev
      ensures Linked() && nodes == Insert(old(nodes), |old(nodes)|, n)
    {
      ghost var was := nodes;
      last.next := n;
      n.prev := last;
      InsertDistinct(was, |was|, n);
      nodes := Insert(was, |was|, n);
      forall i | 0 <= i < |nodes|
        ensures nodes[i].next == At(nodes, i + 1) && nodes[i].prev == At(nodes, i - 1)
      {
        if i < |was| {
          assert nodes[i] == was[i];
        }
      }
    }

    /** mfree */
    method Mfree(ptr: int)
      requires Valid()
      modifies this`nodes, this`areas, nodes
      ensures Valid() && areas == Release(old(areas), ptr)
      ensures forall n :: n in nodes ==> n in old(nodes)
    {
      assert nodes[0].next == At(nodes, 1);
      var cur := ent.next;
      ghost var k := 0;
      while cur != null
        invariant k <= |areas| && cur == At(nodes, k + 1)
        invariant forall i :: 0 <= i < k ==> areas[i].ptr != ptr
        decreases |areas| - k
      {
        assert areas[k].ptr == cur.ptr && areas[k].addr == cur.p_addr;
        if cur.ptr == ptr {
          FirstIs(areas, ptr, k);
          ghost var was := nodes;
          Unlink(cur, k);
          areas := areas[..k] + areas[k + 1..];
          forall i {:trigger areas[i]} | 0 <= i < |areas|
            ensures Describes(nodes[i + 1], areas[i])
          {
            var o := if i < k then i else i + 1;
            assert nodes[i + 1] == was[o + 1] && areas[i] == old(areas)[o];
          }
          return;
        }
        cur := cur.next;
        k := k + 1;
      }
      NoneIs(areas, ptr);
    }

    method Unlink(cur: Ent, ghost k: nat)
      requires Linked() && k + 1 < |nodes| && cur == nodes[k + 1]
      modifies this`nodes, (set o | o in nodes)`prev, (set o | o in nodes)`next
      ensures Linked() && nodes == old(nodes[..k + 1] + nodes[k + 2..])
    {
      ghost var was := nodes;
      assert cur.prev == was[k] && cur.next == At(was, k + 2);
      if cur.prev != null {
        cur.prev.next := cur.next;
      }
      if cur.next != null {
        cur.next.prev := cur.prev;
      }
      RemoveDistinct(was, k + 1);
      nodes := was[..k + 1] + was[k + 2..];
      forall i | 0 <= i < |nodes|
        ensures nodes[i].next == At(nodes, i + 1) && nodes[i].prev == At(nodes, i - 1)
      {
        if i < k {
          assert nodes[i] == was[i] && nodes[i + 1] == was[i + 1];
        } else if i == k {
          assert nodes[i] == was[k];
        } else {
          assert nodes[i] == was[i + 1];
        }
      }
    }

    /** mget_phy_addr */
    method MgetPhyAddr(ptr: int) returns (addr: nat)
      requires Valid()
      ensures addr == PhyAddr(areas, ptr)
    {
      assert nodes[0].next == At(nodes, 1);
      var cur := ent.next;
      ghost var k := 0;
      while cur != null
        invariant k <= |areas| && cur == At(nodes, k + 1)
        invariant forall i :: 0 <= i < k ==> areas[i].ptr != ptr
        decreases |areas| - k
      {
        assert areas[k].ptr == cur.ptr && areas[k].addr == cur.p_addr;
        if cur.ptr == ptr {
          FirstIs(areas, ptr, k);
          return cur.p_addr;
        }
        cur := cur.next;
        k := k + 1;
      }
      NoneIs(areas, ptr);
      return 0;
    }
  }

  lemma FirstIs(areas: seq<Area>, p: int, k: nat)
    requires k < |areas| && areas[k].ptr == p && forall i :: 0 <= i < k ==> areas[i].ptr != p
    ensures Find(areas, p) == k
  {
  }

  lemma NoneIs(areas: seq<Area>, p: int)
    requires forall i :: 0 <= i < |areas| ==> areas[i].ptr != p
    ensures Find(areas, p) == |areas|
  {
  }
}
