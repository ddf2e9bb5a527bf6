/**
 * The reference-counting handle `Pointer<T, size>` and its static
 * garbage-collection list. One `RefContainer` object stands for the static
 * members of one template instantiation (the list `refContainer` and the
 * flag `first`); its `size` is the instantiation's array bound. Each
 * `Pointer` object is one handle, bound to the container it registers with.
 *
 * Ghost state makes the protocol statable: `live` is the multiset of
 * addresses held by live handles, `freed` is the log of every `delete` and
 * `delete[]` performed, and `exitHooks` counts how often `shutdown` was
 * registered with `atexit`.
 */
module GcPointer {
  import opened GcDetails
  import opened RefList

  /** The three addresses an iterator is built from: its position and the range [begin, end). */
  datatype Iter = Iter(ptr: nat, begin: nat, end: nat)

  class RefContainer {
    const size: nat
    var entries: seq<PtrDetails>
    var first: bool
    ghost var live: multiset<nat>
    ghost var freed: seq<Deallocation>
    ghost var exitHooks: nat

    /**
     * The registry invariant between handle operations: the counting
     * invariant, no record waiting to be swept, every record made for this
     * instantiation's `size`, and the exit hook registered iff a handle was
     * ever constructed from a raw address.
     */
    ghost predicate Valid()
      reads this
    {
      && Healthy(entries, live, size)
      && exitHooks == (if first then 0 else 1)
    }

    /** Static initialisation: an empty list and `first == true`. */
    constructor (size: nat)
      ensures this.size == size
      ensures entries == [] && first
      ensures live == multiset{} && freed == [] && exitHooks == 0
      ensures Valid()
    {
      this.size := size;
      entries := [];
      first := true;
      live := multiset{};
      freed := [];
      exitHooks := 0;
    }

    /** `findPtrInfo`: the first record for `ptr`, or `|entries|` for `end()`. */
    method FindPtrInfo(ptr: nat) returns (p: nat)
      ensures p <= |entries|
      ensures p < |entries| ==> entries[p].memPtr == ptr
      ensures forall j :: 0 <= j < p ==> entries[j].memPtr != ptr
      ensures p == IndexOf(entries, ptr)
    {
      p := 0;
      while p < |entries|
        invariant p <= |entries|
        invariant forall j :: 0 <= j < p ==> entries[j].memPtr != ptr
      {
        if entries[p].memPtr == ptr {
          IndexOfFirst(entries, ptr, p);
          return;
        }
        p := p + 1;
      }
      IndexOfFirst(entries, ptr, p);
    }

    /**
     * Binding one more handle to a raw address (the constructor and raw
     * assignment): increment the record lookup finds, or put a fresh record
     * for `ptr` at the front of the list.
     */
    method AddRef(ptr: nat)
      requires Valid()
      modifies this
      ensures entries == Register(old(entries), ptr, size)
      ensures live == old(live) + multiset{ptr}
      ensures freed == old(freed) && first == old(first) && exitHooks == old(exitHooks)
      ensures Valid()
    {
      ghost var s, handles := entries, live;
      var p := FindPtrInfo(ptr);
      if p == |entries| {
        entries := [NewDetails(ptr, size)] + entries;
      } else {
        entries := entries[p := entries[p].(refcount := entries[p].refcount + 1)];
      }
      live := live + multiset{ptr};
      RegisterHealthy(s, handles, ptr, size);
      ValidFrom(this, Register(s, ptr, size), handles + multiset{ptr});
    }

    /**
     * Binding one more handle to an address another live handle holds (the
     * copy constructor and handle assignment): the record must be found, and
     * only its count changes.
     */
    method IncRef(ptr: nat)
      requires Valid() && ptr in live
      modifies this
      ensures entries == Acquire(old(entries), ptr)
      ensures |entries| == |old(entries)|
      ensures CountOf(entries, ptr) == CountOf(old(entries), ptr) + 1
      ensures live == old(live) + multiset{ptr}
      ensures freed == old(freed) && first == old(first) && exitHooks == old(exitHooks)
      ensures Valid()
    {
      ghost var s, handles := entries, live;
      var p := FindPtrInfo(ptr);
      CountIsLiveHandles(s, handles, ptr);
      assert p < |entries|;
      entries := entries[p := entries[p].(refcount := entries[p].refcount + 1)];
      live := live + multiset{ptr};
      RegisterEffect(s, ptr, size);
      RegisterHealthy(s, handles, ptr, size);
      ValidFrom(this, Register(s, ptr, size), handles + multiset{ptr});
    }

    /**
     * Unbinding a handle (the destructor and both assignments): the record
     * must be found; its count is decremented and the list collected.
     */
    method DropRef(ptr: nat)
      requires Valid() && ptr in live
      modifies this
      ensures entries == Sweep(Release(old(entries), ptr))
      ensures |entries| <= |old(entries)|
      ensures freed == old(freed) + FreeLog(Garbage(Release(old(entries), ptr)))
      ensures live == old(live) - multiset{ptr}
      ensures first == old(first) && exitHooks == old(exitHooks)
      ensures Valid()
    {
      ghost var s, handles := entries, live;
      var p := FindPtrInfo(ptr);
      CountIsLiveHandles(s, handles, ptr);
      assert p < |entries|;
      entries := entries[p := entries[p].(refcount := entries[p].refcount - 1)];
      live := live - multiset{ptr};
      var _ := Collect();
      DropHealthy(s, handles, ptr, size);
      ValidFrom(this, Sweep(Release(s, ptr)), handles - multiset{ptr});
    }

    /** `refContainerSize`: the number of records in the list. */
    function RefContainerSize(): nat
      reads this
    {
      |entries|
    }

    /**
     * `collect`: erase every record whose count is zero, freeing each with
     * the form its own record names, keep the others in order, and report
     * whether anything was freed.
     */
    method Collect() returns (deleted: bool)
      modifies this
      ensures entries == Sweep(old(entries))
      ensures freed == old(freed) + FreeLog(Garbage(old(entries)))
      ensures deleted <==> Garbage(old(entries)) != []
      ensures live == old(live) && first == old(first) && exitHooks == old(exitHooks)
      ensures old(Valid()) ==> Valid() && !deleted && entries == old(entries)
    {
      var s := entries;
      var kept: seq<PtrDetails> := [];
      ghost var gone: seq<PtrDetails> := [];
      ghost var log := freed;
      deleted := false;
      var i := 0;
      while i < |s|
        invariant 0 <= i <= |s|
        invariant kept == Sweep(s[..i]) && gone == Garbage(s[..i])
        invariant log == old(freed) + FreeLog(gone)
        invariant deleted <==> gone != []
      {
        var d := s[i];
        assert s[..i + 1][..i] == s[..i] && s[..i + 1][i] == d;
        if d.refcount == 0 {
          log := log + [FreeOf(d)];
          assert (gone + [d])[..|gone|] == gone;
          gone := gone + [d];
          deleted := true;
        } else {
          kept := kept + [d];
        }
        i := i + 1;
      }
      assert s[..i] == s;
      entries := kept;
      freed := log;
      if old(Valid()) {
        SweepIdle(s);
      }
    }

    /**
     * `shutdown`: nothing on an empty list; otherwise every count is forced
     * to zero and the list is collected, which frees every record once and
     * leaves the list empty. Handles still alive are abandoned.
     */
    method Shutdown()
      requires Valid()
      modifies this
      ensures entries == [] && live == multiset{}
      ensures freed == old(freed) + FreeLog(ZeroAll(old(entries)))
      ensures first == old(first) && exitHooks == old(exitHooks)
      ensures Valid()
    {
      if RefContainerSize() == 0 {
        EmptyRegistry(this);
        return;
      }
      ReleaseAll();
    }

    /** The body of `shutdown` for a non-empty list: zero every count, then collect. */
    method ReleaseAll()
      requires Valid() && entries != []
      modifies this
      ensures entries == [] && live == multiset{}
      ensures freed == old(freed) + FreeLog(ZeroAll(old(entries)))
      ensures first == old(first) && exitHooks == old(exitHooks)
      ensures Valid()
    {
      ghost var s0 := entries;
      entries := ZeroCounts(entries);
      ShutdownFreesAll(s0, entries);
      live := multiset{};
      var _ := Collect();
      EmptyHealthy(size);
      ValidFrom(this, [], multiset{});
    }
  }

  /** The loop of `shutdown` that sets every reference count to zero, on the list's value. */
  method ZeroCounts(s: seq<PtrDetails>) returns (z: seq<PtrDetails>)
    ensures |z| == |s|
    ensures forall k :: 0 <= k < |s| ==> z[k] == s[k].(refcount := 0)
  {
    z := s;
    var i := 0;
    while i < |z|
      invariant 0 <= i <= |z| && |z| == |s|
      invariant forall k :: 0 <= k < |s| ==> z[k] == if k < i then s[k].(refcount := 0) else s[k]
    {
      z := z[i := z[i].(refcount := 0)];
      i := i + 1;
    }
  }

  /** Under the registry invariant, `refContainerSize` is the number of distinct managed addresses. */
  lemma SizeCountsAllocations(c: RefContainer)
    requires c.Valid()
    ensures c.RefContainerSize() == |Addrs(c.entries)|
    ensures forall p :: p in Addrs(c.entries) <==> p in c.live
  {
    UniqueSize(c.entries);
    forall p | p in Addrs(c.entries) ensures p in c.live {
      var k :| 0 <= k < |c.entries| && c.entries[k].memPtr == p;
      assert c.entries[k].refcount > 0;
    }
  }

  /** An empty registry counts no live handle, and shutting it down frees nothing. */
  lemma EmptyRegistry(c: RefContainer)
    requires c.Valid() && c.RefContainerSize() == 0
    ensures c.entries == [] && c.live == multiset{}
    ensures FreeLog(ZeroAll(c.entries)) == []
  {
    assert forall p :: p !in c.live by {
      assert Addrs(c.entries) == {};
    }
  }

  /** Packages the registry invariant of a container from facts about its fields. */
  lemma ValidFrom(c: RefContainer, s: seq<PtrDetails>, live: multiset<nat>)
    requires Healthy(s, live, c.size) && c.entries == s && c.live == live
    requires c.exitHooks == (if c.first then 0 else 1)
    ensures c.Valid()
  {
  }

  class Pointer {
    const container: RefContainer
    var addr: nat
    var isArray: bool
    var arraySize: nat
    ghost var released: bool

    /** This handle has not been destroyed and is counted in its container. */
    ghost predicate Bound()
      reads this, container
    {
      && !released
      && addr in container.live
      && isArray == (container.size > 0)
      && arraySize == container.size
    }

    /**
     * `Pointer(T *ptr)`: register `shutdown` on the first construction, then
     * increment the record for `ptr`, or put a fresh record at the front.
     */
    constructor (c: RefContainer, ptr: nat)
      requires c.Valid()
      modifies c
      ensures container == c && addr == ptr
      ensures isArray == (c.size > 0) && arraySize == c.size
      ensures c.entries == Register(old(c.entries), ptr, c.size)
      ensures c.live == old(c.live) + multiset{ptr}
      ensures c.freed == old(c.freed)
      ensures !c.first && c.exitHooks == 1
      ensures c.Valid() && Bound()
    {
      container := c;
      addr := ptr;
      isArray := c.size > 0;
      arraySize := c.size;
      released := false;
      new;
      if c.first {
        c.exitHooks := c.exitHooks + 1;
      }
      c.first := false;
      c.AddRef(addr);
    }

    /**
     * The copy constructor: copy the source's fields and increment the
     * record the source is counted in, which must exist; no record is added.
     */
    constructor Copy(pointer: Pointer)
      requires pointer.container.Valid() && pointer.Bound()
      modifies pointer.container
      ensures container == pointer.container
      ensures addr == pointer.addr && isArray == pointer.isArray && arraySize == pointer.arraySize
      ensures container.entries == Acquire(old(pointer.container.entries), addr)
      ensures |container.entries| == |old(pointer.container.entries)|
      ensures CountOf(container.entries, addr) == CountOf(old(pointer.container.entries), addr) + 1
      ensures container.live == old(pointer.container.live) + multiset{addr}
      ensures container.freed == old(pointer.container.freed)
      ensures container.first == old(pointer.container.first)
      ensures container.exitHooks == old(pointer.container.exitHooks)
      ensures container.Valid() && Bound() && pointer.Bound()
    {
      container := pointer.container;
      addr := pointer.addr;
      isArray := pointer.isArray;
      arraySize := pointer.arraySize;
      released := false;
      new;
      container.IncRef(addr);
    }

    /**
     * The destructor: decrement the record this handle is counted in, which
     * must exist, and collect.
     */
    method Destroy()
      requires container.Valid() && Bound()
      modifies this`released, container
      ensures released
      ensures container.entries == Sweep(Release(old(container.entries), addr))
      ensures container.freed == old(container.freed) + FreeLog(Garbage(Release(old(container.entries), addr)))
      ensures container.live == old(container.live) - multiset{addr}
      ensures container.first == old(container.first) && container.exitHooks == old(container.exitHooks)
      ensures container.Valid()
    {
      container.DropRef(addr);
      released := true;
    }

    /**
     * Assignment of a raw address: nothing when it is the current one;
     * otherwise release the current record, collect, then register the new
     * address. The array metadata of the handle is left as it is.
     */
    method AssignRaw(ptr: nat) returns (r: nat)
      requires container.Valid() && Bound()
      modifies this`addr, container
      ensures r == ptr && addr == ptr
      ensures old(addr) == ptr ==>
        && container.entries == old(container.entries)
        && container.live == old(container.live)
        && container.freed == old(container.freed)
      ensures old(addr) != ptr ==>
        && container.entries == Register(Sweep(Release(old(container.entries), old(addr))), ptr, container.size)
        && container.freed == old(container.freed) + FreeLog(Garbage(Release(old(container.entries), old(addr))))
        && container.live == old(container.live) - multiset{old(addr)} + multiset{ptr}
      ensures container.first == old(container.first) && container.exitHooks == old(container.exitHooks)
      ensures container.Valid() && Bound()
    {
      if addr == ptr {
        return addr;
      }
      container.DropRef(addr);
      addr := ptr;
      container.AddRef(addr);
      r := addr;
    }

    /**
     * Assignment of another handle: nothing when both hold the same address;
     * otherwise release the current record, collect, then increment the
     * record of the other handle, which must exist; no record is added.
     */
    method Assign(pointer: Pointer)
      requires container.Valid() && Bound()
      requires pointer.container == container && pointer.Bound()
      modifies this`addr, container
      ensures addr == old(pointer.addr)
      ensures old(addr) == old(pointer.addr) ==>
        && container.entries == old(container.entries)
        && container.live == old(container.live)
        && container.freed == old(container.freed)
      ensures old(addr) != old(pointer.addr) ==>
        && container.entries == Acquire(Sweep(Release(old(container.entries), old(addr))), addr)
        && container.freed == old(container.freed) + FreeLog(Garbage(Release(old(container.entries), old(addr))))
        && container.live == old(container.live) - multiset{old(addr)} + multiset{addr}
      ensures |container.entries| <= |old(container.entries)|
      ensures container.first == old(container.first) && container.exitHooks == old(container.exitHooks)
      ensures container.Valid() && Bound() && pointer.Bound()
    {
      if addr == pointer.addr {
        return;
      }
      container.DropRef(addr);
      addr := pointer.addr;
      container.IncRef(addr);
    }

    /** The number of elements the handle spans: `arraySize` for an array, else 1. */
    function Extent(): nat
      reads this
    {
      if isArray then arraySize else 1
    }

    /** `begin()`: an iterator at `addr` over [addr, addr + Extent()). */
    function Begin(): Iter
      reads this
    {
      Iter(addr, addr, addr + Extent())
    }

    /** `end()`: an iterator one past the last element of the same range. */
    function End(): Iter
      reads this
    {
      Iter(addr + Extent(), addr, addr + Extent())
    }
  }

  /**
   * `begin` and `end` carry the same range, start at its two ends, and the
   * range spans exactly the elements of the allocation as its record
   * describes it: `arraySize` elements for an array, one otherwise.
   */
  lemma RangeMatchesRecord(h: Pointer)
    requires h.container.Valid() && h.Bound()
    ensures IndexOf(h.container.entries, h.addr) < |h.container.entries|
    ensures h.Begin().begin == h.End().begin && h.Begin().end == h.End().end
    ensures h.Begin().ptr == h.Begin().begin == h.addr && h.End().ptr == h.End().end
    ensures var d := h.container.entries[IndexOf(h.container.entries, h.addr)];
      && d.memPtr == h.addr
      && h.End().ptr - h.Begin().ptr == (if d.isArray then d.arraySize else 1)
      && h.End().ptr - h.Begin().ptr >= 1
  {
    CountIsLiveHandles(h.container.entries, h.container.live, h.addr);
  }
}
