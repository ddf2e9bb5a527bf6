/**
 * Scenarios proved of the model. The driver program's body becomes a
 * lemma over the registry list: four handles on `ptr`, a fifth handle on a
 * temporary allocation that is freed when that handle is re-pointed,
 * self-assignments that change nothing, and one handle moved to `ptr2`.
 * Addresses 1, 2 and 3 stand for `ptr`, `ptr2` and the temporary. Four
 * shorter scenarios drive the handle class itself.
 */
module Demo {
  import opened GcDetails
  import opened RefList
  import opened GcPointer

  /**
   * The driver's body on the list the registry methods leave behind: `a`
   * and `b` register the first address, `c` and `d` copy, `e` registers the
   * third address, `e = d` releases it and acquires the first, `c = b` and
   * `b = ptr` are self-assignments and change nothing, and `b = ptr2`
   * releases the first address and registers the second. The counts match
   * the driver's comments, and the only allocation freed is the third.
   */
  lemma MainScenario()
    ensures var s5 := Acquire(Acquire(Register(Register([], 1, 0), 1, 0), 1), 1);
      var s6 := Register(s5, 3, 0);
      var s7 := Acquire(Sweep(Release(s6, 3)), 1);
      var s8 := Register(Sweep(Release(s7, 1)), 2, 0);
      && CountOf(s5, 1) == 4 && |s5| == 1
      && CountOf(s7, 1) == 5 && |s7| == 1
      && FreeLog(Garbage(Release(s6, 3))) == [Delete(3)]
      && FreeLog(Garbage(Release(s7, 1))) == []
      && CountOf(s8, 1) == 4 && CountOf(s8, 2) == 1 && |s8| == 2
  {
    Declared();
    TemporaryFreed();
    Rebound();
  }

  /**
   * `a(ptr)`, `b(ptr)`, `c(b)`, `d(c)`: one record for the first address,
   * counted 1, 2, 3 and then 4 times.
   */
  lemma Declared()
    ensures Register([], 1, 0) == [PtrDetails(1, 1, false, 0)]
    ensures Register([PtrDetails(1, 1, false, 0)], 1, 0) == [PtrDetails(2, 1, false, 0)]
    ensures Acquire([PtrDetails(2, 1, false, 0)], 1) == [PtrDetails(3, 1, false, 0)]
    ensures Acquire(Acquire(Register(Register([], 1, 0), 1, 0), 1), 1) == [PtrDetails(4, 1, false, 0)]
  {
    var s1 := Register([], 1, 0);
    assert s1 == [PtrDetails(1, 1, false, 0)];
    var s2 := Register(s1, 1, 0);
    assert s2 == [PtrDetails(2, 1, false, 0)];
    assert Acquire(s2, 1) == [PtrDetails(3, 1, false, 0)];
  }

  /**
   * `e = new int(468)` puts a record at the front; `e = d` drops it to zero,
   * which frees it with `delete`, and acquires the first address.
   */
  lemma TemporaryFreed()
    ensures Register([PtrDetails(4, 1, false, 0)], 3, 0) == [PtrDetails(1, 3, false, 0), PtrDetails(4, 1, false, 0)]
    ensures Release([PtrDetails(1, 3, false, 0), PtrDetails(4, 1, false, 0)], 3)
      == [PtrDetails(0, 3, false, 0), PtrDetails(4, 1, false, 0)]
    ensures Sweep([PtrDetails(0, 3, false, 0), PtrDetails(4, 1, false, 0)]) == [PtrDetails(4, 1, false, 0)]
    ensures FreeLog(Garbage([PtrDetails(0, 3, false, 0), PtrDetails(4, 1, false, 0)])) == [Delete(3)]
    ensures Acquire([PtrDetails(4, 1, false, 0)], 1) == [PtrDetails(5, 1, false, 0)]
  {
    DeadFront(PtrDetails(0, 3, false, 0), PtrDetails(4, 1, false, 0));
    assert FreeLog([PtrDetails(0, 3, false, 0)]) == [Delete(3)];
  }

  /**
   * `b = ptr2` releases one of the five handles on the first address, which
   * frees nothing, and puts a record for the second address at the front.
   */
  lemma Rebound()
    ensures Release([PtrDetails(5, 1, false, 0)], 1) == [PtrDetails(4, 1, false, 0)]
    ensures Sweep([PtrDetails(4, 1, false, 0)]) == [PtrDetails(4, 1, false, 0)]
    ensures FreeLog(Garbage([PtrDetails(4, 1, false, 0)])) == []
    ensures Register([PtrDetails(4, 1, false, 0)], 2, 0) == [PtrDetails(1, 2, false, 0), PtrDetails(4, 1, false, 0)]
    ensures CountOf([PtrDetails(1, 2, false, 0), PtrDetails(4, 1, false, 0)], 1) == 4
    ensures CountOf([PtrDetails(1, 2, false, 0), PtrDetails(4, 1, false, 0)], 2) == 1
  {
    SweepIdle([PtrDetails(4, 1, false, 0)]);
  }

  /** Sweeping a two-record list whose front record is dead keeps the back one. */
  lemma DeadFront(x: PtrDetails, y: PtrDetails)
    requires x.refcount == 0 && y.refcount > 0
    ensures Sweep([x, y]) == [y] && Garbage([x, y]) == [x]
  {
    assert [x, y][..1] == [x] && [x][..0] == [];
    assert Select([x], false) == [] && Select([x], true) == [x];
  }

  /**
   * A handle of an array instantiation (`size == 5`): its range spans five
   * elements, and destroying it frees the allocation with `delete[]`.
   */
  method ArrayScenario() returns (extent: nat, sizeAfter: nat, ghost log: seq<Deallocation>)
    ensures extent == 5 && sizeAfter == 0
    ensures log == [DeleteArray(7)]
  {
    var c := new RefContainer(5);
    var h := new Pointer(c, 7);
    RangeMatchesRecord(h);
    extent := h.End().ptr - h.Begin().ptr;
    LastHandleDeletes(c.entries, c.live, 7, c.size);
    h.Destroy();
    SizeCountsAllocations(c);
    sizeAfter := c.RefContainerSize();
    log := c.freed;
  }

  /**
   * Two handles on one scalar allocation through the registry methods: the
   * copy shares the record, destroying it frees nothing, and destroying the
   * last handle frees the allocation once with `delete`.
   */
  method SharedScenario() returns (shared: nat, afterCopyGone: nat, sizeAfter: nat, ghost log: seq<Deallocation>)
    ensures shared == 2 && afterCopyGone == 1 && sizeAfter == 0
    ensures log == [Delete(4)]
  {
    var c := new RefContainer(0);
    var a := new Pointer(c, 4);
    var b := new Pointer.Copy(a);
    CountIsLiveHandles(c.entries, c.live, 4);
    shared := CountOf(c.entries, 4);
    SharedHandleReleased(c.entries, c.live, 4);
    b.Destroy();
    CountIsLiveHandles(c.entries, c.live, 4);
    afterCopyGone := CountOf(c.entries, 4);
    LastHandleDeletes(c.entries, c.live, 4, c.size);
    a.Destroy();
    SizeCountsAllocations(c);
    sizeAfter := c.RefContainerSize();
    log := c.freed;
  }

  /**
   * The exit hook with two handles still bound: shutdown frees both
   * allocations, the newer record (at the front of the list) first, and
   * leaves the list empty.
   */
  method ExitScenario() returns (sizeBefore: nat, sizeAfter: nat, ghost log: seq<Deallocation>)
    ensures sizeBefore == 2 && sizeAfter == 0
    ensures log == [Delete(2), Delete(1)]
  {
    var c := new RefContainer(0);
    var a := new Pointer(c, 1);
    var b := new Pointer(c, 2);
    assert c.entries == [NewDetails(2, 0), NewDetails(1, 0)];
    sizeBefore := c.RefContainerSize();
    ghost var s := c.entries;
    ZeroAllAt(s);
    ShutdownFreesAll(s, ZeroAll(s));
    c.Shutdown();
    sizeAfter := c.RefContainerSize();
    log := c.freed;
  }

  /**
   * The driver's `c = b` and `b = ptr` on the handle class: two handles on
   * one address, then assigning one from the other and re-pointing it at
   * the address it already holds leave the list and the count as they were.
   */
  method SelfAssignScenario() returns (countBefore: nat, countAfter: nat, sameList: bool)
    ensures countBefore == 2 && countAfter == 2 && sameList
  {
    var c := new RefContainer(0);
    var a := new Pointer(c, 1);
    var b := new Pointer.Copy(a);
    var s := c.entries;
    CountIsLiveHandles(c.entries, c.live, 1);
    countBefore := CountOf(c.entries, 1);
    b.Assign(a);
    var _ := b.AssignRaw(1);
    sameList := c.entries == s;
    countAfter := CountOf(c.entries, 1);
  }
}
