/**
 * The garbage-collection list `refContainer` as a value: a sequence of
 * allocation records, front of the list first. The functions here say what
 * each registry operation does to that sequence; the lemmas state the
 * invariants the handle protocol relies on.
 */
module RefList {
  import opened GcDetails

  /** The addresses recorded in the list. */
  ghost function Addrs(s: seq<PtrDetails>): set<nat>
  {
    set i | 0 <= i < |s| :: s[i].memPtr
  }

  /** No two records of the list compare equal with `operator==`. */
  ghost predicate Unique(s: seq<PtrDetails>)
  {
    forall i, j :: 0 <= i < j < |s| ==> !Same(s[i], s[j])
  }

  /**
   * Position of the first record for `ptr`, as `findPtrInfo` walks the list;
   * `|s|` plays the role of `refContainer.end()`.
   */
  function IndexOf(s: seq<PtrDetails>, ptr: nat): (r: nat)
    ensures r <= |s|
    ensures r < |s| ==> s[r].memPtr == ptr
    ensures forall j :: 0 <= j < r ==> s[j].memPtr != ptr
  {
    if s == [] then 0
    else if s[0].memPtr == ptr then 0
    else 1 + IndexOf(s[1..], ptr)
  }

  /** The reference count recorded for `ptr`, 0 when there is no record. */
  function CountOf(s: seq<PtrDetails>, ptr: nat): nat
  {
    var i := IndexOf(s, ptr);
    if i < |s| then s[i].refcount else 0
  }

  /** `p->refcount++` on the record found for `ptr`; see `AcquireEffect`. */
  function Acquire(s: seq<PtrDetails>, ptr: nat): seq<PtrDetails>
  {
    var i := IndexOf(s, ptr);
    if i < |s| then s[i := s[i].(refcount := s[i].refcount + 1)] else s
  }

  /**
   * `p->refcount--` on the record found for `ptr`; see `ReleaseEffect`.
   * The guard that leaves the list alone when no record is found or its
   * count is already 0 belongs to the model, where `unsigned` has no
   * wrap-around; neither case is reachable from a live handle, because the
   * registry invariant gives its record a count of at least one.
   */
  function Release(s: seq<PtrDetails>, ptr: nat): seq<PtrDetails>
  {
    var i := IndexOf(s, ptr);
    if i < |s| && s[i].refcount > 0 then s[i := s[i].(refcount := s[i].refcount - 1)] else s
  }

  /**
   * Acquiring touches only the count of the record found for `ptr`, which
   * rises by one; every other record, and every address and array field,
   * stays as it was.
   */
  lemma AcquireEffect(s: seq<PtrDetails>, ptr: nat)
    ensures |Acquire(s, ptr)| == |s|
    ensures forall k :: 0 <= k < |s| ==>
      && Acquire(s, ptr)[k].memPtr == s[k].memPtr
      && Acquire(s, ptr)[k].isArray == s[k].isArray
      && Acquire(s, ptr)[k].arraySize == s[k].arraySize
    ensures forall k :: 0 <= k < |s| && k != IndexOf(s, ptr) ==> Acquire(s, ptr)[k] == s[k]
    ensures IndexOf(s, ptr) < |s| ==>
      Acquire(s, ptr)[IndexOf(s, ptr)].refcount == s[IndexOf(s, ptr)].refcount + 1
  {
  }

  /**
   * Releasing touches only the count of the record found for `ptr`, which
   * falls by one when it is positive; every other record, and every address
   * and array field, stays as it was.
   */
  lemma ReleaseEffect(s: seq<PtrDetails>, ptr: nat)
    ensures |Release(s, ptr)| == |s|
    ensures forall k :: 0 <= k < |s| ==>
      && Release(s, ptr)[k].memPtr == s[k].memPtr
      && Release(s, ptr)[k].isArray == s[k].isArray
      && Release(s, ptr)[k].arraySize == s[k].arraySize
    ensures forall k :: 0 <= k < |s| && k != IndexOf(s, ptr) ==> Release(s, ptr)[k] == s[k]
    ensures IndexOf(s, ptr) < |s| && s[IndexOf(s, ptr)].refcount > 0 ==>
      Release(s, ptr)[IndexOf(s, ptr)].refcount == s[IndexOf(s, ptr)].refcount - 1
  {
  }

  /**
   * What binding a handle to a raw address does: increment the record when
   * lookup finds one, otherwise `emplace_front` a fresh record.
   */
  function Register(s: seq<PtrDetails>, ptr: nat, size: nat): seq<PtrDetails>
  {
    if IndexOf(s, ptr) < |s| then Acquire(s, ptr) else [NewDetails(ptr, size)] + s
  }

  /** The records whose count is zero (`dead`) or non-zero (`!dead`), in list order. */
  function Select(s: seq<PtrDetails>, dead: bool): seq<PtrDetails>
  {
    if s == [] then []
    else
      var d := s[|s| - 1];
      Select(s[..|s| - 1], dead) + (if (d.refcount == 0) == dead then [d] else [])
  }

  /** The list `collect` leaves behind. */
  function Sweep(s: seq<PtrDetails>): seq<PtrDetails>
  {
    Select(s, false)
  }

  /** The records `collect` frees and erases. */
  function Garbage(s: seq<PtrDetails>): seq<PtrDetails>
  {
    Select(s, true)
  }

  /** The deallocations performed for a run of records, in order. */
  function FreeLog(g: seq<PtrDetails>): seq<Deallocation>
  {
    if g == [] then [] else FreeLog(g[..|g| - 1]) + [FreeOf(g[|g| - 1])]
  }

  /** The list after the loop of `shutdown` sets every count to zero. */
  function ZeroAll(s: seq<PtrDetails>): seq<PtrDetails>
  {
    if s == [] then [] else ZeroAll(s[..|s| - 1]) + [s[|s| - 1].(refcount := 0)]
  }

  ghost predicate NoZeros(s: seq<PtrDetails>)
  {
    forall i :: 0 <= i < |s| ==> s[i].refcount > 0
  }

  /** Every record was made by `PtrDetails(addr, size)` for the registry's one `size`. */
  ghost predicate Uniform(s: seq<PtrDetails>, size: nat)
  {
    forall i :: 0 <= i < |s| ==> s[i].isArray == (size > 0) && s[i].arraySize == size
  }

  /**
   * The counting invariant: addresses are unique, each record's count is the
   * number of live handles bound to its address, and every such address has
   * a record.
   */
  ghost predicate Counted(s: seq<PtrDetails>, live: multiset<nat>)
  {
    && Unique(s)
    && (forall i :: 0 <= i < |s| ==> s[i].refcount == live[s[i].memPtr])
    && (forall p | p in live :: p in Addrs(s))
  }

  /**
   * The registry invariant between handle operations: the counting
   * invariant, no record left for a sweep, and every record made for the
   * registry's one `size`.
   */
  ghost predicate Healthy(s: seq<PtrDetails>, live: multiset<nat>, size: nat)
  {
    Counted(s, live) && NoZeros(s) && Uniform(s, size)
  }

  // ---------------------------------------------------------------------
  // Lookup

  /** Lookup returns the position of the first record for the address, or the end. */
  lemma {:induction false} IndexOfFirst(s: seq<PtrDetails>, ptr: nat, i: nat)
    requires i <= |s| && (i < |s| ==> s[i].memPtr == ptr)
    requires forall j :: 0 <= j < i ==> s[j].memPtr != ptr
    ensures IndexOf(s, ptr) == i
  {
    if s != [] && s[0].memPtr != ptr {
      IndexOfFirst(s[1..], ptr, i - 1);
    }
  }

  /** In a list without duplicates, lookup finds the one record for an address. */
  lemma IndexOfUnique(s: seq<PtrDetails>, i: nat)
    requires Unique(s) && i < |s|
    ensures IndexOf(s, s[i].memPtr) == i
  {
    forall j | 0 <= j < i ensures s[j].memPtr != s[i].memPtr {
      assert !Same(s[j], s[i]);
    }
    IndexOfFirst(s, s[i].memPtr, i);
  }

  /** Lookup succeeds exactly for the recorded addresses. */
  lemma IndexOfFound(s: seq<PtrDetails>, ptr: nat)
    ensures IndexOf(s, ptr) < |s| <==> ptr in Addrs(s)
  {
    if ptr in Addrs(s) {
      var i :| 0 <= i < |s| && s[i].memPtr == ptr;
      assert IndexOf(s, ptr) <= i;
    }
  }

  /** Under the counting invariant, every address's count is its number of live handles. */
  lemma CountIsLiveHandles(s: seq<PtrDetails>, live: multiset<nat>, ptr: nat)
    requires Counted(s, live)
    ensures CountOf(s, ptr) == live[ptr]
    ensures ptr in live ==> IndexOf(s, ptr) < |s|
  {
    IndexOfFound(s, ptr);
    if ptr in live {
      assert ptr in Addrs(s);
    }
  }

  /** The empty list with no live handle satisfies the registry invariant. */
  lemma EmptyHealthy(size: nat)
    ensures Healthy([], multiset{}, size)
  {
  }

  /** A list without duplicates holds one record per distinct address. */
  lemma {:induction false} UniqueSize(s: seq<PtrDetails>)
    requires Unique(s)
    ensures |Addrs(s)| == |s|
  {
    if s != [] {
      var t := s[..|s| - 1];
      var d := s[|s| - 1];
      assert Unique(t);
      UniqueSize(t);
      assert s == t + [d];
      assert Addrs(s) == Addrs(t) + {d.memPtr};
      assert forall k :: 0 <= k < |t| ==> !Same(s[k], s[|s| - 1]);
      assert d.memPtr !in Addrs(t);
    }
  }

  /** Changing only counts keeps the addresses, their uniqueness and every lookup. */
  lemma SameAddresses(s: seq<PtrDetails>, r: seq<PtrDetails>)
    requires |r| == |s| && forall k :: 0 <= k < |s| ==> r[k].memPtr == s[k].memPtr
    ensures Addrs(r) == Addrs(s)
    ensures Unique(s) ==> Unique(r)
    ensures forall p :: IndexOf(r, p) == IndexOf(s, p)
  {
    assert Unique(s) ==> Unique(r) by {
      if Unique(s) {
        forall a, b | 0 <= a < b < |r| ensures !Same(r[a], r[b]) {
          assert !Same(s[a], s[b]);
        }
      }
    }
    forall p ensures IndexOf(r, p) == IndexOf(s, p) {
      IndexOfFirst(s, p, IndexOf(r, p));
    }
  }

  /** Putting a record for a new address at the front keeps addresses unique. */
  lemma PrependNew(d: PtrDetails, s: seq<PtrDetails>)
    requires Unique(s) && d.memPtr !in Addrs(s)
    ensures Unique([d] + s)
    ensures Addrs([d] + s) == Addrs(s) + {d.memPtr}
    ensures forall k :: 0 <= k < |s| ==> IndexOf([d] + s, s[k].memPtr) == k + 1
  {
    var r := [d] + s;
    assert r[1..] == s;
    forall p | p in Addrs(r) ensures p in Addrs(s) + {d.memPtr} {
      var k :| 0 <= k < |r| && r[k].memPtr == p;
      if k > 0 { assert s[k - 1] == r[k]; }
    }
    forall p | p in Addrs(s) ensures p in Addrs(r) {
      var k :| 0 <= k < |s| && s[k].memPtr == p;
      assert r[k + 1] == s[k];
    }
    assert r[0].memPtr == d.memPtr;
    forall a, b | 0 <= a < b < |r| ensures !Same(r[a], r[b]) {
      assert r[b] == s[b - 1];
      if a == 0 {
        assert s[b - 1].memPtr in Addrs(s);
      } else {
        assert !Same(s[a - 1], s[b - 1]);
      }
    }
    forall k | 0 <= k < |s| ensures IndexOf(r, s[k].memPtr) == k + 1 {
      assert s[k].memPtr in Addrs(s);
      IndexOfUnique(r, k + 1);
    }
  }

  // ---------------------------------------------------------------------
  // Registering and releasing

  /** The counting invariant follows from unique addresses and the right count for every address. */
  lemma CountedByCounts(s: seq<PtrDetails>, live: multiset<nat>)
    requires Unique(s)
    requires forall p :: CountOf(s, p) == live[p]
    ensures Counted(s, live)
  {
    forall k | 0 <= k < |s| ensures s[k].refcount == live[s[k].memPtr] {
      IndexOfUnique(s, k);
      assert CountOf(s, s[k].memPtr) == s[k].refcount;
    }
    forall p | p in live ensures p in Addrs(s) {
      assert CountOf(s, p) > 0;
      IndexOfFound(s, p);
    }
  }

  /**
   * Registering a raw address keeps addresses unique, adds exactly that
   * address, increases its count by one and changes no other count; a new
   * record goes to the front of the list.
   */
  lemma RegisterEffect(s: seq<PtrDetails>, ptr: nat, size: nat)
    requires Unique(s)
    ensures Unique(Register(s, ptr, size))
    ensures Addrs(Register(s, ptr, size)) == Addrs(s) + {ptr}
    ensures CountOf(Register(s, ptr, size), ptr) == CountOf(s, ptr) + 1
    ensures forall q :: q != ptr ==> CountOf(Register(s, ptr, size), q) == CountOf(s, q)
    ensures ptr !in Addrs(s) ==> Register(s, ptr, size) == [NewDetails(ptr, size)] + s
    ensures ptr in Addrs(s) ==> |Register(s, ptr, size)| == |s|
  {
    var r := Register(s, ptr, size);
    var i := IndexOf(s, ptr);
    IndexOfFound(s, ptr);
    if i < |s| {
      assert r == s[i := s[i].(refcount := s[i].refcount + 1)];
      SameAddresses(s, r);
      assert Addrs(s) + {ptr} == Addrs(s);
    } else {
      PrependNew(NewDetails(ptr, size), s);
      assert r[1..] == s;
      forall q | q != ptr ensures CountOf(r, q) == CountOf(s, q) {
        assert IndexOf(r, q) == 1 + IndexOf(s, q);
      }
    }
  }

  /** Binding one more live handle to `ptr` keeps the counting invariant. */
  lemma RegisterCounted(s: seq<PtrDetails>, live: multiset<nat>, ptr: nat, size: nat)
    requires Counted(s, live)
    ensures Counted(Register(s, ptr, size), live + multiset{ptr})
  {
    var r := Register(s, ptr, size);
    RegisterEffect(s, ptr, size);
    forall p ensures CountOf(r, p) == (live + multiset{ptr})[p] {
      CountIsLiveHandles(s, live, p);
    }
    CountedByCounts(r, live + multiset{ptr});
  }

  /** Registering creates no zero count and only records of the registry's own size. */
  lemma RegisterShape(s: seq<PtrDetails>, ptr: nat, size: nat)
    ensures NoZeros(s) ==> NoZeros(Register(s, ptr, size))
    ensures Uniform(s, size) ==> Uniform(Register(s, ptr, size), size)
  {
    var r := Register(s, ptr, size);
    var i := IndexOf(s, ptr);
    if i < |s| {
      assert r == s[i := s[i].(refcount := s[i].refcount + 1)];
    } else {
      assert r == [NewDetails(ptr, size)] + s;
      assert forall k :: 1 <= k < |r| ==> r[k] == s[k - 1];
    }
  }

  /**
   * Dropping a live handle bound to `ptr` keeps the counting invariant,
   * decrements that address's count and leaves every other record as it was.
   */
  lemma ReleaseCounted(s: seq<PtrDetails>, live: multiset<nat>, ptr: nat, size: nat)
    requires Counted(s, live) && ptr in live
    ensures Counted(Release(s, ptr), live - multiset{ptr})
    ensures Uniform(s, size) ==> Uniform(Release(s, ptr), size)
    ensures CountOf(Release(s, ptr), ptr) == CountOf(s, ptr) - 1
    ensures forall k :: 0 <= k < |s| && s[k].memPtr != ptr ==> Release(s, ptr)[k] == s[k]
  {
    var r := Release(s, ptr);
    CountIsLiveHandles(s, live, ptr);
    var i := IndexOf(s, ptr);
    assert s[i].refcount == live[ptr] > 0;
    assert r == s[i := s[i].(refcount := s[i].refcount - 1)];
    SameAddresses(s, r);
    forall p ensures CountOf(r, p) == (live - multiset{ptr})[p] {
      CountIsLiveHandles(s, live, p);
    }
    CountedByCounts(r, live - multiset{ptr});
  }

  /** Binding a handle to a raw address keeps the registry invariant. */
  lemma RegisterHealthy(s: seq<PtrDetails>, live: multiset<nat>, ptr: nat, size: nat)
    requires Healthy(s, live, size)
    ensures Healthy(Register(s, ptr, size), live + multiset{ptr}, size)
  {
    RegisterCounted(s, live, ptr, size);
    RegisterShape(s, ptr, size);
  }

  /**
   * Dropping a live handle and sweeping keeps the registry invariant and
   * never adds a record.
   */
  lemma DropHealthy(s: seq<PtrDetails>, live: multiset<nat>, ptr: nat, size: nat)
    requires Healthy(s, live, size) && ptr in live
    ensures Healthy(Sweep(Release(s, ptr)), live - multiset{ptr}, size)
    ensures |Sweep(Release(s, ptr))| <= |s|
  {
    ReleaseCounted(s, live, ptr, size);
    SweepCounted(Release(s, ptr), live - multiset{ptr}, size);
    SelectPartition(Release(s, ptr));
    assert |multiset(Sweep(Release(s, ptr)))| <= |multiset(Release(s, ptr))|;
  }

  // ---------------------------------------------------------------------
  // Sweeping

  /** Selection distributes over concatenation, so it keeps the relative order of records. */
  lemma {:induction false} SelectAppend(s: seq<PtrDetails>, t: seq<PtrDetails>, dead: bool)
    ensures Select(s + t, dead) == Select(s, dead) + Select(t, dead)
  {
    if t == [] {
      assert s + t == s;
    } else {
      var t' := t[..|t| - 1];
      assert (s + t)[..|s + t| - 1] == s + t';
      assert (s + t)[|s + t| - 1] == t[|t| - 1];
      SelectAppend(s, t', dead);
    }
  }

  /**
   * Selection by count splits the list in two: a record is kept iff its
   * count is non-zero and removed iff it is zero, and together the two
   * parts are exactly the original records.
   */
  lemma {:induction false} SelectPartition(s: seq<PtrDetails>)
    ensures forall d :: d in Sweep(s) <==> d in s && d.refcount != 0
    ensures forall d :: d in Garbage(s) <==> d in s && d.refcount == 0
    ensures multiset(Sweep(s)) + multiset(Garbage(s)) == multiset(s)
  {
    if s != [] {
      var t := s[..|s| - 1];
      var d := s[|s| - 1];
      assert s == t + [d];
      SelectPartition(t);
    }
  }

  /** Selection from a list without duplicates has none, and records no new address. */
  lemma {:induction false} SelectUnique(s: seq<PtrDetails>, dead: bool)
    requires Unique(s)
    ensures Unique(Select(s, dead))
    ensures Addrs(Select(s, dead)) <= Addrs(s)
  {
    if s != [] {
      var t := s[..|s| - 1];
      var d := s[|s| - 1];
      assert Unique(t);
      SelectUnique(t, dead);
      var r := Select(s, dead);
      var rt := Select(t, dead);
      assert Addrs(t) <= Addrs(s);
      if (d.refcount == 0) == dead {
        assert r == rt + [d];
        assert forall k :: 0 <= k < |t| ==> !Same(s[k], s[|s| - 1]);
        assert d.memPtr !in Addrs(t);
        assert Unique(r) by {
          forall a, b | 0 <= a < b < |r| ensures !Same(r[a], r[b]) {
            if b == |r| - 1 {
              assert r[a] == rt[a];
              assert rt[a].memPtr in Addrs(rt);
            } else {
              assert !Same(rt[a], rt[b]);
            }
          }
        }
        assert Addrs(r) == Addrs(rt) + {d.memPtr} by {
          forall p | p in Addrs(r) ensures p in Addrs(rt) + {d.memPtr} {
            var k :| 0 <= k < |r| && r[k].memPtr == p;
            if k < |rt| { assert r[k] == rt[k]; }
          }
          forall p | p in Addrs(rt) ensures p in Addrs(r) {
            var k :| 0 <= k < |rt| && rt[k].memPtr == p;
            assert r[k] == rt[k];
          }
          assert r[|r| - 1] == d;
        }
      } else {
        assert r == rt;
      }
    }
  }

  /** When every record has the same liveness, selection keeps all or nothing. */
  lemma {:induction false} SelectAll(s: seq<PtrDetails>, dead: bool)
    requires forall i :: 0 <= i < |s| ==> (s[i].refcount == 0) == dead
    ensures Select(s, dead) == s
    ensures Select(s, !dead) == []
  {
    if s != [] {
      var t := s[..|s| - 1];
      assert s == t + [s[|s| - 1]];
      SelectAll(t, dead);
    }
  }

  /** `collect` on a list without zero counts changes nothing and frees nothing. */
  lemma SweepIdle(s: seq<PtrDetails>)
    requires NoZeros(s)
    ensures Sweep(s) == s && Garbage(s) == []
  {
    SelectAll(s, false);
  }

  /**
   * After `collect` no zero count survives, so an immediate second `collect`
   * removes nothing.
   */
  lemma SweepIdempotent(s: seq<PtrDetails>)
    ensures NoZeros(Sweep(s))
    ensures Sweep(Sweep(s)) == Sweep(s) && Garbage(Sweep(s)) == []
  {
    SelectPartition(s);
    assert forall i :: 0 <= i < |Sweep(s)| ==> Sweep(s)[i] in Sweep(s);
    SweepIdle(Sweep(s));
  }

  /**
   * `collect` keeps the counting invariant and leaves no zero count; the
   * metadata of survivors is untouched.
   */
  lemma SweepCounted(s: seq<PtrDetails>, live: multiset<nat>, size: nat)
    requires Counted(s, live)
    ensures Counted(Sweep(s), live) && NoZeros(Sweep(s))
    ensures Uniform(s, size) ==> Uniform(Sweep(s), size)
  {
    var r := Sweep(s);
    SelectPartition(s);
    SelectUnique(s, false);
    SweepIdempotent(s);
    forall k | 0 <= k < |r| ensures r[k].refcount == live[r[k].memPtr] {
      assert r[k] in s;
    }
    forall p | p in live ensures p in Addrs(r) {
      assert p in Addrs(s);
      var k :| 0 <= k < |s| && s[k].memPtr == p;
      assert s[k] in r;
    }
    SweepUniform(s, size);
  }

  /** `collect` erases records but never alters the metadata of the ones it keeps. */
  lemma SweepUniform(s: seq<PtrDetails>, size: nat)
    ensures Uniform(s, size) ==> Uniform(Sweep(s), size)
  {
    var r := Sweep(s);
    SelectPartition(s);
    if Uniform(s, size) {
      forall k | 0 <= k < |r| ensures r[k].isArray == (size > 0) && r[k].arraySize == size {
        assert r[k] in s;
      }
    }
  }

  /** The deallocation log has one record per freed entry, in the matching form. */
  lemma {:induction false} FreeLogAt(g: seq<PtrDetails>)
    ensures |FreeLog(g)| == |g|
    ensures forall k :: 0 <= k < |g| ==> FreeLog(g)[k] == FreeOf(g[k])
  {
    if g != [] {
      FreeLogAt(g[..|g| - 1]);
    }
  }

  /**
   * Every address `collect` frees is freed once, with `delete[]` exactly
   * when its record is an array, only when its count is zero, and it no
   * longer appears in the list afterwards.
   */
  lemma FreedOnce(s: seq<PtrDetails>)
    requires Unique(s)
    ensures |FreeLog(Garbage(s))| == |Garbage(s)|
    ensures forall i, j :: 0 <= i < j < |FreeLog(Garbage(s))| ==> FreeLog(Garbage(s))[i].ptr != FreeLog(Garbage(s))[j].ptr
    ensures forall k :: 0 <= k < |Garbage(s)| ==>
      && Garbage(s)[k] in s
      && Garbage(s)[k].refcount == 0
      && FreeLog(Garbage(s))[k].ptr == Garbage(s)[k].memPtr
      && (FreeLog(Garbage(s))[k].DeleteArray? <==> Garbage(s)[k].isArray)
      && Garbage(s)[k].memPtr !in Addrs(Sweep(s))
  {
    var g := Garbage(s);
    FreeLogAt(g);
    SelectUnique(s, true);
    SelectPartition(s);
    forall i, j | 0 <= i < j < |g| ensures FreeLog(g)[i].ptr != FreeLog(g)[j].ptr {
      assert !Same(g[i], g[j]);
    }
    forall k, m | 0 <= k < |g| && 0 <= m < |Sweep(s)| ensures g[k].memPtr != Sweep(s)[m].memPtr {
      assert g[k] in s && Sweep(s)[m] in s;
      var a :| 0 <= a < |s| && s[a] == g[k];
      var b :| 0 <= b < |s| && s[b] == Sweep(s)[m];
      assert s[a].refcount != s[b].refcount;
      if a < b { assert !Same(s[a], s[b]); } else { assert !Same(s[b], s[a]); }
    }
  }

  /** A list with exactly one zero count at position `i` sweeps out just that record. */
  lemma SingleGarbage(r: seq<PtrDetails>, i: nat)
    requires i < |r| && r[i].refcount == 0
    requires forall k :: 0 <= k < |r| && k != i ==> r[k].refcount > 0
    ensures Garbage(r) == [r[i]]
  {
    assert r == r[..i] + [r[i]] + r[i + 1..];
    SelectAppend(r[..i] + [r[i]], r[i + 1..], true);
    SelectAppend(r[..i], [r[i]], true);
    SelectAll(r[..i], false);
    SelectAll(r[i + 1..], false);
    assert Select([r[i]], true) == [r[i]];
  }

  /**
   * Destroying the last handle on `ptr` and sweeping erases exactly that
   * record and frees it once, in the form its record says.
   */
  lemma LastHandleFreed(s: seq<PtrDetails>, live: multiset<nat>, ptr: nat)
    requires Counted(s, live) && NoZeros(s) && live[ptr] == 1
    ensures IndexOf(s, ptr) < |s|
    ensures Garbage(Release(s, ptr)) == [s[IndexOf(s, ptr)].(refcount := 0)]
    ensures FreeLog(Garbage(Release(s, ptr))) == [FreeOf(s[IndexOf(s, ptr)])]
    ensures Addrs(Sweep(Release(s, ptr))) == Addrs(s) - {ptr}
  {
    CountIsLiveHandles(s, live, ptr);
    var i := IndexOf(s, ptr);
    var r := Release(s, ptr);
    ReleaseCounted(s, live, ptr, 0);
    assert r == s[i := s[i].(refcount := 0)];
    SingleGarbage(r, i);
    assert FreeLog([r[i]]) == [FreeOf(r[i])];
    SweepDropsOne(s, r, i);
  }

  /**
   * In a registry whose records were all made for one `size`, the last
   * handle's release frees its address with the form that size dictates.
   */
  lemma LastHandleDeletes(s: seq<PtrDetails>, live: multiset<nat>, ptr: nat, size: nat)
    requires Healthy(s, live, size) && live[ptr] == 1
    ensures FreeLog(Garbage(Release(s, ptr))) == [if size > 0 then DeleteArray(ptr) else Delete(ptr)]
  {
    LastHandleFreed(s, live, ptr);
  }

  /** Sweeping a list in which only record `i` went to zero erases just its address. */
  lemma SweepDropsOne(s: seq<PtrDetails>, r: seq<PtrDetails>, i: nat)
    requires Unique(s) && NoZeros(s) && i < |s|
    requires r == s[i := s[i].(refcount := 0)]
    ensures Addrs(Sweep(r)) == Addrs(s) - {s[i].memPtr}
  {
    SelectPartition(r);
    forall p | p in Addrs(Sweep(r)) ensures p in Addrs(s) - {s[i].memPtr} {
      var k :| 0 <= k < |Sweep(r)| && Sweep(r)[k].memPtr == p;
      assert Sweep(r)[k] in r;
      var m :| 0 <= m < |r| && r[m] == Sweep(r)[k];
      assert m != i;
      if m < i { assert !Same(s[m], s[i]); } else { assert !Same(s[i], s[m]); }
    }
    forall p | p in Addrs(s) - {s[i].memPtr} ensures p in Addrs(Sweep(r)) {
      var k :| 0 <= k < |s| && s[k].memPtr == p;
      assert r[k] == s[k];
      assert r[k] in Sweep(r);
    }
  }

  /**
   * Destroying a handle that shares its address with others frees nothing:
   * the sweep leaves the decremented list as it is.
   */
  lemma SharedHandleReleased(s: seq<PtrDetails>, live: multiset<nat>, ptr: nat)
    requires Counted(s, live) && NoZeros(s) && live[ptr] > 1
    ensures Garbage(Release(s, ptr)) == []
    ensures Sweep(Release(s, ptr)) == Release(s, ptr)
    ensures CountOf(Release(s, ptr), ptr) == live[ptr] - 1
  {
    CountIsLiveHandles(s, live, ptr);
    ReleaseCounted(s, live, ptr, 0);
    var i := IndexOf(s, ptr);
    assert Release(s, ptr) == s[i := s[i].(refcount := s[i].refcount - 1)];
    SweepIdle(Release(s, ptr));
  }

  /** Forcing every count to zero keeps each record's address and metadata. */
  lemma {:induction false} ZeroAllAt(s: seq<PtrDetails>)
    ensures |ZeroAll(s)| == |s|
    ensures forall k :: 0 <= k < |s| ==> ZeroAll(s)[k] == s[k].(refcount := 0)
  {
    if s != [] {
      ZeroAllAt(s[..|s| - 1]);
    }
  }

  /**
   * `shutdown` frees every record once, each with its own form, and leaves
   * the list empty.
   */
  lemma ShutdownFreesAll(s: seq<PtrDetails>, z: seq<PtrDetails>)
    requires |z| == |s| && forall k :: 0 <= k < |s| ==> z[k] == s[k].(refcount := 0)
    ensures z == ZeroAll(s)
    ensures Sweep(z) == []
    ensures Garbage(z) == z
    ensures |FreeLog(Garbage(z))| == |s|
    ensures forall k :: 0 <= k < |s| ==> FreeLog(Garbage(z))[k] == FreeOf(s[k])
  {
    ZeroAllAt(s);
    SelectAll(z, true);
    FreeLogAt(z);
  }
}
