/**
 * One element of the garbage-collection list: the bookkeeping record kept
 * for every allocation that some Pointer handle refers to.
 * Addresses are abstract naturals; 0 plays the role of NULL.
 */
module GcDetails {

  /** An allocation record: reference count, address, array flag and array size. */
  datatype PtrDetails = PtrDetails(refcount: nat, memPtr: nat, isArray: bool, arraySize: nat)

  /** The form of `delete` used to release an allocation. */
  datatype Deallocation = Delete(ptr: nat) | DeleteArray(ptr: nat)

  /**
   * The record constructor `PtrDetails(ptr, size = 0)`: a fresh record is
   * referenced once, and it describes an array exactly when a non-zero size
   * was given.
   */
  function NewDetails(ptr: nat, size: nat): (d: PtrDetails)
    ensures d.refcount == 1
    ensures d.memPtr == ptr && d.arraySize == size
    ensures d.isArray <==> size > 0
  {
    PtrDetails(1, ptr, size > 0, size)
  }

  /** The default size argument yields a scalar record. */
  lemma DefaultSizeIsScalar(ptr: nat)
    ensures !NewDetails(ptr, 0).isArray && NewDetails(ptr, 0).arraySize == 0
  {
  }

  /** `operator==` on records: two records are equal when they describe the same address. */
  predicate Same(a: PtrDetails, b: PtrDetails)
  {
    a.memPtr == b.memPtr
  }

  /** Equality of records ignores the reference count and the array metadata. */
  lemma SameIgnoresMetadata(a: PtrDetails, b: PtrDetails)
    ensures Same(a, b) <==> a.memPtr == b.memPtr
    ensures Same(a, b) ==> Same(a, b.(refcount := a.refcount, isArray := a.isArray, arraySize := a.arraySize))
    ensures Same(a, b) ==> Same(a.(refcount := b.refcount), b)
  {
  }

  /** Record equality is an equivalence relation. */
  lemma SameIsEquivalence()
    ensures forall a: PtrDetails :: Same(a, a)
    ensures forall a: PtrDetails, b: PtrDetails :: Same(a, b) ==> Same(b, a)
    ensures forall a: PtrDetails, b: PtrDetails, c: PtrDetails :: Same(a, b) && Same(b, c) ==> Same(a, c)
  {
  }

  /** How `collect` releases a record's memory: `delete[]` for arrays, `delete` otherwise. */
  function FreeOf(d: PtrDetails): (f: Deallocation)
    ensures f.ptr == d.memPtr
    ensures f.DeleteArray? <==> d.isArray
  {
    if d.isArray then DeleteArray(d.memPtr) else Delete(d.memPtr)
  }
}
