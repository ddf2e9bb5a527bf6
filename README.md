# Reference-counting garbage collector: a Dafny model

This project models the core of a small C++ reference-counting garbage
collector. `Pointer<T, size>` is a smart-pointer handle. Every handle of one
template instantiation shares a static list, `refContainer`, of `PtrDetails`
records. Each record holds an allocation's address, its reference count, and
whether it is an array and of what size. Constructing a handle increments
one record, inserting it if it is new; copying a handle increments the
existing record. Destroying a handle decrements its record and runs
`collect`. An assignment does both, collecting between the decrement and the
increment. That sweep frees every record whose count reached zero, with
`delete[]` or
`delete` according to the record, and erases it. `shutdown`, registered with
`atexit` on the first construction, forces every count to zero and collects.

The model has four modules:

- `GcDetails` (`gc_details.dfy`) covers the record, its constructor, the
  address-only `operator==`, and the form of `delete` used for a record.
- `RefList` (`ref_list.dfy`) covers the list as a sequence, front first.
  Pure functions say what each registry operation does to that sequence:
  lookup, increment, decrement, register-or-insert, sweep, and the
  deallocation log. Lemmas state the invariants those operations keep.
- `GcPointer` (`gc_pointer.dfy`) holds the imperative part.
  - Class `RefContainer` stands for the static members of one
    instantiation: the list, the `first` flag, and the array bound `size`.
    Its methods loop over and update the list in place.
  - Class `Pointer` is one handle, with fields `addr`, `isArray` and
    `arraySize`. It has the raw and copy constructors, the destructor and
    both assignment operators.
  - Four ghost fields make the protocol statable:
    - `live` is the multiset of addresses held by live handles;
    - `freed` logs every `delete` and `delete[]` performed;
    - `exitHooks` counts `atexit` registrations;
    - `released`, on `Pointer`, marks a destroyed handle.
  - The registry invariant `RefContainer.Valid` requires five things.
    Addresses are unique. Every record's count equals the number of live
    handles on its address. Every such address has a record. No record
    with count zero is left between handle operations. Every record has
    the instantiation's array metadata: it is an array exactly when `size`
    is non-zero, and its array size is `size`. It also says the
    exit hook was registered once if any handle has been constructed from
    a raw address, and never otherwise.
- `Demo` (`demo.dfy`) holds the driver program's scenario. It is a lemma
  over the list functions that the handle methods are proved to follow.
  Four short scenarios drive the classes directly.

Addresses are natural numbers. 0 plays the role of `NULL`, and it is handled
like any other address, as in the source. The assertion that the record must
exist, in the copy constructor, the destructor, the raw-address assignment
(gc_pointer.h:224) and the handle assignment, is a proof obligation here. It
is discharged from the invariant, not checked at run time. The decrements of
the destructor and of both assignments go through `DropRef`, whose
precondition, a live handle on the address, implies it under the invariant.

## Model

| member | source | states |
|---|---|---|
| GcDetails.NewDetails | gc_details.h:12-18 | a new record has count 1, the given address and size, and is an array exactly when the size is non-zero |
| GcDetails.DefaultSizeIsScalar | gc_details.h:12-16 | the default size 0 yields a scalar record with array size 0 |
| GcDetails.Same | gc_details.h:23-27 | definition: two records are equal when their addresses are equal |
| GcDetails.SameIgnoresMetadata | gc_details.h:23-27 | record equality is address equality, unaffected by count, array flag or array size |
| GcDetails.SameIsEquivalence | gc_details.h:24-27 | record equality is reflexive, symmetric and transitive |
| GcDetails.FreeOf | gc_pointer.h:192-193 | a record is freed at its own address, with `delete[]` exactly when it is an array |
| RefList.IndexOf | gc_pointer.h:298-311 | lookup returns a position at most the list length; below it, the record has the address and no earlier record does |
| RefList.IndexOfFirst | gc_pointer.h:304-310 | any position holding the address with no earlier match, or the end when none matches, is what lookup returns |
| RefList.IndexOfUnique | gc_pointer.h:304-308 | in a list without duplicates, looking up a record's address finds that record |
| RefList.IndexOfFound | gc_pointer.h:304-310 | lookup stops before the end exactly when the address is in the list |
| RefList.Acquire | gc_pointer.h:136 | definition: the count of the record lookup finds for the address rises by one; the list is unchanged when lookup finds none |
| RefList.AcquireEffect | gc_pointer.h:136 | incrementing keeps the length, every address and the array metadata, changes no other record, and raises the found record's count by one |
| RefList.Release | gc_pointer.h:169 | definition: the count of the record lookup finds for the address falls by one; the list is unchanged when lookup finds none or the count is 0 |
| RefList.ReleaseEffect | gc_pointer.h:169 | decrementing keeps the length, every address and the array metadata, changes no other record, and lowers a positive found count by one |
| RefList.Register | gc_pointer.h:130-137 | definition: increment the record lookup finds, or else put a fresh record for the address and size at the front |
| RefList.Sweep | gc_pointer.h:191-204 | definition: the records with non-zero count, in list order, which `remove_if` and `erase` keep |
| RefList.Garbage | gc_pointer.h:191-198 | definition: the records with count zero, in list order, which the predicate frees |
| RefList.ZeroAll | gc_pointer.h:318-322 | definition: every record's count set to zero, nothing else changed |
| RefList.CountIsLiveHandles | gc_pointer.h:164-167 | under the counting invariant, the count found for an address is its number of live handles, so the record a live handle needs always exists |
| RefList.EmptyHealthy | gc_pointer.h:112-117 | the initial empty list with no handles satisfies the registry invariant |
| RefList.UniqueSize | gc_pointer.h:101-103 | a duplicate-free list has as many records as distinct addresses |
| RefList.SameAddresses | gc_pointer.h:136 | changing only counts keeps the set of addresses, their uniqueness and every lookup result |
| RefList.PrependNew | gc_pointer.h:132-133 | inserting a record for an absent address at the front keeps addresses unique, adds that address, and shifts every other record by one |
| RefList.RegisterEffect | gc_pointer.h:130-137 | registering an address keeps addresses unique and adds exactly that address. Its count rises by one and no other count changes. A missing address gets a fresh record at the front; a present one leaves the length unchanged |
| RefList.RegisterCounted | gc_pointer.h:120-139 | binding one more handle to an address keeps the counting invariant |
| RefList.RegisterShape | gc_pointer.h:130-137 | registering creates no zero count and only records of the instantiation's size |
| RefList.ReleaseCounted | gc_pointer.h:164-169 | dropping a live handle keeps the counting invariant and the metadata. Its address's count falls by one, and every record for another address is unchanged |
| RefList.RegisterHealthy | gc_pointer.h:120-139 | constructing from a raw address keeps the whole registry invariant |
| RefList.DropHealthy | gc_pointer.h:159-177 | decrementing then collecting keeps the registry invariant and never lengthens the list |
| RefList.SelectAppend | gc_pointer.h:200-204 | the sweep distributes over concatenation, so survivors keep their relative order |
| RefList.SelectPartition | gc_pointer.h:191-204 | the sweep keeps exactly the non-zero records and frees exactly the zero ones; together the two are a permutation of the list |
| RefList.SelectUnique | gc_pointer.h:200-204 | the kept and the freed records are duplicate-free and add no address |
| RefList.SelectAll | gc_pointer.h:191-204 | when every record has the same liveness, the sweep keeps all of them or none |
| RefList.SweepIdle | gc_pointer.h:181-207 | `collect` on a list without zero counts changes nothing and frees nothing |
| RefList.SweepIdempotent | gc_pointer.h:181-207 | after `collect` no zero count remains, so an immediate second `collect` removes and frees nothing |
| RefList.SweepCounted | gc_pointer.h:181-207 | `collect` keeps the counting invariant and leaves no zero count |
| RefList.SweepUniform | gc_pointer.h:200-204 | `collect` never alters the metadata of the records it keeps |
| RefList.FreeLogAt | gc_pointer.h:191-198 | one deallocation is logged per freed record, in order, each in that record's form |
| RefList.FreedOnce | gc_pointer.h:191-204 | every freed address is freed once and had count zero. Its form matches its record, and it is absent from the list afterwards |
| RefList.SingleGarbage | gc_pointer.h:169-176 | a list with a single zero count frees just that record |
| RefList.LastHandleFreed | gc_pointer.h:159-177 | releasing the last handle on an address frees that one record, once, in its own form, and removes only its address |
| RefList.LastHandleDeletes | gc_pointer.h:159-177 | the last handle's release frees its address with `delete[]` exactly when the instantiation's size is non-zero |
| RefList.SweepDropsOne | gc_pointer.h:169-176 | if only one record went to zero, the sweep removes exactly its address |
| RefList.SharedHandleReleased | gc_pointer.h:159-177 | releasing one of several handles on an address frees nothing, and the count drops to the remaining handles |
| RefList.ZeroAllAt | gc_pointer.h:318-322 | forcing counts to zero keeps every record's position, address and metadata |
| RefList.ShutdownFreesAll | gc_pointer.h:313-324 | after the counts are forced to zero, `collect` frees every record once, in list order and each in its own form, and leaves the list empty |
| GcPointer.RefContainer.constructor | gc_pointer.h:112-117 | static initialisation: an empty list, `first` set, no handles, nothing freed |
| GcPointer.RefContainer.FindPtrInfo | gc_pointer.h:298-311 | the loop returns the first position holding the address, or the end, and changes nothing |
| GcPointer.RefContainer.AddRef | gc_pointer.h:130-137 | increment the found record or insert a fresh one at the front, keeping the invariant |
| GcPointer.RefContainer.IncRef | gc_pointer.h:151-155 | the record of a live address is found and only its count rises by one; the length is unchanged |
| GcPointer.RefContainer.DropRef | gc_pointer.h:164-176 | the record is found, decremented and collected, with the frees logged. The invariant is kept and the list never grows |
| GcPointer.RefContainer.RefContainerSize | gc_pointer.h:101-103 | definition: the number of records in the list |
| GcPointer.SizeCountsAllocations | gc_pointer.h:101-103 | under the invariant, `refContainerSize` is the number of distinct addresses held by live handles |
| GcPointer.RefContainer.Collect | gc_pointer.h:181-207 | the loop leaves the sweep of the list and logs one free per zero record in order. It reports true exactly when something was freed, and does nothing on a list that satisfies the invariant |
| GcPointer.RefContainer.Shutdown | gc_pointer.h:313-324 | every record is freed in list order, each in its own form. The list is empty, no handle is counted, and the invariant holds |
| GcPointer.EmptyRegistry | gc_pointer.h:316-317 | on an empty list no handle is live and shutdown frees nothing |
| GcPointer.RefContainer.ReleaseAll | gc_pointer.h:318-323 | on a non-empty list, zeroing every count and collecting frees every record and empties the list |
| GcPointer.ZeroCounts | gc_pointer.h:318-322 | the loop sets every count to zero and changes nothing else |
| GcPointer.Pointer.constructor | gc_pointer.h:119-139 | the handle takes the address and the instantiation's array metadata. `atexit` is registered once, `first` becomes false, and the address is registered; the invariant holds |
| GcPointer.Pointer.Copy | gc_pointer.h:141-156 | the copy takes the source's three fields, and the existing record's count rises by one. No record is added, and both handles stay bound |
| GcPointer.Pointer.Destroy | gc_pointer.h:158-177 | the handle's record is decremented and collected, the frees are logged, and the invariant holds |
| GcPointer.Pointer.AssignRaw | gc_pointer.h:209-242 | the same address changes nothing. Otherwise the old record is released and collected before the new address is registered. The operator returns the new address, and the array metadata is unchanged |
| GcPointer.Pointer.Assign | gc_pointer.h:244-275 | the same address changes nothing. Otherwise the old record is released and collected, and then the other handle's existing record is incremented; the list never grows |
| GcPointer.Pointer.Extent | gc_pointer.h:82-86 | definition: the element count `begin` and `end` use, `arraySize` for an array and 1 otherwise |
| GcPointer.Pointer.Begin | gc_pointer.h:81-88 | definition: an iterator at `addr` over the range from `addr` to `addr` plus the extent |
| GcPointer.Pointer.End | gc_pointer.h:91-98 | definition: an iterator one past the last element, over the same range |
| GcPointer.RangeMatchesRecord | gc_pointer.h:80-98 | `begin` and `end` share the range bounds. `begin` sits at `addr` and `end` one past the last element, and the range spans the element count of the handle's record |
| Demo.MainScenario | main.cpp:11-37 | the driver's commented counts: 4 on `ptr` after the declarations, 5 after `e = d`, which frees the temporary with `delete`, then 4 on `ptr` and 1 on `ptr2` in two records |
| Demo.Declared | main.cpp:11-20 | two raw constructions and two copies give one record, counted 1, 2, 3 and then 4 times as the driver's comments say |
| Demo.TemporaryFreed | main.cpp:25-28 | the temporary's record goes to the front, `e = d` frees it with `delete`, and the shared record reaches 5 |
| Demo.Rebound | main.cpp:36-37 | `b = ptr2` frees nothing, leaves `ptr` at 4, and puts a record for `ptr2` at the front |
| Demo.ArrayScenario | gc_pointer.h:81-193 | a handle of a size-5 instantiation spans five elements, and destroying it frees the array with `delete[]` |
| Demo.SharedScenario | gc_pointer.h:141-177 | a copy shares the record; destroying it frees nothing, and destroying the last handle frees the allocation once |
| Demo.SelfAssignScenario | main.cpp:30-34 | `c = b` and `b = ptr` between two handles on one address leave the list and the count of 2 as they were |
| Demo.ExitScenario | gc_pointer.h:313-324 | shutdown with two handles still bound frees both, front record first, and empties the list |

## Left out

- `showlist` (gc_pointer.h:278-296) is left out. It only writes diagnostics to the console.
- The `atexit` call itself is a foreign process-exit hook. It is represented by the ghost counter `exitHooks`, and `Shutdown` is an ordinary method a caller invokes.
- `operator*`, `operator->`, `operator[]` and `operator T*` only dereference or return `addr`. Memory contents are not modelled, and addresses are abstract.
- `Iter<T>` is defined in gc_iterator.h, which is not part of this model. `Begin` and `End` return only the three addresses that `begin()` and `end()` pass to it.
- The default constructor `Pointer()` builds and destroys a temporary `Pointer(NULL)`. It leaves its own fields uninitialised and registers nothing, so it has no counterpart here.
- The registries of distinct template instantiations are separate `RefContainer` objects. The model does not relate two instantiations.
- Handles still alive when `shutdown` runs are abandoned, and the model drops them from `live`. Their later destruction, which the source would perform on an empty list, is not modelled.
- Reference counts are unbounded naturals. Wrap-around of the `unsigned` `refcount` below zero cannot occur, because between operations a count is at least 1. Wrap-around past `UINT_MAX`, which needs 2^32 live handles on one address and would let `collect` free an allocation still in use, is not modelled.
- `begin` and `end` copy `arraySize` into an `int`. Truncation of sizes above `INT_MAX` is not modelled.
- The copy constructor (gc_pointer.h:151-155) asserts that the record exists and only increments it. It does not register the address as a fresh entry, and the model follows that code.
- The driver program's scenario is stated over the list functions, not by running its five handles through the class methods. Each handle method's postcondition is exactly the list function used there.
