/** The two spin locks of the memory allocators and the operations on them, as a history. */
module Sync {
  datatype LockName = Allocator | Heap
  datatype Act = Acquire(lock: LockName) | Release(lock: LockName)
  datatype Trace = Start | Then(before: Trace, act: Act)

  /** One page operation: alloc_pages, incr_page_ref_count or dealloc_pages. */
  function HeapCall(t: Trace): Trace {
    Then(Then(t, Acquire(Heap)), Release(Heap))
  }

  /** One malloc or free, with or without a page operation inside. */
  function AllocatorCall(t: Trace, pages: bool): Trace {
    var inside := Then(t, Acquire(Allocator));
    Then(if pages then HeapCall(inside) else inside, Release(Allocator))
  }
}
