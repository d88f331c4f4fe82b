/**
 * The paged LIFO stack of search/similarity.go (`Stack`).
 *
 * Elements live in fixed-size pages. The bookkeeping fields (`size`, `offset`,
 * `currentPageIndex`, `capacity` and the number of pages) are first modelled as
 * a value, `Cursor`, with functions for what Push and Pop do to them; the class
 * `Stack` then keeps real pages (arrays) and is proved against those functions.
 *
 * Two functions model the source as written and are used only to exhibit its
 * defects: `PopCursorAsWritten` (Pop lowers `capacity` by one page while it
 * truncates the page list to `currentPageIndex+1` pages) and `TopSlotAsWritten`
 * (Top reads the last allocated page when `offset == 0`). The class uses the
 * corrected `PopCursor` and `TopSlot`.
 */
module PagedStack {
  import opened Wrappers

  /** Page size of NewStack. */
  const DefaultPageSize: int := 4096

  /** The bookkeeping of a stack; `pageCount` stands for `len(pages)`. */
  datatype Cursor = Cursor(size: int, offset: int, pageIndex: int, capacity: int, pageCount: int)

  /** The bookkeeping of a new stack: one empty page. */
  function Initial(pageSize: int): Cursor {
    Cursor(0, 0, 0, pageSize, 1)
  }

  /** Position invariant: `size == currentPageIndex*pageSize + offset`, the
      current page exists and `offset` lies within it. */
  predicate Positioned(c: Cursor, pageSize: int) {
    && pageSize > 0
    && 0 <= c.offset <= pageSize
    && 0 <= c.pageIndex < c.pageCount
    && c.size == c.pageIndex * pageSize + c.offset
  }

  /** Capacity invariant: `capacity` counts exactly the slots of the allocated pages. */
  predicate Honest(c: Cursor, pageSize: int) {
    c.capacity == c.pageCount * pageSize
  }

  /** a*k + j < b*k when a < b and j < k: slot `j` of page `a` precedes page `b`. */
  lemma {:induction false} SlotOrder(a: int, b: int, j: int, k: int)
    requires 0 <= a < b && 0 <= j < k
    ensures a * k + j < b * k
    decreases b - a
  {
    if a + 1 < b {
      SlotOrder(a + 1, b, 0, k);
    }
    assert (a + 1) * k == a * k + k;
  }

  /** Appending `count` empty pages, one at a time. */
  function AllocPages(c: Cursor, count: nat, pageSize: int): (r: Cursor)
    ensures r == c.(pageCount := c.pageCount + count, capacity := c.capacity + count * pageSize)
    decreases count
  {
    if count == 0 then c
    else
      var r := AllocPages(c.(pageCount := c.pageCount + 1, capacity := c.capacity + pageSize), count - 1, pageSize);
      assert count * pageSize == (count - 1) * pageSize + pageSize;
      r
  }

  /** Number of pages Push allocates for `n` elements: `n / pageSize`, rounded up. */
  function PagesFor(n: int, pageSize: int): (pages: nat)
    requires n >= 0 && pageSize > 0
    ensures pages * pageSize >= n
    ensures pages * pageSize < n + pageSize
  {
    var q := n / pageSize;
    assert n == q * pageSize + n % pageSize;
    assert (q + 1) * pageSize == q * pageSize + pageSize;
    q + (if n % pageSize != 0 then 1 else 0)
  }

  /** Allocation step of Push: new pages only when `size+n` exceeds `capacity`. */
  function Allocate(c: Cursor, n: int, pageSize: int): Cursor
    requires n >= 0 && pageSize > 0
  {
    if c.size + n > c.capacity then AllocPages(c, PagesFor(n, pageSize), pageSize) else c
  }

  /** Copy step of Push: fills the current page, then moves to the next page while
      elements remain. `None` when the next page is not in the page list (the
      source indexes past `pages` there). */
  function Copy(c: Cursor, n: int, pageSize: int): Option<Cursor>
    requires pageSize > 0 && 0 <= c.offset <= pageSize
    decreases n, if c.offset == pageSize then 1 else 0
  {
    if n <= 0 then Some(c)
    else
      var m := if pageSize - c.offset < n then pageSize - c.offset else n;
      var filled := c.(offset := c.offset + m);
      if n - m > 0 then
        if filled.pageIndex + 1 < filled.pageCount then
          Copy(filled.(pageIndex := filled.pageIndex + 1, offset := 0), n - m, pageSize)
        else None
      else Some(filled)
  }

  /** What Push of `n` elements does to the bookkeeping. */
  function PushCursor(c: Cursor, n: int, pageSize: int): Option<Cursor>
    requires n >= 0 && pageSize > 0 && 0 <= c.offset <= pageSize
  {
    if n == 0 then Some(c)
    else Copy(Allocate(c, n, pageSize).(size := c.size + n), n, pageSize)
  }

  /** Pop as the source writes it: on a page boundary it truncates the page list to
      `currentPageIndex+1` pages but lowers `capacity` by a single page. */
  function PopCursorAsWritten(c: Cursor, pageSize: int): Cursor
    requires Positioned(c, pageSize)
  {
    if c.size == 0 then c
    else if c.offset - 1 < 0 then
      Cursor(c.size - 1, pageSize - 1, c.pageIndex - 1, c.capacity - pageSize, c.pageIndex + 1)
    else c.(size := c.size - 1, offset := c.offset - 1)
  }

  /** Pop with the capacity recomputed from the truncated page list. */
  function PopCursor(c: Cursor, pageSize: int): Cursor
    requires Positioned(c, pageSize)
  {
    if c.size == 0 then c
    else if c.offset - 1 < 0 then
      Cursor(c.size - 1, pageSize - 1, c.pageIndex - 1, (c.pageIndex + 1) * pageSize, c.pageIndex + 1)
    else c.(size := c.size - 1, offset := c.offset - 1)
  }

  /** The slot (page*pageSize + index) that Top reads, as the source writes it. */
  function TopSlotAsWritten(c: Cursor, pageSize: int): int
    requires Positioned(c, pageSize) && c.size > 0
  {
    if c.offset - 1 < 0 then (c.pageCount - 1) * pageSize + (pageSize - 1)
    else c.pageIndex * pageSize + (c.offset - 1)
  }

  /** The slot Top and Pop should read: the last slot of the previous page when
      the current one is empty. It is always the slot of the top element. */
  function TopSlot(c: Cursor, pageSize: int): (slot: int)
    requires Positioned(c, pageSize) && c.size > 0
    ensures slot == c.size - 1
  {
    if c.offset - 1 < 0 then
      assert c.pageIndex * pageSize == (c.pageIndex - 1) * pageSize + pageSize;
      (c.pageIndex - 1) * pageSize + (pageSize - 1)
    else c.pageIndex * pageSize + (c.offset - 1)
  }

  /** The copy loop keeps the position invariant, whatever the capacity says. */
  lemma {:induction false} CopyPositioned(c: Cursor, n: int, pageSize: int)
    requires pageSize > 0 && 0 <= c.offset <= pageSize && 0 <= c.pageIndex < c.pageCount && n >= 0
    ensures Copy(c, n, pageSize).Some? ==>
      var r := Copy(c, n, pageSize).value;
      && r.size == c.size && r.capacity == c.capacity && r.pageCount == c.pageCount
      && 0 <= r.offset <= pageSize && 0 <= r.pageIndex < r.pageCount
      && r.pageIndex * pageSize + r.offset == c.pageIndex * pageSize + c.offset + n
    decreases n, if c.offset == pageSize then 1 else 0
  {
    if n > 0 {
      var m := if pageSize - c.offset < n then pageSize - c.offset else n;
      var filled := c.(offset := c.offset + m);
      if n - m > 0 && filled.pageIndex + 1 < filled.pageCount {
        var next := filled.(pageIndex := filled.pageIndex + 1, offset := 0);
        CopyPositioned(next, n - m, pageSize);
        assert (c.pageIndex + 1) * pageSize == c.pageIndex * pageSize + pageSize;
      }
    }
  }

  /** The copy loop never leaves the page list when the pages have room for the
      elements still to copy. */
  lemma {:induction false} CopyFits(c: Cursor, n: int, pageSize: int)
    requires pageSize > 0 && 0 <= c.offset <= pageSize && 0 <= c.pageIndex < c.pageCount && n >= 0
    requires c.pageIndex * pageSize + c.offset + n <= c.pageCount * pageSize
    ensures Copy(c, n, pageSize).Some?
    decreases n, if c.offset == pageSize then 1 else 0
  {
    if n > 0 {
      var m := if pageSize - c.offset < n then pageSize - c.offset else n;
      var filled := c.(offset := c.offset + m);
      if n - m > 0 {
        assert (c.pageIndex + 1) * pageSize == c.pageIndex * pageSize + pageSize;
        if c.pageIndex + 1 >= c.pageCount {
          if c.pageIndex + 1 > c.pageCount {
            SlotOrder(c.pageCount, c.pageIndex + 1, 0, pageSize);
          }
          assert false;
        }
        CopyFits(filled.(pageIndex := filled.pageIndex + 1, offset := 0), n - m, pageSize);
      }
    }
  }

  /** Push as the source writes it keeps the position invariant when it succeeds. */
  lemma PushPositioned(c: Cursor, n: int, pageSize: int)
    requires Positioned(c, pageSize) && n >= 0
    ensures PushCursor(c, n, pageSize).Some? ==>
      var r := PushCursor(c, n, pageSize).value;
      Positioned(r, pageSize) && r.size == c.size + n
  {
    if n > 0 {
      var a := Allocate(c, n, pageSize).(size := c.size + n);
      CopyPositioned(a, n, pageSize);
    }
  }

  /** Under both invariants the stack holds no more than its capacity. */
  lemma SizeWithinCapacity(c: Cursor, pageSize: int)
    requires Positioned(c, pageSize) && Honest(c, pageSize)
    ensures c.size <= c.capacity
  {
    assert c.pageIndex * pageSize + pageSize == (c.pageIndex + 1) * pageSize;
    if c.pageIndex + 1 < c.pageCount {
      SlotOrder(c.pageIndex + 1, c.pageCount, 0, pageSize);
    }
  }

  /** Allocation leaves room for the pushed elements and keeps the capacity honest. */
  lemma AllocateRoom(c: Cursor, n: int, pageSize: int)
    requires Positioned(c, pageSize) && Honest(c, pageSize) && n >= 0
    ensures var a := Allocate(c, n, pageSize);
      && Honest(a, pageSize) && c.size + n <= a.capacity
      && a.size == c.size && a.offset == c.offset && a.pageIndex == c.pageIndex
      && a.pageCount >= c.pageCount
  {
    SizeWithinCapacity(c, pageSize);
    if c.size + n > c.capacity {
      var k := PagesFor(n, pageSize);
      assert (c.pageCount + k) * pageSize == c.pageCount * pageSize + k * pageSize;
    }
  }

  /** With an honest capacity Push always stays within the page list, and keeps
      both invariants. */
  lemma PushSafe(c: Cursor, n: int, pageSize: int)
    requires Positioned(c, pageSize) && Honest(c, pageSize) && n >= 0
    ensures PushCursor(c, n, pageSize).Some?
    ensures var r := PushCursor(c, n, pageSize).value;
      Positioned(r, pageSize) && Honest(r, pageSize) && r.size == c.size + n
  {
    if n > 0 {
      AllocateRoom(c, n, pageSize);
      var a := Allocate(c, n, pageSize).(size := c.size + n);
      assert a.pageIndex * pageSize + a.offset + n <= a.pageCount * pageSize;
      CopyFits(a, n, pageSize);
      CopyPositioned(a, n, pageSize);
    }
  }

  /** The corrected Pop keeps both invariants and removes exactly one element. */
  lemma PopSafe(c: Cursor, pageSize: int)
    requires Positioned(c, pageSize) && Honest(c, pageSize)
    ensures var r := PopCursor(c, pageSize);
      Positioned(r, pageSize) && Honest(r, pageSize) && r.size == if c.size == 0 then 0 else c.size - 1
  {
    if c.size > 0 && c.offset == 0 {
      assert c.pageIndex * pageSize == (c.pageIndex - 1) * pageSize + pageSize;
    }
  }

  /** Pop as written keeps the position invariant: its defect is confined to `capacity`. */
  lemma PopAsWrittenPositioned(c: Cursor, pageSize: int)
    requires Positioned(c, pageSize)
    ensures var r := PopCursorAsWritten(c, pageSize);
      Positioned(r, pageSize) && r.size == if c.size == 0 then 0 else c.size - 1
  {
    if c.size > 0 && c.offset == 0 {
      assert c.pageIndex * pageSize == (c.pageIndex - 1) * pageSize + pageSize;
    }
  }

  /** A sequence of stack operations: a Push of `n` elements, or a Pop. */
  datatype Op = PushN(n: nat) | PopOne

  /** Runs `ops` on the bookkeeping; `None` when a Push leaves the page list.
      `fixedPop` selects the corrected Pop instead of the one as written. */
  function Replay(c: Cursor, ops: seq<Op>, pageSize: int, fixedPop: bool): Option<Cursor>
    requires Positioned(c, pageSize)
    decreases |ops|
  {
    if ops == [] then Some(c)
    else match ops[0]
      case PushN(n) =>
        PushPositioned(c, n, pageSize);
        var pushed := PushCursor(c, n, pageSize);
        if pushed.None? then None else Replay(pushed.value, ops[1..], pageSize, fixedPop)
      case PopOne =>
        PopAsWrittenPositioned(c, pageSize);
        if fixedPop && Honest(c, pageSize) then
          PopSafe(c, pageSize);
          Replay(PopCursor(c, pageSize), ops[1..], pageSize, fixedPop)
        else
          Replay(PopCursorAsWritten(c, pageSize), ops[1..], pageSize, fixedPop)
  }

  /** With the corrected Pop, no sequence of operations ever makes Push leave the page list. */
  lemma {:induction false} ReplayFixedNeverFails(c: Cursor, ops: seq<Op>, pageSize: int)
    requires Positioned(c, pageSize) && Honest(c, pageSize)
    ensures Replay(c, ops, pageSize, true).Some?
    decreases |ops|
  {
    if ops != [] {
      match ops[0]
      case PushN(n) =>
        PushSafe(c, n, pageSize);
        ReplayFixedNeverFails(PushCursor(c, n, pageSize).value, ops[1..], pageSize);
      case PopOne =>
        PopSafe(c, pageSize);
        ReplayFixedNeverFails(PopCursor(c, pageSize), ops[1..], pageSize);
    }
  }

  /** Replaying `a + b` replays `a`, then `b` from where `a` stopped. */
  lemma {:induction false} ReplayConcat(c: Cursor, a: seq<Op>, b: seq<Op>, pageSize: int, fixedPop: bool)
    requires Positioned(c, pageSize)
    ensures Replay(c, a, pageSize, fixedPop).Some? ==>
      Positioned(Replay(c, a, pageSize, fixedPop).value, pageSize) &&
      Replay(c, a + b, pageSize, fixedPop) == Replay(Replay(c, a, pageSize, fixedPop).value, b, pageSize, fixedPop)
    ensures Replay(c, a, pageSize, fixedPop).None? ==> Replay(c, a + b, pageSize, fixedPop).None?
    decreases |a|
  {
    if a != [] {
      assert (a + b)[0] == a[0] && (a + b)[1..] == a[1..] + b;
      PopAsWrittenPositioned(c, pageSize);
      match a[0]
      case PushN(n) =>
        PushPositioned(c, n, pageSize);
        if PushCursor(c, n, pageSize).Some? {
          ReplayConcat(PushCursor(c, n, pageSize).value, a[1..], b, pageSize, fixedPop);
        }
      case PopOne =>
        if fixedPop && Honest(c, pageSize) {
          PopSafe(c, pageSize);
          ReplayConcat(PopCursor(c, pageSize), a[1..], b, pageSize, fixedPop);
        } else {
          ReplayConcat(PopCursorAsWritten(c, pageSize), a[1..], b, pageSize, fixedPop);
        }
    } else {
      assert a + b == b;
    }
  }

  /** Capacity bound kept by single-element pushes and by Pop as written: capacity
      never exceeds the slots of the allocated pages, nor those of two pages past
      the current one. */
  predicate Slack(c: Cursor, pageSize: int) {
    c.capacity <= c.pageCount * pageSize && c.capacity <= (c.pageIndex + 2) * pageSize
  }

  /** Allocation for one element keeps the slack bound, and leaves a next page
      whenever the current one is full. */
  lemma AllocateOne(c: Cursor, pageSize: int)
    requires Positioned(c, pageSize) && Slack(c, pageSize)
    ensures var a := Allocate(c, 1, pageSize);
      && a.size == c.size && a.offset == c.offset && a.pageIndex == c.pageIndex
      && a.pageCount >= c.pageCount && Slack(a, pageSize)
      && (c.offset == pageSize ==> a.pageIndex + 1 < a.pageCount)
  {
    var k := PagesFor(1, pageSize);
    assert k == 1 by {
      assert k >= 2 ==> k * pageSize >= 2 * pageSize;
    }
    assert (c.pageIndex + 1) * pageSize == c.pageIndex * pageSize + pageSize;
    assert (c.pageIndex + 2) * pageSize == c.pageIndex * pageSize + 2 * pageSize;
    assert (c.pageCount + 1) * pageSize == c.pageCount * pageSize + pageSize;
    if c.offset == pageSize && c.size + 1 <= c.capacity {
      assert c.pageCount * pageSize > (c.pageIndex + 1) * pageSize;
      assert c.pageCount <= c.pageIndex + 1 ==> c.pageCount * pageSize <= (c.pageIndex + 1) * pageSize;
    }
  }

  /** Copying one element fills the next slot of the current page, or the first
      slot of the next page when the current one is full; either way the position
      and the slack bound hold again. */
  lemma CopyOne(a: Cursor, pageSize: int)
    requires pageSize > 0 && 0 <= a.offset <= pageSize && 0 <= a.pageIndex < a.pageCount
    requires a.offset == pageSize ==> a.pageIndex + 1 < a.pageCount
    requires a.size == a.pageIndex * pageSize + a.offset + 1 && Slack(a, pageSize)
    ensures Copy(a, 1, pageSize).Some?
    ensures var r := Copy(a, 1, pageSize).value;
      Positioned(r, pageSize) && Slack(r, pageSize) && r.size == a.size
  {
    if a.offset == pageSize {
      var r := a.(pageIndex := a.pageIndex + 1, offset := 1);
      assert Copy(a, 1, pageSize) == Some(r);
      assert r.size == r.pageIndex * pageSize + r.offset by {
        assert (a.pageIndex + 1) * pageSize == a.pageIndex * pageSize + pageSize;
      }
      assert r.capacity <= (r.pageIndex + 2) * pageSize by {
        assert (a.pageIndex + 3) * pageSize == (a.pageIndex + 2) * pageSize + pageSize;
      }
    } else {
      assert Copy(a, 1, pageSize) == Some(a.(offset := a.offset + 1));
    }
  }

  /** Push of one element stays within the page list and keeps the slack bound. */
  lemma PushOneSlack(c: Cursor, pageSize: int)
    requires Positioned(c, pageSize) && Slack(c, pageSize)
    ensures PushCursor(c, 1, pageSize).Some?
    ensures var r := PushCursor(c, 1, pageSize).value;
      Positioned(r, pageSize) && Slack(r, pageSize) && r.size == c.size + 1
  {
    AllocateOne(c, pageSize);
    var a := Allocate(c, 1, pageSize).(size := c.size + 1);
    CopyOne(a, pageSize);
  }

  /** Pop as written keeps the slack bound. */
  lemma PopAsWrittenSlack(c: Cursor, pageSize: int)
    requires Positioned(c, pageSize) && Slack(c, pageSize)
    ensures Slack(PopCursorAsWritten(c, pageSize), pageSize)
  {
    if c.size > 0 && c.offset == 0 {
      assert (c.pageIndex + 2) * pageSize == (c.pageIndex + 1) * pageSize + pageSize;
    }
  }

  /** Every Push in `ops` pushes a single element. */
  predicate SinglePushes(ops: seq<Op>) {
    forall i :: 0 <= i < |ops| && ops[i].PushN? ==> ops[i].n == 1
  }

  /** Under the slack bound, pushes of one element and Pops as written never make
      Push leave the page list. */
  lemma {:induction false} ReplaySinglePushes(c: Cursor, ops: seq<Op>, pageSize: int)
    requires Positioned(c, pageSize) && Slack(c, pageSize) && SinglePushes(ops)
    ensures Replay(c, ops, pageSize, false).Some?
    decreases |ops|
  {
    if ops != [] {
      assert SinglePushes(ops[1..]) by {
        forall i | 0 <= i < |ops[1..]| && ops[1..][i].PushN? ensures ops[1..][i].n == 1 {
          assert ops[1..][i] == ops[i + 1];
        }
      }
      match ops[0]
      case PushN(n) =>
        assert n == 1;
        PushOneSlack(c, pageSize);
        ReplaySinglePushes(PushCursor(c, n, pageSize).value, ops[1..], pageSize);
      case PopOne =>
        PopAsWrittenPositioned(c, pageSize);
        PopAsWrittenSlack(c, pageSize);
        ReplaySinglePushes(PopCursorAsWritten(c, pageSize), ops[1..], pageSize);
    }
  }

  /** From a new stack, single-element pushes and Pops as written never make Push
      leave the page list: the capacity defect of Pop only shows with pushes of
      several elements. */
  lemma SinglePushesNeverFail(ops: seq<Op>, pageSize: int)
    requires pageSize > 0 && SinglePushes(ops)
    ensures Replay(Initial(pageSize), ops, pageSize, false).Some?
  {
    ReplaySinglePushes(Initial(pageSize), ops, pageSize);
  }

  /** The stack itself. Slots never written hold `None` (Go's nil). Slot `j` of page
      `p` holds element `p*pageSize + j` of `Contents` for every element below `size`. */
  class Stack<T> {
    var size: int
    var currentPage: array<Option<T>>
    var pages: seq<array<Option<T>>>
    var offset: int
    var capacity: int
    var pageSize: int
    var currentPageIndex: int

    /** The elements, bottom first. */
    ghost var Contents: seq<T>
    ghost var Repr: set<object>

    /** The bookkeeping fields as a Cursor. */
    function Position(): Cursor
      reads this
    {
      Cursor(size, offset, currentPageIndex, capacity, |pages|)
    }

    /** Element `k` (below `n`) sits in slot `k % pageSize` of page `k / pageSize`. */
    ghost predicate Stores(n: int)
      reads this, pages
    {
      forall p, j :: 0 <= p < |pages| && 0 <= j < pageSize && p * pageSize + j < n && p * pageSize + j < |Contents| ==>
        pages[p].Length == pageSize && pages[p][j] == Some(Contents[p * pageSize + j])
    }

    /** Shape of the page list: owned, distinct pages of `pageSize` slots. */
    ghost predicate PagesOwned()
      reads this
    {
      && this in Repr
      && (forall p :: 0 <= p < |pages| ==> pages[p] in Repr && pages[p].Length == pageSize)
      && (forall p, q :: 0 <= p < q < |pages| ==> pages[p] != pages[q])
    }

    ghost predicate Valid()
      reads this, Repr
    {
      && PagesOwned()
      && Positioned(Position(), pageSize)
      && Honest(Position(), pageSize)
      && currentPage == pages[currentPageIndex]
      && |Contents| == size
      && Stores(size)
    }

    /** NewStackWithCapacity: one page of `cap` slots. The source's Push divides by
        the page size, so a page size of 0 is excluded. */
    constructor WithCapacity(cap: int)
      requires cap > 0
      ensures Valid() && fresh(Repr)
      ensures Contents == [] && pageSize == cap && Position() == Initial(cap)
    {
      var page := new Option<T>[cap](_ => None);
      currentPage := page;
      pages := [page];
      offset := 0;
      capacity := cap;
      pageSize := cap;
      size := 0;
      currentPageIndex := 0;
      Contents := [];
      Repr := {this, page};
    }

    /** NewStack: one page of DefaultPageSize slots. */
    constructor ()
      ensures Valid() && fresh(Repr)
      ensures Contents == [] && pageSize == DefaultPageSize && Position() == Initial(DefaultPageSize)
    {
      var page := new Option<T>[DefaultPageSize](_ => None);
      currentPage := page;
      pages := [page];
      offset := 0;
      capacity := DefaultPageSize;
      pageSize := DefaultPageSize;
      size := 0;
      currentPageIndex := 0;
      Contents := [];
      Repr := {this, page};
    }

    /** Size: the number of elements. */
    function Size(): (n: int)
      requires Valid()
      reads this, Repr
      ensures n == |Contents|
    {
      size
    }

    /** Push: appends `elems` in order (the last one ends on top), allocating
        whole pages first when `size+|elems|` exceeds `capacity`. */
    method Push(elems: seq<T>)
      requires Valid()
      modifies Repr
      ensures Valid() && fresh(Repr - old(Repr))
      ensures pageSize == old(pageSize)
      ensures Contents == old(Contents) + elems
      ensures PushCursor(old(Position()), |elems|, pageSize) == Some(Position())
    {
      if |elems| == 0 {
        return;
      }
      Reserve(elems);
      assert Contents[size - |elems|..] == elems;
      CopyIn(elems);
    }

    /** The first half of Push: allocates the pages `elems` need and counts them
        in `size` and `Contents`, before they are copied. */
    method Reserve(elems: seq<T>)
      requires Valid() && |elems| > 0
      modifies this
      ensures fresh(Repr - old(Repr)) && pageSize == old(pageSize)
      ensures ReadyToCopy(|elems|) && Contents == old(Contents) + elems
      ensures Position() == Allocate(old(Position()), |elems|, pageSize).(size := old(size) + |elems|)
      ensures Copy(Position(), |elems|, pageSize).Some?
    {
      PushSafe(Position(), |elems|, pageSize);
      if size + |elems| > capacity {
        var newPages := |elems| / pageSize;
        if |elems| % pageSize != 0 {
          newPages := newPages + 1;
        }
        AddPages(newPages);
      }
      size := size + |elems|;
      Contents := Contents + elems;
    }

    /** The allocation loop of Push: appends `count` empty pages. */
    method AddPages(count: int)
      requires Valid() && count >= 0
      modifies this
      ensures Valid() && fresh(Repr - old(Repr))
      ensures Contents == old(Contents) && pageSize == old(pageSize)
      ensures Position() == AllocPages(old(Position()), count, pageSize)
    {
      var newPages := count;
      while newPages > 0
        invariant 0 <= newPages <= count
        invariant Valid() && fresh(Repr - old(Repr))
        invariant Contents == old(Contents) && pageSize == old(pageSize)
        invariant AllocPages(Position(), newPages, pageSize) == AllocPages(old(Position()), count, pageSize)
      {
        AddPage();
        newPages := newPages - 1;
      }
    }

    /** One round of the allocation loop: a new empty page at the end. */
    method AddPage()
      requires Valid()
      modifies this
      ensures Valid() && fresh(Repr - old(Repr))
      ensures Contents == old(Contents) && pageSize == old(pageSize)
      ensures Position() == old(Position()).(pageCount := old(|pages|) + 1, capacity := old(capacity) + pageSize)
    {
      var page := new Option<T>[pageSize](_ => None);
      ghost var n := |pages|;
      assert n * pageSize + pageSize == (n + 1) * pageSize;
      assert n * pageSize >= size by {
        SizeWithinCapacity(Position(), pageSize);
      }
      Repr := Repr + {page};
      pages := pages + [page];
      capacity := capacity + page.Length;
      assert PagesOwned();
      assert Positioned(Position(), pageSize);
      assert Stores(size);
    }

    /** Push's state once `size` and `Contents` already count the `n` new elements
        but before they are copied into the pages. */
    ghost predicate ReadyToCopy(n: int)
      reads this, Repr
    {
      && PagesOwned()
      && Honest(Position(), pageSize)
      && 0 <= currentPageIndex < |pages| && currentPage == pages[currentPageIndex]
      && 0 <= offset <= pageSize && pageSize > 0
      && 0 <= n <= size == |Contents|
      && currentPageIndex * pageSize + offset == size - n
      && Stores(size - n)
    }

    /** The copy loop of Push: fills the current page, then moves to the next one. */
    method CopyIn(elems: seq<T>)
      requires ReadyToCopy(|elems|) && Contents[size - |elems|..] == elems
      requires Copy(Position(), |elems|, pageSize).Some?
      modifies this, Repr
      ensures Valid() && Repr == old(Repr)
      ensures Contents == old(Contents) && pageSize == old(pageSize)
      ensures Copy(old(Position()), |elems|, pageSize) == Some(Position())
    {
      var rest := elems;
      while |rest| > 0
        invariant ReadyToCopy(|rest|) && Contents[size - |rest|..] == rest
        invariant Repr == old(Repr) && Contents == old(Contents) && pageSize == old(pageSize)
        invariant Copy(Position(), |rest|, pageSize) == Copy(old(Position()), |elems|, pageSize)
        invariant Copy(Position(), |rest|, pageSize).Some?
        decreases |rest|, if offset == pageSize then 1 else 0
      {
        rest := CopyChunk(rest);
      }
      assert Positioned(Position(), pageSize);
    }

    /** One round of the copy loop: as much of `rest` as fits into the current page,
        then a move to the next page if elements remain. */
    method CopyChunk(rest: seq<T>) returns (left: seq<T>)
      requires |rest| > 0 && ReadyToCopy(|rest|) && Contents[size - |rest|..] == rest
      requires Copy(Position(), |rest|, pageSize).Some?
      modifies this, currentPage
      ensures ReadyToCopy(|left|) && Contents[size - |left|..] == left
      ensures Repr == old(Repr) && Contents == old(Contents) && pageSize == old(pageSize)
      ensures Copy(Position(), |left|, pageSize) == Copy(old(Position()), |rest|, pageSize)
      ensures |left| < |rest| || (|left| == |rest| && old(offset) == pageSize && offset < pageSize)
    {
      var available := currentPage.Length - offset;
      var m := |rest|;
      if available < m {
        m := available;
      }
      ghost var pos := Position();
      WritePage(rest[..m]);
      left := rest[m..];
      offset := offset + m;
      if |left| > 0 {
        assert pos.pageIndex + 1 < pos.pageCount;
        currentPage := pages[currentPageIndex + 1];
        currentPageIndex := currentPageIndex + 1;
        offset := 0;
        assert currentPageIndex * pageSize == (currentPageIndex - 1) * pageSize + pageSize;
      }
    }

    /** One `copy` into the current page: `chunk` goes to the slots from `offset` on. */
    method WritePage(chunk: seq<T>)
      requires ReadyToCopy(size - currentPageIndex * pageSize - offset)
      requires offset + |chunk| <= pageSize
      requires currentPageIndex * pageSize + offset + |chunk| <= size
      requires Contents[currentPageIndex * pageSize + offset..][..|chunk|] == chunk
      modifies currentPage
      ensures Stores(currentPageIndex * pageSize + offset + |chunk|)
    {
      ghost var before := currentPageIndex * pageSize + offset;
      label L:
      forall j | 0 <= j < |chunk| {
        currentPage[offset + j] := Some(chunk[j]);
      }
      forall p, j | 0 <= p < |pages| && 0 <= j < pageSize && p * pageSize + j < before + |chunk| && p * pageSize + j < |Contents|
        ensures pages[p].Length == pageSize && pages[p][j] == Some(Contents[p * pageSize + j])
      {
        if p < currentPageIndex {
          SlotOrder(p, currentPageIndex, j, pageSize);
          assert pages[p][j] == old@L(pages[p][j]);
        } else if p > currentPageIndex {
          SlotOrder(currentPageIndex, p, if offset + |chunk| - 1 >= 0 then offset + |chunk| - 1 else 0, pageSize);
          assert false;
        } else if j < offset {
          assert pages[p][j] == old@L(pages[p][j]);
        } else {
          assert Contents[before + (j - offset)] == chunk[j - offset];
        }
      }
    }

    /** Pop: removes and returns the top element; `None` on an empty stack. On a page
        boundary the page list is cut after the page that was current, as in the
        source, and `capacity` is recomputed from the pages that remain. */
    method Pop() returns (elem: Option<T>)
      requires Valid()
      modifies this
      ensures Valid() && Repr == old(Repr) && pageSize == old(pageSize)
      ensures old(size) == 0 ==> elem == None && Contents == old(Contents)
      ensures old(size) > 0 ==> elem == Some(old(Contents)[old(size) - 1]) && Contents == old(Contents)[..old(size) - 1]
      ensures Position() == PopCursor(old(Position()), pageSize)
    {
      if size == 0 {
        return None;
      }
      if offset - 1 < 0 {
        LeavePage();
      } else {
        offset := offset - 1;
        size := size - 1;
        Contents := Contents[..size];
      }
      elem := currentPage[offset];
    }

    /** The page-boundary branch of Pop: the top element is the last slot of the
        previous page, which becomes the current one. */
    method LeavePage()
      requires Valid() && size > 0 && offset == 0
      modifies this
      ensures Valid() && Repr == old(Repr) && pageSize == old(pageSize)
      ensures Contents == old(Contents)[..old(size) - 1]
      ensures Position() == PopCursor(old(Position()), pageSize)
      ensures offset < pageSize && currentPage[offset] == Some(old(Contents)[old(size) - 1])
    {
      assert (currentPageIndex - 1) * pageSize + pageSize == currentPageIndex * pageSize;
      ghost var before, held := pages, Contents;
      size := size - 1;
      Contents := Contents[..size];
      offset := pageSize - 1;
      currentPage, pages := pages[currentPageIndex - 1], pages[..currentPageIndex + 1];
      capacity := |pages| * pageSize;
      currentPageIndex := currentPageIndex - 1;
      forall p, j | 0 <= p < |pages| && 0 <= j < pageSize && p * pageSize + j < size
        ensures pages[p][j] == Some(Contents[p * pageSize + j])
      {
        assert pages[p] == before[p] && Contents[p * pageSize + j] == held[p * pageSize + j];
      }
    }

    /** Top: the top element without removing it; `None` on an empty stack. On a page
        boundary it is the last slot of the page before the current one. */
    method Top() returns (elem: Option<T>)
      requires Valid()
      ensures size == 0 ==> elem == None
      ensures size > 0 ==> elem == Some(Contents[size - 1])
    {
      if size == 0 {
        return None;
      }
      var off := offset - 1;
      if off < 0 {
        var page := pages[currentPageIndex - 1];
        assert (currentPageIndex - 1) * pageSize + pageSize == currentPageIndex * pageSize;
        elem := page[page.Length - 1];
        return;
      }
      elem := currentPage[off];
    }
  }
}
