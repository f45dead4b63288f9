/** The bitmap page allocator: one bit a page, and a count of free bytes kept beside it. */
module PageAllocator {
  import opened Words

  const PAGE_SIZE := 4096

  /** `byte & (1 << k)`. */
  predicate Bit(b: bv8, k: nat)
    requires k < 8
  {
    b & (1 << k) != 0
  }

  /** `byte | (1 << k)`. */
  function WithBit(b: bv8, k: nat): bv8
    requires k < 8
  {
    b | (1 << k)
  }

  /** `byte & ~(1 << k)`. */
  function WithoutBit(b: bv8, k: nat): bv8
    requires k < 8
  {
    b & !(1 << k)
  }

  /** Setting or clearing a bit leaves the other seven as they were. */
  lemma BitLaws(b: bv8, k: nat, j: nat)
    requires k < 8 && j < 8
    ensures Bit(WithBit(b, k), j) <==> j == k || Bit(b, j)
    ensures Bit(WithoutBit(b, k), j) <==> j != k && Bit(b, j)
  {
    MaskIs(k);
    MaskIs(j);
  }

  /** The eight masks. */
  lemma MaskIs(k: nat)
    requires k < 8
    ensures (1 as bv8) << k == [1, 2, 4, 8, 16, 32, 64, 128][k]
  {
  }

  /** The pages marked used, as bits of a bitmap of bytes. */
  function BitsOf(bytes: seq<bv8>): (u: seq<bool>)
    ensures |u| == 8 * |bytes|
  {
    seq(8 * |bytes|, p requires 0 <= p < 8 * |bytes| => Bit(bytes[p / 8], p % 8))
  }

  /** The mark of page p is bit p % 8 of byte p / 8, the lowest bit first. */
  lemma BitPlace(bytes: seq<bv8>, p: nat)
    requires p < 8 * |bytes|
    ensures BitsOf(bytes)[p] <==> bytes[p / 8] & [1, 2, 4, 8, 16, 32, 64, 128][p % 8] != 0
  {
    MaskIs(p % 8);
  }

  lemma SetBitsOf(bytes: seq<bv8>, p: nat)
    requires p < 8 * |bytes|
    ensures BitsOf(bytes[p / 8 := WithBit(bytes[p / 8], p % 8)]) == BitsOf(bytes)[p := true]
  {
    hide Bit, WithBit;
    var after := bytes[p / 8 := WithBit(bytes[p / 8], p % 8)];
    forall q: nat | q < 8 * |bytes|
      ensures BitsOf(after)[q] == BitsOf(bytes)[p := true][q]
    {
      BitLaws(bytes[q / 8], p % 8, q % 8);
    }
  }

  lemma ClearBitsOf(bytes: seq<bv8>, p: nat)
    requires p < 8 * |bytes|
    ensures BitsOf(bytes[p / 8 := WithoutBit(bytes[p / 8], p % 8)]) == BitsOf(bytes)[p := false]
  {
    hide Bit, WithoutBit;
    var after := bytes[p / 8 := WithoutBit(bytes[p / 8], p % 8)];
    forall q: nat | q < 8 * |bytes|
      ensures BitsOf(after)[q] == BitsOf(bytes)[p := false][q]
    {
      BitLaws(bytes[q / 8], p % 8, q % 8);
    }
  }

  // ----- the allocator on values

  /** `used[p]` says whether page p is marked; `limit` is max_pages, beyond which the allocator does not look. */
  datatype Pages = Pages(used: seq<bool>, limit: nat, freeMemory: int) {
    predicate Valid() {
      limit <= |used|
    }
  }

  datatype Request = Alloc | Free(addr: nat) | Lock(addr: nat, count: nat)

  /** The request stays within the bitmap. */
  predicate Fits(s: Pages, r: Request) {
    match r
    case Alloc => true
    case Free(addr) => addr / PAGE_SIZE < |s.used|
    case Lock(addr, count) => addr / PAGE_SIZE + count <= |s.used|
  }

  /** The least page from `p` on that is clear and below the limit. */
  function LeastClear(s: Pages, p: nat := 0): (r: Option<nat>)
    requires s.Valid() && p <= s.limit
    ensures r.Some? ==> p <= r.value < s.limit && !s.used[r.value] && forall q :: p <= q < r.value ==> s.used[q]
    ensures r.None? ==> forall q :: p <= q < s.limit ==> s.used[q]
    decreases s.limit - p
  {
    if p == s.limit then None else if !s.used[p] then Some(p) else LeastClear(s, p + 1)
  }

  function Marked(s: Pages, p: nat): Pages
    requires p < |s.used|
  {
    if s.used[p] then s else s.(used := s.used[p := true], freeMemory := s.freeMemory - PAGE_SIZE)
  }

  function MarkedAll(s: Pages, start: nat, count: nat): (t: Pages)
    requires start + count <= |s.used|
    ensures |t.used| == |s.used| && t.limit == s.limit
    ensures forall q :: 0 <= q < |s.used| ==> t.used[q] == (s.used[q] || start <= q < start + count)
  {
    if count == 0 then s else Marked(MarkedAll(s, start, count - 1), start + count - 1)
  }

  /** The allocator after a request, and the address it returns (0 for nullptr and for requests without a result). */
  function Serve(s: Pages, r: Request): (t: (Pages, nat))
    requires s.Valid() && Fits(s, r)
    ensures t.0.Valid() && |t.0.used| == |s.used| && t.0.limit == s.limit
  {
    match r
    case Alloc => (
      match LeastClear(s)
      case None => (s, 0)
      case Some(p) => (Marked(s, p), p * PAGE_SIZE))
    case Free(addr) =>
      var p := addr / PAGE_SIZE;
      (if s.used[p] then s.(used := s.used[p := false], freeMemory := s.freeMemory + PAGE_SIZE) else s, 0)
    case Lock(addr, count) => (MarkedAll(s, addr / PAGE_SIZE, count), 0)
  }

  // ----- what a request does

  /** free_page clears the mark of the page of the address and no other, and counts it if it was set. */
  lemma FreeLaw(s: Pages, addr: nat, q: nat)
    requires s.Valid() && addr / 4096 < |s.used| && q < |s.used|
    ensures var (t, result) := Serve(s, Free(addr));
            && result == 0
            && (t.used[q] <==> s.used[q] && q != addr / 4096)
            && t.freeMemory == s.freeMemory + (if s.used[addr / 4096] then 4096 else 0)
  {
  }

  /**
   alloc_page marks the least clear page, takes it off the counter and returns its address; without one it does
   nothing.
   */
  lemma AllocLaw(s: Pages, p: nat, q: nat)
    requires s.Valid() && p <= s.limit && (forall k :: 0 <= k < p ==> s.used[k]) && q < |s.used|
    requires p < s.limit ==> !s.used[p]
    ensures var (t, result) := Serve(s, Alloc);
            if p == s.limit then t == s && result == 0
            else
              && result == 4096 * p
              && (t.used[q] <==> s.used[q] || q == p)
              && t.freeMemory == s.freeMemory - 4096
  {
    LeastClearIs(s, 0, p);
  }

  lemma {:induction false} LeastClearIs(s: Pages, from: nat, p: nat)
    requires s.Valid() && from <= p <= s.limit && (forall k :: from <= k < p ==> s.used[k])
    requires p < s.limit ==> !s.used[p]
    ensures LeastClear(s, from) == if p == s.limit then None else Some(p)
    decreases p - from
  {
    if from < p {
      LeastClearIs(s, from + 1, p);
    }
  }

  /** pmm_lock_pages marks the pages of the range and no other. */
  lemma LockLaw(s: Pages, addr: nat, count: nat, q: nat)
    requires s.Valid() && addr / 4096 + count <= |s.used| && q < |s.used|
    ensures var (t, result) := Serve(s, Lock(addr, count));
            result == 0 && (t.used[q] <==> s.used[q] || addr / 4096 <= q < addr / 4096 + count)
  {
  }

  /** In a full bitmap, a page freed is the one that the next allocation returns, if it lies below the limit. */
  lemma FreeThenAlloc(s: Pages, addr: nat)
    requires s.Valid() && addr / 4096 < |s.used| && forall q :: 0 <= q < |s.used| ==> s.used[q]
    ensures var t := Serve(s, Free(addr)).0;
            Serve(t, Alloc).1 == if addr / 4096 < s.limit then addr / 4096 * 4096 else 0
  {
    var p := addr / 4096;
    LeastClearIs(Serve(s, Free(addr)).0, 0, if p < s.limit then p else s.limit);
  }

  predicate AllFit(s: Pages, rs: seq<Request>) {
    forall i :: 0 <= i < |rs| ==> Fits(s, rs[i])
  }

  function Run(s: Pages, rs: seq<Request>): (t: Pages)
    requires s.Valid() && AllFit(s, rs)
    ensures t.Valid() && |t.used| == |s.used| && t.limit == s.limit
    decreases |rs|
  {
    if rs == [] then s else Serve(Run(s, rs[..|rs| - 1]), rs[|rs| - 1]).0
  }

  // ----- conservation

  function ClearCount(used: seq<bool>): nat {
    if used == [] then 0 else ClearCount(used[..|used| - 1]) + (if used[|used| - 1] then 0 else 1)
  }

  lemma {:induction false} ClearCountUpdate(used: seq<bool>, p: nat, b: bool)
    requires p < |used|
    ensures ClearCount(used[p := b]) == ClearCount(used) + (if used[p] then 1 else 0) - (if b then 1 else 0)
    decreases |used|
  {
    var front := used[..|used| - 1];
    if p == |used| - 1 {
      assert used[p := b][..|used| - 1] == front;
    } else {
      ClearCountUpdate(front, p, b);
      assert used[p := b][..|used| - 1] == front[p := b];
    }
  }

  /** What the counter says beyond 4096 bytes for every clear page. */
  function Surplus(s: Pages): int {
    s.freeMemory - PAGE_SIZE * ClearCount(s.used)
  }

  lemma MarkedSurplus(s: Pages, p: nat)
    requires p < |s.used|
    ensures Surplus(Marked(s, p)) == Surplus(s)
  {
    ClearCountUpdate(s.used, p, true);
  }

  lemma {:induction false} MarkedAllSurplus(s: Pages, start: nat, count: nat)
    requires start + count <= |s.used|
    ensures Surplus(MarkedAll(s, start, count)) == Surplus(s)
    decreases count
  {
    hide Surplus, Marked;
    if count > 0 {
      MarkedAllSurplus(s, start, count - 1);
      MarkedSurplus(MarkedAll(s, start, count - 1), start + count - 1);
    }
  }

  lemma ServeSurplus(s: Pages, r: Request)
    requires s.Valid() && Fits(s, r)
    ensures Surplus(Serve(s, r).0) == Surplus(s)
  {
    match r
    case Alloc =>
      if LeastClear(s).Some? {
        MarkedSurplus(s, LeastClear(s).value);
      }
    case Free(addr) =>
      ClearCountUpdate(s.used, addr / PAGE_SIZE, false);
    case Lock(addr, count) =>
      MarkedAllSurplus(s, addr / PAGE_SIZE, count);
  }

  /** Over every run the counter moves in step with the clear pages. */
  lemma {:induction false} RunSurplus(s: Pages, rs: seq<Request>)
    requires s.Valid() && AllFit(s, rs)
    ensures Surplus(Run(s, rs)) == Surplus(s)
    decreases |rs|
  {
    if rs != [] {
      RunSurplus(s, rs[..|rs| - 1]);
      ServeSurplus(Run(s, rs[..|rs| - 1]), rs[|rs| - 1]);
    }
  }

  // ----- pmm_init

  /**
   Whole bytes of the bitmap are set; the counter reports everything as free. Pages of a last partial byte keep
   their bits.
   */
  function Initial(bits: seq<bool>, totalMemory: nat): (s: Pages)
    requires totalMemory / PAGE_SIZE <= |bits|
    ensures s.Valid()
  {
    var limit := totalMemory / PAGE_SIZE;
    Pages(seq(|bits|, p requires 0 <= p < |bits| => p < limit / 8 * 8 || bits[p]), limit, totalMemory)
  }

  lemma {:induction false} NoneClear(used: seq<bool>)
    requires forall p :: 0 <= p < |used| ==> used[p]
    ensures ClearCount(used) == 0
    decreases |used|
  {
    if used != [] {
      NoneClear(used[..|used| - 1]);
    }
  }

  /**
   On a bitmap of whole bytes, after pmm_init no page can be allocated although all memory is reported free, and
   the counter stays that much too high over every run.
   */
  lemma InitialLaw(bits: seq<bool>, totalMemory: nat, rs: seq<Request>)
    requires totalMemory / PAGE_SIZE == |bits| && |bits| % 8 == 0 && AllFit(Initial(bits, totalMemory), rs)
    ensures var s := Initial(bits, totalMemory);
            && Serve(s, Alloc) == (s, 0) && s.freeMemory == totalMemory
            && Run(s, rs).freeMemory == totalMemory + PAGE_SIZE * ClearCount(Run(s, rs).used)
  {
    var s := Initial(bits, totalMemory);
    NoneClear(s.used);
    RunSurplus(s, rs);
  }

  // ----- who holds a page

  /** The next allocation hands out page p: it is clear, and its address is returned. */
  predicate HandsOut(s: Pages, p: nat)
    requires s.Valid()
  {
    p < s.limit && !s.used[p] && Serve(s, Alloc).1 == 4096 * p
  }

  lemma HandsOutLeast(s: Pages, p: nat)
    requires s.Valid()
    ensures HandsOut(s, p) <==> LeastClear(s) == Some(p)
    ensures p != 0 && Serve(s, Alloc).1 == 4096 * p ==> HandsOut(s, p)
  {
  }

  /**
   In general pmm_init leaves the bits of a last partial byte, so the first of them that is clear is handed out
   next.
   */
  lemma FirstAfterInit(bits: seq<bool>, totalMemory: nat, p: nat)
    requires totalMemory / 4096 <= |bits|
    ensures HandsOut(Initial(bits, totalMemory), p) <==>
              && totalMemory / 4096 / 8 * 8 <= p < totalMemory / 4096 && !bits[p]
              && forall q :: totalMemory / 4096 / 8 * 8 <= q < p ==> bits[q]
  {
    hide Serve, HandsOut;
    var s := Initial(bits, totalMemory);
    HandsOutLeast(s, p);
    if p < s.limit && !s.used[p] && forall q :: 0 <= q < p ==> s.used[q] {
      LeastClearIs(s, 0, p);
    }
    assert forall q :: 0 <= q < p && p < s.limit ==> (s.used[q] <==> q < s.limit / 8 * 8 || bits[q]);
  }

  /** The request marks page p. */
  predicate Takes(s: Pages, r: Request, p: nat)
    requires s.Valid()
  {
    match r
    case Alloc => HandsOut(s, p)
    case Free(_) => false
    case Lock(addr, count) => addr / 4096 <= p < addr / 4096 + count
  }

  predicate Frees(r: Request, p: nat) {
    r.Free? && r.addr / 4096 == p
  }

  lemma ServeBit(s: Pages, r: Request, p: nat)
    requires s.Valid() && Fits(s, r) && p < |s.used|
    ensures Serve(s, r).0.used[p] <==> Takes(s, r, p) || (s.used[p] && !Frees(r, p))
  {
    HandsOutLeast(s, p);
  }

  /** The allocator when the i-th request of a run comes. */
  function Before(s: Pages, rs: seq<Request>, i: nat): (t: Pages)
    requires s.Valid() && AllFit(s, rs) && i <= |rs|
    ensures t.Valid() && |t.used| == |s.used| && t.limit == s.limit
  {
    Run(s, rs[..i])
  }

  lemma BeforeFront(s: Pages, rs: seq<Request>, i: nat)
    requires s.Valid() && AllFit(s, rs) && rs != [] && i <= |rs| - 1
    ensures Before(s, rs[..|rs| - 1], i) == Before(s, rs, i)
  {
    assert rs[..|rs| - 1][..i] == rs[..i];
  }

  /** No request of the run from the i-th on marks page p. */
  ghost predicate NotTakenSince(s: Pages, rs: seq<Request>, p: nat, i: nat)
    requires s.Valid() && AllFit(s, rs)
  {
    forall j :: i <= j < |rs| ==> !Takes(Before(s, rs, j), rs[j], p)
  }

  /**
   Some request of the run freed page p and none has marked it since, or it was clear at the start and none
   marked it.
   */
  ghost predicate LeftClear(s: Pages, rs: seq<Request>, p: nat)
    requires s.Valid() && AllFit(s, rs) && p < |s.used|
  {
    || (exists i :: 0 <= i < |rs| && Frees(rs[i], p) && NotTakenSince(s, rs, p, i + 1))
    || (!s.used[p] && NotTakenSince(s, rs, p, 0))
  }

  /** Who holds a page: over every run, a page is clear exactly when the run left it clear. */
  lemma {:induction false} ClearLaw(s: Pages, rs: seq<Request>, p: nat)
    requires s.Valid() && AllFit(s, rs) && p < |s.used|
    ensures !Run(s, rs).used[p] <==> LeftClear(s, rs, p)
    decreases |rs|
  {
    hide Serve, Takes, Frees, LeftClear;
    if rs == [] {
      NothingServed(s, p);
    } else {
      var front, last := rs[..|rs| - 1], rs[|rs| - 1];
      ClearLaw(s, front, p);
      ServeBit(Run(s, front), last, p);
      FreeTakesNothing(Run(s, front), last, p);
      LeftClearStep(s, rs, p);
    }
  }

  lemma NothingServed(s: Pages, p: nat)
    requires s.Valid() && p < |s.used|
    ensures LeftClear(s, [], p) <==> !s.used[p]
  {
  }

  lemma LeftClearStep(s: Pages, rs: seq<Request>, p: nat)
    requires s.Valid() && AllFit(s, rs) && p < |s.used| && rs != []
    ensures var front, last := rs[..|rs| - 1], rs[|rs| - 1];
            LeftClear(s, rs, p) <==> Frees(last, p) || (LeftClear(s, front, p) && !Takes(Run(s, front), last, p))
  {
    hide Run, Takes, Frees, Fits, NotTakenSince;
    var front, last := rs[..|rs| - 1], rs[|rs| - 1];
    NothingLater(s, rs, p);
    forall i: nat | i <= |front|
      ensures NotTakenSince(s, rs, p, i) <==> NotTakenSince(s, front, p, i) && !Takes(Run(s, front), last, p)
    {
      NotTakenFront(s, rs, p, i);
    }
    if LeftClear(s, rs, p) && !Frees(last, p) {
      LeftClearBefore(s, rs, p);
    }
    if LeftClear(s, front, p) && !Takes(Run(s, front), last, p) && (s.used[p] || !NotTakenSince(s, front, p, 0)) {
      var i :| 0 <= i < |front| && Frees(front[i], p) && NotTakenSince(s, front, p, i + 1);
      assert Frees(rs[i], p) && NotTakenSince(s, rs, p, i + 1);
    }
    if Frees(last, p) {
      assert Frees(rs[|rs| - 1], p) && NotTakenSince(s, rs, p, |rs| - 1 + 1);
    }
  }

  lemma LeftClearBefore(s: Pages, rs: seq<Request>, p: nat)
    requires s.Valid() && AllFit(s, rs) && p < |s.used| && rs != []
    requires LeftClear(s, rs, p) && !Frees(rs[|rs| - 1], p)
    ensures var front, last := rs[..|rs| - 1], rs[|rs| - 1];
            LeftClear(s, front, p) && !Takes(Run(s, front), last, p)
  {
    hide Run, Takes, Frees, Fits, NotTakenSince;
    var front := rs[..|rs| - 1];
    if !s.used[p] && NotTakenSince(s, rs, p, 0) {
      NotTakenFront(s, rs, p, 0);
    } else {
      var i :| 0 <= i < |rs| && Frees(rs[i], p) && NotTakenSince(s, rs, p, i + 1);
      assert i < |front| && front[i] == rs[i];
      NotTakenFront(s, rs, p, i + 1);
      assert Frees(front[i], p) && NotTakenSince(s, front, p, i + 1);
    }
  }

  lemma NothingLater(s: Pages, rs: seq<Request>, p: nat)
    requires s.Valid() && AllFit(s, rs)
    ensures NotTakenSince(s, rs, p, |rs|)
  {
  }

  lemma FreeTakesNothing(s: Pages, r: Request, p: nat)
    requires s.Valid()
    ensures Frees(r, p) ==> !Takes(s, r, p)
  {
  }

  lemma NotTakenFront(s: Pages, rs: seq<Request>, p: nat, i: nat)
    requires s.Valid() && AllFit(s, rs) && rs != [] && i < |rs|
    ensures NotTakenSince(s, rs, p, i) <==>
              NotTakenSince(s, rs[..|rs| - 1], p, i) && !Takes(Run(s, rs[..|rs| - 1]), rs[|rs| - 1], p)
  {
    hide Takes, Run, Before, Serve, Fits, LeastClear;
    var front, n := rs[..|rs| - 1], |rs| - 1;
    BeforeIs(s, rs, n);
    forall j: nat | j < n
      ensures Before(s, front, j) == Before(s, rs, j)
    {
      BeforeFront(s, rs, j);
    }
    if NotTakenSince(s, front, p, i) && !Takes(Before(s, rs, n), rs[n], p) {
      forall j | i <= j < |rs|
        ensures !Takes(Before(s, rs, j), rs[j], p)
      {
        if j < n {
          assert !Takes(Before(s, front, j), front[j], p);
        }
      }
    }
    if NotTakenSince(s, rs, p, i) {
      forall j | i <= j < n
        ensures !Takes(Before(s, front, j), front[j], p)
      {
        assert !Takes(Before(s, rs, j), rs[j], p);
      }
    }
  }

  lemma BeforeIs(s: Pages, rs: seq<Request>, i: nat)
    requires s.Valid() && AllFit(s, rs) && i <= |rs|
    ensures Before(s, rs, i) == Run(s, rs[..i])
  {
  }

  /**
   A page marked used that no request of the run frees is still marked after it, and no allocation of the run
   handed it out; an address other than 0 that an allocation returned is that of another page.
   */
  lemma HeldStaysHeld(s: Pages, rs: seq<Request>, p: nat, i: nat)
    requires s.Valid() && AllFit(s, rs) && p < |s.used| && s.used[p] && i <= |rs|
    requires forall j :: 0 <= j < |rs| ==> !(rs[j].Free? && rs[j].addr / 4096 == p)
    ensures Run(s, rs).used[p] && !HandsOut(Before(s, rs, i), p)
    ensures p != 0 ==> Serve(Before(s, rs, i), Alloc).1 != 4096 * p
  {
    hide Serve, HandsOut, Run;
    ClearLaw(s, rs, p);
    ClearLaw(s, rs[..i], p);
    HandsOutLeast(Before(s, rs, i), p);
  }

  /**
   From a full bitmap, an address other than 0 that an allocation returns is that of a page freed earlier in the
   run and marked by no request since.
   */
  lemma AllocatesOnlyFreed(s: Pages, rs: seq<Request>)
    requires s.Valid() && AllFit(s, rs) && forall q :: 0 <= q < |s.used| ==> s.used[q]
    ensures var addr := Serve(Run(s, rs), Alloc).1;
            addr != 0 ==>
              && addr % 4096 == 0
              && exists i :: 0 <= i < |rs| && rs[i].Free? && rs[i].addr / 4096 == addr / 4096
                             && NotTakenSince(s, rs, addr / 4096, i + 1)
  {
    var t := Run(s, rs);
    if Serve(t, Alloc).1 != 0 {
      var p := AddressPage(t);
      hide *;
      ClearLaw(s, rs, p);
    }
  }

  /** The page of an address other than 0 that an allocation returns. */
  lemma AddressPage(s: Pages) returns (p: nat)
    requires s.Valid() && Serve(s, Alloc).1 != 0
    ensures p < s.limit && !s.used[p] && Serve(s, Alloc).1 == 4096 * p
    ensures Serve(s, Alloc).1 / 4096 == p && Serve(s, Alloc).1 % 4096 == 0
  {
    p := LeastClear(s).value;
  }

  /**
   The address 0 means "out of memory" exactly when no page below the limit is clear or page 0 is; in the second
   case page 0 is taken all the same.
   */
  lemma NullLaw(s: Pages)
    requires s.Valid()
    ensures Serve(s, Alloc).1 == 0 <==> (forall q :: 0 <= q < s.limit ==> s.used[q]) || (s.limit > 0 && !s.used[0])
    ensures s.limit > 0 && !s.used[0] ==> Serve(s, Alloc).0.used[0]
  {
  }

  // ----- the bitmap in memory

  class Memory {
    const bitmap: array<bv8>
    var maxPages: nat
    var freeMemory: int

    ghost predicate Valid()
      reads this
    {
      maxPages <= 8 * bitmap.Length
    }

    ghost function Value(): Pages
      reads this, bitmap
    {
      Pages(BitsOf(bitmap[..]), maxPages, freeMemory)
    }

    /** pmm_init over memory whose contents nobody set. */
    constructor (memory: array<bv8>, totalMemory: nat)
      requires totalMemory / PAGE_SIZE <= 8 * memory.Length
      modifies memory
      ensures Valid() && bitmap == memory && Value() == Initial(old(BitsOf(memory[..])), totalMemory)
    {
      hide Bit;
      maxPages := totalMemory / PAGE_SIZE;
      bitmap := memory;
      freeMemory := totalMemory;
      new;
      var i := 0;
      while i < maxPages / 8
        invariant maxPages == totalMemory / PAGE_SIZE && freeMemory == totalMemory
        invariant 0 <= i <= maxPages / 8
        invariant forall k :: 0 <= k < i ==> bitmap[k] == 0xFF
        invariant forall k :: i <= k < bitmap.Length ==> bitmap[k] == old(memory[k])
      {
        bitmap[i] := 0xFF;
        i := i + 1;
      }
      forall p: nat | p < 8 * bitmap.Length
        ensures BitsOf(bitmap[..])[p] == (p < maxPages / 8 * 8 || old(BitsOf(memory[..]))[p])
      {
        FullByte(p % 8);
      }
    }

    method GetBit(page: nat) returns (b: bool)
      requires page < 8 * bitmap.Length
      ensures b == BitsOf(bitmap[..])[page]
    {
      b := Bit(bitmap[page / 8], page % 8);
    }

    method SetBit(page: nat)
      requires page < 8 * bitmap.Length
      modifies bitmap
      ensures BitsOf(bitmap[..]) == old(BitsOf(bitmap[..]))[page := true]
    {
      SetBitsOf(bitmap[..], page);
      hide Bit, BitsOf, WithBit;
      var word := WithBit(bitmap[page / 8], page % 8);
      bitmap[page / 8] := word;
      assert bitmap[..] == old(bitmap[..])[page / 8 := word];
    }

    method ClearBit(page: nat)
      requires page < 8 * bitmap.Length
      modifies bitmap
      ensures BitsOf(bitmap[..]) == old(BitsOf(bitmap[..]))[page := false]
    {
      ClearBitsOf(bitmap[..], page);
      hide Bit, BitsOf, WithoutBit;
      var word := WithoutBit(bitmap[page / 8], page % 8);
      bitmap[page / 8] := word;
      assert bitmap[..] == old(bitmap[..])[page / 8 := word];
    }

    method LockPages(addr: nat, count: nat)
      requires Valid() && Fits(Value(), Lock(addr, count))
      modifies this`freeMemory, bitmap
      ensures Valid() && Value() == Serve(old(Value()), Lock(addr, count)).0
    {
      hide BitsOf;
      ghost var before := Value();
      var startPage := addr / PAGE_SIZE;
      var i := 0;
      while i < count
        invariant 0 <= i <= count && Valid()
        invariant Value() == MarkedAll(before, startPage, i)
      {
        var used := GetBit(startPage + i);
        if !used {
          SetBit(startPage + i);
          freeMemory := freeMemory - PAGE_SIZE;
        }
        i := i + 1;
      }
    }

    method AllocPage() returns (addr: nat)
      requires Valid()
      modifies this`freeMemory, bitmap
      ensures Valid() && (Value(), addr) == Serve(old(Value()), Alloc)
      ensures (forall q :: 0 <= q < maxPages ==> old(BitsOf(bitmap[..]))[q]) ==>
                addr == 0 && bitmap[..] == old(bitmap[..]) && freeMemory == old(freeMemory)
      ensures forall p: nat :: p < maxPages && !old(BitsOf(bitmap[..]))[p]
                               && (forall q :: 0 <= q < p ==> old(BitsOf(bitmap[..]))[q]) ==>
                addr == 4096 * p && BitsOf(bitmap[..]) == old(BitsOf(bitmap[..]))[p := true]
                && freeMemory == old(freeMemory) - 4096
    {
      hide BitsOf;
      ghost var before := Value();
      var i := 0;
      while i < maxPages
        invariant 0 <= i <= maxPages && Valid() && Value() == before
        invariant LeastClear(before) == LeastClear(before, i)
        invariant bitmap[..] == old(bitmap[..]) && freeMemory == old(freeMemory)
        invariant forall q :: 0 <= q < i ==> BitsOf(bitmap[..])[q]
      {
        var used := GetBit(i);
        if !used {
          SetBit(i);
          freeMemory := freeMemory - PAGE_SIZE;
          return i * PAGE_SIZE;
        }
        i := i + 1;
      }
      return 0;
    }

    method FreePage(addr: nat)
      requires Valid() && Fits(Value(), Free(addr))
      modifies this`freeMemory, bitmap
      ensures Valid() && Value() == Serve(old(Value()), Free(addr)).0
      ensures forall q :: 0 <= q < 8 * bitmap.Length ==>
                (BitsOf(bitmap[..])[q] <==> old(BitsOf(bitmap[..]))[q] && q != addr / 4096)
      ensures freeMemory == old(freeMemory) + (if old(BitsOf(bitmap[..]))[addr / 4096] then 4096 else 0)
    {
      hide BitsOf;
      var page := addr / PAGE_SIZE;
      var used := GetBit(page);
      if used {
        ClearBit(page);
        freeMemory := freeMemory + PAGE_SIZE;
      }
    }
  }

  lemma FullByte(k: nat)
    requires k < 8
    ensures Bit(0xFF, k)
  {
    MaskIs(k);
  }
}
