/** Two limits of the allocator of Core/Pool.h: when giving blocks back leaves fragments, and when an address is
    handed out while it is in use.
*/
module PoolLimits {
  import opened Pool

  // ---------- Fragments ----------

  /** Block `q` begins where block `p` ends. */
  ghost predicate Touch(m: BlockMap, p: int, q: int) {
    p in m && q in m && m[p] > 0 && p + m[p] == q
  }

  /** No two available blocks could be one. */
  ghost predicate Merged(m: BlockMap) {
    forall p, q :: !Touch(m, p, q)
  }

  /** In a tiled state at most one block ends at a place. */
  lemma EndsOnce(st: State, s: int, q: int)
    requires Tiled(st) && st.capacity > 0 && EndsAt(st.available, q, s)
    ensures Precedes(st.available, s, q)
  {
    forall r | EndsAt(st.available, r, s)
      ensures r == q
    {
      assert In(st.available, r, s - 1) && In(st.available, q, s - 1);
    }
  }

  lemma InBuffer(st: State, p: int)
    requires Tiled(st) && p in st.inUse && st.inUse[p] > 0
    ensures Apart(st.available, st.capacity) && p + st.inUse[p] <= st.capacity
  {
    assert In(st.inUse, p, p + st.inUse[p] - 1);
  }

  /** Free joins a block to the one before it only: it leaves no fragments exactly if no available block
      begins where the freed one ends.
   */
  lemma FreeMerges(st: State, p: int, st': State)
    requires Tiled(st) && Merged(st.available) && Freed(st, p, st') && p in st.inUse && st.inUse[p] > 0
    ensures Merged(st'.available) <==> p + st.inUse[p] !in st.available
  {
    hide Touch, Merged;
    var m, m', n := st.available, st'.available, st.inUse[p];
    NotBoth(st, p);
    if exists q :: Precedes(m, p, q) {
      var q :| Precedes(m, p, q) && m' == m[q := Plus(m[q], n)];
      InBuffer(st, p);
      NoWrap(m, st.capacity, p, n, q);
      assert EndsAt(m, q, p);
      JoinedTouch(m, p, n, q, m');
    } else {
      assert m' == m[p := n];
      forall q
        ensures !EndsAt(m, q, p)
      {
        if EndsAt(m, q, p) { EndsOnce(st, p, q); }
      }
      AloneTouch(m, p, n, m');
    }
  }

  lemma JoinedTouch(m: BlockMap, p: int, n: UInt, q: int, m': BlockMap)
    requires Merged(m) && EndsAt(m, q, p) && m[q] + n < WRAP && m' == m[q := m[q] + n] && n > 0
    ensures Merged(m') <==> p + n !in m
  {
    if p + n in m { assert Touch(m', q, p + n); }
    forall a, b | Touch(m', a, b)
      ensures p + n in m
    {
      assert a != q ==> Touch(m, a, b);
    }
  }

  lemma AloneTouch(m: BlockMap, p: int, n: UInt, m': BlockMap)
    requires Merged(m) && p !in m && m' == m[p := n] && n > 0 && forall q :: !EndsAt(m, q, p)
    ensures Merged(m') <==> p + n !in m
  {
    if p + n in m { assert Touch(m', p, p + n); }
    forall a, b | Touch(m', a, b)
      ensures p + n in m
    {
      assert a != p && b != p ==> Touch(m, a, b);
      assert a != p && b == p ==> EndsAt(m, a, p);
    }
  }

  /** Alloc never leaves fragments. */
  lemma AllocMerges(st: State, n: UInt, st': State, r: Option<int>)
    requires Tiled(st) && Merged(st.available) && Allocated(st, n, st', r)
    ensures Merged(st'.available)
  {
    if r.Some? {
      var m, m', p := st.available, st'.available, r.value;
      forall a, b
        ensures !Touch(m', a, b)
      {
        if Touch(m', a, b) {
          TakeTouch(st, p, n, a, b);
        }
      }
    }
  }

  lemma TakeTouch(st: State, p: int, n: UInt, a: int, b: int)
    requires Tiled(st) && p in st.available && n <= st.available[p] && Touch(Take(st.available, p, n), a, b)
    ensures Touch(st.available, a, b) || Touch(st.available, p, b) || Touch(st.available, a, p)
  {
    var m := st.available;
    if a != p + n && b == p + n && n > 0 && n < m[p] {
      assert In(m, a, p + n - 1) && In(m, p, p + n - 1);
    }
  }

  /** A block is given back where no available block begins behind it. */
  ghost predicate CleanFree(st: State, c: Call) {
    c.FreeCall? && c.p in st.inUse && st.inUse[c.p] > 0 ==> c.p + st.inUse[c.p] !in st.available
  }

  lemma StepMerges(st: State, c: Call, st': State)
    requires Tiled(st) && Merged(st.available) && Step(st, c, st')
    ensures Merged(st'.available) <==> CleanFree(st, c)
  {
    match c {
      case AllocCall(n) =>
        var r :| Allocated(st, n, st', r);
        AllocMerges(st, n, st', r);
      case FreeCall(p) =>
        if p in st.inUse && st.inUse[p] > 0 { FreeMerges(st, p, st'); }
      case _ =>
    }
  }

  lemma RunStepTiled(states: seq<State>, calls: seq<Call>, capacity: UInt, i: nat)
    requires IsRun(states, calls, capacity) && i < |calls|
    ensures Tiled(states[i]) && Step(states[i], calls[i], states[i + 1])
  {
    var before, first := states[..i + 1], calls[..i];
    forall k | 0 <= k < i
      ensures StepAt(before, first, k)
    {
      assert StepAt(states, calls, k);
    }
    RunTiled(before, first, capacity);
    assert StepAt(states, calls, i);
  }

  /** A run never has fragments exactly if every Free in it is clean. */
  lemma {:induction false} RunMerges(states: seq<State>, calls: seq<Call>, capacity: UInt, n: nat)
    requires IsRun(states, calls, capacity) && n <= |calls|
    ensures (forall i :: 0 <= i <= n ==> Merged(states[i].available)) <==>
              (forall i :: 0 <= i < n ==> CleanFree(states[i], calls[i]))
  {
    if n > 0 {
      RunMerges(states, calls, capacity, n - 1);
      RunStepTiled(states, calls, capacity, n - 1);
      if Merged(states[n - 1].available) { StepMerges(states[n - 1], calls[n - 1], states[n]); }
    }
  }

  /** Where everything is available, the first block reaches to the end of the buffer or another one begins behind it.
   */
  lemma FirstBlock(st: State)
    requires Tiled(st) && st.capacity > 0 && forall u :: 0 <= u < st.capacity ==> Covered(st.available, u)
    ensures 0 in st.available && (st.available[0] == st.capacity || Touch(st.available, 0, st.available[0]))
  {
    var m := st.available;
    assert Covered(m, 0);
    var p :| In(m, p, 0);
    assert p == 0 && m[0] > 0;
    if m[0] < st.capacity {
      assert Covered(m, m[0]);
      var q :| In(m, q, m[0]);
      assert q < m[0] ==> In(m, 0, q) && In(m, q, q);
    }
  }

  /** What fragments cost: without them, a pool with nothing in use can hand out its whole buffer. */
  lemma MergedIsWhole(st: State)
    requires Tiled(st) && Merged(st.available) && st.capacity > 0
        && forall u :: 0 <= u < st.capacity ==> Covered(st.available, u)
    ensures st.available == map[0 := st.capacity] && Fits(st.available, st.capacity)
  {
    var m := st.available;
    FirstBlock(st);
    forall q | q in m
      ensures q == 0
    {
      assert In(m, q, q) && In(m, 0, q);
    }
  }

  /** An unclean Free: after one element was handed out and given back, every element is available and yet the
      whole buffer cannot be handed out.
   */
  lemma FragmentsRemain(capacity: UInt, st1: State, st2: State, r: Option<int>)
    requires capacity > 1 && Allocated(Created(capacity), 1, st1, r) && Freed(st1, 0, st2)
    ensures r == Some(0) && !CleanFree(st1, FreeCall(0)) && !Merged(st2.available)
    ensures st2.inUse == map[] && Units(st2.available, capacity) == capacity && !Fits(st2.available, capacity)
  {
    CreatedTiled(capacity);
    var st := Created(capacity);
    assert 0 in st.available && 1 <= st.available[0];
    assert st1.available == map[1 := capacity - 1] && st1.inUse == map[0 := 1];
    AllocatedTiled(st, 1, st1, r);
    FreedTiled(st1, 0, st2);
    assert !EndsAt(st1.available, 1, 0);
    assert st2.available == map[1 := capacity - 1, 0 := 1];
    assert Touch(st2.available, 0, 1);
    NoUnits(capacity);
    NothingLost(st2, capacity);
  }

  // ---------- Addresses handed out twice ----------

  /** An address in use that belongs to a block of no elements. */
  predicate EmptyAt(st: State, p: int) {
    p in st.inUse && st.inUse[p] == 0
  }

  /** Alloc hands out an address that is in use exactly if the best fit begins where a block of no elements is in use.
   */
  lemma SharesExactly(st: State, n: UInt, st': State, r: Option<int>)
    requires Tiled(st) && Allocated(st, n, st', r) && r.Some?
    ensures r.value in st.inUse <==> exists p :: BestFit(st.available, n, p) && EmptyAt(st, p)
  {
    NotBoth(st, r.value);
    forall p | BestFit(st.available, n, p)
      ensures p == r.value
    {
    }
  }

  /** After a request was served, a later one can be served with the same address while the first is in use exactly if
      the first asked for no elements, and the pool has any.
   */
  lemma SharedNextExactly(st: State, n: UInt, st1: State, r: Option<int>)
    requires Tiled(st) && Allocated(st, n, st1, r) && r.Some?
    ensures (exists k, st2 :: Allocated(st1, k, st2, r)) <==> n == 0 && st.capacity > 0
  {
    AllocatedTiled(st, n, st1, r);
    NotBoth(st1, r.value);
    if n == 0 && st.capacity > 0 {
      assert st1.available == st.available;
      var st2 := State(st1.capacity, Plus(st1.size, 0), Take(st1.available, r.value, 0), st1.inUse[r.value := 0]);
      assert Allocated(st1, 0, st2, r);
    }
  }

  ghost predicate NoEmpty(st: State) {
    forall p :: !EmptyAt(st, p)
  }

  lemma StepNoEmpty(st: State, c: Call, st': State)
    requires NoEmpty(st) && Step(st, c, st') && (c.AllocCall? ==> c.n > 0)
    ensures NoEmpty(st')
  {
    match c {
      case AllocCall(n) =>
        var r :| Allocated(st, n, st', r);
        forall p
          ensures !EmptyAt(st', p)
        {
          assert !EmptyAt(st, p);
        }
      case FreeCall(p) =>
        forall q
          ensures !EmptyAt(st', q)
        {
          assert !EmptyAt(st, q);
        }
      case _ =>
    }
  }

  lemma {:induction false} RunNoEmpty(states: seq<State>, calls: seq<Call>, capacity: UInt, i: nat)
    requires IsRun(states, calls, capacity) && i <= |calls|
    requires forall k :: 0 <= k < i && calls[k].AllocCall? ==> calls[k].n > 0
    ensures NoEmpty(states[i])
  {
    if i > 0 {
      RunNoEmpty(states, calls, capacity, i - 1);
      RunStepTiled(states, calls, capacity, i - 1);
      StepNoEmpty(states[i - 1], calls[i - 1], states[i]);
    }
  }

  /** In a run in which every request so far asked for elements, no request is served with an address in use. */
  lemma RunNeverShares(states: seq<State>, calls: seq<Call>, capacity: UInt, i: nat, r: Option<int>)
    requires IsRun(states, calls, capacity) && i < |calls| && calls[i].AllocCall?
    requires forall k :: 0 <= k < i && calls[k].AllocCall? ==> calls[k].n > 0
    requires Allocated(states[i], calls[i].n, states[i + 1], r)
    ensures r.Some? ==> r.value !in states[i].inUse
  {
    RunStepTiled(states, calls, capacity, i);
    RunNoEmpty(states, calls, capacity, i);
    if r.Some? {
      SharesExactly(states[i], calls[i].n, states[i + 1], r);
      assert !EmptyAt(states[i], r.value);
    }
  }

  /** Two requests from a new pool, the first for no elements: both get address 0, and the second block replaces the
      first in the map of blocks in use.
   */
  lemma EmptyRequestShares(capacity: UInt, n: UInt, st1: State, r: Option<int>, st2: State, r': Option<int>)
    requires 0 < n <= capacity && Allocated(Created(capacity), 0, st1, r) && Allocated(st1, n, st2, r')
    ensures r == r' == Some(0) && 0 in st1.inUse && st2.inUse == map[0 := n]
  {
    var st := Created(capacity);
    assert 0 in st.available && 0 <= st.available[0];
    assert st1.available == map[0 := capacity] && st1.inUse == map[0 := 0];
    assert 0 in st1.available && n <= st1.available[0];
  }

  /** Such requests exist: capacity 10, then 0 and 5 elements. */
  lemma EmptyRequestExample() returns (st1: State, st2: State)
    ensures Allocated(Created(10), 0, st1, Some(0)) && Allocated(st1, 5, st2, Some(0)) && 0 in st1.inUse
  {
    st1 := State(10, Minus(0, 10), map[0 := 10], map[0 := 0]);
    st2 := State(10, Plus(Minus(0, 10), 5), map[5 := 5], map[0 := 5]);
    assert Take(Created(10).available, 0, 0) == map[0 := 10];
    assert Take(st1.available, 0, 5) == map[5 := 5];
    assert Created(10).inUse[0 := 0] == map[0 := 0] && st1.inUse[0 := 5] == map[0 := 5];
  }
}
