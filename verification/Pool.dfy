/** The block allocator of Core/Pool.h. Addresses are offsets from m_pBuffer, counted in elements. */
module Pool {
  import opened MapOrder

  const WRAP := 0x1_0000_0000

  /** UInt: the 32-bit unsigned integers. */
  type UInt = x: int | 0 <= x < 0x1_0000_0000

  function Plus(a: UInt, b: UInt): UInt { (a + b) % WRAP }

  function Minus(a: UInt, b: UInt): UInt { (a - b) % WRAP }

  datatype Option<T> = None | Some(value: T)

  /** BlockMap: sizes by start address. */
  type BlockMap = map<int, UInt>

  /** The fields of a pool: m_uCapacity, m_uSize, m_mAvailable and m_mInUse. */
  datatype State = State(capacity: UInt, size: UInt, available: BlockMap, inUse: BlockMap)

  // ---------- What the allocator should do ----------

  /** Block `p` is large enough, no block that is large enough is smaller, and those of its size are not before it. */
  ghost predicate BestFit(m: BlockMap, n: UInt, p: int) {
    && p in m && n <= m[p]
    && forall q :: q in m && n <= m[q] ==> m[p] < m[q] || (m[p] == m[q] && p <= q)
  }

  ghost predicate Fits(m: BlockMap, n: UInt) {
    exists p :: p in m && n <= m[p]
  }

  /** The first block that ends where a block at `s` starts. */
  ghost predicate Precedes(m: BlockMap, s: int, q: int) {
    && EndsAt(m, q, s)
    && forall r :: EndsAt(m, r, s) ==> q <= r
  }

  predicate EndsAt(m: BlockMap, q: int, s: int) {
    q in m && q + m[q] == s
  }

  /** Taking the first `n` elements of block `p`. */
  function Take(m: BlockMap, p: int, n: UInt): BlockMap
    requires p in m && n <= m[p]
  {
    if n < m[p] then (m - {p})[p + n := m[p] - n] else m - {p}
  }

  ghost predicate Allocated(st: State, n: UInt, st': State, r: Option<int>) {
    match r
    case None => st' == st && !Fits(st.available, n)
    case Some(p) =>
      && BestFit(st.available, n, p)
      && st' == State(st.capacity, Plus(st.size, n), Take(st.available, p, n), st.inUse[p := n])
  }

  ghost predicate Freed(st: State, p: int, st': State) {
    if p !in st.inUse then st' == st
    else
      var n := st.inUse[p];
      && st'.capacity == st.capacity && st'.inUse == st.inUse - {p}
      && if n == 0 then st'.size == st.size && st'.available == st.available
         else st'.size == Minus(st.size, n) && Joined(st.available, p, n, st'.available)
  }

  ghost predicate Merges(m: BlockMap, s: int, n: UInt, m': BlockMap) {
    exists q :: Precedes(m, s, q) && m' == m[q := Plus(m[q], n)]
  }

  /** Block `[s, s + n)` was given back: to the block that ends at `s`, or as a block of its own. */
  ghost predicate Joined(m: BlockMap, s: int, n: UInt, m': BlockMap) {
    if exists q :: Precedes(m, s, q) then Merges(m, s, n, m') else m' == m[s := n]
  }

  /** What the constructor and Reserve leave behind. */
  function Created(capacity: UInt): State {
    if capacity == 0 then State(0, 0, map[], map[])
    else State(capacity, Minus(0, capacity), map[0 := capacity], map[])
  }

  function Cleared(st: State): State {
    State(st.capacity, 0, map[0 := st.capacity], map[])
  }

  // ---------- Tiling ----------

  /** Element `u` belongs to the block at `p`. */
  ghost predicate In(m: BlockMap, p: int, u: int) {
    p in m && p <= u < p + m[p]
  }

  ghost predicate Covered(m: BlockMap, u: int) {
    exists p :: In(m, p, u)
  }

  /** Blocks of a map lie in the buffer, and no element is in two of them. */
  ghost predicate Apart(m: BlockMap, capacity: int) {
    && (forall p :: p in m ==> 0 <= p && p + m[p] <= capacity)
    && (forall p, q, u :: In(m, p, u) && In(m, q, u) ==> p == q)
  }

  /** Every element of the buffer is in exactly one block, either available or in use. */
  ghost predicate Tiled(st: State) {
    && Apart(st.available, st.capacity) && Apart(st.inUse, st.capacity)
    && (forall u :: 0 <= u < st.capacity ==> Covered(st.available, u) != Covered(st.inUse, u))
    && (forall p :: p in st.available ==> st.available[p] > 0 || st.capacity == 0)
  }

  lemma CreatedTiled(capacity: UInt)
    ensures Tiled(Created(capacity))
  {
    var st := Created(capacity);
    forall u | 0 <= u < capacity
      ensures Covered(st.available, u) && !Covered(st.inUse, u)
    {
      assert In(st.available, 0, u);
    }
  }

  lemma ClearedTiled(st: State)
    ensures Tiled(Cleared(st))
  {
    forall u | 0 <= u < st.capacity
      ensures Covered(Cleared(st).available, u) && !Covered(Cleared(st).inUse, u)
    {
      assert In(Cleared(st).available, 0, u);
    }
  }

  /** Taking from a block leaves exactly its other elements. */
  lemma TakeApart(m: BlockMap, capacity: int, p: int, n: UInt)
    requires Apart(m, capacity) && p in m && n <= m[p] && forall q :: q in m ==> m[q] > 0
    ensures Apart(Take(m, p, n), capacity)
    ensures forall u :: Covered(Take(m, p, n), u) <==> Covered(m, u) && !(p <= u < p + n)
  {
    var m' := Take(m, p, n);
    if n < m[p] && p + n in m { assert In(m, p, p + n) && In(m, p + n, p + n); }
    forall q, u | In(m', q, u)
      ensures if q == p + n && n < m[p] then In(m, p, u) && p + n <= u else In(m, q, u) && q != p
    {
    }
    forall u
      ensures Covered(m', u) <==> Covered(m, u) && !(p <= u < p + n)
    {
      if Covered(m', u) {
        var q :| In(m', q, u);
        assert p <= u < p + n ==> In(m, p, u);
      }
      if Covered(m, u) && !(p <= u < p + n) {
        var q :| In(m, q, u);
        if q == p { assert In(m', p + n, u); } else { assert In(m', q, u); }
      }
    }
  }

  /** A new block where no element belongs to a block yet. */
  lemma PutApart(m: BlockMap, capacity: int, s: int, n: UInt)
    requires Apart(m, capacity) && 0 <= s && s + n <= capacity && (s in m ==> m[s] == 0)
    requires forall u :: s <= u < s + n ==> !Covered(m, u)
    ensures Apart(m[s := n], capacity)
    ensures forall u :: Covered(m[s := n], u) <==> Covered(m, u) || s <= u < s + n
  {
    var m' := m[s := n];
    forall q, u | In(m', q, u)
      ensures if q == s then s <= u < s + n else In(m, q, u) && !(s <= u < s + n)
    {
      assert q != s ==> In(m, q, u) && Covered(m, u);
    }
    forall u
      ensures Covered(m', u) <==> Covered(m, u) || s <= u < s + n
    {
      if Covered(m, u) {
        var q :| In(m, q, u);
        assert In(m', q, u);
      }
      if s <= u < s + n { assert In(m', s, u); }
    }
  }

  /** Growing block `q` by the elements behind it. */
  lemma GrowApart(m: BlockMap, capacity: int, q: int, s: int, n: UInt, m': BlockMap)
    requires Apart(m, capacity) && EndsAt(m, q, s) && s + n <= capacity < WRAP && m' == m[q := m[q] + n]
    requires forall u :: s <= u < s + n ==> !Covered(m, u)
    ensures Apart(m', capacity)
    ensures forall u :: Covered(m', u) <==> Covered(m, u) || s <= u < s + n
  {
    forall r, u | In(m', r, u)
      ensures In(m, r, u) != (r == q && s <= u < s + n)
      ensures In(m, r, u) ==> Covered(m, u)
    {
    }
    forall u
      ensures Covered(m', u) <==> Covered(m, u) || s <= u < s + n
    {
      if Covered(m, u) {
        var r :| In(m, r, u);
        assert In(m', r, u);
      }
      if s <= u < s + n { assert In(m', q, u); }
    }
  }

  /** Dropping block `p`. */
  lemma DropApart(m: BlockMap, capacity: int, p: int)
    requires Apart(m, capacity) && p in m
    ensures Apart(m - {p}, capacity)
    ensures forall u :: Covered(m - {p}, u) <==> Covered(m, u) && !(p <= u < p + m[p])
  {
    forall q, u | In(m - {p}, q, u)
      ensures In(m, q, u) && q != p
    {
    }
    forall u
      ensures Covered(m - {p}, u) <==> Covered(m, u) && !(p <= u < p + m[p])
    {
      if Covered(m - {p}, u) {
        var q :| In(m - {p}, q, u);
        assert p <= u < p + m[p] ==> In(m, p, u);
      }
      if Covered(m, u) && !(p <= u < p + m[p]) {
        var q :| In(m, q, u);
        assert In(m - {p}, q, u);
      }
    }
  }

  /** A block in use at the start of an available block is empty. */
  lemma NotBoth(st: State, p: int)
    requires Tiled(st)
    ensures p in st.available && p in st.inUse ==> st.inUse[p] == 0
  {
    if p in st.available && p in st.inUse {
      assert st.inUse[p] > 0 ==> In(st.inUse, p, p) && 0 <= p < st.capacity && Covered(st.inUse, p);
      assert st.available[p] > 0 ==> In(st.available, p, p) && Covered(st.available, p);
    }
  }

  /** Giving a block back, by itself or joined to the one before it. */
  lemma JoinedApart(m: BlockMap, capacity: int, s: int, n: UInt, m': BlockMap)
    requires Apart(m, capacity) && 0 <= s && s + n <= capacity < WRAP && n > 0 && (s in m ==> m[s] == 0)
    requires (forall u :: s <= u < s + n ==> !Covered(m, u)) && Joined(m, s, n, m')
    ensures Apart(m', capacity)
    ensures forall u :: Covered(m', u) <==> Covered(m, u) || s <= u < s + n
  {
    if exists q :: Precedes(m, s, q) {
      var q :| Precedes(m, s, q) && m' == m[q := Plus(m[q], n)];
      NoWrap(m, capacity, s, n, q);
      GrowApart(m, capacity, q, s, n, m');
    } else {
      PutApart(m, capacity, s, n);
    }
  }

  /** Within a buffer of less than 2^32 elements the joined size does not wrap. */
  lemma NoWrap(m: BlockMap, capacity: int, s: int, n: UInt, q: int)
    requires Apart(m, capacity) && s + n <= capacity < WRAP && EndsAt(m, q, s) && (m[q] > 0 || n > 0)
    ensures Plus(m[q], n) == m[q] + n
  {
    if m[q] > 0 { assert In(m, q, q); }
  }

  lemma JoinedPositive(m: BlockMap, capacity: int, s: int, n: UInt, m': BlockMap)
    requires Apart(m, capacity) && s + n <= capacity < WRAP && n > 0 && Joined(m, s, n, m')
        && forall p :: p in m ==> m[p] > 0
    ensures forall p :: p in m' ==> m'[p] > 0
  {
    if exists q :: Precedes(m, s, q) {
      var q :| Precedes(m, s, q) && m' == m[q := Plus(m[q], n)];
      NoWrap(m, capacity, s, n, q);
    }
  }

  /** What Alloc and Free do keeps the tiling. Alloc hands out available elements and nothing else changes hands. */
  lemma AllocatedTiled(st: State, n: UInt, st': State, r: Option<int>)
    requires Tiled(st) && Allocated(st, n, st', r) && r.Some?
    ensures Tiled(st')
    ensures forall u :: r.value <= u < r.value + n ==> Covered(st.available, u)
    ensures forall u :: Covered(st'.inUse, u) <==> Covered(st.inUse, u) || r.value <= u < r.value + n
    ensures forall u :: Covered(st'.available, u) <==> Covered(st.available, u) && !(r.value <= u < r.value + n)
  {
    var p := r.value;
    forall u | p <= u < p + n
      ensures Covered(st.available, u) && !Covered(st.inUse, u)
    {
      assert In(st.available, p, u);
    }
    NotBoth(st, p);
    PutApart(st.inUse, st.capacity, p, n);
    if st.capacity > 0 {
      TakeApart(st.available, st.capacity, p, n);
    } else {
      DropApart(st.available, 0, p);
    }
  }

  lemma FreedTiled(st: State, p: int, st': State)
    requires Tiled(st) && Freed(st, p, st') && p in st.inUse
    ensures Tiled(st')
    ensures forall u :: Covered(st'.inUse, u) <==> Covered(st.inUse, u) && !(p <= u < p + st.inUse[p])
    ensures forall u :: Covered(st'.available, u) <==> Covered(st.available, u) || p <= u < p + st.inUse[p]
  {
    var n := st.inUse[p];
    DropApart(st.inUse, st.capacity, p);
    forall u | p <= u < p + n
      ensures Covered(st.inUse, u) && !Covered(st.available, u)
    {
      assert In(st.inUse, p, u);
    }
    if n > 0 {
      NotBoth(st, p);
      JoinedApart(st.available, st.capacity, p, n, st'.available);
      if st.capacity > 0 { JoinedPositive(st.available, st.capacity, p, n, st'.available); }
    }
  }

  // ---------- Counting elements ----------

  /** How many of the first `n` elements of the buffer belong to a block. */
  ghost function Units(m: BlockMap, n: nat): (k: nat)
    ensures k <= n
  {
    if n == 0 then 0 else Units(m, n - 1) + if Covered(m, n - 1) then 1 else 0
  }

  /** How many of the first `n` elements are in [lo, hi). */
  function Overlap(lo: int, hi: int, n: nat): nat
  {
    if n == 0 then 0 else Overlap(lo, hi, n - 1) + if lo <= n - 1 < hi then 1 else 0
  }

  lemma {:induction false} OverlapIs(lo: int, hi: int, n: nat)
    requires 0 <= lo <= hi
    ensures Overlap(lo, hi, n) == if n <= lo then 0 else if n <= hi then n - lo else hi - lo
  {
    if n > 0 { OverlapIs(lo, hi, n - 1); }
  }

  lemma {:induction false} UnitsAdd(m: BlockMap, m': BlockMap, lo: int, hi: int, n: nat)
    requires forall u :: lo <= u < hi ==> !Covered(m, u)
    requires forall u :: Covered(m', u) <==> Covered(m, u) || lo <= u < hi
    ensures Units(m', n) == Units(m, n) + Overlap(lo, hi, n)
  {
    if n > 0 { UnitsAdd(m, m', lo, hi, n - 1); }
  }

  /** The elements in use and the available ones make up the buffer: none is lost. */
  lemma {:induction false} NothingLost(st: State, n: nat)
    requires Tiled(st) && n <= st.capacity
    ensures Units(st.available, n) + Units(st.inUse, n) == n
  {
    if n > 0 { NothingLost(st, n - 1); }
  }

  /** The number of elements in use grows by what Alloc hands out. */
  lemma AllocatedUnits(st: State, n: UInt, st': State, r: Option<int>)
    requires Tiled(st) && Allocated(st, n, st', r) && r.Some?
    ensures Units(st'.inUse, st.capacity) == Units(st.inUse, st.capacity) + n
  {
    AllocatedTiled(st, n, st', r);
    assert forall u :: r.value <= u < r.value + n ==> !Covered(st.inUse, u);
    UnitsAdd(st.inUse, st'.inUse, r.value, r.value + n, st.capacity);
    OverlapIs(r.value, r.value + n, st.capacity);
  }

  /** It shrinks by what Free gives back. */
  lemma FreedUnits(st: State, p: int, st': State)
    requires Tiled(st) && Freed(st, p, st')
    ensures Units(st'.inUse, st.capacity) == Units(st.inUse, st.capacity) - (if p in st.inUse then st.inUse[p] else 0)
  {
    if p in st.inUse {
      var n := st.inUse[p];
      FreedTiled(st, p, st');
      forall u
        ensures Covered(st.inUse, u) <==> Covered(st'.inUse, u) || p <= u < p + n
      {
        assert p <= u < p + n ==> In(st.inUse, p, u);
      }
      UnitsAdd(st'.inUse, st.inUse, p, p + n, st.capacity);
      OverlapIs(p, p + n, st.capacity);
    }
  }

  // ---------- Runs ----------

  datatype Call = AllocCall(n: UInt) | FreeCall(p: int) | ClearCall | ReserveCall(capacity: UInt)

  ghost predicate Step(st: State, c: Call, st': State) {
    match c
    case AllocCall(n) => exists r :: Allocated(st, n, st', r)
    case FreeCall(p) => Freed(st, p, st')
    case ClearCall => st' == Cleared(st)
    case ReserveCall(capacity) => st' == Created(capacity)
  }

  /** What Size() is ahead of the number of elements in use, modulo 2^32. */
  ghost function Drift(st: State): UInt {
    (st.size - Units(st.inUse, st.capacity)) % WRAP
  }

  lemma {:induction false} NoUnits(n: nat)
    ensures Units(map[], n) == 0
  {
    if n > 0 { NoUnits(n - 1); }
  }

  lemma AllocDrift(st: State, n: UInt, st': State)
    requires Tiled(st) && Step(st, AllocCall(n), st')
    ensures Tiled(st') && Drift(st') == Drift(st)
  {
    var r :| Allocated(st, n, st', r);
    if r.Some? {
      AllocatedTiled(st, n, st', r);
      AllocatedUnits(st, n, st', r);
      SameDrift(st, st', n);
    }
  }

  lemma FreeDrift(st: State, p: int, st': State)
    requires Tiled(st) && Freed(st, p, st')
    ensures Tiled(st') && Drift(st') == Drift(st)
  {
    FreedUnits(st, p, st');
    if p in st.inUse {
      FreedTiled(st, p, st');
      var n: int := st.inUse[p];
      SameDrift(st, st', -n);
    }
  }

  lemma SameDrift(st: State, st': State, n: int)
    requires st'.size == (st.size + n) % WRAP && Units(st'.inUse, st'.capacity) == Units(st.inUse, st.capacity) + n
    ensures Drift(st') == Drift(st)
  {
    Shift(st.size, Units(st.inUse, st.capacity), n);
  }

  lemma Shift(size: int, units: int, n: int)
    ensures ((size + n) % WRAP - (units + n)) % WRAP == (size - units) % WRAP
  {
    assert ((size + n) % WRAP - (units + n)) == (size - units) - (size + n) / WRAP * WRAP;
  }

  /** Alloc and Free keep the drift, Clear sets it to 0, Reserve to minus the capacity. */
  lemma StepDrift(st: State, c: Call, st': State)
    requires Tiled(st) && Step(st, c, st')
    ensures Tiled(st')
    ensures Drift(st') == match c
                          case AllocCall(_) => Drift(st)
                          case FreeCall(_) => Drift(st)
                          case ClearCall => 0
                          case ReserveCall(capacity) => Minus(0, capacity)
  {
    match c {
      case AllocCall(n) => AllocDrift(st, n, st');
      case FreeCall(p) => FreeDrift(st, p, st');
      case ClearCall =>
        ClearedTiled(st);
        NoUnits(st.capacity);
      case ReserveCall(capacity) =>
        CreatedTiled(capacity);
        NoUnits(capacity);
    }
  }

  ghost predicate IsRun(states: seq<State>, calls: seq<Call>, capacity: UInt) {
    && |states| == |calls| + 1 && states[0] == Created(capacity)
    && forall i :: 0 <= i < |calls| ==> StepAt(states, calls, i)
  }

  ghost predicate StepAt(states: seq<State>, calls: seq<Call>, i: nat)
    requires i < |calls| && |states| == |calls| + 1
  {
    Step(states[i], calls[i], states[i + 1])
  }

  /** The drift that a sequence of calls leaves: that of the last Clear or Reserve, or of the constructor. */
  function DriftAfter(calls: seq<Call>, capacity: UInt): UInt {
    if calls == [] then Minus(0, capacity)
    else match calls[|calls| - 1]
      case AllocCall(_) => DriftAfter(calls[..|calls| - 1], capacity)
      case FreeCall(_) => DriftAfter(calls[..|calls| - 1], capacity)
      case ClearCall => 0
      case ReserveCall(c) => Minus(0, c)
  }

  /** After any calls every element is in exactly one block, and Size() is off by a constant of the last reset only. */
  lemma {:induction false} RunTiled(states: seq<State>, calls: seq<Call>, capacity: UInt)
    requires IsRun(states, calls, capacity)
    ensures Tiled(states[|calls|]) && Drift(states[|calls|]) == DriftAfter(calls, capacity)
  {
    if calls == [] {
      CreatedTiled(capacity);
      NoUnits(capacity);
    } else {
      var n := |calls| - 1;
      var before, first := states[..n + 1], calls[..n];
      forall i | 0 <= i < n
        ensures StepAt(before, first, i)
      {
        assert StepAt(states, calls, i);
      }
      RunTiled(before, first, capacity);
      assert StepAt(states, calls, n);
      StepDrift(states[n], calls[n], states[n + 1]);
    }
  }

  /** The capacity that a sequence of calls leaves: that of the last Reserve, or of the constructor. */
  function CapacityAfter(calls: seq<Call>, capacity: UInt): UInt {
    if calls == [] then capacity
    else match calls[|calls| - 1]
      case ReserveCall(c) => c
      case _ => CapacityAfter(calls[..|calls| - 1], capacity)
  }

  lemma StepCapacity(st: State, c: Call, st': State)
    requires Step(st, c, st')
    ensures st'.capacity == if c.ReserveCall? then c.capacity else st.capacity
    ensures c.ClearCall? ==> st'.inUse == map[] && Fits(st'.available, st'.capacity)
  {
    if c.ClearCall? { assert 0 in st'.available && st'.capacity <= st'.available[0]; }
  }

  /** Clear keeps the capacity, and the whole buffer can be handed out after it. */
  lemma {:induction false} RunCapacity(states: seq<State>, calls: seq<Call>, capacity: UInt)
    requires IsRun(states, calls, capacity)
    ensures states[|calls|].capacity == CapacityAfter(calls, capacity)
    ensures calls != [] && calls[|calls| - 1].ClearCall? ==>
              states[|calls|].inUse == map[] && Fits(states[|calls|].available, CapacityAfter(calls, capacity))
  {
    hide Step, Fits;
    if calls != [] {
      var n := |calls| - 1;
      var before, first := states[..n + 1], calls[..n];
      forall i | 0 <= i < n
        ensures StepAt(before, first, i)
      {
        assert StepAt(states, calls, i);
      }
      RunCapacity(before, first, capacity);
      assert StepAt(states, calls, n);
      StepCapacity(states[n], calls[n], states[n + 1]);
    }
  }

  lemma DriftZero(size: UInt, units: UInt)
    ensures (size - units) % WRAP == 0 <==> size == units
  {
  }

  /** Size() is the number of elements in use exactly if the drift is 0. So it is wrong until the first
      Clear, unless the capacity is 0.
   */
  lemma SizeIsUnits(states: seq<State>, calls: seq<Call>, capacity: UInt)
    requires IsRun(states, calls, capacity)
    ensures var st := states[|calls|];
            st.size == Units(st.inUse, st.capacity) <==> DriftAfter(calls, capacity) == 0
    ensures (forall i :: 0 <= i < |calls| ==> calls[i].AllocCall? || calls[i].FreeCall?) ==>
              (DriftAfter(calls, capacity) == 0 <==> capacity == 0)
  {
    RunTiled(states, calls, capacity);
    var st := states[|calls|];
    DriftZero(st.size, Units(st.inUse, st.capacity));
    if forall i :: 0 <= i < |calls| ==> calls[i].AllocCall? || calls[i].FreeCall? { NoReset(calls, capacity); }
  }

  lemma {:induction false} NoReset(calls: seq<Call>, capacity: UInt)
    requires forall i :: 0 <= i < |calls| ==> calls[i].AllocCall? || calls[i].FreeCall?
    ensures DriftAfter(calls, capacity) == Minus(0, capacity)
  {
    if calls != [] { NoReset(calls[..|calls| - 1], capacity); }
  }

  // ---------- The class ----------

  class Pool {
    var available: BlockMap
    var inUse: BlockMap
    var capacity: UInt
    var size: UInt

    ghost function St(): State
      reads this
    {
      State(capacity, size, available, inUse)
    }

    ghost predicate Valid()
      reads this
    {
      Tiled(St())
    }

    /** Pool<T>::Pool */
    constructor (capacity: UInt)
      ensures Valid() && St() == Created(capacity)
    {
      this.capacity, size, available, inUse := 0, 0, map[], map[];
      new;
      if 0 < capacity {
        this.capacity := capacity;
        AddToAvailable(0, capacity);
      }
      CreatedTiled(capacity);
    }

    /** Pool<T>::Reserve */
    method Reserve(capacity: UInt)
      modifies this
      ensures Valid() && St() == Created(capacity)
    {
      this.capacity, size, available, inUse := 0, 0, map[], map[];
      if 0 < capacity {
        this.capacity := capacity;
        AddToAvailable(0, capacity);
      }
      CreatedTiled(capacity);
    }

    /** Pool<T>::Alloc: the best fit, or nothing exactly if no available block is large enough. */
    method Alloc(n: UInt) returns (r: Option<int>)
      requires Valid()
      modifies this
      ensures Valid() && Allocated(old(St()), n, St(), r)
      ensures r.None? <==> !Fits(old(available), n)
    {
      r := Search(n);
      if r.Some? {
        RemoveFromAvailable(r.value, n);
        AddToInUse(r.value, n);
        AllocatedTiled(old(St()), n, St(), r);
      }
    }

    /** The search loop of Alloc. */
    method Search(n: UInt) returns (r: Option<int>)
      ensures r.None? ==> !Fits(available, n)
      ensures r.Some? ==> BestFit(available, n, r.value)
    {
      r := None;
      var bestSize: UInt := 0;
      var keys := KeysInOrder(available);
      var i := 0;
      while i < |keys|
        invariant 0 <= i <= |keys|
        invariant r.None? ==> forall k :: 0 <= k < i ==> available[keys[k]] < n
        invariant r.Some? ==> r.value in keys[..i] && bestSize == available[r.value] && n < bestSize
        invariant r.Some? ==> forall k :: 0 <= k < i && n <= available[keys[k]] ==>
                    bestSize < available[keys[k]] || (bestSize == available[keys[k]] && r.value <= keys[k])
      {
        var size := available[keys[i]];
        if n == size {
          r := Some(keys[i]);
          return;
        } else if n <= size && (bestSize > size || r.None?) {
          r := Some(keys[i]);
          bestSize := size;
        }
        i := i + 1;
      }
    }

    /** Pool<T>::Free; an address that was not handed out is ignored. */
    method Free(p: int)
      requires Valid()
      modifies this
      ensures Valid() && Freed(old(St()), p, St())
    {
      var n := RemoveFromInUse(p);
      if 0 != n { AddToAvailable(p, n); }
      if p in old(inUse) { FreedTiled(old(St()), p, St()); }
    }

    /** Pool<T>::Clear */
    method Clear()
      modifies this
      ensures Valid() && St() == Cleared(old(St()))
    {
      available, inUse := map[], map[];
      AddToAvailable(0, capacity);
      size := 0;
      ClearedTiled(old(St()));
    }

    /** Pool<T>::AddToAvailable */
    method AddToAvailable(s: int, n: UInt)
      modifies this`available, this`size
      ensures Joined(old(available), s, n, available) && size == Minus(old(size), n)
    {
      var merge := false;
      var keys := KeysInOrder(available);
      var i := 0;
      while i < |keys| && !merge
        invariant 0 <= i <= |keys| && size == old(size)
        invariant !merge ==> available == old(available) && forall k :: 0 <= k < i ==> !EndsAt(available, keys[k], s)
        invariant merge ==> Merges(old(available), s, n, available)
        decreases |keys| - i, !merge
      {
        if s == keys[i] + available[keys[i]] {
          assert Precedes(available, s, keys[i]);
          available := available[keys[i] := Plus(available[keys[i]], n)];
          merge := true;
        } else {
          i := i + 1;
        }
      }
      if !merge { available := available[s := n]; }
      size := Minus(size, n);
    }

    /** Pool<T>::RemoveFromAvailable */
    method RemoveFromAvailable(p: int, n: UInt)
      requires p in available && n <= available[p]
      modifies this`available
      ensures available == Take(old(available), p, n)
    {
      var size := available[p];
      available := available - {p};
      if n < size { available := available[p + n := size - n]; }
    }

    /** Pool<T>::AddToInUse */
    method AddToInUse(p: int, n: UInt)
      modifies this`inUse, this`size
      ensures inUse == old(inUse)[p := n] && size == Plus(old(size), n)
    {
      inUse := inUse[p := n];
      size := Plus(size, n);
    }

    /** Pool<T>::RemoveFromInUse */
    method RemoveFromInUse(p: int) returns (n: UInt)
      modifies this`inUse
      ensures p in old(inUse) ==> n == old(inUse)[p] && inUse == old(inUse) - {p}
      ensures p !in old(inUse) ==> n == 0 && inUse == old(inUse)
    {
      n := 0;
      if p in inUse {
        n := inUse[p];
        inUse := inUse - {p};
      }
    }
  }
}
