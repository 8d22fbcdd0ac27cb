/** The redundant-write filter of Display/EffectStateManager.cpp over a device that keeps one value for every state.
    States do not influence each other, so the meaning of the calls is given for one state, and the class is proved
    against that meaning for every state at once.
*/
module EffectStates {
  /** A DWORD, or the pointer of a texture. */
  type Value = int

  /** What a write addresses: the four kinds of states that the filter handles. */
  datatype Key = RenderKey(state: int) | TextureKey(stage: int) | TextureStateKey(stage: int, typ: int)
    | SamplerKey(sampler: int, typ: int)

  datatype Option<T> = None | Some(value: T)

  /** One state: on the device, in the global cache, and as saved for the end of the pass. */
  datatype Cell = Cell(device: Value, cached: Option<Value>, saved: Option<Value>)
  {
    /** The write is skipped. */
    predicate Duplicate(v: Value) {
      cached == Some(v)
    }

    predicate Coherent() {
      cached.Some? ==> cached.value == device
    }
  }

  datatype Call = SetCall(key: Key, v: Value) | BeginPassCall | EndPassCall | ResetCall

  function Do(cell: Cell, k: Key, c: Call): Cell {
    match c
    case SetCall(key, v) => if key != k || cell.Duplicate(v) then cell else Cell(v, Some(v), Some(cell.device))
    case BeginPassCall => cell.(saved := None)
    case EndPassCall => if cell.saved.Some? then Cell(cell.saved.value, cell.saved, cell.saved) else cell
    case ResetCall => cell.(cached := None, saved := None)
  }

  function Run(cell: Cell, k: Key, calls: seq<Call>): Cell {
    if calls == [] then cell else Do(Run(cell, k, calls[..|calls| - 1]), k, calls[|calls| - 1])
  }

  // ---------- The cache tells the truth ----------

  /** In any order of calls, a cached value is the device's value. */
  lemma {:induction false} RunCoherent(cell: Cell, k: Key, calls: seq<Call>)
    requires cell.Coherent()
    ensures Run(cell, k, calls).Coherent()
  {
    if calls != [] { RunCoherent(cell, k, calls[..|calls| - 1]); }
  }

  /** A device whose states were changed behind the manager's back: after Reset the cache tells the truth again whatever
      calls follow, and the next write reaches the device.
   */
  lemma ResetRecovers(cell: Cell, k: Key, device: Value, calls: seq<Call>, v: Value)
    ensures var reset := Do(cell.(device := device), k, ResetCall);
            && reset.device == device && Run(reset, k, calls).Coherent()
            && Do(reset, k, SetCall(k, v)) == Cell(v, Some(v), Some(device))
  {
    RunCoherent(Do(cell.(device := device), k, ResetCall), k, calls);
  }

  /** Without Reset, the next write reaches such a device exactly if its value is not cached, or already there. */
  lemma ChangeIsMissed(cell: Cell, k: Key, device: Value, v: Value)
    ensures Do(cell.(device := device), k, SetCall(k, v)).device == v <==> cell.cached != Some(v) || device == v
  {
  }

  /** The same manager without a cache: it reads the device to see if a write changes it, and it writes every time. */
  datatype Plain = Plain(device: Value, saved: Option<Value>)

  function DoPlain(p: Plain, k: Key, c: Call): Plain {
    match c
    case SetCall(key, v) => if key != k then p else Plain(v, if v == p.device then p.saved else Some(p.device))
    case BeginPassCall => p.(saved := None)
    case EndPassCall => if p.saved.Some? then p.(device := p.saved.value) else p
    case ResetCall => p.(saved := None)
  }

  function RunPlain(p: Plain, k: Key, calls: seq<Call>): Plain {
    if calls == [] then p else DoPlain(RunPlain(p, k, calls[..|calls| - 1]), k, calls[|calls| - 1])
  }

  /** A save that the cacheless manager does not make is of a value that is on the device at the time. */
  ghost predicate Agree(cell: Cell, p: Plain) {
    && cell.Coherent() && cell.device == p.device
    && (cell.saved.Some? ==> cell.cached.Some?)
    && (p.saved.Some? ==> cell.saved == p.saved)
    && (p.saved.None? && cell.saved.Some? ==> cell.saved.value == cell.device)
  }

  /** Skipping writes does not show on the device, whatever the calls. */
  lemma {:induction false} FilterIsInvisible(device: Value, k: Key, calls: seq<Call>)
    ensures Agree(Run(Cell(device, None, None), k, calls), RunPlain(Plain(device, None), k, calls))
  {
    if calls != [] { FilterIsInvisible(device, k, calls[..|calls| - 1]); }
  }

  // ---------- What EndPass restores ----------

  /** The values that a pass writes to state `k`, in order. */
  function Writes(calls: seq<Call>, k: Key): seq<Value> {
    if calls == [] then []
    else
      var c := calls[|calls| - 1];
      Writes(calls[..|calls| - 1], k) + (if c.SetCall? && c.key == k then [c.v] else [])
  }

  /** The values that state `k` goes through, from `v0`: writes of the value it has are left out. */
  function Changes(v0: Value, vs: seq<Value>): (r: seq<Value>)
    ensures r != [] && r[0] == v0
  {
    if vs == [] then [v0]
    else
      var before, v := Changes(v0, vs[..|vs| - 1]), vs[|vs| - 1];
      if v == before[|before| - 1] then before else before + [v]
  }

  /** The last value but one, if there are two. */
  function LastButOne(s: seq<Value>): Value
    requires s != []
  {
    if |s| == 1 then s[0] else s[|s| - 2]
  }

  predicate Sets(calls: seq<Call>) {
    forall i :: 0 <= i < |calls| ==> calls[i].SetCall?
  }

  /** The state of a cell within a pass that took it through `changes` so far. */
  ghost predicate Within(cell: Cell, changes: seq<Value>) {
    && changes != [] && cell.Coherent() && cell.device == changes[|changes| - 1]
    && (cell.saved.Some? ==> cell.saved.value == LastButOne(changes))
    && (cell.saved.None? || cell.cached.None? ==> |changes| == 1)
  }

  lemma {:induction false} DuringPass(cell: Cell, k: Key, sets: seq<Call>)
    requires cell.Coherent() && cell.saved.None? && Sets(sets)
    ensures Within(Run(cell, k, sets), Changes(cell.device, Writes(sets, k)))
  {
    if sets != [] {
      var init, c := sets[..|sets| - 1], sets[|sets| - 1];
      DuringPass(cell, k, init);
      var writes := Writes(init, k);
      if c.key == k {
        assert (writes + [c.v])[..|writes|] == writes;
        WithinStep(Run(cell, k, init), k, cell.device, writes, c.v);
      } else {
        assert writes + [] == writes;
      }
    }
  }

  lemma WithinStep(cell: Cell, k: Key, v0: Value, writes: seq<Value>, v: Value)
    requires Within(cell, Changes(v0, writes))
    ensures Within(Do(cell, k, SetCall(k, v)), Changes(v0, writes + [v]))
  {
    assert (writes + [v])[..|writes|] == writes;
  }

  function Pass(sets: seq<Call>): seq<Call> {
    [BeginPassCall] + sets + [EndPassCall]
  }

  /** A pass leaves a state with the last but one of the values that it went through. */
  lemma PassLeaves(cell: Cell, k: Key, sets: seq<Call>)
    requires cell.Coherent() && Sets(sets)
    ensures Run(cell, k, Pass(sets)).device == LastButOne(Changes(cell.device, Writes(sets, k)))
    ensures Run(cell, k, Pass(sets)).Coherent()
  {
    var cell1 := Do(cell, k, BeginPassCall);
    RunAppend(cell, k, [BeginPassCall], sets);
    RunAppend(cell, k, [BeginPassCall] + sets, [EndPassCall]);
    RunOne(cell, k, BeginPassCall);
    RunOne(Run(cell1, k, sets), k, EndPassCall);
    DuringPass(cell1, k, sets);
  }

  lemma RunOne(cell: Cell, k: Key, c: Call)
    ensures Run(cell, k, [c]) == Do(cell, k, c)
  {
    assert [c][..0] == [];
  }

  lemma {:induction false} RunAppend(cell: Cell, k: Key, a: seq<Call>, b: seq<Call>)
    ensures Run(cell, k, a + b) == Run(Run(cell, k, a), k, b)
  {
    if b == [] {
      assert a + b == a;
    } else {
      assert (a + b)[..|a + b| - 1] == a + b[..|b| - 1];
      RunAppend(cell, k, a, b[..|b| - 1]);
    }
  }

  /** So a pass restores a state exactly if it left the state alone, or went from its
      first value directly to the last.
   */
  lemma PassRestores(cell: Cell, k: Key, sets: seq<Call>)
    requires cell.Coherent() && Sets(sets)
    ensures var changes := Changes(cell.device, Writes(sets, k));
            && (Run(cell, k, Pass(sets)).device == cell.device <==> LastButOne(changes) == changes[0])
            && (|changes| <= 2 ==> Run(cell, k, Pass(sets)).device == cell.device)
            && (|changes| == 3 ==> Run(cell, k, Pass(sets)).device != cell.device)
  {
    PassLeaves(cell, k, sets);
    ChangesDiffer(cell.device, Writes(sets, k));
  }

  lemma {:induction false} ChangesDiffer(v0: Value, vs: seq<Value>)
    ensures forall i, j :: 0 <= i < j < |Changes(v0, vs)| && j == i + 1 ==> Changes(v0, vs)[i] != Changes(v0, vs)[j]
  {
    if vs != [] { ChangesDiffer(v0, vs[..|vs| - 1]); }
  }

  lemma OneMoreWrite(calls: seq<Call>, k: Key, v: Value)
    ensures Writes(calls + [SetCall(k, v)], k) == Writes(calls, k) + [v]
  {
    assert (calls + [SetCall(k, v)])[..|calls|] == calls;
  }

  lemma OneMoreChange(v0: Value, vs: seq<Value>, v: Value)
    ensures var before := Changes(v0, vs);
            Changes(v0, vs + [v]) == if v == before[|before| - 1] then before else before + [v]
  {
    var all := vs + [v];
    assert all[..|all| - 1] == vs && all[|all| - 1] == v;
  }

  lemma NoChange(v0: Value, k: Key)
    ensures Writes([], k) == [] && Changes(v0, []) == [v0]
  {
  }

  /** Two new values in a pass: the first of them stays on the device. */
  lemma SecondChangeIsKept(k: Key, v0: Value, v1: Value, v2: Value)
    requires v0 != v1 && v1 != v2
    ensures Run(Cell(v0, None, None), k, Pass([SetCall(k, v1), SetCall(k, v2)])).device == v1
  {
    hide Writes, Changes, Run;
    NoChange(v0, k);
    OneMoreWrite([], k, v1);
    OneMoreWrite([] + [SetCall(k, v1)], k, v2);
    OneMoreChange(v0, [], v1);
    OneMoreChange(v0, [] + [v1], v2);
    var sets := [SetCall(k, v1), SetCall(k, v2)];
    assert sets == [] + [SetCall(k, v1)] + [SetCall(k, v2)];
    PassLeaves(Cell(v0, None, None), k, sets);
  }
}
