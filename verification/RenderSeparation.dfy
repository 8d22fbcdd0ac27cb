/** Exactly when a post-processing pass of Display/RenderTarget.cpp reads another buffer than it writes, for calls in
    any order, and the calls that make it read its own.
*/
module RenderSeparation {
  import opened RenderPasses

  lemma {:induction false} RunConcat(st: State, a: seq<Call>, b: seq<Call>)
    ensures Run(st, a + b) == Run(Run(st, a), b)
    decreases |b|
  {
    if b == [] {
      assert a + b == a;
    } else {
      assert (a + b)[..|a + b| - 1] == a + b[..|b| - 1];
      RunConcat(st, a, b[..|b| - 1]);
    }
  }

  lemma RunOne(st: State, c: Call)
    ensures Run(st, [c]) == Do(st, c)
  {
    assert [c][..0] == [];
  }

  // ---------- One pass ----------

  lemma WithinStep(st: State, c: Call)
    requires st.phase.InPass? && !c.EndPassCall?
    ensures var st' := Do(st, c); st'.phase.InPass? && st'.currentTex == st.currentTex && st'.current == st.current
  {
  }

  lemma {:induction false} DuringPass(st: State, calls: seq<Call>)
    requires st.phase.InPass? && EndPassCall !in calls
    ensures var st' := Run(st, calls); st'.phase.InPass? && st'.currentTex == st.currentTex && st'.current == st.current
  {
    if calls != [] {
      DuringPass(st, calls[..|calls| - 1]);
      WithinStep(Run(st, calls[..|calls| - 1]), calls[|calls| - 1]);
    }
  }

  /** The pass that begins in this state directs the target somewhere. */
  predicate Directs(st: State) {
    (st.mode.PostProcess? || st.currentTex.None?) && !st.immediate
  }

  /** A pass of any process, with any calls in it, leaves the buffers apart exactly if what it
      wrote, or found written, is not the buffer whose turn is next. The turn goes on if the
      immediate-write setting is off at its end.
   */
  lemma PassKeepsApart(st: State, index: nat, calls: seq<Call>)
    requires Accepted(st, BeginPassCall(index)) && EndPassCall !in calls
    requires Accepted(Run(Do(st, BeginPassCall(index)), calls), EndPassCall)
    ensures var end := Run(Do(st, BeginPassCall(index)), calls);
            var next := if end.immediate then st.current else 1 - st.current;
            Apart(Do(end, EndPassCall)) <==>
              if !Directs(st) then st.currentTex != Some(Buffer(next))
              else if st.override.Some? then st.override != Some(Buffer(next))
              else st.first || !end.immediate
  {
    hide Do;
    PassBegins(st, index);
    DuringPass(Do(st, BeginPassCall(index)), calls);
    PassEnds(Run(Do(st, BeginPassCall(index)), calls));
  }

  lemma PassBegins(st: State, index: nat)
    requires Accepted(st, BeginPassCall(index))
    ensures var st' := Do(st, BeginPassCall(index));
            && st'.phase.InPass? && st'.current == st.current
            && st'.currentTex == if !Directs(st) then st.currentTex else if st.override.Some? then st.override
                                 else Some(Buffer(if st.first then ORIGINAL else st.current))
  {
  }

  lemma PassEnds(st: State)
    requires Accepted(st, EndPassCall)
    ensures var st' := Do(st, EndPassCall);
            st'.currentTex == st.currentTex && st'.current == if st.immediate then st.current else 1 - st.current
  {
  }

  // ---------- Between passes ----------

  /** A normal process began in this run. */
  predicate NormalBegan(st: State, calls: seq<Call>) {
    calls != [] && (NormalBegan(st, calls[..|calls| - 1]) ||
                    (calls[|calls| - 1] == BeginCall(NormalProcess)
                     && Accepted(Run(st, calls[..|calls| - 1]), calls[|calls| - 1])))
  }

  /** No pass ended in this run. */
  ghost predicate NoneEnds(st: State, calls: seq<Call>) {
    forall i :: 0 <= i < |calls| ==> !EndsAt(st, calls, i)
  }

  ghost predicate EndsAt(st: State, calls: seq<Call>, i: nat)
    requires i < |calls|
  {
    calls[i].EndPassCall? && Accepted(Run(st, calls[..i]), calls[i])
  }

  lemma GapStep(st: State, c: Call)
    requires !(c.EndPassCall? && Accepted(st, c))
    ensures var st' := Do(st, c);
            && (st.phase.InPass? ==> st'.phase.InPass?)
            && (!st'.phase.InPass? && c == BeginCall(NormalProcess) && Accepted(st, c) ==> st'.currentTex == None)
            && (!st'.phase.InPass? && !(c == BeginCall(NormalProcess) && Accepted(st, c)) ==>
                  st'.currentTex == st.currentTex && st'.current == st.current)
  {
  }

  lemma {:induction false} DuringGap(st: State, calls: seq<Call>)
    requires !st.phase.InPass? && NoneEnds(st, calls)
    ensures var st' := Run(st, calls);
            st'.phase.InPass? || (Apart(st') <==> Apart(st) || NormalBegan(st, calls))
    ensures var st' := Run(st, calls);
            st'.phase.InPass? || (if NormalBegan(st, calls) then st'.currentTex == None
                                  else st'.currentTex == st.currentTex && st'.current == st.current)
  {
    if calls != [] {
      var n := |calls| - 1;
      var before := calls[..n];
      forall i | 0 <= i < n
        ensures !EndsAt(st, before, i)
      {
        assert before[..i] == calls[..i] && !EndsAt(st, calls, i);
      }
      DuringGap(st, before);
      assert !EndsAt(st, calls, n);
      GapStep(Run(st, before), calls[n]);
    }
  }

  /** Calls in any order: before a pass has ended, and after the last one that did, an own pass renders to another
      buffer than it reads exactly if a normal process began since, or the last pass did not end with the texture
      written last being the buffer whose turn is next.
   */
  lemma SeparatesExactly(st: State, gap: seq<Call>, c: Call)
    requires Accepted(st, EndPassCall) && NoneEnds(Do(st, EndPassCall), gap)
        && OwnPass(Run(Do(st, EndPassCall), gap), c)
    ensures var now := Run(Do(st, EndPassCall), gap);
            Separates(now, Do(now, c)) <==>
              NormalBegan(Do(st, EndPassCall), gap)
                || st.currentTex != Some(Buffer(if st.immediate then st.current else 1 - st.current))
  {
    DuringGap(Do(st, EndPassCall), gap);
    OwnPassSeparates(Run(Do(st, EndPassCall), gap), c);
  }

  lemma FirstPassSeparates(primary: bool, immediate: bool, target: Option<Tex>, calls: seq<Call>, c: Call)
    requires NoneEnds(Created(primary, immediate, target), calls)
        && OwnPass(Run(Created(primary, immediate, target), calls), c)
    ensures var now := Run(Created(primary, immediate, target), calls); Separates(now, Do(now, c))
  {
    DuringGap(Created(primary, immediate, target), calls);
    OwnPassSeparates(Run(Created(primary, immediate, target), calls), c);
  }

  /** Otherwise the pass reads the buffer that it was last directed to write, and is not redirected. */
  lemma NotApartReadsItself(st: State, c: Call)
    requires OwnPass(st, c) && !Apart(st)
    ensures var st' := Do(st, c);
            st'.bound == Some(Buffer(st.current)) == st'.currentTex && st'.target == st.target && !st'.swap
  {
  }

  // ---------- Calls that make a pass read its own buffer ----------

  /** A process of one pass. */
  function Process(mode: Mode, index: nat): seq<Call> {
    [BeginCall(mode)] + ([BeginPassCall(index)] + ([EndPassCall] + [EndCall]))
  }

  function AfterProcess(st: State, mode: Mode, index: nat): State {
    Do(Do(Do(Do(st, BeginCall(mode)), BeginPassCall(index)), EndPassCall), EndCall)
  }

  lemma RunProcess(st: State, mode: Mode, index: nat)
    ensures Run(st, Process(mode, index)) == AfterProcess(st, mode, index)
  {
    hide Do;
    RunThen(st, BeginCall(mode), [BeginPassCall(index)] + ([EndPassCall] + [EndCall]));
    var st1 := Do(st, BeginCall(mode));
    RunThen(st1, BeginPassCall(index), [EndPassCall] + [EndCall]);
    var st2 := Do(st1, BeginPassCall(index));
    RunThen(st2, EndPassCall, [EndCall]);
    RunOne(Do(st2, EndPassCall), EndCall);
  }

  lemma RunThen(st: State, c: Call, calls: seq<Call>)
    ensures Run(st, [c] + calls) == Run(Do(st, c), calls)
  {
    RunConcat(st, [c], calls);
    RunOne(st, c);
  }

  /** An enabled target after its first process, a normal one of one pass. */
  predicate Warm(st: State) {
    && st.enabled && st.phase.Ended? && !st.immediate && !st.first && st.override.None? && st.previous.None?
    && st.currentTex == Some(Buffer(ORIGINAL)) && st.current == 1
  }

  lemma WarmUp(primary: bool, target: Option<Tex>)
    ensures Warm(Run(Created(primary, false, target), [EnableCall(true)] + Process(NormalProcess, 0)))
    ensures Run(Created(primary, false, target), [EnableCall(true)] + Process(NormalProcess, 0)).primary == primary
    ensures (primary ==> target.Some?) ==>
              Run(Created(primary, false, target), [EnableCall(true)] + Process(NormalProcess, 0)).target
              == if primary then target else None
  {
    hide Warm, Created, Do, AfterProcess, Process;
    RunThen(Created(primary, false, target), EnableCall(true), Process(NormalProcess, 0));
    RunProcess(Do(Created(primary, false, target), EnableCall(true)), NormalProcess, 0);
    FirstProcess(primary, target);
  }

  lemma FirstProcess(primary: bool, target: Option<Tex>)
    ensures var st := AfterProcess(Do(Created(primary, false, target), EnableCall(true)), NormalProcess, 0);
            && Warm(st) && st.primary == primary
            && ((primary ==> target.Some?) ==> st.target == if primary then target else None)
  {
  }

  lemma WarmPost(st: State, index: nat)
    requires Warm(st)
    ensures var st' := AfterProcess(st, PostProcess, index);
            && st'.enabled && st'.phase.Ended? && !st'.immediate && !st'.first && st'.override.None?
            && st'.currentTex == Some(Buffer(1)) && st'.current == 0
  {
  }

  lemma UnknownTakesTheTurn(st: State, index: nat)
    requires st.enabled && st.phase.Ended? && !st.immediate && !st.first && st.override.None?
        && st.currentTex == Some(Buffer(1))
    requires st.current == 0
    ensures var st' := AfterProcess(st, UnknownProcess, index);
            && st'.enabled && st'.phase.Ended? && !st'.immediate && !st'.first && st'.override.None?
            && st'.currentTex == Some(Buffer(1)) && st'.current == 1
  {
  }

  /** A begin with the unknown process: its pass writes nowhere but takes its turn, so the next post process reads the
      buffer that it is to write, and is not redirected to it.
   */
  lemma UnknownProcessReadsItself(primary: bool, target: Option<Tex>, j: nat)
    ensures var calls := [EnableCall(true)] + Process(NormalProcess, 0) + Process(PostProcess, 0)
        + Process(UnknownProcess, 0);
            var st := Do(Run(Created(primary, false, target), calls), BeginCall(PostProcess));
            && OwnPass(st, BeginPassCall(j)) && !Separates(st, Do(st, BeginPassCall(j)))
            && Do(st, BeginPassCall(j)).bound == Some(Buffer(st.current)) && !Do(st, BeginPassCall(j)).swap
  {
    hide AfterProcess, Process;
    var st0, warm := Created(primary, false, target), [EnableCall(true)] + Process(NormalProcess, 0);
    WarmUp(primary, target);
    var st1 := Run(st0, warm);
    RunConcat(st0, warm, Process(PostProcess, 0));
    RunProcess(st1, PostProcess, 0);
    WarmPost(st1, 0);
    var st2 := AfterProcess(st1, PostProcess, 0);
    RunConcat(st0, warm + Process(PostProcess, 0), Process(UnknownProcess, 0));
    RunProcess(st2, UnknownProcess, 0);
    UnknownTakesTheTurn(st2, 0);
    var st := Do(AfterProcess(st2, UnknownProcess, 0), BeginCall(PostProcess));
    NotApartReadsItself(st, BeginPassCall(j));
  }

  /** An own buffer as override of one pass: the next pass reads and writes that buffer. */
  lemma OwnOverrideReadsItself(primary: bool, target: Option<Tex>, i: nat, j: nat)
    ensures var st := Run(Created(primary, false, target), [EnableCall(true)] + Process(NormalProcess, 0));
            var st1 := Do(Do(Do(st, BeginCall(PostProcess)), OverrideCall(Some(Buffer(0)))), BeginPassCall(i));
            var st2 := Do(Do(st1, OverrideCall(None)), EndPassCall);
            var st3 := Do(st2, BeginPassCall(j));
            OwnPass(st2, BeginPassCall(j)) && !Separates(st2, st3) && st3.phase.InPass?
              && st3.bound == st3.target == Some(Buffer(0))
  {
    hide Process;
    WarmUp(primary, target);
    OverriddenTwice(Run(Created(primary, false, target), [EnableCall(true)] + Process(NormalProcess, 0)), i, j);
  }

  lemma OverriddenTwice(st: State, i: nat, j: nat)
    requires Warm(st)
    ensures var st1 := Do(Do(Do(st, BeginCall(PostProcess)), OverrideCall(Some(Buffer(0)))), BeginPassCall(i));
            var st2 := Do(Do(st1, OverrideCall(None)), EndPassCall);
            var st3 := Do(st2, BeginPassCall(j));
            OwnPass(st2, BeginPassCall(j)) && !Separates(st2, st3) && st3.phase.InPass?
              && st3.bound == st3.target == Some(Buffer(0))
  {
  }

  /** A target that is not the primary one, whose immediate-write setting is on at the end of a pass only: the next
      pass reads and writes the same buffer.
   */
  lemma ToggledPassReadsItself(target: Option<Tex>, i: nat, j: nat)
    ensures var st := Run(Created(false, false, target), [EnableCall(true)] + Process(NormalProcess, 0));
            var st1 := Do(Do(st, BeginCall(PostProcess)), BeginPassCall(i));
            var st2 := Do(Do(Do(st1, ImmediateCall(true)), EndPassCall), ImmediateCall(false));
            var st3 := Do(st2, BeginPassCall(j));
            OwnPass(st2, BeginPassCall(j)) && !Separates(st2, st3) && st3.phase.InPass?
              && st3.bound == st3.target == Some(Buffer(1))
  {
    hide Process;
    WarmUp(false, target);
    ToggledTwice(Run(Created(false, false, target), [EnableCall(true)] + Process(NormalProcess, 0)), i, j);
  }

  lemma ToggledTwice(st: State, i: nat, j: nat)
    requires Warm(st) && !st.primary
    ensures var st1 := Do(Do(st, BeginCall(PostProcess)), BeginPassCall(i));
            var st2 := Do(Do(Do(st1, ImmediateCall(true)), EndPassCall), ImmediateCall(false));
            var st3 := Do(st2, BeginPassCall(j));
            OwnPass(st2, BeginPassCall(j)) && !Separates(st2, st3) && st3.phase.InPass?
              && st3.bound == st3.target == Some(Buffer(1))
  {
  }
}
