/** One render target of Display/RenderTarget.cpp as a state machine. A surface is named by its texture. The state
    includes what the device renders to at the target's index and the two textures bound for reading.
*/
module RenderPasses {

  datatype Option<T> = None | Some(value: T)

  /** One of the target's own buffers, or any other texture or surface. */
  datatype Tex = Buffer(i: nat) | Other(id: int)

  /** c_uOriginalBuffer */
  const ORIGINAL := 2

  datatype Mode = UnknownProcess | NormalProcess | PostProcess

  datatype Phase = Unknown | Begun | InPass | PassEnded | Ended

  /** The two buffers that take turns. */
  type Side = x: nat | x < 2

  datatype State = State(
    phase: Phase,
    mode: Mode,
    current: Side,                // m_uCurrentBuffer
    currentTex: Option<Tex>,      // m_pCurrentBufferTex
    override: Option<Tex>,        // m_pRTOverrideTex and its surface
    previous: Option<Tex>,        // m_pPreviousBufferSurf
    passIndex: nat,
    primary: bool,                // m_uRTIndex is 0
    first: bool,                  // m_bFirstRender
    immediate: bool,
    enabled: bool,
    swap: bool,
    target: Option<Tex>,          // what the device renders to
    bound: Option<Tex>,           // the texture bound for reading
    boundOriginal: Option<Tex>)   // the original buffer, bound for reading

  datatype Call =
    | BeginCall(mode: Mode)
    | BeginPassCall(index: nat)
    | EndPassCall
    | EndCall
    | EnableCall(on: bool)
    | OverrideCall(tex: Option<Tex>)
    | ImmediateCall(on: bool)

  /** A target as the constructor and Create leave it. */
  function Created(primary: bool, immediate: bool, target: Option<Tex>): State {
    State(Unknown, UnknownProcess, 0, None, None, None, 0, primary, true, immediate, false, false, target, None, None)
  }

  /** The call takes effect. */
  predicate Accepted(st: State, c: Call) {
    match c
    case BeginCall(_) => st.enabled && (st.phase.Unknown? || st.phase.Ended?)
    case BeginPassCall(_) => st.enabled && (st.phase.Begun? || st.phase.PassEnded?)
    case EndPassCall => st.enabled && st.phase.InPass?
    case EndCall => st.enabled && (st.phase.Begun? || st.phase.PassEnded?)
    case _ => true
  }

  function DoBegin(st: State, mode: Mode): State {
    var s := st.(phase := Begun, mode := mode, previous := if st.primary then st.target else st.previous);
    if mode.NormalProcess? then s.(current := 0, first := true, currentTex := None) else s
  }

  /** Directing the target to `tex`, if it is not directed there already. */
  function Redirect(st: State, tex: Tex): State {
    if st.currentTex != Some(tex) then st.(currentTex := Some(tex), target := Some(tex), swap := true) else st
  }

  function DoBeginPass(st: State, index: nat): State {
    var s := st.(passIndex := index, phase := InPass);
    if st.mode.PostProcess? || st.currentTex.None? then
      var s1 := if st.mode.PostProcess? then s.(bound := s.currentTex, boundOriginal := Some(Buffer(ORIGINAL))) else s;
      if st.immediate then s1
      else Redirect(s1, if st.override.None? then Buffer(if st.first then ORIGINAL else st.current)
                    else st.override.value)
    else s
  }

  function DoEndPass(st: State): State {
    var s := st.(phase := PassEnded);
    var s1 := if st.mode.PostProcess? then s.(bound := None, boundOriginal := None) else s;
    if st.immediate then s1 else s1.(current := 1 - st.current)
  }

  function DoEnd(st: State): State {
    st.(phase := Ended, first := false, previous := None,
        target := if !st.primary || st.previous.Some? then st.previous else st.target)
  }

  function DoImmediate(st: State, on: bool): State {
    if st.immediate == on then st
    else if on && st.previous.Some? then st.(immediate := on, target := st.previous, previous := None)
    else if !on && st.previous.None? && st.primary then st.(immediate := on, previous := st.target)
    else st.(immediate := on)
  }

  function Do(st: State, c: Call): State {
    var quiet := if c.BeginCall? || c.BeginPassCall? || c.EndPassCall? || c.EndCall? then st.(swap := false) else st;
    if !Accepted(st, c) then quiet
    else
      match c
      case BeginCall(mode) => DoBegin(quiet, mode)
      case BeginPassCall(index) => DoBeginPass(quiet, index)
      case EndPassCall => DoEndPass(quiet)
      case EndCall => DoEnd(quiet)
      case EnableCall(on) => st.(enabled := on, override := None)
      case OverrideCall(tex) => st.(override := tex)
      case ImmediateCall(on) => DoImmediate(st, on)
  }

  // ---------- The order of accepted calls ----------

  predicate Framing(c: Call) {
    c.BeginCall? || c.BeginPassCall? || c.EndPassCall? || c.EndCall?
  }

  /** The begin, pass and end calls of a run that took effect, in order. */
  function Trace(st: State, calls: seq<Call>): seq<Call> {
    if calls == [] then []
    else
      var before, c := calls[..|calls| - 1], calls[|calls| - 1];
      Trace(st, before) + (if Framing(c) && Accepted(Run(st, before), c) then [c] else [])
  }

  function Run(st: State, calls: seq<Call>): State {
    if calls == [] then st else Do(Run(st, calls[..|calls| - 1]), calls[|calls| - 1])
  }

  /** `b` may come right after `a`: begin, (begin-pass, end-pass)*, end, and again. */
  predicate Follows(a: Call, b: Call) {
    match a
    case BeginCall(_) => b.BeginPassCall? || b.EndCall?
    case BeginPassCall(_) => b.EndPassCall?
    case EndPassCall => b.BeginPassCall? || b.EndCall?
    case EndCall => b.BeginCall?
    case _ => false
  }

  ghost predicate InOrder(trace: seq<Call>) {
    && (trace != [] ==> trace[0].BeginCall?)
    && forall i, j :: 0 <= i < j < |trace| && j == i + 1 ==> Follows(trace[i], trace[j])
  }

  predicate PhaseAfter(phase: Phase, trace: seq<Call>) {
    match phase
    case Unknown => trace == []
    case Begun => trace != [] && trace[|trace| - 1].BeginCall?
    case InPass => trace != [] && trace[|trace| - 1].BeginPassCall?
    case PassEnded => trace != [] && trace[|trace| - 1].EndPassCall?
    case Ended => trace != [] && trace[|trace| - 1].EndCall?
  }

  /** Whatever calls are made in whatever order, those that take effect are well ordered. */
  lemma {:induction false} AcceptedInOrder(st: State, calls: seq<Call>)
    requires st.phase.Unknown?
    ensures InOrder(Trace(st, calls)) && PhaseAfter(Run(st, calls).phase, Trace(st, calls))
  {
    if calls != [] {
      var before, c := calls[..|calls| - 1], calls[|calls| - 1];
      AcceptedInOrder(st, before);
      PhaseStep(Run(st, before), c);
      if Framing(c) && Accepted(Run(st, before), c) {
        TraceStep(Trace(st, before), Run(st, before), c);
      } else {
        assert Trace(st, before) + [] == Trace(st, before);
      }
    }
  }

  lemma PhaseStep(st: State, c: Call)
    ensures Do(st, c).phase == (if !Accepted(st, c) || !Framing(c) then st.phase
                                else if c.BeginCall? then Begun else if c.BeginPassCall? then InPass
                                else if c.EndPassCall? then PassEnded else Ended)
  {
  }

  lemma TraceStep(trace: seq<Call>, st: State, c: Call)
    requires InOrder(trace) && PhaseAfter(st.phase, trace) && Framing(c) && Accepted(st, c)
    ensures InOrder(trace + [c])
  {
  }

  /** A call takes effect exactly if the target is enabled and the call may come after the last one that did. */
  lemma AcceptedExactly(st: State, calls: seq<Call>, c: Call)
    requires st.phase.Unknown? && Framing(c)
    ensures var trace, now := Trace(st, calls), Run(st, calls);
            Accepted(now, c) <==> now.enabled && if trace == [] then c.BeginCall? else Follows(trace[|trace| - 1], c)
  {
    AcceptedInOrder(st, calls);
    AcceptedPhase(Run(st, calls), Trace(st, calls), c);
  }

  lemma AcceptedPhase(st: State, trace: seq<Call>, c: Call)
    requires PhaseAfter(st.phase, trace) && Framing(c)
    ensures Accepted(st, c) <==> st.enabled && if trace == [] then c.BeginCall? else Follows(trace[|trace| - 1], c)
  {
  }

  /** A call that takes no effect changes nothing but the note of a redirection. */
  lemma RefusedIsQuiet(st: State, c: Call)
    requires !Accepted(st, c)
    ensures Do(st, c) == st.(swap := false)
  {
  }

  // ---------- Reading and writing different buffers ----------

  predicate Own(tex: Option<Tex>) {
    tex == Some(Buffer(0)) || tex == Some(Buffer(1))
  }

  /** The target with a note of how its last pass began. */
  datatype Track = Track(st: State, began: bool)

  function Follow(t: Track, c: Call): Track {
    Track(Do(t.st, c), if c.BeginPassCall? && Accepted(t.st, c) then t.st.immediate else t.began)
  }

  function FollowAll(t: Track, calls: seq<Call>): Track {
    if calls == [] then t else Follow(FollowAll(t, calls[..|calls| - 1]), calls[|calls| - 1])
  }

  /** The use that the ping-pong of the buffers relies on: a pass ends with the immediate-write setting that it began
      with, a process is a normal or a post process, and no own buffer serves as override.
   */
  predicate Steady(t: Track, c: Call) {
    && (c.EndPassCall? && Accepted(t.st, c) ==> t.st.immediate == t.began)
    && (c.BeginCall? ==> !c.mode.UnknownProcess?)
    && (c.OverrideCall? ==> !Own(c.tex))
  }

  ghost predicate AllSteady(t: Track, calls: seq<Call>) {
    forall i :: 0 <= i < |calls| ==> Steady(FollowAll(t, calls[..i]), calls[i])
  }

  /** The buffer to write to next is not the one that was written to last. */
  predicate Apart(st: State) {
    st.currentTex != Some(Buffer(st.current))
  }

  predicate Placed(t: Track) {
    var st := t.st;
    && !Own(st.override)
    && (st.mode.NormalProcess? && !st.phase.Ended? ==> st.first)
    && (st.mode.UnknownProcess? ==> st.phase.Unknown? && st.first)
    && (if st.first then !Own(st.currentTex)
        else if st.phase.InPass? && !t.began then st.currentTex != Some(Buffer(1 - st.current))
        else Apart(st))
  }

  lemma PlacedStep(t: Track, c: Call)
    requires Placed(t) && Steady(t, c)
    ensures Placed(Follow(t, c))
  {
    match c {
      case BeginPassCall(index) => PlacedBeginPass(t, index);
      case EndPassCall => PlacedEndPass(t);
      case ImmediateCall(on) => PlacedImmediate(t, on);
      case _ =>
    }
  }

  lemma PlacedBeginPass(t: Track, index: nat)
    requires Placed(t)
    ensures Placed(Follow(t, BeginPassCall(index)))
  {
  }

  lemma PlacedImmediate(t: Track, on: bool)
    requires Placed(t)
    ensures Placed(Follow(t, ImmediateCall(on)))
  {
  }

  lemma PlacedEndPass(t: Track)
    requires Placed(t) && Steady(t, EndPassCall)
    ensures Placed(Follow(t, EndPassCall))
  {
  }

  lemma {:induction false} RunPlaced(t: Track, calls: seq<Call>)
    requires Placed(t) && AllSteady(t, calls)
    ensures Placed(FollowAll(t, calls)) && FollowAll(t, calls).st == Run(t.st, calls)
  {
    if calls != [] {
      var n := |calls| - 1;
      var before := calls[..n];
      forall i | 0 <= i < n
        ensures Steady(FollowAll(t, before[..i]), before[i])
      {
        assert before[..i] == calls[..i];
      }
      RunPlaced(t, before);
      assert Steady(FollowAll(t, calls[..n]), calls[n]);
      PlacedStep(FollowAll(t, before), calls[n]);
    }
  }

  /** A pass that post-processes into one of the target's own buffers. */
  predicate OwnPass(st: State, c: Call) {
    c.BeginPassCall? && Accepted(st, c) && st.mode.PostProcess? && !st.immediate && st.override.None? && !st.first
  }

  /** What such a pass does when the buffers are apart. */
  predicate Separates(st: State, st': State) {
    && Own(st'.target) && st'.target == Some(Buffer(st.current)) && st'.swap
    && st'.bound == st.currentTex != st'.target && st'.boundOriginal == Some(Buffer(ORIGINAL))
  }

  lemma OwnPassSeparates(st: State, c: Call)
    requires OwnPass(st, c)
    ensures Separates(st, Do(st, c)) <==> Apart(st)
  {
  }

  lemma PlacedApart(t: Track, c: Call)
    requires Placed(t) && OwnPass(t.st, c)
    ensures Apart(t.st)
  {
  }

  /** Over every steady run: such a pass renders to buffer 0 or 1, never to the original, and reads another one. */
  lemma PassSeparates(primary: bool, immediate: bool, target: Option<Tex>, calls: seq<Call>, c: Call)
    requires AllSteady(Track(Created(primary, immediate, target), false), calls)
    requires OwnPass(Run(Created(primary, immediate, target), calls), c)
    ensures var st := Run(Created(primary, immediate, target), calls); Separates(st, Do(st, c))
  {
    hide Placed, AllSteady, Separates, OwnPass, Do;
    var t := Track(Created(primary, immediate, target), false);
    CreatedPlaced(primary, immediate, target);
    RunPlaced(t, calls);
    PlacedApart(FollowAll(t, calls), c);
    OwnPassSeparates(Run(t.st, calls), c);
  }

  lemma CreatedPlaced(primary: bool, immediate: bool, target: Option<Tex>)
    ensures Placed(Track(Created(primary, immediate, target), false))
  {
  }

  /** Two such passes in a row: the second reads what the first wrote, and writes to the other buffer. */
  lemma PassesAlternate(st: State, i: nat, j: nat)
    requires OwnPass(st, BeginPassCall(i)) && Apart(st)
    ensures var st1 := Do(st, BeginPassCall(i));
            var st2 := Do(st1, EndPassCall);
            var st3 := Do(st2, BeginPassCall(j));
            && OwnPass(st2, BeginPassCall(j)) && Apart(st2)
            && st3.bound == st1.target && st3.target == Some(Buffer(1 - st.current))
              && st1.target == Some(Buffer(st.current))
  {
  }

  // ---------- The device after a process ----------

  predicate InProcess(st: State) {
    st.phase.Begun? || st.phase.InPass? || st.phase.PassEnded?
  }

  /** A process is under way that began with the device rendering to `before`: the surface is saved, or the device
      renders to it, because the immediate-write setting gave it back.
   */
  predicate Saves(st: State, primary: bool, before: Option<Tex>) {
    && InProcess(st) && st.primary == primary
    && (if !primary then st.previous.None?
        else st.previous == before || (st.previous.None? && st.immediate && st.target == before))
  }

  lemma BeginSaves(st: State, mode: Mode)
    requires Accepted(st, BeginCall(mode)) && (!st.primary ==> st.previous.None?)
    ensures Saves(Do(st, BeginCall(mode)), st.primary, st.target)
  {
  }

  lemma SavesStep(st: State, c: Call, primary: bool, before: Option<Tex>)
    requires Saves(st, primary, before) && (primary ==> before.Some?) && !(c.EndCall? && Accepted(st, c))
    ensures Saves(Do(st, c), primary, before)
  {
    match c {
      case BeginPassCall(index) => BeginPassSaves(st, index, primary, before);
      case ImmediateCall(on) => ImmediateSaves(st, on, primary, before);
      case _ =>
    }
  }

  lemma BeginPassSaves(st: State, index: nat, primary: bool, before: Option<Tex>)
    requires Saves(st, primary, before)
    ensures Saves(Do(st, BeginPassCall(index)), primary, before)
  {
  }

  lemma ImmediateSaves(st: State, on: bool, primary: bool, before: Option<Tex>)
    requires Saves(st, primary, before) && (primary ==> before.Some?)
    ensures Saves(Do(st, ImmediateCall(on)), primary, before)
  {
  }

  /** Call `i` ends the process. */
  ghost predicate ProcessEndsAt(st: State, calls: seq<Call>, i: nat)
    requires i < |calls|
  {
    calls[i].EndCall? && Accepted(Run(st, calls[..i]), calls[i])
  }

  lemma {:induction false} DuringProcess(st: State, calls: seq<Call>, primary: bool, before: Option<Tex>)
    requires Saves(st, primary, before) && (primary ==> before.Some?)
    requires forall i :: 0 <= i < |calls| ==> !ProcessEndsAt(st, calls, i)
    ensures Saves(Run(st, calls), primary, before)
  {
    hide Saves, Do, Accepted;
    if calls != [] {
      var n := |calls| - 1;
      forall i | 0 <= i < n
        ensures !ProcessEndsAt(st, calls[..n], i)
      {
        assert calls[..n][..i] == calls[..i] && !ProcessEndsAt(st, calls, i);
      }
      DuringProcess(st, calls[..n], primary, before);
      assert !ProcessEndsAt(st, calls, n);
      SavesStep(Run(st, calls[..n]), calls[n], primary, before);
    }
  }

  lemma EndRestores(st: State, primary: bool, before: Option<Tex>)
    requires Saves(st, primary, before) && (primary ==> before.Some?) && Accepted(st, EndCall)
    ensures Do(st, EndCall).target == if primary then before else None
  {
  }

  /** A process gives the device back, whatever calls are made in it: at index 0 with the surface from
      before it, elsewhere with none.
   */
  lemma ProcessRestores(st: State, mode: Mode, calls: seq<Call>)
    requires Accepted(st, BeginCall(mode))
    requires forall i :: 0 <= i < |calls| ==> !ProcessEndsAt(Do(st, BeginCall(mode)), calls, i)
    requires (st.primary ==> st.target.Some?) && (!st.primary ==> st.previous.None?)
    requires Accepted(Run(Do(st, BeginCall(mode)), calls), EndCall)
    ensures Do(Run(Do(st, BeginCall(mode)), calls), EndCall).target == if st.primary then st.target else None
  {
    hide Saves, Do, Accepted;
    BeginSaves(st, mode);
    DuringProcess(Do(st, BeginCall(mode)), calls, st.primary, st.target);
    EndRestores(Run(Do(st, BeginCall(mode)), calls), st.primary, st.target);
  }
}
