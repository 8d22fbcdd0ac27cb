/** What the device renders to while a render target of Display/RenderTarget.cpp is in use, for calls in any order. */
module RenderDevice {
  import opened RenderPasses
  import opened RenderSeparation

  // ---------- Where a pass should go ----------

  /** The passes that ended without immediate write since the last normal process began. */
  function PassesSince(st: State, calls: seq<Call>): nat {
    if calls == [] then 0
    else
      var before, c := calls[..|calls| - 1], calls[|calls| - 1];
      var s := Run(st, before);
      if c == BeginCall(NormalProcess) && Accepted(s, c) then 0
      else PassesSince(st, before) + if c.EndPassCall? && Accepted(s, c) && !s.immediate then 1 else 0
  }

  /** A process ended since the last normal process began. */
  predicate EndedSince(st: State, calls: seq<Call>) {
    calls != [] &&
    var before, c := calls[..|calls| - 1], calls[|calls| - 1];
    !(c == BeginCall(NormalProcess) && Accepted(Run(st, before), c)) &&
    (EndedSince(st, before) || (c.EndCall? && Accepted(Run(st, before), c)))
  }

  lemma TurnStep(st: State, c: Call)
    ensures Do(st, c).current == if c == BeginCall(NormalProcess) && Accepted(st, c) then 0
                                 else if c.EndPassCall? && Accepted(st, c) && !st.immediate then 1 - st.current
                                 else st.current
  {
    if !Accepted(st, c) { RefusedIsQuiet(st, c); }
  }

  lemma FirstStep(st: State, c: Call)
    ensures Do(st, c).first <==> (c == BeginCall(NormalProcess) && Accepted(st, c)) ||
                                 (st.first && !(c.EndCall? && Accepted(st, c)))
  {
    if !Accepted(st, c) { RefusedIsQuiet(st, c); }
  }

  /** The buffer whose turn it is, and whether the original buffer is to be filled, told from the calls. */
  lemma {:induction false} TurnExactly(st: State, calls: seq<Call>)
    requires st.current == 0 && st.first
    ensures Run(st, calls).current == PassesSince(st, calls) % 2
    ensures Run(st, calls).first <==> !EndedSince(st, calls)
  {
    hide Do, Accepted;
    if calls != [] {
      TurnExactly(st, calls[..|calls| - 1]);
      TurnStep(Run(st, calls[..|calls| - 1]), calls[|calls| - 1]);
      FirstStep(Run(st, calls[..|calls| - 1]), calls[|calls| - 1]);
    }
  }

  /** Where a pass is to render: to the override, else to the original buffer in a first process, else to the buffer
      whose turn it is.
   */
  function Dest(st: State): Tex {
    if st.override.Some? then st.override.value
    else if st.first then Buffer(ORIGINAL)
    else Buffer(st.current)
  }

  // ---------- Settings ----------

  /** The process that a run is in or was in last. */
  function ModeAfter(st: State, calls: seq<Call>): Mode {
    if calls == [] then st.mode
    else
      var before, c := calls[..|calls| - 1], calls[|calls| - 1];
      if c.BeginCall? && Accepted(Run(st, before), c) then c.mode else ModeAfter(st, before)
  }

  /** The index of the pass that a run is in or was in last. */
  function PassAfter(st: State, calls: seq<Call>): nat {
    if calls == [] then st.passIndex
    else
      var before, c := calls[..|calls| - 1], calls[|calls| - 1];
      if c.BeginPassCall? && Accepted(Run(st, before), c) then c.index else PassAfter(st, before)
  }

  /** The override: SetEnabled takes it away, whatever it is told. */
  function OverrideAfter(st: State, calls: seq<Call>): Option<Tex> {
    if calls == [] then st.override
    else match calls[|calls| - 1]
      case OverrideCall(tex) => tex
      case EnableCall(_) => None
      case _ => OverrideAfter(st, calls[..|calls| - 1])
  }

  function EnabledAfter(st: State, calls: seq<Call>): bool {
    if calls == [] then st.enabled
    else match calls[|calls| - 1]
      case EnableCall(on) => on
      case _ => EnabledAfter(st, calls[..|calls| - 1])
  }

  function ImmediateAfter(st: State, calls: seq<Call>): bool {
    if calls == [] then st.immediate
    else match calls[|calls| - 1]
      case ImmediateCall(on) => on
      case _ => ImmediateAfter(st, calls[..|calls| - 1])
  }

  /** The settings are those of the last call that gave them. */
  lemma {:induction false} SettingsExactly(st: State, calls: seq<Call>)
    ensures var s := Run(st, calls);
            && s.mode == ModeAfter(st, calls) && s.passIndex == PassAfter(st, calls)
            && s.override == OverrideAfter(st, calls) && s.enabled == EnabledAfter(st, calls)
            && s.immediate == ImmediateAfter(st, calls)
  {
    hide Do;
    if calls != [] {
      SettingsExactly(st, calls[..|calls| - 1]);
      ProcessStep(Run(st, calls[..|calls| - 1]), calls[|calls| - 1]);
      SettingsStep(Run(st, calls[..|calls| - 1]), calls[|calls| - 1]);
    }
  }

  lemma ProcessStep(st: State, c: Call)
    ensures var s := Do(st, c);
            && s.mode == (if c.BeginCall? && Accepted(st, c) then c.mode else st.mode)
            && s.passIndex == (if c.BeginPassCall? && Accepted(st, c) then c.index else st.passIndex)
  {
  }

  lemma FramingKeeps(st: State, c: Call)
    requires Framing(c)
    ensures var s := Do(st, c); s.override == st.override && s.enabled == st.enabled && s.immediate == st.immediate
  {
    if !Accepted(st, c) {
      RefusedIsQuiet(st, c);
    } else {
      match c {
        case BeginCall(_) =>
        case BeginPassCall(_) =>
        case EndPassCall =>
        case EndCall =>
      }
    }
  }

  lemma SettingsStep(st: State, c: Call)
    ensures var s := Do(st, c);
            && s.override == (match c case OverrideCall(tex) => tex case EnableCall(_) => None case _ => st.override)
            && s.enabled == (if c.EnableCall? then c.on else st.enabled)
            && s.immediate == (if c.ImmediateCall? then c.on else st.immediate)
  {
    if Framing(c) { FramingKeeps(st, c); }
    hide DoBegin, DoBeginPass, DoEndPass, DoEnd;
  }

  /** Textures are bound for reading exactly within post-processing passes: the original buffer, and the texture that
      was current when the pass began.
   */
  predicate BoundInPass(st: State) {
    if st.phase.InPass? && st.mode.PostProcess? then st.boundOriginal == Some(Buffer(ORIGINAL))
    else st.bound == st.boundOriginal == None
  }

  lemma {:induction false} RunBound(primary: bool, immediate: bool, target: Option<Tex>, calls: seq<Call>)
    ensures BoundInPass(Run(Created(primary, immediate, target), calls))
  {
    hide Do, BoundInPass;
    if calls == [] {
      CreatedBound(primary, immediate, target);
    } else {
      RunBound(primary, immediate, target, calls[..|calls| - 1]);
      BoundStep(Run(Created(primary, immediate, target), calls[..|calls| - 1]), calls[|calls| - 1]);
    }
  }

  lemma CreatedBound(primary: bool, immediate: bool, target: Option<Tex>)
    ensures BoundInPass(Created(primary, immediate, target))
  {
  }

  lemma BoundStep(st: State, c: Call)
    requires BoundInPass(st)
    ensures BoundInPass(Do(st, c))
    ensures c.BeginPassCall? && Accepted(st, c) && st.mode.PostProcess? ==> Do(st, c).bound == st.currentTex
    ensures st.phase.InPass? && !c.EndPassCall? ==> Do(st, c).bound == st.bound
  {
  }

  // ---------- When the device is redirected ----------

  /** The call begins a pass that directs the target to another texture than the last one. */
  predicate Redirects(st: State, c: Call) {
    c.BeginPassCall? && Accepted(st, c) && Directs(st) && st.currentTex != Some(Dest(st))
  }

  /** The call switches immediate write on at index 0. */
  predicate GivesBack(st: State, c: Call) {
    c == ImmediateCall(true) && st.primary && !st.immediate
  }

  /** SwapOccured says whether the last begin, pass or end call redirected the target. */
  lemma SwapExactly(st: State, c: Call)
    ensures Do(st, c).swap <==> if Framing(c) then Redirects(st, c) else st.swap
  {
  }

  /** Since the process began, no pass was redirected, or immediate write gave the surface back after the last one. */
  predicate Away(st: State, calls: seq<Call>) {
    calls == [] ||
    var before, c := calls[..|calls| - 1], calls[|calls| - 1];
    GivesBack(Run(st, before), c) || (Away(st, before) && !Redirects(Run(st, before), c))
  }

  /** What the device renders to: the surface from before the process, or the target's current texture. */
  predicate Renders(st: State, away: bool, before: Option<Tex>) {
    && st.target == (if away then before else st.currentTex)
    && (st.primary && st.immediate ==> away)
  }

  lemma RendersStep(st: State, c: Call, away: bool, before: Option<Tex>)
    requires Saves(st, st.primary, before) && Renders(st, away, before) && (st.primary ==> before.Some?)
    requires !(c.EndCall? && Accepted(st, c))
    ensures Renders(Do(st, c), GivesBack(st, c) || (away && !Redirects(st, c)), before)
  {
    match c {
      case BeginPassCall(index) => PassRenders(st, index, away, before);
      case _ =>
    }
  }

  lemma PassRenders(st: State, index: nat, away: bool, before: Option<Tex>)
    requires Renders(st, away, before)
    ensures Renders(Do(st, BeginPassCall(index)), away && !Redirects(st, BeginPassCall(index)), before)
  {
  }

  lemma {:induction false} DuringRenders(st: State, calls: seq<Call>, before: Option<Tex>)
    requires Saves(st, st.primary, before) && Renders(st, true, before) && (st.primary ==> before.Some?)
    requires forall i :: 0 <= i < |calls| ==> !ProcessEndsAt(st, calls, i)
    ensures Renders(Run(st, calls), Away(st, calls), before)
  {
    hide Saves, Renders, Do, Accepted, GivesBack, Redirects;
    if calls != [] {
      var n := |calls| - 1;
      forall i | 0 <= i < n
        ensures !ProcessEndsAt(st, calls[..n], i)
      {
        assert calls[..n][..i] == calls[..i] && !ProcessEndsAt(st, calls, i);
      }
      DuringRenders(st, calls[..n], before);
      DuringProcess(st, calls[..n], st.primary, before);
      SavedPrimary(Run(st, calls[..n]), st.primary, before);
      assert !ProcessEndsAt(st, calls, n);
      RendersStep(Run(st, calls[..n]), calls[n], Away(st, calls[..n]), before);
    }
  }

  lemma SavedPrimary(st: State, primary: bool, before: Option<Tex>)
    requires Saves(st, primary, before)
    ensures st.primary == primary
  {
  }

  // ---------- Over every run ----------

  /** The device always has a surface at index 0, and a target elsewhere saves none. */
  predicate HasSurface(st: State, primary: bool) {
    st.primary == primary && (if primary then st.target.Some? else st.previous.None?)
  }

  lemma {:induction false} RunHasSurface(st: State, calls: seq<Call>, primary: bool)
    requires HasSurface(st, primary)
    ensures HasSurface(Run(st, calls), primary)
  {
    if calls != [] {
      RunHasSurface(st, calls[..|calls| - 1], primary);
      SurfaceStep(Run(st, calls[..|calls| - 1]), calls[|calls| - 1], primary);
    }
  }

  lemma SurfaceStep(st: State, c: Call, primary: bool)
    requires HasSurface(st, primary)
    ensures HasSurface(Do(st, c), primary)
  {
  }

  /** A process of a run: it begins in the state `b`, which the run reached, and `inside` are the calls in it. */
  ghost predicate ProcessOf(b: State, mode: Mode, inside: seq<Call>) {
    && Accepted(b, BeginCall(mode)) && HasSurface(b, b.primary)
    && forall i :: 0 <= i < |inside| ==> !ProcessEndsAt(Do(b, BeginCall(mode)), inside, i)
  }

  /** Within a process the device renders to the surface from before it or to the target's current texture; which of the
      two is told by the calls. At index 0 it is the surface whenever immediate write is on.
   */
  lemma DeviceInProcess(b: State, mode: Mode, inside: seq<Call>)
    requires ProcessOf(b, mode, inside)
    ensures var p := Do(b, BeginCall(mode));
            var s := Run(p, inside);
            && s.target == (if Away(p, inside) then b.target else s.currentTex)
            && (b.primary && s.immediate ==> s.target == b.target)
  {
    hide Do, Accepted, Saves;
    ProcessBegins(b, mode);
    var p := Do(b, BeginCall(mode));
    DuringRenders(p, inside, b.target);
    DuringProcess(p, inside, b.primary, b.target);
    SavedPrimary(Run(p, inside), b.primary, b.target);
  }

  lemma ProcessBegins(b: State, mode: Mode)
    requires Accepted(b, BeginCall(mode)) && HasSurface(b, b.primary)
    ensures var p := Do(b, BeginCall(mode));
            Saves(p, b.primary, b.target) && p.primary == b.primary && Renders(p, true, b.target)
  {
    BeginSaves(b, mode);
  }

  /** The pass of a process that directs its target renders to where it is to go, except if the target's current texture
      is that already while the device renders to the surface from before the process. Then it renders to that surface.
   */
  lemma PassTarget(b: State, mode: Mode, inside: seq<Call>, index: nat)
    requires ProcessOf(b, mode, inside)
    requires var s := Run(Do(b, BeginCall(mode)), inside); Accepted(s, BeginPassCall(index)) && Directs(s)
    ensures var p := Do(b, BeginCall(mode));
            var s := Run(p, inside);
            var s' := Do(s, BeginPassCall(index));
            && s'.target == (if s.currentTex == Some(Dest(s)) && Away(p, inside) then b.target else Some(Dest(s)))
            && s'.currentTex == Some(Dest(s)) && (s'.swap <==> s.currentTex != Some(Dest(s)))
  {
    DeviceInProcess(b, mode, inside);
    hide Run, Away, ProcessOf, Accepted;
    DirectedPass(Run(Do(b, BeginCall(mode)), inside), index);
  }

  lemma DirectedPass(s: State, index: nat)
    requires Accepted(s, BeginPassCall(index)) && Directs(s)
    ensures var s' := Do(s, BeginPassCall(index));
            && s'.target == (if s.currentTex == Some(Dest(s)) then s.target else Some(Dest(s)))
            && s'.currentTex == Some(Dest(s)) && (s'.swap <==> s.currentTex != Some(Dest(s)))
  {
  }

  /** A pass that does not direct its target leaves the device alone. */
  lemma OtherPass(s: State, index: nat)
    requires Accepted(s, BeginPassCall(index)) && !Directs(s)
    ensures var s' := Do(s, BeginPassCall(index));
            s'.target == s.target && s'.currentTex == s.currentTex && !s'.swap
  {
  }

  /** The first pass of a normal process without immediate write always renders where it is to go, and reports a swap.
   */
  lemma NormalPass(b: State, index: nat, override: Option<Tex>, immediate: bool)
    requires Accepted(b, BeginCall(NormalProcess)) && HasSurface(b, b.primary)
    ensures var inside := [OverrideCall(override), ImmediateCall(false)];
            var s := Do(Run(Do(b, BeginCall(NormalProcess)), inside), BeginPassCall(index));
            s.swap && s.target == s.currentTex == if override.Some? then override else Some(Buffer(ORIGINAL))
  {
    var p := Do(b, BeginCall(NormalProcess));
    var inside := [OverrideCall(override), ImmediateCall(false)];
    RunOne(p, OverrideCall(override));
    RunConcat(p, [OverrideCall(override)], [ImmediateCall(false)]);
    RunOne(Do(p, OverrideCall(override)), ImmediateCall(false));
    assert inside == [OverrideCall(override)] + [ImmediateCall(false)];
  }

  // ---------- Until the pass ends ----------

  lemma StaysStep(st: State, c: Call)
    requires st.phase.InPass? && !c.EndPassCall? && !(c == ImmediateCall(true) && !st.immediate)
    ensures Do(st, c).phase.InPass? && Do(st, c).target == st.target
  {
  }

  /** In a pass the device stays where it is until immediate write is switched on. */
  lemma {:induction false} StaysInPass(st: State, calls: seq<Call>)
    requires st.phase.InPass? && EndPassCall !in calls
    requires forall i :: 0 <= i < |calls| ==> calls[i] == ImmediateCall(true) ==> Run(st, calls[..i]).immediate
    ensures Run(st, calls).phase.InPass? && Run(st, calls).target == st.target
  {
    hide Do;
    if calls != [] {
      var n := |calls| - 1;
      forall i | 0 <= i < n && calls[..n][i] == ImmediateCall(true)
        ensures Run(st, calls[..n][..i]).immediate
      {
        assert calls[..n][..i] == calls[..i] && calls[i] == ImmediateCall(true);
      }
      StaysInPass(st, calls[..n]);
      StaysStep(Run(st, calls[..n]), calls[n]);
    }
  }

  /** The end of a pass leaves the device there, and unbinds both textures after a post-processing pass. */
  lemma PassEndsThere(st: State)
    requires Accepted(st, EndPassCall)
    ensures var s := Do(st, EndPassCall);
            s.target == st.target && !s.swap && (st.mode.PostProcess? ==> s.bound == s.boundOriginal == None)
  {
  }

  // ---------- Calls after which a pass misses its texture ----------

  /** An override that is kept for two processes: the pass of the second is not redirected, and renders to the surface
      from before the process in place of the override.
   */
  lemma KeptOverrideMisses(primary: bool, target: Option<Tex>, tex: Tex, i: nat, j: nat)
    requires (primary ==> target.Some?) && tex != Buffer(ORIGINAL)
    ensures var st := Run(Created(primary, false, target), [EnableCall(true)] + Process(NormalProcess, 0));
            var st1 := AfterProcess(Do(st, OverrideCall(Some(tex))), PostProcess, i);
            var st2 := Do(Do(st1, BeginCall(PostProcess)), BeginPassCall(j));
            && Accepted(st1, BeginCall(PostProcess)) && Accepted(Do(st1, BeginCall(PostProcess)), BeginPassCall(j))
            && st2.override == st2.currentTex == Some(tex) && !st2.immediate && !st2.swap
            && st2.target == if primary then target else None
  {
    hide Process;
    WarmUp(primary, target);
    KeptTwice(Run(Created(primary, false, target), [EnableCall(true)] + Process(NormalProcess, 0)), tex, i, j);
  }

  lemma KeptTwice(st: State, tex: Tex, i: nat, j: nat)
    requires Warm(st) && HasSurface(st, st.primary) && tex != Buffer(ORIGINAL)
    ensures var st1 := AfterProcess(Do(st, OverrideCall(Some(tex))), PostProcess, i);
            var st2 := Do(Do(st1, BeginCall(PostProcess)), BeginPassCall(j));
            && Accepted(st1, BeginCall(PostProcess)) && Accepted(Do(st1, BeginCall(PostProcess)), BeginPassCall(j))
            && st2.override == st2.currentTex == Some(tex) && !st2.immediate && !st2.swap
            && st2.target == if st.primary then st.target else None
  {
  }

  /** Immediate write that is switched on in a pass: at index 0 the device is back at the surface, which is no longer
      kept; elsewhere the device stays at the target's texture.
   */
  lemma ElsewhereStays(b: State, mode: Mode, inside: seq<Call>)
    requires ProcessOf(b, mode, inside)
    requires var s := Run(Do(b, BeginCall(mode)), inside); s.phase.InPass? && !s.immediate
    ensures var s := Run(Do(b, BeginCall(mode)), inside);
            Do(s, ImmediateCall(true)).target == (if b.primary then b.target else s.target)
              && Do(s, ImmediateCall(true)).previous == None
  {
    hide Run, Do, Saves, Accepted;
    ProcessBegins(b, mode);
    var s := Run(Do(b, BeginCall(mode)), inside);
    DuringProcess(Do(b, BeginCall(mode)), inside, b.primary, b.target);
    SwitchedOn(s, b.primary, b.target);
  }

  lemma SwitchedOn(s: State, primary: bool, before: Option<Tex>)
    requires Saves(s, primary, before) && !s.immediate && (primary ==> before.Some?)
    ensures Do(s, ImmediateCall(true)).target == (if primary then before else s.target)
              && Do(s, ImmediateCall(true)).previous == None
  {
  }
}
