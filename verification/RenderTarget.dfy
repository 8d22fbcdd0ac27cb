/** DisplayRenderTarget and DisplayRenderTargetChain of Display/RenderTarget.cpp in
    place, proved against RenderPasses.
*/
module RenderTarget {
  import opened RenderPasses

  /** What belongs to one target index on the device and in the texture manager. */
  class DeviceSlot {
    var target: Option<Tex>
    var bound: Option<Tex>
    var boundOriginal: Option<Tex>

    constructor (target: Option<Tex>)
      ensures this.target == target && bound == boundOriginal == None
    {
      this.target, bound, boundOriginal := target, None, None;
    }
  }

  class DisplayRenderTarget {
    const slot: DeviceSlot
    const primary: bool
    const doubleBuffer: seq<Tex> := [Buffer(0), Buffer(1), Buffer(2)]
    var previousBuffer: Option<Tex>
    var currentBufferTex: Option<Tex>
    var override: Option<Tex>
    var currentBuffer: Side
    var passIndex: nat
    var renderState: Phase
    var mode: Mode
    var firstRender: bool
    var immediateWrite: bool
    var enabled: bool
    var swap: bool

    ghost function St(): State
      reads this, slot
    {
      State(renderState, mode, currentBuffer, currentBufferTex, override, previousBuffer, passIndex, primary,
            firstRender,
            immediateWrite, enabled, swap, slot.target, slot.bound, slot.boundOriginal)
    }

    constructor (primary: bool, immediate: bool, slot: DeviceSlot)
      requires slot.bound == slot.boundOriginal == None
      ensures this.slot == slot && St() == Created(primary, immediate, slot.target)
    {
      this.slot, this.primary := slot, primary;
      previousBuffer, currentBufferTex, override, currentBuffer, passIndex := None, None, None, 0, 0;
      renderState, mode, firstRender, immediateWrite := Unknown, UnknownProcess, true, immediate;
      enabled, swap := false, false;
    }

    /** DisplayRenderTarget::RenderBegin */
    method RenderBegin(newMode: Mode)
      modifies this
      ensures St() == Do(old(St()), BeginCall(newMode))
    {
      swap := false;
      if enabled && (renderState == Unknown || renderState == Ended) {
        renderState := Begun;
        if primary { previousBuffer := slot.target; }
        mode := newMode;
        if mode == NormalProcess {
          currentBuffer := 0;
          firstRender := true;
          currentBufferTex := None;
        }
      }
    }

    /** DisplayRenderTarget::RenderBeginPass */
    method RenderBeginPass(index: nat)
      modifies this, slot
      ensures St() == Do(old(St()), BeginPassCall(index))
    {
      swap := false;
      if enabled && (renderState == Begun || renderState == PassEnded) {
        passIndex := index;
        renderState := InPass;
        if mode == PostProcess || currentBufferTex == None {
          if mode == PostProcess {
            slot.bound := currentBufferTex;
            slot.boundOriginal := Some(doubleBuffer[ORIGINAL]);
          }
          if !immediateWrite {
            if override == None {
              var newIndex := if firstRender then ORIGINAL else currentBuffer;
              if currentBufferTex != Some(doubleBuffer[newIndex]) {
                currentBufferTex := Some(doubleBuffer[newIndex]);
                slot.target := Some(doubleBuffer[newIndex]);
                swap := true;
              }
            } else if currentBufferTex != override {
              currentBufferTex := override;
              slot.target := override;
              swap := true;
            }
          }
        }
      }
    }

    /** DisplayRenderTarget::RenderEndPass */
    method RenderEndPass()
      modifies this, slot
      ensures St() == Do(old(St()), EndPassCall)
    {
      swap := false;
      if enabled && renderState == InPass {
        renderState := PassEnded;
        if mode == PostProcess {
          slot.bound := None;
          slot.boundOriginal := None;
        }
        if !immediateWrite { currentBuffer := 1 - currentBuffer; }
      }
    }

    /** DisplayRenderTarget::RenderEnd */
    method RenderEnd()
      modifies this, slot
      ensures St() == Do(old(St()), EndCall)
    {
      swap := false;
      if enabled && (renderState == Begun || renderState == PassEnded) {
        renderState := Ended;
        firstRender := false;
        if !primary || previousBuffer != None { slot.target := previousBuffer; }
        if previousBuffer != None { previousBuffer := None; }
      }
    }

    /** DisplayRenderTarget::SetEnabled */
    method SetEnabled(on: bool)
      modifies this
      ensures St() == Do(old(St()), EnableCall(on))
    {
      enabled := on;
      SetRTOverride(None);
    }

    /** DisplayRenderTarget::SetRTOverride */
    method SetRTOverride(tex: Option<Tex>)
      modifies this`override
      ensures override == tex && St() == Do(old(St()), OverrideCall(tex))
    {
      if override != tex { override := tex; }
    }

    /** DisplayRenderTarget::SetImmediateWrite */
    method SetImmediateWrite(on: bool)
      modifies this, slot
      ensures St() == Do(old(St()), ImmediateCall(on))
    {
      if immediateWrite != on {
        immediateWrite := on;
        if immediateWrite && previousBuffer != None {
          slot.target := previousBuffer;
          previousBuffer := None;
        } else if !immediateWrite && previousBuffer == None && primary {
          previousBuffer := slot.target;
        }
      }
    }
  }

  // ---------- The chain ----------

  ghost function Slots(targets: seq<DisplayRenderTarget>): set<object> {
    set t | t in targets :: t.slot
  }

  /** Targets of a chain are different objects, with different indices. */
  ghost predicate Separate(targets: seq<DisplayRenderTarget>) {
    forall i, j :: 0 <= i < j < |targets| ==> targets[i] != targets[j] && targets[i].slot != targets[j].slot
  }

  /** The states of the targets after a call reached the enabled ones among the first `n`. */
  ghost predicate Reached(before: seq<State>, c: Call, n: nat, after: seq<State>) {
    && |after| == |before|
    && forall i :: 0 <= i < |before| ==> after[i] == if i < n && before[i].enabled then Do(before[i], c) else before[i]
  }

  /** The states of the targets after a call reached the first `n`, enabled or not. */
  ghost predicate Passed(before: seq<State>, c: Call, n: nat, after: seq<State>) {
    |after| == |before| && forall i :: 0 <= i < |before| ==> after[i] == if i < n then Do(before[i], c) else before[i]
  }

  /** One of the enabled targets among the first `n` was redirected. */
  predicate AnySwap(before: seq<State>, c: Call, n: nat)
    requires n <= |before|
  {
    n > 0 && (AnySwap(before, c, n - 1) || (before[n - 1].enabled && Do(before[n - 1], c).swap))
  }

  lemma SwapStep(before: seq<State>, c: Call, n: nat)
    requires n < |before|
    ensures AnySwap(before, c, n + 1) == (AnySwap(before, c, n) || (before[n].enabled && Do(before[n], c).swap))
  {
  }

  lemma NoneReached(before: seq<State>, c: Call)
    ensures Reached(before, c, 0, before) && Passed(before, c, 0, before) && !AnySwap(before, c, 0)
  {
  }

  lemma ReachedStep(before: seq<State>, c: Call, i: nat, now: seq<State>, after: seq<State>)
    requires i < |before| && Reached(before, c, i, now)
    requires after == if now[i].enabled then now[i := Do(now[i], c)] else now
    ensures Reached(before, c, i + 1, after) && now[i] == before[i]
  {
    hide Do;
  }

  lemma PassedStep(before: seq<State>, c: Call, i: nat, now: seq<State>, after: seq<State>)
    requires i < |before| && Passed(before, c, i, now) && after == now[i := Do(now[i], c)]
    ensures Passed(before, c, i + 1, after)
  {
    hide Do;
  }

  class DisplayRenderTargetChain {
    const gBuffer: seq<DisplayRenderTarget>
    var immediateWrite: bool

    constructor (targets: seq<DisplayRenderTarget>)
      ensures gBuffer == targets && !immediateWrite
    {
      gBuffer, immediateWrite := targets, false;
    }

    ghost predicate Valid() {
      Separate(gBuffer)
    }

    ghost function States(): (r: seq<State>)
      reads gBuffer, Slots(gBuffer)
      ensures |r| == |gBuffer|
      ensures forall i :: 0 <= i < |gBuffer| ==> r[i] == gBuffer[i].St()
    {
      seq(|gBuffer|, i requires 0 <= i < |gBuffer| reads gBuffer, Slots(gBuffer) => gBuffer[i].St())
    }

    /** DisplayRenderTargetChain::RenderBegin */
    method RenderBegin(mode: Mode)
      requires Valid()
      modifies gBuffer
      ensures Reached(old(States()), BeginCall(mode), |gBuffer|, States())
    {
      hide Do, Reached;
      NoneReached(States(), BeginCall(mode));
      for i := 0 to |gBuffer|
        invariant Reached(old(States()), BeginCall(mode), i, States())
      {
        ghost var now := States();
        var target := gBuffer[i];
        if target.enabled { target.RenderBegin(mode); }
        assert States() == if now[i].enabled then now[i := Do(now[i], BeginCall(mode))] else now;
        ReachedStep(old(States()), BeginCall(mode), i, now, States());
      }
    }

    /** DisplayRenderTargetChain::RenderBeginPass; `swap` is whether the viewport has to be set again. */
    method RenderBeginPass(index: nat) returns (swap: bool)
      requires Valid()
      modifies gBuffer, Slots(gBuffer)
      ensures Reached(old(States()), BeginPassCall(index), |gBuffer|, States())
      ensures swap == AnySwap(old(States()), BeginPassCall(index), |gBuffer|)
    {
      hide Do, Reached, AnySwap;
      NoneReached(States(), BeginPassCall(index));
      swap := false;
      for i := 0 to |gBuffer|
        invariant Reached(old(States()), BeginPassCall(index), i, States())
        invariant swap == AnySwap(old(States()), BeginPassCall(index), i)
      {
        ghost var now := States();
        var swapped := PassTo(i, index);
        assert States() == if now[i].enabled then now[i := Do(now[i], BeginPassCall(index))] else now;
        ReachedStep(old(States()), BeginPassCall(index), i, now, States());
        SwapStep(old(States()), BeginPassCall(index), i);
        swap := swap || swapped;
      }
    }

    /** The part of RenderBeginPass for one target. */
    method PassTo(i: nat, index: nat) returns (swapped: bool)
      requires Valid() && i < |gBuffer|
      modifies gBuffer[i], gBuffer[i].slot
      ensures gBuffer[i].St() == if old(gBuffer[i].St()).enabled then Do(old(gBuffer[i].St()), BeginPassCall(index))
          else old(gBuffer[i].St())
      ensures swapped == (old(gBuffer[i].St()).enabled && gBuffer[i].St().swap)
    {
      var target := gBuffer[i];
      swapped := false;
      if target.enabled {
        target.RenderBeginPass(index);
        swapped := target.swap;
      }
    }

    /** DisplayRenderTargetChain::RenderEndPass */
    method RenderEndPass()
      requires Valid()
      modifies gBuffer, Slots(gBuffer)
      ensures Reached(old(States()), EndPassCall, |gBuffer|, States())
    {
      hide Do, Reached;
      NoneReached(States(), EndPassCall);
      for i := 0 to |gBuffer|
        invariant Reached(old(States()), EndPassCall, i, States())
      {
        ghost var now := States();
        var target := gBuffer[i];
        if target.enabled { target.RenderEndPass(); }
        assert States() == if now[i].enabled then now[i := Do(now[i], EndPassCall)] else now;
        ReachedStep(old(States()), EndPassCall, i, now, States());
      }
    }

    /** DisplayRenderTargetChain::RenderEnd */
    method RenderEnd()
      requires Valid()
      modifies gBuffer, Slots(gBuffer)
      ensures Reached(old(States()), EndCall, |gBuffer|, States())
    {
      hide Do, Reached;
      NoneReached(States(), EndCall);
      for i := 0 to |gBuffer|
        invariant Reached(old(States()), EndCall, i, States())
      {
        ghost var now := States();
        var target := gBuffer[i];
        if target.enabled { target.RenderEnd(); }
        assert States() == if now[i].enabled then now[i := Do(now[i], EndCall)] else now;
        ReachedStep(old(States()), EndCall, i, now, States());
      }
    }

    /** DisplayRenderTargetChain::SetImmediateWrite: a setting that the chain has already is not passed on. */
    method SetImmediateWrite(on: bool)
      requires Valid()
      modifies this`immediateWrite, gBuffer, Slots(gBuffer)
      ensures immediateWrite == on
      ensures Passed(old(States()), ImmediateCall(on), if on != old(immediateWrite) then |gBuffer| else 0, States())
    {
      hide Do, Passed;
      NoneReached(States(), ImmediateCall(on));
      if on != immediateWrite {
        immediateWrite := on;
        for i := 0 to |gBuffer|
          invariant immediateWrite == on && Passed(old(States()), ImmediateCall(on), i, States())
        {
          ghost var now := States();
          gBuffer[i].SetImmediateWrite(on);
          assert States() == now[i := Do(now[i], ImmediateCall(on))];
          PassedStep(old(States()), ImmediateCall(on), i, now, States());
        }
      }
    }
  }
}
