/** DisplayStateManager of Display/EffectStateManager.cpp in place, proved against EffectStates. */
module EffectStateManager {
  import opened MapOrder
  import opened EffectStates

  /** A device whose calls succeed: one value for every state. */
  class Device {
    var value: Key -> Value
    var writes: nat

    constructor (initial: Key -> Value)
      ensures value == initial && writes == 0
    {
      value, writes := initial, 0;
    }

    method Set(k: Key, v: Value)
      modifies this
      ensures value(k) == v && forall j :: j != k ==> value(j) == old(value)(j)
      ensures writes == old(writes) + 1
    {
      var before := value;
      value := j => if j == k then v else before(j);
      writes := writes + 1;
    }
  }

  /** DisplayStateManager::States */
  class States {
    var renderStates: map<int, Value>
    var samplerStates: map<int, map<int, Value>>
    var textures: map<int, Value>
    var textureStates: map<int, map<int, Value>>
    var changeCount: nat
    var duplicateCount: nat
    const device: Device

    ghost function Lookup(k: Key): Option<Value>
      reads this
    {
      match k
      case RenderKey(state) => Find(renderStates, state)
      case TextureKey(stage) => Find(textures, stage)
      case TextureStateKey(stage, typ) => Find2(textureStates, stage, typ)
      case SamplerKey(sampler, typ) => Find2(samplerStates, sampler, typ)
    }

    constructor (device: Device)
      ensures this.device == device && forall k :: Lookup(k) == None
      ensures changeCount == duplicateCount == 0
    {
      this.device := device;
      renderStates, samplerStates, textures, textureStates := map[], map[], map[], map[];
      changeCount, duplicateCount := 0, 0;
    }

    /** States::Clear */
    method Clear()
      modifies this
      ensures forall k :: Lookup(k) == None
      ensures changeCount == duplicateCount == 0
    {
      renderStates, samplerStates, textures, textureStates := map[], map[], map[], map[];
      changeCount, duplicateCount := 0, 0;
    }

    /** The state `k` on the device, in this cache and in `save`. */
    ghost function CellIn(save: States, k: Key): Cell
      reads this, save, device
    {
      Cell(device.value(k), Lookup(k), save.Lookup(k))
    }

    /** What a write of `v` to `key` counts. */
    twostate predicate Counted(key: Key, v: Value)
      reads this, device
    {
      var skipped := old(Lookup(key)) == Some(v);
      && changeCount == old(changeCount) + 1
      && duplicateCount == old(duplicateCount) + (if skipped then 1 else 0)
      && device.writes == old(device.writes) + (if skipped then 0 else 1)
    }

    /** States::SetRenderState */
    method SetRenderState(save: States, state: int, v: Value)
      requires save != this && save.device == device
      modifies this, save, device
      ensures forall k :: CellIn(save, k) == Do(old(CellIn(save, k)), k, SetCall(RenderKey(state), v))
      ensures Counted(RenderKey(state), v)
    {
      if state !in renderStates || v != renderStates[state] {
        var current := device.value(RenderKey(state));
        save.renderStates := save.renderStates[state := current];
        device.Set(RenderKey(state), v);
        renderStates := renderStates[state := v];
      } else {
        duplicateCount := duplicateCount + 1;
      }
      changeCount := changeCount + 1;
    }

    /** States::SetTexture */
    method SetTexture(save: States, stage: int, texture: Value)
      requires save != this && save.device == device
      modifies this, save, device
      ensures forall k :: CellIn(save, k) == Do(old(CellIn(save, k)), k, SetCall(TextureKey(stage), texture))
      ensures Counted(TextureKey(stage), texture)
    {
      if stage !in textures || texture != textures[stage] {
        var current := device.value(TextureKey(stage));
        save.textures := save.textures[stage := current];
        device.Set(TextureKey(stage), texture);
        textures := textures[stage := texture];
      } else {
        duplicateCount := duplicateCount + 1;
      }
      changeCount := changeCount + 1;
    }

    /** States::SetTextureStageState; asking for the states of a stage creates an empty map for it. */
    method SetTextureStageState(save: States, stage: int, typ: int, v: Value)
      requires save != this && save.device == device
      modifies this, save, device
      ensures forall k :: CellIn(save, k) == Do(old(CellIn(save, k)), k, SetCall(TextureStateKey(stage, typ), v))
      ensures Counted(TextureStateKey(stage, typ), v)
    {
      textureStates := textureStates[stage := Inner(textureStates, stage)];
      if typ !in textureStates[stage] || v != textureStates[stage][typ] {
        var current := device.value(TextureStateKey(stage, typ));
        save.textureStates := Put2(save.textureStates, stage, typ, current);
        device.Set(TextureStateKey(stage, typ), v);
        textureStates := Put2(textureStates, stage, typ, v);
      } else {
        duplicateCount := duplicateCount + 1;
      }
      changeCount := changeCount + 1;
    }

    /** States::SetSamplerState */
    method SetSamplerState(save: States, sampler: int, typ: int, v: Value)
      requires save != this && save.device == device
      modifies this, save, device
      ensures forall k :: CellIn(save, k) == Do(old(CellIn(save, k)), k, SetCall(SamplerKey(sampler, typ), v))
      ensures Counted(SamplerKey(sampler, typ), v)
    {
      samplerStates := samplerStates[sampler := Inner(samplerStates, sampler)];
      if typ !in samplerStates[sampler] || v != samplerStates[sampler][typ] {
        var current := device.value(SamplerKey(sampler, typ));
        save.samplerStates := Put2(save.samplerStates, sampler, typ, current);
        device.Set(SamplerKey(sampler, typ), v);
        samplerStates := Put2(samplerStates, sampler, typ, v);
      } else {
        duplicateCount := duplicateCount + 1;
      }
      changeCount := changeCount + 1;
    }

    /** State `k` before and after a restore that has got to it, or not yet. */
    ghost predicate Restored(cell: Cell, cell': Cell, k: Key, now: bool) {
      cell' == if now then Do(cell, k, EndPassCall) else cell
    }

    /** States::RestoreRenderState, on the states of the pass; `save` is the global cache. */
    method RestoreRenderState(save: States)
      requires save != this && save.device == device
      modifies save, device
      ensures forall k :: Restored(old(save.CellIn(this, k)), save.CellIn(this, k), k, k.RenderKey?)
    {
      var keys := KeysInOrder(renderStates);
      for i := 0 to |keys|
        invariant forall k ::
          Restored(old(save.CellIn(this, k)), save.CellIn(this, k), k, k.RenderKey? && k.state in keys[..i])
      {
        var state := keys[i];
        save.renderStates := save.renderStates[state := renderStates[state]];
        device.Set(RenderKey(state), renderStates[state]);
      }
    }

    /** States::RestoreTexture */
    method RestoreTexture(save: States)
      requires save != this && save.device == device
      modifies save, device
      ensures forall k :: Restored(old(save.CellIn(this, k)), save.CellIn(this, k), k, k.TextureKey?)
    {
      var keys := KeysInOrder(textures);
      for i := 0 to |keys|
        invariant forall k ::
          Restored(old(save.CellIn(this, k)), save.CellIn(this, k), k, k.TextureKey? && k.stage in keys[..i])
      {
        var stage := keys[i];
        save.textures := save.textures[stage := textures[stage]];
        device.Set(TextureKey(stage), textures[stage]);
      }
    }

    /** States::RestoreTextureStageState */
    method RestoreTextureStageState(save: States)
      requires save != this && save.device == device
      modifies save, device
      ensures forall k :: Restored(old(save.CellIn(this, k)), save.CellIn(this, k), k, k.TextureStateKey?)
    {
      var stages := KeysInOrder(textureStates);
      for i := 0 to |stages|
        invariant forall k :: Restored(old(save.CellIn(this, k)), save.CellIn(this, k), k,
                                       k.TextureStateKey? && k.stage in stages[..i])
      {
        var stage := stages[i];
        var types := KeysInOrder(textureStates[stage]);
        for j := 0 to |types|
          invariant forall k :: Restored(old(save.CellIn(this, k)), save.CellIn(this, k), k,
                      k.TextureStateKey? && (k.stage in stages[..i] || (k.stage == stage && k.typ in types[..j])))
        {
          var v := textureStates[stage][types[j]];
          save.textureStates := Put2(save.textureStates, stage, types[j], v);
          device.Set(TextureStateKey(stage, types[j]), v);
        }
      }
    }

    /** States::RestoreSamplerState */
    method RestoreSamplerState(save: States)
      requires save != this && save.device == device
      modifies save, device
      ensures forall k :: Restored(old(save.CellIn(this, k)), save.CellIn(this, k), k, k.SamplerKey?)
    {
      var samplers := KeysInOrder(samplerStates);
      for i := 0 to |samplers|
        invariant forall k :: Restored(old(save.CellIn(this, k)), save.CellIn(this, k), k,
                                       k.SamplerKey? && k.sampler in samplers[..i])
      {
        var sampler := samplers[i];
        var types := KeysInOrder(samplerStates[sampler]);
        for j := 0 to |types|
          invariant forall k :: Restored(old(save.CellIn(this, k)), save.CellIn(this, k), k,
                      k.SamplerKey? && (k.sampler in samplers[..i] || (k.sampler == sampler && k.typ in types[..j])))
        {
          var v := samplerStates[sampler][types[j]];
          save.samplerStates := Put2(save.samplerStates, sampler, types[j], v);
          device.Set(SamplerKey(sampler, types[j]), v);
        }
      }
    }
  }

  function Find(m: map<int, Value>, x: int): Option<Value> {
    if x in m then Some(m[x]) else None
  }

  function Inner(m: map<int, map<int, Value>>, x: int): map<int, Value> {
    if x in m then m[x] else map[]
  }

  function Find2(m: map<int, map<int, Value>>, x: int, y: int): Option<Value> {
    Find(Inner(m, x), y)
  }

  /** m[x][y] = v, where a missing inner map is created. */
  function Put2(m: map<int, map<int, Value>>, x: int, y: int, v: Value): (r: map<int, map<int, Value>>)
    ensures forall a, b :: Find2(r, a, b) == if a == x && b == y then Some(v) else Find2(m, a, b)
  {
    m[x := Inner(m, x)[y := v]]
  }

  /** DisplayStateManager */
  class Manager {
    const device: Device
    const global: States
    const current: States

    ghost predicate Valid()
      reads this
    {
      global != current && global.device == current.device == device
    }

    ghost function CellOf(k: Key): Cell
      reads this, device, global, current
    {
      Cell(device.value(k), global.Lookup(k), current.Lookup(k))
    }

    constructor (device: Device)
      ensures Valid() && this.device == device
      ensures forall k :: CellOf(k) == Cell(device.value(k), None, None)
    {
      this.device := device;
      global := new States(device);
      current := new States(device);
    }

    /** The four setters hand the call to the global cache, with the states of the pass as the place to save to. */
    method Set(key: Key, v: Value)
      requires Valid()
      modifies device, global, current
      ensures forall k :: CellOf(k) == Do(old(CellOf(k)), k, SetCall(key, v))
      ensures global.changeCount == old(global.changeCount) + 1
      ensures var skipped := old(CellOf(key)).Duplicate(v);
              && global.duplicateCount == old(global.duplicateCount) + (if skipped then 1 else 0)
              && device.writes == old(device.writes) + (if skipped then 0 else 1)
    {
      assert forall k :: CellOf(k) == global.CellIn(current, k);
      match key {
        case RenderKey(state) => global.SetRenderState(current, state, v);
        case TextureKey(stage) => global.SetTexture(current, stage, v);
        case TextureStateKey(stage, typ) => global.SetTextureStageState(current, stage, typ, v);
        case SamplerKey(sampler, typ) => global.SetSamplerState(current, sampler, typ, v);
      }
      assert forall k :: CellOf(k) == global.CellIn(current, k);
    }

    /** DisplayStateManager::Reset */
    method Reset()
      requires Valid()
      modifies global, current
      ensures forall k :: CellOf(k) == Do(old(CellOf(k)), k, ResetCall)
      ensures global.changeCount == global.duplicateCount == 0
    {
      global.Clear();
      current.Clear();
    }

    /** DisplayStateManager::BeginPass */
    method BeginPass()
      requires Valid()
      modifies current
      ensures forall k :: CellOf(k) == Do(old(CellOf(k)), k, BeginPassCall)
    {
      current.Clear();
    }

    /** DisplayStateManager::EndPass */
    method EndPass() returns (changeCount: nat, duplicateCount: nat)
      requires Valid()
      modifies device, global
      ensures forall k :: CellOf(k) == Do(old(CellOf(k)), k, EndPassCall)
      ensures changeCount == global.changeCount && duplicateCount == global.duplicateCount
    {
      assert forall k :: CellOf(k) == global.CellIn(current, k);
      current.RestoreRenderState(global);
      current.RestoreTexture(global);
      current.RestoreTextureStageState(global);
      current.RestoreSamplerState(global);
      changeCount, duplicateCount := global.changeCount, global.duplicateCount;
      assert forall k :: CellOf(k) == global.CellIn(current, k);
    }

    /** A whole sequence of calls. */
    method Perform(calls: seq<Call>)
      requires Valid()
      modifies device, global, current
      ensures forall k :: CellOf(k) == Run(old(CellOf(k)), k, calls)
    {
      for i := 0 to |calls|
        invariant forall k :: CellOf(k) == Run(old(CellOf(k)), k, calls[..i])
      {
        assert calls[..i + 1][..i] == calls[..i];
        match calls[i] {
          case SetCall(key, v) => Set(key, v);
          case BeginPassCall => BeginPass();
          case EndPassCall => var changes, duplicates := EndPass();
          case ResetCall => Reset();
        }
      }
      assert calls[..|calls|] == calls;
    }
  }
}
