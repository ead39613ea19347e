/**
 * The module-level state of src/utils/directives/click-outside.ts as one
 * object: the two dictionaries `captureInstances` and `nonCaptureInstances`,
 * and the calls made so far to `document.addEventListener` /
 * `document.removeEventListener`. `Inserted` and `Unbind` are the
 * directive's two hooks; `HandleEvent` is the document listener of a mode.
 */
module ClickOutsideRegistry {

  import opened ClickOutside

  const BINDING_NOT_FUNCTION := "Binding value must be a function"

  /** How `inserted` ends: normally, or by throwing a `TypeError`. */
  datatype Outcome = Ok | TypeError(message: string)

  class Registry {
    var captureInstances: Instances
    var nonCaptureInstances: Instances
    /** Every add/remove-listener call made on the document, oldest first. */
    var log: seq<ListenerCall>

    /** `useCapture ? captureInstances : nonCaptureInstances` */
    function InstancesFor(useCapture: bool): Instances
      reads this
    {
      if useCapture then captureInstances else nonCaptureInstances
    }

    /** Both dictionaries are well formed, and a mode's listener for an
        event name is installed exactly when that mode's dictionary has a
        (necessarily non-empty) bucket for it. */
    ghost predicate Valid()
      reads this
    {
      && WellFormed(captureInstances)
      && WellFormed(nonCaptureInstances)
      && (forall eventName :: Installed(log, true, eventName) <==> eventName in captureInstances.buckets)
      && (forall eventName :: Installed(log, false, eventName) <==> eventName in nonCaptureInstances.buckets)
    }

    /** Module initialisation: two `Object.create(null)` dictionaries, no listener. */
    constructor ()
      ensures Valid()
      ensures captureInstances == Instances([], map[]) && nonCaptureInstances == Instances([], map[])
      ensures log == []
    {
      captureInstances := Instances([], map[]);
      nonCaptureInstances := Instances([], map[]);
      log := [];
    }

    /** `inserted(el, binding)` */
    method Inserted(el: Element, binding: Binding) returns (outcome: Outcome)
      requires Valid()
      modifies this
      ensures Valid()
      ensures binding.value.NotFunction? ==>
        && outcome == TypeError(BINDING_NOT_FUNCTION)
        && captureInstances == old(captureInstances)
        && nonCaptureInstances == old(nonCaptureInstances)
        && log == old(log)
      ensures binding.value.Function? ==>
        var eventName := EventTypeOf(binding.modifiers);
        var reg := Registration(el, NormalisedBinding(binding.value.callback, NormaliseModifiers(binding.modifiers), binding.arg));
        && outcome == Ok
        && InstancesFor(binding.arg) == Push(old(InstancesFor(binding.arg)), eventName, reg)
        && InstancesFor(!binding.arg) == old(InstancesFor(!binding.arg))
        && log == if eventName in old(InstancesFor(binding.arg)).buckets then old(log) else old(log) + [AddListener(eventName, binding.arg)]
    {
      if !binding.value.Function? {
        return TypeError(BINDING_NOT_FUNCTION);
      }

      // The if-chain and the spread below follow the source statement by
      // statement. The assert on `eventType` and the postcondition tie
      // them to EventTypeOf and NormaliseModifiers.
      var modifiers := binding.modifiers;
      var eventType;
      if Flag(modifiers, CLICK) {
        eventType := CLICK;
      } else if Flag(modifiers, MOUSEDOWN) {
        eventType := MOUSEDOWN;
      } else if Flag(modifiers, TOUCHSTART) {
        eventType := TOUCHSTART;
      } else {
        eventType := CLICK;
      }

      var useCapture := binding.arg;
      var normalisedBinding := NormalisedBinding(binding.value.callback, DefaultModifiers + binding.modifiers, binding.arg);

      ghost var before := InstancesFor(useCapture);
      assert eventType == EventTypeOf(binding.modifiers);
      var instances := InstancesFor(useCapture);
      if eventType !in instances.buckets {
        instances := Assign(instances, eventType, []);
      }
      var bucket := instances.buckets[eventType] + [Registration(el, normalisedBinding)];
      instances := Assign(instances, eventType, bucket);
      assert instances == Push(before, eventType, Registration(el, normalisedBinding));
      if useCapture {
        captureInstances := instances;
      } else {
        nonCaptureInstances := instances;
      }

      assert |bucket| == 1 <==> eventType !in before.buckets;
      ghost var log0 := log;
      if |bucket| == 1 {
        log := log + [AddListener(eventType, useCapture)];
      }
      AddKeepsListenerInvariant(log0, log, useCapture, eventType, before, instances);
      return Ok;
    }

    /** `unbind(el)`: the capture dictionary first, then the non-capture one
        (the order of `instancesList`). */
    method Unbind(el: Element)
      requires Valid()
      modifies this
      ensures Valid()
      ensures captureInstances == Unbound(old(captureInstances), el)
      ensures nonCaptureInstances == Unbound(old(nonCaptureInstances), el)
      ensures log == old(log)
        + Removals(EmptiedKeys(old(captureInstances).buckets, old(captureInstances).keys, el), true)
        + Removals(EmptiedKeys(old(nonCaptureInstances).buckets, old(nonCaptureInstances).keys, el), false)
    {
      ghost var capture0, nonCapture0, log0 := captureInstances, nonCaptureInstances, log;
      ghost var emptiedCapture := EmptiedKeys(capture0.buckets, capture0.keys, el);
      ghost var emptiedNonCapture := EmptiedKeys(nonCapture0.buckets, nonCapture0.keys, el);
      UnbindInstances(true, el);
      UnbindInstances(false, el);
      assert log == log0 + Removals(emptiedCapture, true) + Removals(emptiedNonCapture, false);
      forall eventName
        ensures Installed(log, true, eventName) <==> eventName in captureInstances.buckets
        ensures Installed(log, false, eventName) <==> eventName in nonCaptureInstances.buckets
      {
        EmptiedKeysMember(capture0.buckets, capture0.keys, el, eventName);
        EmptiedKeysMember(nonCapture0.buckets, nonCapture0.keys, el, eventName);
        InstalledAfterRemovals(log0, emptiedCapture, true, true, eventName);
        InstalledAfterRemovals(log0, emptiedCapture, true, false, eventName);
        InstalledAfterRemovals(log0 + Removals(emptiedCapture, true), emptiedNonCapture, false, true, eventName);
        InstalledAfterRemovals(log0 + Removals(emptiedCapture, true), emptiedNonCapture, false, false, eventName);
      }
    }

    /** The inner `_instances` step of `unbind` for one dictionary: filter
        each bucket listed by `Object.keys`, keep it when something is left,
        otherwise remove its listener and delete the key. */
    method UnbindInstances(useCapture: bool, el: Element)
      requires WellFormed(InstancesFor(useCapture))
      modifies this
      ensures InstancesFor(useCapture) == Unbound(old(InstancesFor(useCapture)), el)
      ensures InstancesFor(!useCapture) == old(InstancesFor(!useCapture))
      ensures log == old(log) + Removals(EmptiedKeys(old(InstancesFor(useCapture)).buckets, old(InstancesFor(useCapture)).keys, el), useCapture)
    {
      var instances, calls := UnbindDictionary(InstancesFor(useCapture), el, useCapture);
      log := log + calls;
      if useCapture {
        captureInstances := instances;
      } else {
        nonCaptureInstances := instances;
      }
    }

    /** `captureEventHandler` / `nonCaptureEventHandler`: the document
        listener of a mode hands the event to `commonHandler` with that
        mode's dictionary. It runs only for an event type whose listener
        that mode has installed. */
    method HandleEvent(useCapture: bool, event: Event, contains: (Element, Element) -> bool) returns (effects: seq<Effect>)
      requires Valid()
      requires Installed(log, useCapture, event.eventType)
      ensures effects == Dispatched(InstancesFor(useCapture), event, contains)
    {
      effects := CommonHandler(InstancesFor(useCapture), event, contains);
    }
  }

  /** The `instancesKeys.forEach(keys)` walk of `unbind` over one
      dictionary, when it has keys: each bucket loses `el`'s registrations;
      a bucket left empty has its listener removed and its key deleted.
      Returns the dictionary afterwards and the remove-listener calls made,
      in order. */
  method UnbindDictionary(dictionary: Instances, el: Element, useCapture: bool) returns (instances: Instances, calls: seq<ListenerCall>)
    requires WellFormed(dictionary)
    ensures instances == Unbound(dictionary, el)
    ensures calls == Removals(EmptiedKeys(dictionary.buckets, dictionary.keys, el), useCapture)
  {
    instances := dictionary;
    calls := [];
    UnbindAtStart(dictionary, el);
    var instancesKeys := instances.keys;
    if |instancesKeys| > 0 {
      for i := 0 to |instancesKeys|
        invariant UnbindAt(dictionary, el, i, instances)
        invariant calls == Removals(EmptiedKeys(dictionary.buckets, dictionary.keys[..i], el), useCapture)
      {
        var keyCalls;
        instances, keyCalls := UnbindKey(instances, instancesKeys[i], el, useCapture, dictionary, i);
        calls := calls + keyCalls;
      }
    }
    UnbindAtEnd(dictionary, el, instances);
  }

  /** `_keys(eventName)`: filter the bucket of `eventName`; keep what is
      left, or, when nothing is, remove the listener and delete the key.
      As the `i`-th key of `dictionary` it moves the walk on by one key. */
  method UnbindKey(instances: Instances, eventName: string, el: Element, useCapture: bool, ghost dictionary: Instances, ghost i: nat)
    returns (next: Instances, calls: seq<ListenerCall>)
    requires WellFormed(dictionary) && i < |dictionary.keys| && eventName == dictionary.keys[i]
    requires UnbindAt(dictionary, el, i, instances)
    ensures UnbindAt(dictionary, el, i + 1, next)
    ensures Removals(EmptiedKeys(dictionary.buckets, dictionary.keys[..i + 1], el), useCapture)
      == Removals(EmptiedKeys(dictionary.buckets, dictionary.keys[..i], el), useCapture) + calls
  {
    UnbindAtStep(dictionary, el, i, instances);
    RemovalsStep(dictionary, el, i, useCapture);
    var newInstance := Without(instances.buckets[eventName], el);
    if |newInstance| > 0 {
      next := Assign(instances, eventName, newInstance);
      calls := [];
    } else {
      calls := [RemoveListener(eventName, useCapture)];
      next := Delete(instances, eventName);
    }
  }

  /** The buckets of a dictionary while `unbind` is part way through its
      keys: those in `done` are filtered or gone, the rest untouched. */
  ghost function PartlyUnbound(buckets: map<string, seq<Registration>>, done: seq<string>, el: Element): map<string, seq<Registration>>
  {
    map k | k in buckets && (k in done ==> Without(buckets[k], el) != []) ::
      if k in done then Without(buckets[k], el) else buckets[k]
  }

  lemma PartlyUnboundStart(buckets: map<string, seq<Registration>>, el: Element)
    ensures PartlyUnbound(buckets, [], el) == buckets
  {
  }

  /** Where `unbind`'s walk over one dictionary stands after its first
      `i` keys. */
  ghost predicate UnbindAt(original: Instances, el: Element, i: nat, current: Instances)
    requires WellFormed(original) && i <= |original.keys|
  {
    && current.keys == SurvivingKeys(original.buckets, original.keys[..i], el) + original.keys[i..]
    && current.buckets == PartlyUnbound(original.buckets, original.keys[..i], el)
  }

  lemma UnbindAtStart(original: Instances, el: Element)
    requires WellFormed(original)
    ensures UnbindAt(original, el, 0, original)
    ensures EmptiedKeys(original.buckets, original.keys[..0], el) == []
  {
    assert original.keys[..0] == [];
    PartlyUnboundStart(original.buckets, el);
  }

  lemma UnbindAtEnd(original: Instances, el: Element, current: Instances)
    requires WellFormed(original)
    requires UnbindAt(original, el, |original.keys|, current)
    ensures current == Unbound(original, el)
    ensures EmptiedKeys(original.buckets, original.keys[..|original.keys|], el) == EmptiedKeys(original.buckets, original.keys, el)
  {
    var ks := original.keys;
    assert ks[..|ks|] == ks;
    assert ks[|ks|..] == [];
    PartlyUnboundEnd(original, el);
  }

  /** One key of the walk: filtering or deleting bucket `i` moves it on. */
  lemma UnbindAtStep(original: Instances, el: Element, i: nat, current: Instances)
    requires WellFormed(original) && i < |original.keys|
    requires UnbindAt(original, el, i, current)
    ensures original.keys[i] in current.buckets
    ensures current.buckets[original.keys[i]] == original.buckets[original.keys[i]]
    ensures var k := original.keys[i];
      Without(original.buckets[k], el) != [] ==> UnbindAt(original, el, i + 1, Assign(current, k, Without(original.buckets[k], el)))
    ensures var k := original.keys[i];
      Without(original.buckets[k], el) == [] ==> UnbindAt(original, el, i + 1, Delete(current, k))
  {
    var ks, k, b := original.keys, original.keys[i], original.buckets;
    assert ks[..i + 1] == ks[..i] + [k];
    DistinctSplit(ks, i);
    KeysStep(original, el, i);
    PartlyUnboundStep(b, ks[..i], k, el);
  }

  /** The `i`-th key adds one removal call exactly when its bucket empties. */
  lemma RemovalsStep(original: Instances, el: Element, i: nat, useCapture: bool)
    requires WellFormed(original) && i < |original.keys|
    ensures var ks, b := original.keys, original.buckets;
      Removals(EmptiedKeys(b, ks[..i + 1], el), useCapture) ==
        Removals(EmptiedKeys(b, ks[..i], el), useCapture)
          + if Without(b[ks[i]], el) == [] then [RemoveListener(ks[i], useCapture)] else []
  {
    var ks, k, b := original.keys, original.keys[i], original.buckets;
    assert ks[..i + 1] == ks[..i] + [k];
    EmptiedKeysSnoc(b, ks[..i], k, el);
    RemovalsSnoc(EmptiedKeys(b, ks[..i], el), k, useCapture);
  }

  lemma KeysStep(original: Instances, el: Element, i: nat)
    requires WellFormed(original) && i < |original.keys|
    ensures var ks, k, b := original.keys, original.keys[i], original.buckets;
      var before := SurvivingKeys(b, ks[..i], el) + ks[i..];
      SurvivingKeys(b, ks[..i + 1], el) + ks[i + 1..] ==
        if Without(b[k], el) != [] then before else RemoveKey(before, k)
  {
    var ks, k, b := original.keys, original.keys[i], original.buckets;
    var done, rest := ks[..i], ks[i + 1..];
    DistinctSplit(ks, i);
    assert ks[..i + 1] == done + [k];
    SurvivingKeysSnoc(b, done, k, el);
    SurvivingKeysMember(b, done, el, k);
    KeysStepSplit(SurvivingKeys(b, done, el), k, rest, Without(b[k], el) != []);
  }

  /** The key at position `i` of a list without repeats is neither before nor after it. */
  lemma DistinctSplit(ks: seq<string>, i: nat)
    requires Distinct(ks) && i < |ks|
    ensures ks[i..] == [ks[i]] + ks[i + 1..]
    ensures ks[i] !in ks[..i] && ks[i] !in ks[i + 1..]
  {
    forall j | 0 <= j < |ks| && j != i
      ensures ks[j] != ks[i]
    {
      if j < i {
        assert ks[..i][j] == ks[j];
      }
    }
    assert forall x :: x in ks[..i] ==> exists j :: 0 <= j < i && ks[j] == x;
    var rest := ks[i + 1..];
    assert forall j :: 0 <= j < |rest| ==> rest[j] == ks[i + 1 + j];
  }

  lemma KeysStepSplit(kept: seq<string>, k: string, rest: seq<string>, keep: bool)
    requires k !in kept && k !in rest
    ensures (if keep then kept + [k] else kept) + rest ==
      if keep then kept + ([k] + rest) else RemoveKey(kept + ([k] + rest), k)
  {
    assert kept + [k] + rest == kept + ([k] + rest);
    if !keep {
      RemoveKeyOnce(kept, k, rest);
    }
  }

  lemma SurvivingKeysSnoc(buckets: map<string, seq<Registration>>, done: seq<string>, k: string, el: Element)
    requires forall x :: x in done ==> x in buckets
    requires k in buckets
    ensures SurvivingKeys(buckets, done + [k], el) ==
      if Without(buckets[k], el) != [] then SurvivingKeys(buckets, done, el) + [k] else SurvivingKeys(buckets, done, el)
  {
    assert (done + [k])[..|done|] == done;
  }

  lemma EmptiedKeysSnoc(buckets: map<string, seq<Registration>>, done: seq<string>, k: string, el: Element)
    requires forall x :: x in done ==> x in buckets
    requires k in buckets
    ensures EmptiedKeys(buckets, done + [k], el) ==
      if Without(buckets[k], el) == [] then EmptiedKeys(buckets, done, el) + [k] else EmptiedKeys(buckets, done, el)
  {
    assert (done + [k])[..|done|] == done;
  }

  lemma PartlyUnboundStep(buckets: map<string, seq<Registration>>, done: seq<string>, k: string, el: Element)
    requires k in buckets && k !in done
    ensures PartlyUnbound(buckets, done + [k], el) ==
      if Without(buckets[k], el) != [] then PartlyUnbound(buckets, done, el)[k := Without(buckets[k], el)]
      else PartlyUnbound(buckets, done, el) - {k}
  {
    assert forall x :: x in done + [k] <==> x in done || x == k;
  }

  lemma PartlyUnboundEnd(inst: Instances, el: Element)
    requires WellFormed(inst)
    ensures PartlyUnbound(inst.buckets, inst.keys, el) == Unbound(inst, el).buckets
  {
  }

  lemma RemovalsSnoc(eventNames: seq<string>, eventName: string, useCapture: bool)
    ensures Removals(eventNames + [eventName], useCapture) == Removals(eventNames, useCapture) + [RemoveListener(eventName, useCapture)]
  {
    assert (eventNames + [eventName])[..|eventNames|] == eventNames;
  }

  /** Appending at most one add-listener call, for a bucket that was just
      created, keeps "installed exactly when the bucket exists". */
  lemma AddKeepsListenerInvariant(log: seq<ListenerCall>, log': seq<ListenerCall>, useCapture: bool, eventName: string, before: Instances, after: Instances)
    requires forall e :: Installed(log, useCapture, e) <==> e in before.buckets
    requires after.buckets.Keys == before.buckets.Keys + {eventName}
    requires log' == if eventName in before.buckets then log else log + [AddListener(eventName, useCapture)]
    ensures forall e :: Installed(log', useCapture, e) <==> e in after.buckets
    ensures forall e, mode :: mode != useCapture ==> Installed(log', mode, e) == Installed(log, mode, e)
  {
    forall e, mode
      ensures Installed(log', mode, e) ==
        if mode == useCapture then e in after.buckets else Installed(log, mode, e)
    {
      if eventName !in before.buckets {
        InstalledAfterCall(log, AddListener(eventName, useCapture), mode, e);
      }
    }
  }
}
