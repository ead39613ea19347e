/**
 * Values and pure rules of the click-outside directive
 * (src/utils/directives/click-outside.ts): how `inserted` resolves the event
 * type and normalises the modifiers, how `unbind` filters a bucket, what
 * `commonHandler` does for one event, and what a sequence of
 * add/remove-listener calls leaves installed on the document.
 * The mutable registry built from these is in click_outside_registry.dfy.
 */
module ClickOutside {

  /** A DOM element, compared by reference (`===`). */
  type Element(==, !new)

  /** A function bound to the directive; only its identity is observed. */
  type Callback(==, !new)

  const CLICK := "click"
  const MOUSEDOWN := "mousedown"
  const TOUCHSTART := "touchstart"

  /** The event-type modifiers, in the order `inserted` tests them. */
  const EventTypePriority: seq<string> := [CLICK, MOUSEDOWN, TOUCHSTART]

  /** `binding.modifiers`: every key present maps to the truthiness of its value. */
  type Modifiers = map<string, bool>

  /** The flags every normalised binding carries, with their defaults. */
  const DefaultModifiers: Modifiers := map["capture" := false, "prevent" := false, "stop" := false]

  /** `binding.value`: either something `typeof` calls a function, or anything else. */
  datatype BoundValue = Function(callback: Callback) | NotFunction

  /** The binding `inserted` receives; `arg` is the truthiness of `binding.arg`. */
  datatype Binding = Binding(value: BoundValue, modifiers: Modifiers, arg: bool)

  /** `normalisedBinding`: a binding whose value passed the function check,
      with its modifiers merged over `DefaultModifiers`. */
  datatype NormalisedBinding = NormalisedBinding(value: Callback, modifiers: Modifiers, arg: bool)

  /** One `{el, binding}` entry of a bucket. */
  datatype Registration = Registration(el: Element, binding: NormalisedBinding)

  /**
   * A dictionary made by `Object.create(null)`: `keys` is what `Object.keys`
   * returns (insertion order, since event names are not array indices) and
   * `buckets` maps each event name to its registrations.
   */
  datatype Instances = Instances(keys: seq<string>, buckets: map<string, seq<Registration>>)

  /** The part of a DOM event the handler looks at. */
  datatype Event = Event(eventType: string, target: Element)

  /** What dispatch does to the event and to the bound callbacks, in order. */
  datatype Effect = StopPropagation | PreventDefault | Invoke(callback: Callback)

  /** A call to `document.addEventListener` or `document.removeEventListener`.
      The handler passed is fixed by `useCapture`, so it is not recorded. */
  datatype ListenerCall =
    | AddListener(eventName: string, useCapture: bool)
    | RemoveListener(eventName: string, useCapture: bool)

  /** `modifiers[name]` is truthy. */
  predicate Flag(m: Modifiers, name: string)
  {
    name in m && m[name]
  }

  predicate Distinct<T(==)>(s: seq<T>)
  {
    forall i, j :: 0 <= i < j < |s| ==> s[i] != s[j]
  }

  // ---------------------------------------------------------------------------
  // inserted: event type and modifiers
  // ---------------------------------------------------------------------------

  /** The event type `inserted` listens for: the first of `click`,
      `mousedown`, `touchstart` whose modifier is set, else `click`. */
  function EventTypeOf(m: Modifiers): (eventType: string)
    ensures eventType in EventTypePriority
    ensures Flag(m, eventType) || (eventType == CLICK && forall name <- EventTypePriority :: !Flag(m, name))
    ensures forall j :: 0 <= j < |EventTypePriority| && EventTypePriority[j] == eventType ==>
              forall i :: 0 <= i < j ==> !Flag(m, EventTypePriority[i])
  {
    if Flag(m, CLICK) then CLICK
    else if Flag(m, MOUSEDOWN) then MOUSEDOWN
    else if Flag(m, TOUCHSTART) then TOUCHSTART
    else CLICK
  }

  /** Once the modifier at rank `k` decides the event type, no modifier of
      lower priority is consulted: changing those changes nothing. */
  lemma OnlyHigherPriorityFlagsConsulted(m: Modifiers, m': Modifiers, k: nat)
    requires k < |EventTypePriority| && EventTypeOf(m) == EventTypePriority[k]
    requires Flag(m, EventTypePriority[k])
    requires forall i :: 0 <= i <= k ==> (Flag(m', EventTypePriority[i]) <==> Flag(m, EventTypePriority[i]))
    ensures EventTypeOf(m') == EventTypeOf(m)
  {
  }

  /** `{...{capture: false, prevent: false, stop: false}, ...binding.modifiers}` */
  function NormaliseModifiers(m: Modifiers): (r: Modifiers)
    ensures r.Keys == m.Keys + {"capture", "prevent", "stop"}
    ensures forall name :: name in m ==> r[name] == m[name]
    ensures forall name :: name in DefaultModifiers && name !in m ==> !r[name]
  {
    DefaultModifiers + m
  }

  // ---------------------------------------------------------------------------
  // The dictionaries
  // ---------------------------------------------------------------------------

  /** What the registry keeps true of each dictionary: `Object.keys` lists
      every key once, and no bucket is ever left empty. */
  ghost predicate WellFormed(inst: Instances)
  {
    && Distinct(inst.keys)
    && (forall k :: k in inst.keys <==> k in inst.buckets)
    && (forall k :: k in inst.buckets ==> inst.buckets[k] != [])
  }

  /** `keys` without `k`. */
  function RemoveKey(keys: seq<string>, k: string): (r: seq<string>)
    ensures forall x :: x in r <==> x in keys && x != k
  {
    if keys == [] then []
    else if keys[0] == k then RemoveKey(keys[1..], k)
    else [keys[0]] + RemoveKey(keys[1..], k)
  }

  lemma {:induction false} RemoveKeyOnce(a: seq<string>, k: string, b: seq<string>)
    requires k !in a && k !in b
    ensures RemoveKey(a + [k] + b, k) == a + b
  {
    if a == [] {
      assert a + [k] + b == [k] + b;
      RemoveKeyAbsent(b, k);
    } else {
      assert (a + [k] + b)[1..] == a[1..] + [k] + b;
      RemoveKeyOnce(a[1..], k, b);
      assert a + b == [a[0]] + (a[1..] + b);
    }
  }

  lemma {:induction false} RemoveKeyDistinct(keys: seq<string>, k: string)
    ensures Distinct(keys) ==> Distinct(RemoveKey(keys, k))
  {
    if keys != [] && Distinct(keys) {
      RemoveKeyDistinct(keys[1..], k);
      if keys[0] != k {
        assert keys[0] !in keys[1..];
        assert keys[0] !in RemoveKey(keys[1..], k);
      }
    }
  }

  lemma {:induction false} RemoveKeyAbsent(s: seq<string>, k: string)
    requires k !in s
    ensures RemoveKey(s, k) == s
  {
    if s != [] {
      RemoveKeyAbsent(s[1..], k);
      assert s == [s[0]] + s[1..];
    }
  }

  /** `instances[k] = v`: an existing key keeps its place, a new one goes last. */
  function Assign(inst: Instances, k: string, v: seq<Registration>): (r: Instances)
    ensures k in r.buckets && r.buckets[k] == v
    ensures forall j :: j != k ==> (j in r.buckets <==> j in inst.buckets)
    ensures forall j :: j != k && j in inst.buckets ==> r.buckets[j] == inst.buckets[j]
    ensures k in inst.buckets ==> r.keys == inst.keys
    ensures k !in inst.buckets ==> r.keys == inst.keys + [k]
    ensures WellFormed(inst) && v != [] ==> WellFormed(r)
  {
    Instances(if k in inst.buckets then inst.keys else inst.keys + [k], inst.buckets[k := v])
  }

  /** `delete instances[k]`: the key leaves both the key order and the map;
      nothing else changes. */
  function Delete(inst: Instances, k: string): (r: Instances)
    ensures k !in r.buckets && k !in r.keys
    ensures forall j :: j != k ==> (j in r.buckets <==> j in inst.buckets) && (j in r.keys <==> j in inst.keys)
    ensures forall j :: j != k && j in inst.buckets ==> r.buckets[j] == inst.buckets[j]
    ensures WellFormed(inst) ==> WellFormed(r)
  {
    RemoveKeyDistinct(inst.keys, k);
    Instances(RemoveKey(inst.keys, k), inst.buckets - {k})
  }

  /** What `inserted` does to the chosen dictionary: create the bucket when
      `instances[eventName]` is not an array, then push `reg`. */
  function Push(inst: Instances, eventName: string, reg: Registration): (r: Instances)
    ensures eventName in r.buckets
    ensures r.buckets[eventName] == (if eventName in inst.buckets then inst.buckets[eventName] else []) + [reg]
    ensures forall k :: k != eventName ==> (k in r.buckets <==> k in inst.buckets)
    ensures forall k :: k != eventName && k in inst.buckets ==> r.buckets[k] == inst.buckets[k]
    ensures r.keys == if eventName in inst.buckets then inst.keys else inst.keys + [eventName]
    ensures r.buckets.Keys == inst.buckets.Keys + {eventName}
    ensures WellFormed(inst) ==> WellFormed(r)
  {
    var created := if eventName in inst.buckets then inst else Assign(inst, eventName, []);
    Assign(created, eventName, created.buckets[eventName] + [reg])
  }

  // ---------------------------------------------------------------------------
  // unbind
  // ---------------------------------------------------------------------------

  /** `regs.filter(item => item.el !== el)` */
  function Without(regs: seq<Registration>, el: Element): (r: seq<Registration>)
    ensures forall x :: x in r ==> x.el != el
    ensures forall x :: x in regs && x.el != el ==> x in r
  {
    if regs == [] then []
    else
      assert regs == [regs[0]] + regs[1..];
      if regs[0].el != el then [regs[0]] + Without(regs[1..], el) else Without(regs[1..], el)
  }

  /** Every registration of another element survives the filter as often as it was there. */
  lemma {:induction false} WithoutKeepsOthers(regs: seq<Registration>, el: Element, x: Registration)
    requires x.el != el
    ensures multiset(Without(regs, el))[x] == multiset(regs)[x]
  {
    if regs != [] {
      WithoutKeepsOthers(regs[1..], el, x);
      assert regs == [regs[0]] + regs[1..];
    }
  }

  /** The filter keeps the survivors' relative order: it distributes over `+`. */
  lemma {:induction false} WithoutConcat(a: seq<Registration>, b: seq<Registration>, el: Element)
    ensures Without(a + b, el) == Without(a, el) + Without(b, el)
  {
    if a != [] {
      assert (a + b)[1..] == a[1..] + b;
      WithoutConcat(a[1..], b, el);
    } else {
      assert a + b == b;
    }
  }

  /** Filtering a bucket that does not hold `el` returns the same bucket. */
  lemma {:induction false} WithoutAbsent(regs: seq<Registration>, el: Element)
    requires forall x :: x in regs ==> x.el != el
    ensures Without(regs, el) == regs
  {
    if regs != [] {
      WithoutAbsent(regs[1..], el);
      assert regs == [regs[0]] + regs[1..];
    }
  }

  /** The keys of `ks`, in order, whose bucket keeps a registration after the filter. */
  function SurvivingKeys(buckets: map<string, seq<Registration>>, ks: seq<string>, el: Element): seq<string>
    requires forall k :: k in ks ==> k in buckets
  {
    if ks == [] then []
    else
      var k := ks[|ks| - 1];
      if Without(buckets[k], el) != [] then SurvivingKeys(buckets, ks[..|ks| - 1], el) + [k]
      else SurvivingKeys(buckets, ks[..|ks| - 1], el)
  }

  /** The keys of `ks`, in order, whose bucket the filter empties. */
  function EmptiedKeys(buckets: map<string, seq<Registration>>, ks: seq<string>, el: Element): seq<string>
    requires forall k :: k in ks ==> k in buckets
  {
    if ks == [] then []
    else
      var k := ks[|ks| - 1];
      if Without(buckets[k], el) == [] then EmptiedKeys(buckets, ks[..|ks| - 1], el) + [k]
      else EmptiedKeys(buckets, ks[..|ks| - 1], el)
  }

  /** A key survives `unbind` exactly when filtering leaves its bucket non-empty. */
  lemma {:induction false} SurvivingKeysMember(buckets: map<string, seq<Registration>>, ks: seq<string>, el: Element, k: string)
    requires forall k :: k in ks ==> k in buckets
    ensures k in SurvivingKeys(buckets, ks, el) <==> k in ks && Without(buckets[k], el) != []
  {
    if ks != [] {
      var init := ks[..|ks| - 1];
      SurvivingKeysMember(buckets, init, el, k);
      assert ks == init + [ks[|ks| - 1]];
    }
  }

  /** A key is emptied by `unbind` exactly when filtering leaves its bucket empty. */
  lemma {:induction false} EmptiedKeysMember(buckets: map<string, seq<Registration>>, ks: seq<string>, el: Element, k: string)
    requires forall k :: k in ks ==> k in buckets
    ensures k in EmptiedKeys(buckets, ks, el) <==> k in ks && Without(buckets[k], el) == []
  {
    if ks != [] {
      var init := ks[..|ks| - 1];
      EmptiedKeysMember(buckets, init, el, k);
      assert ks == init + [ks[|ks| - 1]];
    }
  }

  lemma {:induction false} SurvivingKeysDistinct(buckets: map<string, seq<Registration>>, ks: seq<string>, el: Element)
    requires forall k :: k in ks ==> k in buckets
    requires Distinct(ks)
    ensures Distinct(SurvivingKeys(buckets, ks, el))
  {
    if ks != [] {
      var init := ks[..|ks| - 1];
      SurvivingKeysDistinct(buckets, init, el);
      SurvivingKeysMember(buckets, init, el, ks[|ks| - 1]);
      assert ks[|ks| - 1] !in init;
    }
  }

  lemma {:induction false} EmptiedKeysDistinct(buckets: map<string, seq<Registration>>, ks: seq<string>, el: Element)
    requires forall k :: k in ks ==> k in buckets
    requires Distinct(ks)
    ensures Distinct(EmptiedKeys(buckets, ks, el))
  {
    if ks != [] {
      var init := ks[..|ks| - 1];
      EmptiedKeysDistinct(buckets, init, el);
      EmptiedKeysMember(buckets, init, el, ks[|ks| - 1]);
      assert ks[|ks| - 1] !in init;
    }
  }

  /** A dictionary after `unbind(el)`: every bucket filtered, emptied buckets deleted. */
  function Unbound(inst: Instances, el: Element): (r: Instances)
    requires WellFormed(inst)
    ensures WellFormed(r)
    ensures forall k :: k in r.buckets <==> k in inst.buckets && Without(inst.buckets[k], el) != []
  {
    SurvivingKeysDistinct(inst.buckets, inst.keys, el);
    forall k ensures k in SurvivingKeys(inst.buckets, inst.keys, el) <==> k in inst.keys && Without(inst.buckets[k], el) != [] {
      SurvivingKeysMember(inst.buckets, inst.keys, el, k);
    }
    Instances(
      SurvivingKeys(inst.buckets, inst.keys, el),
      map k | k in inst.buckets && Without(inst.buckets[k], el) != [] :: Without(inst.buckets[k], el))
  }

  /** After `unbind(el)` no bucket holds a registration of `el`. */
  lemma UnboundHasNoElement(inst: Instances, el: Element)
    requires WellFormed(inst)
    ensures forall k, x :: k in Unbound(inst, el).buckets && x in Unbound(inst, el).buckets[k] ==> x.el != el
  {
  }

  /** Every other registration survives, as often as before, and the
      survivors of a bucket keep their relative order. */
  lemma UnboundKeepsOthers(inst: Instances, el: Element, k: string, x: Registration)
    requires WellFormed(inst) && k in inst.buckets && x.el != el
    ensures x in inst.buckets[k] ==> k in Unbound(inst, el).buckets
    ensures k in Unbound(inst, el).buckets ==>
      && multiset(Unbound(inst, el).buckets[k])[x] == multiset(inst.buckets[k])[x]
      && Unbound(inst, el).buckets[k] == Without(inst.buckets[k], el)
  {
    WithoutKeepsOthers(inst.buckets[k], el, x);
  }

  /** Unbinding an element that holds no registration changes neither the
      dictionary nor the listeners. */
  lemma UnbindUnknownElement(inst: Instances, el: Element)
    requires WellFormed(inst)
    requires forall k, x :: k in inst.buckets && x in inst.buckets[k] ==> x.el != el
    ensures Unbound(inst, el) == inst
    ensures EmptiedKeys(inst.buckets, inst.keys, el) == []
  {
    forall k | k in inst.buckets
      ensures Without(inst.buckets[k], el) == inst.buckets[k]
    {
      WithoutAbsent(inst.buckets[k], el);
    }
    AllKeysSurvive(inst.buckets, inst.keys, el);
    NoKeysEmptied(inst.buckets, inst.keys, el);
    var r := Unbound(inst, el);
    assert r.keys == inst.keys;
    assert r.buckets == inst.buckets;
  }

  lemma {:induction false} NoKeysEmptied(buckets: map<string, seq<Registration>>, ks: seq<string>, el: Element)
    requires forall k :: k in ks ==> k in buckets && Without(buckets[k], el) != []
    ensures EmptiedKeys(buckets, ks, el) == []
  {
    if ks != [] {
      NoKeysEmptied(buckets, ks[..|ks| - 1], el);
    }
  }

  lemma {:induction false} AllKeysSurvive(buckets: map<string, seq<Registration>>, ks: seq<string>, el: Element)
    requires forall k :: k in ks ==> k in buckets && Without(buckets[k], el) != []
    ensures SurvivingKeys(buckets, ks, el) == ks
  {
    if ks != [] {
      var init := ks[..|ks| - 1];
      AllKeysSurvive(buckets, init, el);
      assert ks == init + [ks[|ks| - 1]];
    }
  }

  // ---------------------------------------------------------------------------
  // The document listeners
  // ---------------------------------------------------------------------------

  /** Whether the document has the handler for (`eventName`, `useCapture`)
      after `log`: adding an installed listener, or removing one that is not
      installed, changes nothing, so the last call for that pair decides. */
  function Installed(log: seq<ListenerCall>, useCapture: bool, eventName: string): bool
  {
    if log == [] then false
    else
      var c := log[|log| - 1];
      if c.eventName == eventName && c.useCapture == useCapture then c.AddListener?
      else Installed(log[..|log| - 1], useCapture, eventName)
  }

  /** One `removeEventListener` call per name, in order. */
  function Removals(eventNames: seq<string>, useCapture: bool): seq<ListenerCall>
  {
    if eventNames == [] then []
    else Removals(eventNames[..|eventNames| - 1], useCapture) + [RemoveListener(eventNames[|eventNames| - 1], useCapture)]
  }

  lemma InstalledAfterCall(log: seq<ListenerCall>, c: ListenerCall, useCapture: bool, eventName: string)
    ensures Installed(log + [c], useCapture, eventName) ==
      if c.eventName == eventName && c.useCapture == useCapture then c.AddListener?
      else Installed(log, useCapture, eventName)
  {
    assert (log + [c])[..|log|] == log;
  }

  /** Removing the listeners of `eventNames` uninstalls exactly those, in that mode. */
  lemma {:induction false} InstalledAfterRemovals(log: seq<ListenerCall>, eventNames: seq<string>, mode: bool, useCapture: bool, eventName: string)
    ensures Installed(log + Removals(eventNames, mode), useCapture, eventName) ==
      if useCapture == mode && eventName in eventNames then false
      else Installed(log, useCapture, eventName)
  {
    if eventNames == [] {
      assert log + Removals(eventNames, mode) == log;
    } else {
      var n := |eventNames| - 1;
      InstalledAfterRemovals(log, eventNames[..n], mode, useCapture, eventName);
      assert log + Removals(eventNames, mode) == (log + Removals(eventNames[..n], mode)) + [RemoveListener(eventNames[n], mode)];
      InstalledAfterCall(log + Removals(eventNames[..n], mode), RemoveListener(eventNames[n], mode), useCapture, eventName);
      assert eventNames == eventNames[..n] + [eventNames[n]];
    }
  }

  // ---------------------------------------------------------------------------
  // commonHandler
  // ---------------------------------------------------------------------------

  /** The event happened outside `reg.el`: its target is neither the element
      nor inside it (`el !== target && !el.contains(target)`). */
  predicate Outside(reg: Registration, target: Element, contains: (Element, Element) -> bool): (outside: bool)
    ensures reg.el == target ==> !outside
    ensures contains(reg.el, target) ==> !outside
    ensures reg.el != target && !contains(reg.el, target) ==> outside
  {
    reg.el != target && !contains(reg.el, target)
  }

  /** What `commonHandler` does for one registration. */
  function RegistrationEffects(reg: Registration, target: Element, contains: (Element, Element) -> bool): (r: seq<Effect>)
    ensures r == [] <==> !Outside(reg, target, contains)
    ensures r != [] ==> r[|r| - 1] == Invoke(reg.binding.value)
    ensures forall i :: 0 <= i < |r| - 1 ==> !r[i].Invoke?
    ensures StopPropagation in r <==> Outside(reg, target, contains) && Flag(reg.binding.modifiers, "stop")
    ensures PreventDefault in r <==> Outside(reg, target, contains) && Flag(reg.binding.modifiers, "prevent")
    ensures StopPropagation in r ==> r[0] == StopPropagation
    ensures PreventDefault in r ==> |r| >= 2 && r[|r| - 2] == PreventDefault
    ensures Outside(reg, target, contains) ==>
      |r| == 1 + (if Flag(reg.binding.modifiers, "stop") then 1 else 0) + (if Flag(reg.binding.modifiers, "prevent") then 1 else 0)
  {
    var stop := Flag(reg.binding.modifiers, "stop");
    var prevent := Flag(reg.binding.modifiers, "prevent");
    if !Outside(reg, target, contains) then []
    else if stop && prevent then [StopPropagation, PreventDefault, Invoke(reg.binding.value)]
    else if stop then [StopPropagation, Invoke(reg.binding.value)]
    else if prevent then [PreventDefault, Invoke(reg.binding.value)]
    else [Invoke(reg.binding.value)]
  }

  /** The registrations `commonHandler` visits, in visiting order: the
      buckets of `ks` one after the other. */
  function Flatten(buckets: map<string, seq<Registration>>, ks: seq<string>): (r: seq<Registration>)
    requires forall k :: k in ks ==> k in buckets
  {
    if ks == [] then [] else Flatten(buckets, ks[..|ks| - 1]) + buckets[ks[|ks| - 1]]
  }

  lemma FlattenStep(buckets: map<string, seq<Registration>>, ks: seq<string>, i: nat)
    requires forall k :: k in ks ==> k in buckets
    requires i < |ks|
    ensures Flatten(buckets, ks[..i + 1]) == Flatten(buckets, ks[..i]) + buckets[ks[i]]
  {
    assert ks[..i + 1][..i] == ks[..i];
  }

  /** Every registration under every key is visited, and nothing else. */
  lemma {:induction false} FlattenVisitsEveryKey(buckets: map<string, seq<Registration>>, ks: seq<string>, x: Registration)
    requires forall k :: k in ks ==> k in buckets
    ensures x in Flatten(buckets, ks) <==> exists k :: k in ks && x in buckets[k]
  {
    if ks != [] {
      var n := |ks| - 1;
      FlattenVisitsEveryKey(buckets, ks[..n], x);
      assert ks == ks[..n] + [ks[n]];
      if x in buckets[ks[n]] {
        assert ks[n] in ks;
      }
      if exists k :: k in ks && x in buckets[k] {
        var k :| k in ks && x in buckets[k];
        if k != ks[n] {
          assert k in ks[..n];
        }
      }
    }
  }

  /** `f` applied to each element of `s`, results concatenated in order. */
  function ConcatMap<A, B>(s: seq<A>, f: A -> seq<B>): seq<B>
  {
    if s == [] then [] else ConcatMap(s[..|s| - 1], f) + f(s[|s| - 1])
  }

  lemma {:induction false} ConcatMapConcat<A, B>(a: seq<A>, b: seq<A>, f: A -> seq<B>)
    ensures ConcatMap(a + b, f) == ConcatMap(a, f) + ConcatMap(b, f)
  {
    if b == [] {
      assert a + b == a;
    } else {
      var n := |b| - 1;
      ConcatMapConcat(a, b[..n], f);
      assert (a + b)[..|a + b| - 1] == a + b[..n];
    }
  }

  /** The effects of visiting `regs` in order. */
  function EffectsOf(regs: seq<Registration>, target: Element, contains: (Element, Element) -> bool): seq<Effect>
  {
    ConcatMap(regs, reg => RegistrationEffects(reg, target, contains))
  }

  /** Registrations are evaluated independently: what one does (its
      stopPropagation included) never skips the others. */
  lemma EffectsOfConcat(a: seq<Registration>, b: seq<Registration>, target: Element, contains: (Element, Element) -> bool)
    ensures EffectsOf(a + b, target, contains) == EffectsOf(a, target, contains) + EffectsOf(b, target, contains)
  {
    ConcatMapConcat(a, b, reg => RegistrationEffects(reg, target, contains));
  }

  lemma EffectsOfSnoc(regs: seq<Registration>, reg: Registration, target: Element, contains: (Element, Element) -> bool)
    ensures EffectsOf(regs + [reg], target, contains) == EffectsOf(regs, target, contains) + RegistrationEffects(reg, target, contains)
  {
    assert (regs + [reg])[..|regs|] == regs;
  }

  lemma VisitedSnoc(visited: seq<Registration>, bucket: seq<Registration>, j: nat)
    requires j < |bucket|
    ensures visited + bucket[..j + 1] == (visited + bucket[..j]) + [bucket[j]]
  {
    assert bucket[..j + 1] == bucket[..j] + [bucket[j]];
  }

  /** What `commonHandler(context, instances, event)` does: visit every key
      of `instances`, whatever the event's type. */
  function Dispatched(inst: Instances, event: Event, contains: (Element, Element) -> bool): (effects: seq<Effect>)
    requires forall k :: k in inst.keys ==> k in inst.buckets
    ensures Invocations(effects) == OutsideCallbacks(Flatten(inst.buckets, inst.keys), event.target, contains)
  {
    InvokesExactlyOutsideCallbacks(Flatten(inst.buckets, inst.keys), event.target, contains);
    EffectsOf(Flatten(inst.buckets, inst.keys), event.target, contains)
  }

  /** The callbacks invoked by `effects`, in order. */
  function Invocations(effects: seq<Effect>): seq<Callback>
  {
    if effects == [] then []
    else if effects[|effects| - 1].Invoke? then Invocations(effects[..|effects| - 1]) + [effects[|effects| - 1].callback]
    else Invocations(effects[..|effects| - 1])
  }

  /** The callbacks of the registrations of `regs` the event is outside of, in order. */
  function OutsideCallbacks(regs: seq<Registration>, target: Element, contains: (Element, Element) -> bool): seq<Callback>
  {
    if regs == [] then []
    else
      var reg := regs[|regs| - 1];
      if Outside(reg, target, contains) then OutsideCallbacks(regs[..|regs| - 1], target, contains) + [reg.binding.value]
      else OutsideCallbacks(regs[..|regs| - 1], target, contains)
  }

  lemma {:induction false} InvocationsConcat(a: seq<Effect>, b: seq<Effect>)
    ensures Invocations(a + b) == Invocations(a) + Invocations(b)
  {
    if b == [] {
      assert a + b == a;
    } else {
      var n := |b| - 1;
      InvocationsConcat(a, b[..n]);
      assert (a + b)[..|a + b| - 1] == a + b[..n];
    }
  }

  lemma {:induction false} NoInvocations(effects: seq<Effect>)
    requires forall i :: 0 <= i < |effects| ==> !effects[i].Invoke?
    ensures Invocations(effects) == []
  {
    if effects != [] {
      NoInvocations(effects[..|effects| - 1]);
    }
  }

  lemma RegistrationInvocations(reg: Registration, target: Element, contains: (Element, Element) -> bool)
    ensures Invocations(RegistrationEffects(reg, target, contains)) ==
      if Outside(reg, target, contains) then [reg.binding.value] else []
  {
    var r := RegistrationEffects(reg, target, contains);
    if r != [] {
      var n := |r| - 1;
      NoInvocations(r[..n]);
      assert r == r[..n] + [r[n]];
    }
  }

  /** A registration's callback runs exactly once per dispatch when the event
      is outside its element and never otherwise, in visiting order. */
  lemma {:induction false} InvokesExactlyOutsideCallbacks(regs: seq<Registration>, target: Element, contains: (Element, Element) -> bool)
    ensures Invocations(EffectsOf(regs, target, contains)) == OutsideCallbacks(regs, target, contains)
  {
    if regs != [] {
      var n := |regs| - 1;
      InvokesExactlyOutsideCallbacks(regs[..n], target, contains);
      InvocationsConcat(EffectsOf(regs[..n], target, contains), RegistrationEffects(regs[n], target, contains));
      RegistrationInvocations(regs[n], target, contains);
    }
  }

  /** The type of the event plays no part in dispatch. This holds by
      construction, since `Dispatched` never reads `event.eventType`;
      `MousedownRegistrationFiresOnClick` below shows what that means for
      a registration made for another event type. */
  lemma DispatchIgnoresEventType(inst: Instances, event: Event, eventType: string, contains: (Element, Element) -> bool)
    requires forall k :: k in inst.keys ==> k in inst.buckets
    ensures Dispatched(inst, event, contains) == Dispatched(inst, Event(eventType, event.target), contains)
  {
  }

  /** Hence a `mousedown` registration is also evaluated on a `click`
      event handled through the same mode's dictionary, and fires when the
      click is outside its element. The mode holds a `click` bucket too, as
      it must for its click listener to be installed: the click runs that
      bucket's outside callbacks and then the `mousedown` callback. */
  lemma MousedownRegistrationFiresOnClick(clicks: seq<Registration>, reg: Registration, clicked: Element, contains: (Element, Element) -> bool)
    requires Outside(reg, clicked, contains)
    ensures Invocations(Dispatched(Instances([CLICK, MOUSEDOWN], map[CLICK := clicks, MOUSEDOWN := [reg]]), Event(CLICK, clicked), contains))
      == OutsideCallbacks(clicks, clicked, contains) + [reg.binding.value]
  {
    var inst := Instances([CLICK, MOUSEDOWN], map[CLICK := clicks, MOUSEDOWN := [reg]]);
    assert [CLICK, MOUSEDOWN][..1] == [CLICK];
    assert [CLICK][..0] == [];
    assert Flatten(inst.buckets, [CLICK]) == clicks;
    assert Flatten(inst.buckets, inst.keys) == clicks + [reg];
    InvokesExactlyOutsideCallbacks(clicks + [reg], clicked, contains);
    assert (clicks + [reg])[..|clicks|] == clicks;
  }

  /** `commonHandler`: walk `Object.keys(instances)` and each bucket with
      `forEach`; for a registration the event is outside of, stop, then
      prevent, then call the bound function. */
  method CommonHandler(instances: Instances, event: Event, contains: (Element, Element) -> bool) returns (effects: seq<Effect>)
    requires forall k :: k in instances.keys ==> k in instances.buckets
    ensures effects == Dispatched(instances, event, contains)
  {
    var target := event.target;
    effects := [];
    var keys := instances.keys;
    for i := 0 to |keys|
      invariant effects == EffectsOf(Flatten(instances.buckets, keys[..i]), target, contains)
    {
      var bucket := instances.buckets[keys[i]];
      ghost var visited := Flatten(instances.buckets, keys[..i]);
      assert visited + bucket[..0] == visited;
      for j := 0 to |bucket|
        invariant effects == EffectsOf(visited + bucket[..j], target, contains)
      {
        var item := bucket[j];
        ghost var before := effects;
        if item.el != target && !contains(item.el, target) {
          if Flag(item.binding.modifiers, "stop") {
            effects := effects + [StopPropagation];
          }
          if Flag(item.binding.modifiers, "prevent") {
            effects := effects + [PreventDefault];
          }
          effects := effects + [Invoke(item.binding.value)];
        }
        assert effects == before + RegistrationEffects(item, target, contains);
        VisitedSnoc(visited, bucket, j);
        EffectsOfSnoc(visited + bucket[..j], item, target, contains);
      }
      assert bucket[..|bucket|] == bucket;
      FlattenStep(instances.buckets, keys, i);
    }
    assert keys[..|keys|] == keys;
  }
}
