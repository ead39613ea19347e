/**
 * The table helpers of src/components/ivue-table/config.ts: merging an
 * options object over its defaults, right-to-left function composition,
 * the index column's header and row numbers, the flags of the selection
 * column's header checkbox, and the default class name of a column type.
 */
module TableConfig {

  import opened Wrappers

  // ---------------------------------------------------------------------
  // mergeOptions
  // ---------------------------------------------------------------------

  /** A JavaScript object as `for..in` and `hasOwn` see it: its enumerable
      own properties and the enumerable properties it inherits. A slot
      holding `undefined` is `None`. */
  datatype JsObject<V> = JsObject(own: map<string, Option<V>>, inherited: map<string, Option<V>>)

  /** The keys a `for..in` loop visits. */
  function ForInKeys<V>(o: JsObject<V>): set<string>
  {
    o.own.Keys + o.inherited.Keys
  }

  /** `o[key]`: an own property shadows an inherited one; a missing key reads as `undefined`. */
  function Get<V>(o: JsObject<V>, key: string): (value: Option<V>)
    ensures key in o.own ==> value == o.own[key]
    ensures key !in o.own && key in o.inherited ==> value == o.inherited[key]
    ensures key !in ForInKeys(o) ==> value == None
  {
    if key in o.own then o.own[key]
    else if key in o.inherited then o.inherited[key]
    else None
  }

  /** The own keys of `config` whose value is not `undefined`. */
  function DefinedOwnKeys<V>(config: JsObject<V>): (keys: set<string>)
    ensures forall k :: k in keys <==> k in config.own && config.own[k].Some?
  {
    set k | k in config.own && config.own[k].Some?
  }

  /** What `mergeOptions(defaults, config)` returns: every key `for..in`
      finds on `defaults`, with its value (even `undefined`), overridden by
      every own key of `config` whose value is defined. */
  function Merged<V>(defaults: JsObject<V>, config: JsObject<V>): (options: map<string, Option<V>>)
    ensures options.Keys == ForInKeys(defaults) + DefinedOwnKeys(config)
    ensures forall k :: k in options ==>
      options[k] == if k in DefinedOwnKeys(config) then config.own[k] else Get(defaults, k)
  {
    (map k | k in ForInKeys(defaults) :: Get(defaults, k))
      + (map k | k in DefinedOwnKeys(config) :: config.own[k])
  }

  /** `mergeOptions`: the two `for..in` loops, the first copying `defaults`,
      the second copying the defined own values of `config` over them. */
  method MergeOptions<V>(defaults: JsObject<V>, config: JsObject<V>) returns (options: map<string, Option<V>>)
    ensures options == Merged(defaults, config)
  {
    options := map[];

    var pending := ForInKeys(defaults);
    while pending != {}
      invariant pending <= ForInKeys(defaults)
      invariant options.Keys == ForInKeys(defaults) - pending
      invariant forall k :: k in options ==> options[k] == Get(defaults, k)
      decreases pending
    {
      var key :| key in pending;
      options := options[key := Get(defaults, key)];
      pending := pending - {key};
    }

    pending := ForInKeys(config);
    while pending != {}
      invariant pending <= ForInKeys(config)
      invariant options.Keys == ForInKeys(defaults) + (DefinedOwnKeys(config) - pending)
      invariant forall k :: k in options ==>
        options[k] == if k in DefinedOwnKeys(config) && k !in pending then config.own[k] else Get(defaults, k)
      decreases pending
    {
      var key :| key in pending;
      if key in config.own {
        var value := config.own[key];
        if value.Some? {
          options := options[key := value];
        }
      }
      pending := pending - {key};
    }
  }

  /** With an empty config the result is a copy of what `for..in` sees on `defaults`. */
  lemma MergeEmptyConfig<V>(defaults: JsObject<V>)
    ensures Merged(defaults, JsObject(map[], map[])).Keys == ForInKeys(defaults)
    ensures forall k :: k in ForInKeys(defaults) ==> Merged(defaults, JsObject(map[], map[]))[k] == Get(defaults, k)
  {
  }

  /** Properties `config` only inherits are never copied: the result
      depends on `config.own` alone. */
  lemma MergeIgnoresInherited<V>(defaults: JsObject<V>, config: JsObject<V>, inherited: map<string, Option<V>>)
    ensures Merged(defaults, config) == Merged(defaults, JsObject(config.own, inherited))
  {
  }

  /** Own properties of `config` holding `undefined` are skipped: dropping
      them changes nothing. */
  lemma MergeSkipsUndefined<V>(defaults: JsObject<V>, config: JsObject<V>)
    ensures Merged(defaults, config) == Merged(defaults, JsObject(map k | k in DefinedOwnKeys(config) :: config.own[k], config.inherited))
  {
  }

  /** Merging the same config into the result again changes nothing. */
  lemma MergeIdempotent<V>(defaults: JsObject<V>, config: JsObject<V>)
    ensures Merged(JsObject(Merged(defaults, config), map[]), config) == Merged(defaults, config)
  {
    var once := Merged(defaults, config);
    var twice := Merged(JsObject(once, map[]), config);
    assert twice.Keys == once.Keys;
    forall k | k in once
      ensures twice[k] == once[k]
    {
    }
  }

  // ---------------------------------------------------------------------
  // compose
  // ---------------------------------------------------------------------

  /** `compose(...funcs)`: the identity for no function, the function
      itself for one, otherwise `funcs.reduce((a, b) => x => a(b(x)))`. */
  function Compose<T(!new)>(funcs: seq<T -> T>): (composed: T -> T)
    ensures |funcs| == 0 ==> forall x :: composed(x) == x
    ensures |funcs| == 1 ==> composed == funcs[0]
  {
    if |funcs| == 0 then x => x
    else if |funcs| == 1 then funcs[0]
    else Reduce(funcs[1..], funcs[0])
  }

  /** The reference meaning of right-to-left composition:
      `f1(f2(... fn(x)))`. */
  function ApplyAll<T>(funcs: seq<T -> T>, x: T): T
    decreases |funcs|
  {
    if |funcs| == 0 then x else funcs[0](ApplyAll(funcs[1..], x))
  }

  /** `Array.prototype.reduce` without an initial value, continued from
      accumulator `a` over the functions still to fold in: the result
      applies the remaining functions last-first, then `a`. */
  function Reduce<T(!new)>(rest: seq<T -> T>, a: T -> T): (reduced: T -> T)
    ensures forall x :: reduced(x) == a(ApplyAll(rest, x))
    decreases |rest|
  {
    if |rest| == 0 then a
    else
      var b := rest[0];
      Reduce(rest[1..], x => a(b(x)))
  }

  /** `compose(f1, ..., fn)(x) == f1(f2(... fn(x)))`: the last function
      runs first. */
  lemma ComposeAppliesRightToLeft<T(!new)>(funcs: seq<T -> T>, x: T)
    ensures Compose(funcs)(x) == ApplyAll(funcs, x)
  {
    if |funcs| == 1 {
      assert ApplyAll(funcs[1..], x) == x;
    } else if |funcs| > 1 {
      assert Reduce(funcs[1..], funcs[0])(x) == funcs[0](ApplyAll(funcs[1..], x));
    }
  }

  lemma {:induction false} ApplyAllConcat<T>(f: seq<T -> T>, g: seq<T -> T>, x: T)
    ensures ApplyAll(f + g, x) == ApplyAll(f, ApplyAll(g, x))
    decreases |f|
  {
    if |f| > 0 {
      assert (f + g)[1..] == f[1..] + g;
      ApplyAllConcat(f[1..], g, x);
    } else {
      assert f + g == g;
    }
  }

  /** Composing a concatenation is composing the two composites. */
  lemma ComposeConcat<T(!new)>(f: seq<T -> T>, g: seq<T -> T>, x: T)
    ensures Compose(f + g)(x) == Compose(f)(Compose(g)(x))
  {
    ComposeAppliesRightToLeft(f + g, x);
    ComposeAppliesRightToLeft(g, x);
    ComposeAppliesRightToLeft(f, Compose(g)(x));
    ApplyAllConcat(f, g, x);
  }

  // ---------------------------------------------------------------------
  // The index column
  // ---------------------------------------------------------------------

  /** What `column.index` holds: nothing, a number (an offset), a
      function of the row position, or anything else. */
  datatype ColumnIndex = NoIndex | NumberIndex(offset: int) | FunctionIndex(f: int -> int) | OtherIndex

  /** `cellForced.index.renderCell`: the number shown for the row at
      position `rowIndex` (counted from 0). */
  function IndexCell(rowIndex: int, index: ColumnIndex): (i: int)
    ensures index.NumberIndex? ==> i == rowIndex + index.offset
    ensures index.FunctionIndex? ==> i == index.f(rowIndex)
    ensures index.NoIndex? || index.OtherIndex? ==> i == rowIndex + 1
  {
    match index
    case NumberIndex(offset) => rowIndex + offset
    case FunctionIndex(f) => f(rowIndex)
    case _ => rowIndex + 1
  }

  /** Without a usable `column.index`, rows are numbered 1, 2, 3, ...:
      exactly as with the offset 1. */
  lemma DefaultIndexIsOffsetOne(rowIndex: int, index: ColumnIndex)
    requires index.NoIndex? || index.OtherIndex?
    ensures IndexCell(rowIndex, index) == IndexCell(rowIndex, NumberIndex(1))
    ensures IndexCell(0, index) == 1
  {
  }

  /** Unless a function computes them, consecutive rows get consecutive numbers. */
  lemma IndexCellConsecutive(rowIndex: int, index: ColumnIndex)
    requires !index.FunctionIndex?
    ensures IndexCell(rowIndex + 1, index) == IndexCell(rowIndex, index) + 1
  {
  }

  /** `cellForced.index.renderHeader`: `column.label || '#'`. A label is
      used only when it is a non-empty string. */
  function IndexHeader(columnLabel: Option<string>): (header: string)
    ensures header != []
    ensures columnLabel.Some? && columnLabel.value != [] ==> header == columnLabel.value
    ensures columnLabel.None? || columnLabel.value == [] ==> header == "#"
  {
    if columnLabel.Some? && columnLabel.value != [] then columnLabel.value else "#"
  }

  // ---------------------------------------------------------------------
  // The selection column's header
  // ---------------------------------------------------------------------

  /** The store states the header reads: the table data (`undefined`
      while absent), the selected rows and whether all rows are selected. */
  datatype SelectionStates<Row> = SelectionStates(data: Option<seq<Row>>, selection: seq<Row>, isAllSelected: bool)

  /** The props of the header checkbox, each by its truthiness. */
  datatype HeaderCheckbox = HeaderCheckbox(disabled: bool, modelValue: bool, indeterminate: bool)

  /** `cellForced.selection.renderHeader` */
  function SelectionHeader<Row>(states: SelectionStates<Row>): (checkbox: HeaderCheckbox)
    ensures checkbox.disabled <==> states.data.Some? && |states.data.value| == 0
    ensures checkbox.modelValue == states.isAllSelected
    ensures checkbox.indeterminate <==> |states.selection| > 0 && !states.isAllSelected
  {
    HeaderCheckbox(
      disabled := states.data.Some? && |states.data.value| == 0,
      modelValue := states.isAllSelected,
      indeterminate := |states.selection| > 0 && !states.isAllSelected)
  }

  /** The header checkbox is never checked and indeterminate at once, an
      empty selection is never indeterminate, and a table whose data is
      still `undefined` is not disabled. */
  lemma SelectionHeaderConsistent<Row>(states: SelectionStates<Row>)
    ensures !(SelectionHeader(states).modelValue && SelectionHeader(states).indeterminate)
    ensures |states.selection| == 0 ==> !SelectionHeader(states).indeterminate
    ensures states.data.None? ==> !SelectionHeader(states).disabled
  {
  }

  // ---------------------------------------------------------------------
  // getDefaultClassName
  // ---------------------------------------------------------------------

  /** `defaultClassNames` */
  const DefaultClassNames: map<string, string> :=
    map["selection" := "ivue-table-column--selection", "expand" := "ivue-table--expand-column"]

  /** The properties every plain object literal inherits from
      `Object.prototype`; each of them reads as a function or, for
      `__proto__`, as an object, and so is truthy. */
  const ObjectPrototypeMembers: set<string> := {
    "constructor", "hasOwnProperty", "isPrototypeOf", "propertyIsEnumerable",
    "toLocaleString", "toString", "valueOf",
    "__defineGetter__", "__defineSetter__", "__lookupGetter__", "__lookupSetter__", "__proto__"
  }

  /** What `defaultClassNames[type] || ''` evaluates to: a class name
      string, or a member inherited from `Object.prototype`. */
  datatype Lookup = ClassName(name: string) | PrototypeMember(member: string)

  /** `getDefaultClassName` as written: the lookup on the object literal
      also finds the members it inherits. */
  function GetDefaultClassNameAsWritten(columnType: string): (r: Lookup)
    ensures columnType in DefaultClassNames ==> r == ClassName(DefaultClassNames[columnType])
    ensures columnType in ObjectPrototypeMembers ==> r == PrototypeMember(columnType)
    ensures columnType !in DefaultClassNames && columnType !in ObjectPrototypeMembers ==> r == ClassName("")
  {
    if columnType in DefaultClassNames then ClassName(DefaultClassNames[columnType])
    else if columnType in ObjectPrototypeMembers then PrototypeMember(columnType)
    else ClassName("")
  }

  /** A column type named like an `Object.prototype` member gets that
      member instead of the empty class name. */
  lemma PrototypeNameEscapesFallback()
    ensures !GetDefaultClassNameAsWritten("toString").ClassName?
    ensures GetDefaultClassNameAsWritten("toString") != ClassName(GetDefaultClassName("toString"))
  {
    assert "toString" !in DefaultClassNames;
  }

  /** `getDefaultClassName` as intended: the mapped class for `selection`
      and `expand`, `''` for every other type. */
  function GetDefaultClassName(columnType: string): (className: string)
    ensures columnType == "selection" ==> className == "ivue-table-column--selection"
    ensures columnType == "expand" ==> className == "ivue-table--expand-column"
    ensures columnType != "selection" && columnType != "expand" ==> className == ""
  {
    if columnType in DefaultClassNames then DefaultClassNames[columnType] else ""
  }

  /** Apart from the inherited member names, the code as written and the
      intended lookup agree. */
  lemma DefaultClassNameAgrees(columnType: string)
    requires columnType !in ObjectPrototypeMembers
    ensures GetDefaultClassNameAsWritten(columnType) == ClassName(GetDefaultClassName(columnType))
  {
  }
}
