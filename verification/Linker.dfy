/** The linker: definitions under (module, name) pairs, in a shared and an own table
    (crates/wasmi/src/linker.rs). */
module Linkers {
  import opened InverseIndex
  import opened Powers
  import opened StringInterners
  import opened Wrappers

  /** A definition, known by the handle of its item or of its host function. */
  datatype Definition = Extern(item: nat) | HostFunc(func: nat)

  datatype LinkerError = DuplicateDefinition(moduleName: Str, name: Str)

  type Name = (Str, Str)

  // ----- one plain map from pairs of names: what the linker is meant to be ----------------

  type Bindings = map<Name, Definition>

  function Bind(b: Bindings, moduleName: Str, name: Str, item: Definition): (Result<(), LinkerError>, Bindings) {
    if (moduleName, name) in b then (Err(DuplicateDefinition(moduleName, name)), b)
    else (Ok(()), b[(moduleName, name) := item])
  }

  function Lookup(b: Bindings, moduleName: Str, name: Str): Option<Definition> {
    if (moduleName, name) in b then Some(b[(moduleName, name)]) else None
  }

  datatype Definer = Definer(moduleName: Str, name: Str, item: Definition)

  function BindAll(b: Bindings, ops: seq<Definer>): Bindings {
    if ops == [] then b
    else
      var op := ops[|ops| - 1];
      Bind(BindAll(b, ops[..|ops| - 1]), op.moduleName, op.name, op.item).1
  }

  /** The first definition of a pair stays in force, whatever is defined later. */
  lemma {:induction false} FirstDefinitionWins(ops: seq<Definer>, i: nat)
    requires i < |ops|
    requires forall j :: 0 <= j < i ==> (ops[j].moduleName, ops[j].name) != (ops[i].moduleName, ops[i].name)
    ensures Lookup(BindAll(map[], ops), ops[i].moduleName, ops[i].name) == Some(ops[i].item)
  {
    var n := |ops| - 1;
    if i < n {
      FirstDefinitionWins(ops[..n], i);
    } else {
      NothingElseIsBound(ops[..n], ops[n].moduleName, ops[n].name);
    }
  }

  lemma {:induction false} NothingElseIsBound(ops: seq<Definer>, moduleName: Str, name: Str)
    requires forall op :: op in ops ==> (op.moduleName, op.name) != (moduleName, name)
    ensures (moduleName, name) !in BindAll(map[], ops)
  {
    if ops != [] {
      NothingElseIsBound(ops[..|ops| - 1], moduleName, name);
    }
  }

  // ----- packed keys ---------------------------------------------------------------------

  /** `ImportKey::new`: the module symbol in the high half, the name symbol in the low half. */
  function Key(moduleSym: nat, nameSym: nat): nat {
    moduleSym * MAX_SYMBOLS + nameSym
  }

  function KeyModule(key: nat): nat { key / MAX_SYMBOLS }

  function KeyName(key: nat): nat { key % MAX_SYMBOLS }

  lemma KeyParts(moduleSym: nat, nameSym: nat)
    requires nameSym < MAX_SYMBOLS
    ensures KeyModule(Key(moduleSym, nameSym)) == moduleSym
    ensures KeyName(Key(moduleSym, nameSym)) == nameSym
  {
    DivModUnique(Key(moduleSym, nameSym), MAX_SYMBOLS, moduleSym, nameSym);
  }

  /** Keys are ordered by module, then by name: the module is the high half. */
  lemma KeyOrder(m: nat, n: nat, m': nat, n': nat)
    requires n < 0x1_0000_0000 && n' < 0x1_0000_0000
    ensures Key(m, n) < Key(m', n') <==> m < m' || (m == m' && n < n')
  {
    MultiplesApart(m, m', MAX_SYMBOLS);
    MultiplesApart(m', m, MAX_SYMBOLS);
  }

  // ----- one table -----------------------------------------------------------------------

  class LinkerInner {
    const strings: StringInterner
    var definitions: map<nat, Definition>
    /** The bindings this table stands for. */
    ghost var bindings: Bindings

    ghost predicate Valid()
      reads this, strings
    {
      && strings.Valid()
      && (forall k :: k in definitions ==> KeyModule(k) < |strings.strings| && KeyName(k) < |strings.strings|)
      && (forall m, n :: (m, n) in bindings <==> IsDefined(m, n))
      && (forall m, n :: (m, n) in bindings ==> bindings[(m, n)] == definitions[KeyOf(m, n)])
    }

    ghost predicate AreNames(m: Str, n: Str)
      reads strings
    {
      m in strings.string2symbol && n in strings.string2symbol
    }

    ghost function KeyOf(m: Str, n: Str): nat
      requires AreNames(m, n)
      reads strings
    {
      Key(strings.string2symbol[m], strings.string2symbol[n])
    }

    ghost predicate IsDefined(m: Str, n: Str)
      reads this, strings
    {
      AreNames(m, n) && KeyOf(m, n) in definitions
    }

    /** The symbols of both names can still be handed out. */
    ghost predicate HasRoomFor(m: Str, n: Str)
      reads strings
    {
      var unseen := (if m in strings.string2symbol then 0 else 1)
                   + (if n in strings.string2symbol || n == m then 0 else 1);
      |strings.strings| + unseen <= MAX_SYMBOLS
    }

    constructor ()
      ensures Valid() && fresh(strings)
      ensures bindings == map[] && strings.strings == []
    {
      strings := new StringInterner();
      definitions, bindings := map[], map[];
    }

    /** Interning binds nothing: a new symbol occurs in no key. */
    method NewImportKey(moduleName: Str, name: Str) returns (key: nat)
      requires Valid() && HasRoomFor(moduleName, name)
      modifies strings
      ensures Valid()
      ensures AreNames(moduleName, name) && key == KeyOf(moduleName, name)
      ensures |strings.strings| <= |old(strings.strings)| + 2
    {
      var m := InternName(moduleName, LikelyExists);
      var n := InternName(name, LikelyNew);
      key := Key(m, n);
    }

    method InternName(text: Str, hint: InternHint) returns (symbol: nat)
      requires Valid() && strings.HasRoomFor(text)
      modifies strings
      ensures Valid()
      ensures (symbol, strings.State()) == Intern(old(strings.State()), text)
    {
      symbol := strings.GetOrInternWithHint(text, hint);
      forall m, n
        ensures IsDefined(m, n) <==> old(IsDefined(m, n))
      {
        if AreNames(m, n) {
          KeyParts(strings.string2symbol[m], strings.string2symbol[n]);
        }
      }
    }

    method GetImportKey(moduleName: Str, name: Str) returns (key: Option<nat>)
      requires Valid()
      ensures key == if AreNames(moduleName, name) then Some(KeyOf(moduleName, name)) else None
    {
      var m := strings.Get(moduleName);
      if m.None? {
        return None;
      }
      var n := strings.Get(name);
      if n.None? {
        return None;
      }
      return Some(Key(m.value, n.value));
    }

    method ResolveImportKey(key: nat) returns (names: Option<Name>)
      ensures names == if KeyModule(key) < |strings.strings| && KeyName(key) < |strings.strings|
                       then Some((strings.strings[KeyModule(key)], strings.strings[KeyName(key)])) else None
    {
      var m := strings.Resolve(KeyModule(key));
      if m.None? {
        return None;
      }
      var n := strings.Resolve(KeyName(key));
      if n.None? {
        return None;
      }
      return Some((m.value, n.value));
    }

    /** The panic on a key without names is unreachable. */
    method Insert(key: nat, item: Definition, ghost moduleName: Str, ghost name: Str)
      returns (r: Result<(), LinkerError>)
      requires Valid() && AreNames(moduleName, name) && key == KeyOf(moduleName, name)
      modifies this
      ensures Valid()
      ensures (r, bindings) == Bind(old(bindings), moduleName, name, item)
      ensures r.Ok? <==> (moduleName, name) !in old(bindings)
      ensures r.Ok? ==> bindings == old(bindings)[(moduleName, name) := item]
      ensures r.Err? ==> r.error == DuplicateDefinition(moduleName, name) && bindings == old(bindings)
    {
      KeyParts(strings.string2symbol[moduleName], strings.string2symbol[name]);
      if key in definitions {
        var names := ResolveImportKey(key);
        assert names.Some?;
        return Err(DuplicateDefinition(names.value.0, names.value.1));
      }
      definitions := definitions[key := item];
      bindings := bindings[(moduleName, name) := item];
      forall m, n | AreNames(m, n)
        ensures KeyOf(m, n) == key <==> m == moduleName && n == name
      {
        KeyParts(strings.string2symbol[m], strings.string2symbol[n]);
      }
      return Ok(());
    }

    /** `func_new` and `func_wrap`. */
    method Define(moduleName: Str, name: Str, item: Definition) returns (r: Result<(), LinkerError>)
      requires Valid() && HasRoomFor(moduleName, name)
      modifies this, strings
      ensures Valid()
      ensures (r, bindings) == Bind(old(bindings), moduleName, name, item)
      ensures r.Ok? <==> (moduleName, name) !in old(bindings)
      ensures r.Ok? ==> bindings == old(bindings)[(moduleName, name) := item]
      ensures r.Err? ==> r.error == DuplicateDefinition(moduleName, name) && bindings == old(bindings)
      ensures |strings.strings| <= |old(strings.strings)| + 2
    {
      var key := NewImportKey(moduleName, name);
      r := Insert(key, item, moduleName, name);
    }

    method GetDefinition(moduleName: Str, name: Str) returns (r: Option<Definition>)
      requires Valid()
      ensures r == Lookup(bindings, moduleName, name)
      ensures r.Some? <==> (moduleName, name) in bindings
      ensures r.Some? ==> r.value == bindings[(moduleName, name)]
    {
      var key := GetImportKey(moduleName, name);
      if key.None? || key.value !in definitions {
        assert !IsDefined(moduleName, name);
        return None;
      }
      assert IsDefined(moduleName, name);
      return Some(definitions[key.value]);
    }

    method HasDefinition(moduleName: Str, name: Str) returns (b: bool)
      requires Valid()
      ensures b <==> (moduleName, name) in bindings
    {
      var key := GetImportKey(moduleName, name);
      assert IsDefined(moduleName, name) <==> key.Some? && key.value in definitions;
      b := key.Some? && key.value in definitions;
    }
  }

  /** Binding in the own table a pair that is not shared is binding it in the union. */
  lemma BindInOwn(sharedBindings: Bindings, own: Bindings, moduleName: Str, name: Str, item: Definition)
    requires sharedBindings.Keys !! own.Keys && (moduleName, name) !in sharedBindings
    ensures var (r, b) := Bind(own, moduleName, name, item);
            && sharedBindings.Keys !! b.Keys
            && Bind(sharedBindings + own, moduleName, name, item) == (r, sharedBindings + b)
  {
    var (r, b) := Bind(own, moduleName, name, item);
    if r.Ok? {
      assert (sharedBindings + own)[(moduleName, name) := item] == sharedBindings + b;
    }
  }

  // ----- the linker over its two tables ----------------------------------------------------

  class Linker {
    const shared: LinkerInner?
    const inner: LinkerInner

    ghost function Repr(): set<object>
    {
      (if shared == null then {} else {shared, shared.strings}) + {inner, inner.strings}
    }

    /** The two tables use interners of their own and never bind the same pair. */
    ghost predicate Valid()
      reads Repr()
    {
      && inner.Valid()
      && (shared != null ==>
            && shared.Valid()
            && {shared as object, shared.strings} !! {inner as object, inner.strings}
            && shared.bindings.Keys !! inner.bindings.Keys)
    }

    /** All bindings in force. */
    ghost function All(): Bindings
      reads Repr()
    {
      (if shared == null then map[] else shared.bindings) + inner.bindings
    }

    constructor ()
      ensures Valid() && All() == map[] && inner.strings.strings == []
      ensures shared == null && fresh(inner) && fresh(inner.strings)
    {
      shared := null;
      inner := new LinkerInner();
    }

    /** `LinkerBuilder::create`: the definitions of the builder are shared, not copied. */
    constructor Create(builder: LinkerInner)
      requires builder.Valid()
      ensures Valid() && All() == builder.bindings && inner.strings.strings == []
      ensures shared == builder && fresh(inner) && fresh(inner.strings)
    {
      shared := builder;
      inner := new LinkerInner();
    }

    method EnsureUndefined(moduleName: Str, name: Str) returns (r: Result<(), LinkerError>)
      requires Valid()
      ensures r == if shared != null && (moduleName, name) in shared.bindings
                   then Err(DuplicateDefinition(moduleName, name)) else Ok(())
    {
      if shared != null {
        var defined := shared.HasDefinition(moduleName, name);
        if defined {
          return Err(DuplicateDefinition(moduleName, name));
        }
      }
      return Ok(());
    }

    /** `define`, `func_new` and `func_wrap`: they fail exactly on a pair that is bound in either
        table, and a failure changes no binding. */
    method Define(moduleName: Str, name: Str, item: Definition) returns (r: Result<(), LinkerError>)
      requires Valid() && inner.HasRoomFor(moduleName, name)
      modifies inner, inner.strings
      ensures Valid()
      ensures (r, All()) == Bind(old(All()), moduleName, name, item)
      ensures r.Ok? <==> (moduleName, name) !in old(All())
      ensures r.Ok? ==> All() == old(All())[(moduleName, name) := item]
      ensures r.Err? ==> r.error == DuplicateDefinition(moduleName, name) && All() == old(All())
      ensures |inner.strings.strings| <= |old(inner.strings.strings)| + 2
    {
      r := EnsureUndefined(moduleName, name);
      if r.Err? {
        return;
      }
      ghost var sharedBindings := if shared == null then map[] else shared.bindings;
      BindInOwn(sharedBindings, inner.bindings, moduleName, name, item);
      r := inner.Define(moduleName, name, item);
    }

    method GetDefinition(moduleName: Str, name: Str) returns (r: Option<Definition>)
      requires Valid()
      ensures r == Lookup(All(), moduleName, name)
      ensures r.Some? <==> (moduleName, name) in All()
      ensures r.Some? ==> r.value == All()[(moduleName, name)]
    {
      if shared != null {
        r := shared.GetDefinition(moduleName, name);
        if r.Some? {
          return;
        }
      }
      r := inner.GetDefinition(moduleName, name);
    }
  }

  // ----- whole runs ------------------------------------------------------------------------

  lemma BindNext(b: Bindings, ops: seq<Definer>, i: nat)
    requires i < |ops|
    ensures BindAll(b, ops[..i + 1])
            == Bind(BindAll(b, ops[..i]), ops[i].moduleName, ops[i].name, ops[i].item).1
  {
    assert ops[..i + 1][..i] == ops[..i];
  }

  /** The outcome of the `i`-th definition of a run: it succeeds exactly if its pair was not bound before
      and no earlier definition of the run has the same pair. */
  ghost function Outcome(b: Bindings, ops: seq<Definer>, i: nat): Result<(), LinkerError>
    requires i < |ops|
  {
    if (ops[i].moduleName, ops[i].name) in b || IsDefinedBefore(ops, i, ops[i].moduleName, ops[i].name)
    then Err(DuplicateDefinition(ops[i].moduleName, ops[i].name))
    else Ok(())
  }

  predicate IsDefinedBefore(ops: seq<Definer>, i: nat, moduleName: Str, name: Str)
    requires i <= |ops|
  {
    exists j :: 0 <= j < i && ops[j].moduleName == moduleName && ops[j].name == name
  }

  ghost predicate AreOutcomes(b: Bindings, ops: seq<Definer>, results: seq<Result<(), LinkerError>>) {
    |results| == |ops| && forall i :: 0 <= i < |ops| ==> results[i] == Outcome(b, ops, i)
  }

  /** A pair is bound after a run exactly if it was before or was defined in the run. */
  lemma {:induction false} BoundIffDefined(b: Bindings, ops: seq<Definer>, moduleName: Str, name: Str)
    ensures (moduleName, name) in BindAll(b, ops)
            <==> (moduleName, name) in b || IsDefinedBefore(ops, |ops|, moduleName, name)
  {
    if ops != [] {
      var n := |ops| - 1;
      BoundIffDefined(b, ops[..n], moduleName, name);
      assert forall j :: 0 <= j < n ==> ops[..n][j] == ops[j];
    }
  }

  lemma NextOutcome(b: Bindings, ops: seq<Definer>, i: nat)
    requires i < |ops|
    ensures (ops[i].moduleName, ops[i].name) in BindAll(b, ops[..i]) <==> Outcome(b, ops, i).Err?
  {
    BoundIffDefined(b, ops[..i], ops[i].moduleName, ops[i].name);
    assert forall j :: 0 <= j < i ==> ops[..i][j] == ops[j];
  }

  /** One more definition: its outcome and the bindings after it are those of the plain map. */
  lemma NextOfRun(b: Bindings, ops: seq<Definer>, i: nat, results: seq<Result<(), LinkerError>>)
    requires i < |ops| && AreOutcomes(b, ops[..i], results)
    ensures var (r, after) := Bind(BindAll(b, ops[..i]), ops[i].moduleName, ops[i].name, ops[i].item);
            AreOutcomes(b, ops[..i + 1], results + [r]) && after == BindAll(b, ops[..i + 1])
  {
    BindNext(b, ops, i);
    NextOutcome(b, ops, i);
    OutcomesGrow(b, ops, i, results);
  }

  method Build(ops: seq<Definer>) returns (builder: LinkerInner, results: seq<Result<(), LinkerError>>)
    requires 2 * |ops| <= MAX_SYMBOLS
    ensures builder.Valid() && builder.bindings == BindAll(map[], ops)
    ensures AreOutcomes(map[], ops, results)
    ensures fresh(builder) && fresh(builder.strings)
  {
    builder := new LinkerInner();
    results := [];
    for i := 0 to |ops|
      invariant AreOutcomes(map[], ops[..i], results)
      invariant builder.Valid() && fresh(builder) && fresh(builder.strings)
      invariant |builder.strings.strings| <= 2 * i
      invariant builder.bindings == BindAll(map[], ops[..i])
    {
      NextOfRun(map[], ops, i, results);
      var r := builder.Define(ops[i].moduleName, ops[i].name, ops[i].item);
      results := results + [r];
    }
    assert ops[..|ops|] == ops;
  }

  lemma OutcomesGrow(b: Bindings, ops: seq<Definer>, i: nat, results: seq<Result<(), LinkerError>>)
    requires i < |ops| && AreOutcomes(b, ops[..i], results)
    ensures AreOutcomes(b, ops[..i + 1], results + [Outcome(b, ops, i)])
  {
    forall k | 0 <= k <= i
      ensures Outcome(b, ops[..i + 1], k) == Outcome(b, ops, k)
      ensures k < i ==> Outcome(b, ops[..i], k) == Outcome(b, ops, k)
    {
      OutcomeOfPrefix(b, ops, i + 1, k);
      if k < i {
        OutcomeOfPrefix(b, ops, i, k);
      }
    }
  }

  lemma OutcomeOfPrefix(b: Bindings, ops: seq<Definer>, n: nat, k: nat)
    requires k < n <= |ops|
    ensures Outcome(b, ops[..n], k) == Outcome(b, ops, k)
  {
    assert forall j :: 0 <= j <= k ==> ops[..n][j] == ops[j];
  }

  lemma {:induction false} BindAllSplits(b: Bindings, first: seq<Definer>, second: seq<Definer>)
    ensures BindAll(BindAll(b, first), second) == BindAll(b, first + second)
  {
    if second == [] {
      assert first + second == first;
    } else {
      var n := |second| - 1;
      BindAllSplits(b, first, second[..n]);
      assert (first + second)[..|first| + n] == first + second[..n];
    }
  }

  method DefineAll(linker: Linker, ops: seq<Definer>) returns (results: seq<Result<(), LinkerError>>)
    requires linker.Valid()
    requires |linker.inner.strings.strings| + 2 * |ops| <= MAX_SYMBOLS
    modifies linker.inner, linker.inner.strings
    ensures linker.Valid() && linker.All() == BindAll(old(linker.All()), ops)
    ensures AreOutcomes(old(linker.All()), ops, results)
  {
    ghost var b := linker.All();
    results := [];
    for i := 0 to |ops|
      invariant AreOutcomes(b, ops[..i], results)
      invariant linker.Valid()
      invariant |linker.inner.strings.strings| + 2 * (|ops| - i) <= MAX_SYMBOLS
      invariant linker.All() == BindAll(b, ops[..i])
    {
      NextOfRun(b, ops, i, results);
      var r := linker.Define(ops[i].moduleName, ops[i].name, ops[i].item);
      results := results + [r];
    }
    assert ops[..|ops|] == ops;
  }

  lemma OutcomesJoin(first: seq<Definer>, second: seq<Definer>, r1: seq<Result<(), LinkerError>>,
                     r2: seq<Result<(), LinkerError>>)
    requires AreOutcomes(map[], first, r1) && AreOutcomes(BindAll(map[], first), second, r2)
    ensures AreOutcomes(map[], first + second, r1 + r2)
  {
    forall i | 0 <= i < |first + second|
      ensures (r1 + r2)[i] == Outcome(map[], first + second, i)
    {
      if i < |first| {
        assert (first + second)[..|first|] == first;
        OutcomeOfPrefix(map[], first + second, |first|, i);
      } else {
        OutcomeOfSecond(first, second, i - |first|);
      }
    }
  }

  lemma OutcomeOfSecond(first: seq<Definer>, second: seq<Definer>, i: nat)
    requires i < |second|
    ensures Outcome(map[], first + second, |first| + i) == Outcome(BindAll(map[], first), second, i)
  {
    var ops, n := first + second, |first|;
    BoundIffDefined(map[], first, second[i].moduleName, second[i].name);
    assert forall j :: 0 <= j < n ==> ops[j] == first[j];
    assert forall j :: 0 <= j <= i ==> ops[n + j] == second[j];
    if j :| 0 <= j < n + i && ops[j].moduleName == second[i].moduleName && ops[j].name == second[i].name {
      if j >= n {
        assert second[j - n] == ops[j];
      }
    }
  }

  /** Definitions in a builder, a linker created from it, further definitions in the linker: the
      linker behaves like the plain map given all definitions in that order. */
  method BuildAndDefine(building: seq<Definer>, linking: seq<Definer>)
    returns (linker: Linker, results: seq<Result<(), LinkerError>>)
    requires 2 * (|building| + |linking|) <= MAX_SYMBOLS
    ensures linker.Valid() && linker.All() == BindAll(map[], building + linking)
    ensures AreOutcomes(map[], building + linking, results)
  {
    var builder, built := Build(building);
    linker := new Linker.Create(builder);
    var defined := DefineAll(linker, linking);
    results := built + defined;
    BindAllSplits(map[], building, linking);
    OutcomesJoin(building, linking, built, defined);
  }
}
