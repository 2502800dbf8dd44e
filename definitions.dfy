/**
 * The definition registry as functions of the definitions map: `addDefintion`
 * (put-if-absent) and `addDefinition` / `addDefinitions` (compute-if-absent,
 * then register the nested types the producer reported). The class in
 * SwaggerSupport performs the same updates in place and is proved equal to
 * these functions.
 */
module DefinitionRegistry {
  import opened Kotlin
  import opened Ktor
  import opened SwaggerModel

  /** `before` is extended by `after`: no key removed, no value changed. */
  ghost predicate Extends(before: Definitions, after: Definitions) {
    before.Keys <= after.Keys && forall k :: k in before ==> after[k] == before[k]
  }

  lemma ExtendsTransitive(a: Definitions, b: Definitions, c: Definitions)
    requires Extends(a, b) && Extends(b, c)
    ensures Extends(a, c)
  {
  }

  /** `swagger.definitions.putIfAbsent(name, schema)`: the first writer wins. */
  function PutIfAbsent(defs: Definitions, name: string, schema: Schema): (r: Definitions)
    ensures name in r
    ensures name in defs ==> r == defs
    ensures name !in defs ==> r[name] == schema
    ensures r.Keys == defs.Keys + {name}
    ensures Extends(defs, r)
  {
    if name in defs then defs else defs[name := schema]
  }

  /** The number of possible model names not yet registered: the termination measure. */
  ghost function Unregistered(env: Collaborators, defs: Definitions): nat {
    |env.modelNames - defs.Keys|
  }

  lemma SubsetCardinality<T>(a: set<T>, b: set<T>)
    requires a <= b
    ensures |a| <= |b|
  {
    if a != {} {
      var x :| x in a;
      SubsetCardinality(a - {x}, b - {x});
    }
  }

  /** Registering more names never increases the measure. */
  lemma UnregisteredShrinks(env: Collaborators, defs: Definitions, more: Definitions)
    requires defs.Keys <= more.Keys
    ensures Unregistered(env, more) <= Unregistered(env, defs)
  {
    SubsetCardinality(env.modelNames - more.Keys, env.modelNames - defs.Keys);
  }

  /** Registering a new possible name strictly decreases the measure. */
  lemma UnregisteredDrops(env: Collaborators, defs: Definitions, name: string, schema: Schema)
    requires name in env.modelNames && name !in defs
    ensures Unregistered(env, defs[name := schema]) < Unregistered(env, defs)
  {
    assert env.modelNames - defs[name := schema].Keys == (env.modelNames - defs.Keys) - {name};
  }

  /**
   * `addDefinition(typeInfo)`: nothing for Unit; otherwise, when the type's
   * model name is absent, store the producer's schema under it and register the
   * nested types the producer reported, in order.
   */
  function Register(env: Collaborators, defs: Definitions, t: TypeInfo): (r: Definitions)
    requires env.Valid()
    ensures Extends(defs, r)
    ensures !IsUnit(t) ==> env.modelName(t) in r
    ensures IsUnit(t) || env.modelName(t) in defs ==> r == defs
    ensures !IsUnit(t) && env.modelName(t) !in defs ==> r[env.modelName(t)] == env.createModelData(t).schema
    decreases Unregistered(env, defs), 0
  {
    if IsUnit(t) then defs
    else
      var name := env.modelName(t);
      if name in defs then defs
      else
        var data := env.createModelData(t);
        UnregisteredDrops(env, defs, name, data.schema);
        RegisterAll(env, defs[name := data.schema], data.nested)
  }

  /** `addDefinitions(types)`: register each type in order. */
  function RegisterAll(env: Collaborators, defs: Definitions, ts: seq<TypeInfo>): (r: Definitions)
    requires env.Valid()
    ensures Extends(defs, r)
    ensures forall i :: 0 <= i < |ts| && !IsUnit(ts[i]) ==> env.modelName(ts[i]) in r
    decreases Unregistered(env, defs), 1, |ts|
  {
    if ts == [] then defs
    else
      var first := Register(env, defs, ts[0]);
      UnregisteredShrinks(env, defs, first);
      var r := RegisterAll(env, first, ts[1..]);
      assert forall i :: 1 <= i < |ts| ==> ts[i] == ts[1..][i - 1];
      r
  }

  /**
   * The types whose producer `createModelData` runs during `Register(env, defs, t)`:
   * exactly those whose model name is still absent when they are visited.
   */
  ghost function Produced(env: Collaborators, defs: Definitions, t: TypeInfo): (r: set<TypeInfo>)
    requires env.Valid()
    ensures forall u :: u in r ==> !IsUnit(u) && env.modelName(u) !in defs
    ensures t in r <==> !IsUnit(t) && env.modelName(t) !in defs
    decreases Unregistered(env, defs), 0
  {
    if IsUnit(t) then {}
    else
      var name := env.modelName(t);
      if name in defs then {}
      else
        var data := env.createModelData(t);
        UnregisteredDrops(env, defs, name, data.schema);
        {t} + ProducedAll(env, defs[name := data.schema], data.nested)
  }

  ghost function ProducedAll(env: Collaborators, defs: Definitions, ts: seq<TypeInfo>): (r: set<TypeInfo>)
    requires env.Valid()
    ensures forall u :: u in r ==> !IsUnit(u) && env.modelName(u) !in defs
    decreases Unregistered(env, defs), 1, |ts|
  {
    if ts == [] then {}
    else
      var first := Register(env, defs, ts[0]);
      UnregisteredShrinks(env, defs, first);
      Produced(env, defs, ts[0]) + ProducedAll(env, first, ts[1..])
  }

  /** The model names of a set of types. */
  ghost function NamesOf(env: Collaborators, ts: set<TypeInfo>): set<string> {
    set u | u in ts :: env.modelName(u)
  }

  /**
   * `u` is fully expanded in `defs`: its own schema is stored under its name,
   * and every non-Unit type it references has a definition too.
   */
  ghost predicate Expanded(env: Collaborators, defs: Definitions, u: TypeInfo) {
    && env.modelName(u) in defs
    && defs[env.modelName(u)] == env.createModelData(u).schema
    && forall n :: n in env.createModelData(u).nested && !IsUnit(n) ==> env.modelName(n) in defs
  }

  lemma ExpandedStable(env: Collaborators, defs: Definitions, more: Definitions, us: set<TypeInfo>)
    requires Extends(defs, more)
    requires forall u :: u in us ==> Expanded(env, defs, u)
    ensures forall u :: u in us ==> Expanded(env, more, u)
  {
  }

  /**
   * `r` is what registering from `defs` produced when the producers of the types
   * in `p` ran: each of them is non-Unit, was new, and is expanded in `r` (so no
   * reference it reports dangles), and the new keys are exactly their names.
   */
  ghost predicate ClosedRegistration(env: Collaborators, defs: Definitions, r: Definitions, p: set<TypeInfo>) {
    && (forall u :: u in p ==> !IsUnit(u) && env.modelName(u) !in defs && Expanded(env, r, u))
    && r.Keys == defs.Keys + NamesOf(env, p)
  }

  /** One producer run followed by a closed registration of its nested types is closed. */
  lemma ClosedAfterProducer(env: Collaborators, defs: Definitions, t: TypeInfo, r: Definitions, p: set<TypeInfo>)
    requires !IsUnit(t) && env.modelName(t) !in defs
    requires var d1 := defs[env.modelName(t) := env.createModelData(t).schema];
      ClosedRegistration(env, d1, r, p) && Extends(d1, r)
    requires forall n :: n in env.createModelData(t).nested && !IsUnit(n) ==> env.modelName(n) in r
    ensures ClosedRegistration(env, defs, r, {t} + p)
  {
    var name := env.modelName(t);
    var d1 := defs[name := env.createModelData(t).schema];
    assert name in d1;
    assert Expanded(env, r, t);
    assert NamesOf(env, {t} + p) == {name} + NamesOf(env, p);
  }

  /** Two closed registrations in a row make a closed registration. */
  lemma ClosedSequence(env: Collaborators, d0: Definitions, d1: Definitions, d2: Definitions,
                       p0: set<TypeInfo>, p1: set<TypeInfo>)
    requires ClosedRegistration(env, d0, d1, p0) && Extends(d0, d1)
    requires ClosedRegistration(env, d1, d2, p1) && Extends(d1, d2)
    ensures ClosedRegistration(env, d0, d2, p0 + p1)
  {
    ExpandedStable(env, d1, d2, p0);
    assert NamesOf(env, p0 + p1) == NamesOf(env, p0) + NamesOf(env, p1);
  }

  /** Every nested type listed in `ts` that is not Unit has been registered. */
  lemma RegisteredMembers(env: Collaborators, defs: Definitions, ts: seq<TypeInfo>)
    requires env.Valid()
    ensures forall n :: n in ts && !IsUnit(n) ==> env.modelName(n) in RegisterAll(env, defs, ts)
  {
    forall n | n in ts && !IsUnit(n) ensures env.modelName(n) in RegisterAll(env, defs, ts) {
      var i :| 0 <= i < |ts| && ts[i] == n;
    }
  }

  /**
   * Registration is closed under nested types and adds nothing else: see
   * `ClosedRegistration`, taken over the types whose producer ran.
   */
  lemma {:induction false} RegisterClosed(env: Collaborators, defs: Definitions, t: TypeInfo)
    requires env.Valid()
    ensures ClosedRegistration(env, defs, Register(env, defs, t), Produced(env, defs, t))
    decreases Unregistered(env, defs), 0
  {
    if !IsUnit(t) && env.modelName(t) !in defs {
      var name := env.modelName(t);
      var data := env.createModelData(t);
      var d1 := defs[name := data.schema];
      UnregisteredDrops(env, defs, name, data.schema);
      RegisterAllClosed(env, d1, data.nested);
      RegisteredMembers(env, d1, data.nested);
      ClosedAfterProducer(env, defs, t, RegisterAll(env, d1, data.nested), ProducedAll(env, d1, data.nested));
    } else {
      assert NamesOf(env, {}) == {};
    }
  }

  lemma {:induction false} RegisterAllClosed(env: Collaborators, defs: Definitions, ts: seq<TypeInfo>)
    requires env.Valid()
    ensures ClosedRegistration(env, defs, RegisterAll(env, defs, ts), ProducedAll(env, defs, ts))
    decreases Unregistered(env, defs), 1, |ts|
  {
    if ts == [] {
      assert NamesOf(env, {}) == {};
    } else {
      var first := Register(env, defs, ts[0]);
      UnregisteredShrinks(env, defs, first);
      RegisterClosed(env, defs, ts[0]);
      RegisterAllClosed(env, first, ts[1..]);
      ClosedSequence(env, defs, first, RegisterAll(env, first, ts[1..]),
                     Produced(env, defs, ts[0]), ProducedAll(env, first, ts[1..]));
    }
  }

  /** The producer runs for `t` itself exactly when `t` is not Unit and its name is absent. */
  lemma ProducerRunsIffAbsent(env: Collaborators, defs: Definitions, t: TypeInfo)
    requires env.Valid()
    ensures t in Produced(env, defs, t) <==> !IsUnit(t) && env.modelName(t) !in defs
    ensures IsUnit(t) || env.modelName(t) in defs ==> Produced(env, defs, t) == {}
  {
  }

  /**
   * Idempotence: registering the same type a second time changes nothing and
   * runs no producer.
   */
  lemma RegisterIdempotent(env: Collaborators, defs: Definitions, t: TypeInfo)
    requires env.Valid()
    ensures Register(env, Register(env, defs, t), t) == Register(env, defs, t)
    ensures Produced(env, Register(env, defs, t), t) == {}
  {
  }
}
