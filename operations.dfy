/**
 * The operation registration pipeline of `SwaggerSupport.apply` and
 * `applyOperations` as functions: the body guard, the body type, the response
 * map, the ordered parameter list, the definitions registered on the way and
 * the path-table update. The class in SwaggerSupport performs the same steps
 * in place and is proved equal to these functions.
 */
module Operations {
  import opened Kotlin
  import opened Ktor
  import opened SwaggerModel
  import opened DefinitionRegistry

  /** `methodForbidsBody` */
  const MethodForbidsBody: set<HttpMethod> := {Get, Delete}

  /** `requireMethodSupportsBody`: GET and DELETE may not carry an explicit body schema. */
  function RequireMethodSupportsBody(m: Metadata, httpMethod: HttpMethod): (r: Outcome)
    ensures r.Fail? <==> (httpMethod == Get || httpMethod == Delete) && m.bodySchema.Some?
    ensures r.Fail? ==> r.message == "Method type " + MethodToString(httpMethod) + " does not support a body parameter."
  {
    if httpMethod in MethodForbidsBody && m.bodySchema.Some? then
      Fail("Method type " + MethodToString(httpMethod) + " does not support a body parameter.")
    else
      Pass
  }

  /** `createBodyType`: the explicit schema when one is given, else the reflected entity type. */
  function CreateBodyType(env: Collaborators, m: Metadata, typeInfo: TypeInfo): (r: BodyType)
    ensures r.BodyFromSchema? <==> m.bodySchema.Some?
    ensures m.bodySchema.Some? ==>
      && r.schema == m.bodySchema.value.schema
      && r.name == (if m.bodySchema.value.name.Some? then m.bodySchema.value.name.value else env.modelName(typeInfo))
    ensures m.bodySchema.None? ==> r == BodyFromReflection(typeInfo)
  {
    match m.bodySchema
    case Some(bodySchema) =>
      BodyFromSchema(
        name := match bodySchema.name { case Some(n) => n case None => env.modelName(typeInfo) },
        schema := bodySchema.schema)
    case None => BodyFromReflection(typeInfo)
  }

  /** The definition the body contributes (lines 96-103 of `applyOperations`). */
  function RegisterBody(env: Collaborators, defs: Definitions, body: BodyType): (r: Definitions)
    requires env.Valid()
    ensures Extends(defs, r)
    ensures body.BodyFromSchema? ==> r == PutIfAbsent(defs, body.name, body.schema)
    ensures body.BodyFromReflection? && IsUnit(body.typeInfo) ==> r == defs
    ensures body.BodyFromReflection? && !IsUnit(body.typeInfo) ==> env.modelName(body.typeInfo) in r
  {
    match body
    case BodyFromSchema(name, schema) => PutIfAbsent(defs, name, schema)
    case BodyFromReflection(typeInfo) => if !IsUnit(typeInfo) then Register(env, defs, typeInfo) else defs
  }

  // ---------------------------------------------------------------- responses

  /** `status.value.toString()`: the key of a response in the operation. */
  function StatusKey(status: HttpStatusCode): (r: string)
    ensures 1 <= |r|
    ensures (r[0] == '-') <==> status.value < 0
  {
    IntToString(status.value)
  }

  /** The keys of the playground's statuses, as they appear in the document. */
  lemma StandardStatusKeys()
    ensures StatusKey(OK) == "200" && StatusKey(Created) == "201" && StatusKey(NotFound) == "404"
  {
    assert NatToString(2) == "2" && NatToString(4) == "4";
    assert NatToString(20) == "20" && NatToString(40) == "40";
  }

  /** Distinct status values give distinct response keys. */
  lemma StatusKeyInjective(a: HttpStatusCode, b: HttpStatusCode)
    requires StatusKey(a) == StatusKey(b)
    ensures a.value == b.value
  {
    IntToStringInjective(a.value, b.value);
  }

  /** The `Response` object a declared response becomes. */
  function ResponseOf(env: Collaborators, status: HttpStatusCode, rt: ResponseType): (r: Response)
    ensures rt.ResponseFromReflection? ==> r == env.reflectedResponse(status, rt.typeInfo)
    ensures rt.ResponseSchema? ==> r == env.namedResponse(rt.name)
  {
    match rt
    case ResponseFromReflection(typeInfo) => env.reflectedResponse(status, typeInfo)
    case ResponseSchema(name, _) => env.namedResponse(name)
  }

  /** The definition a declared response contributes. */
  function RegisterResponse(env: Collaborators, defs: Definitions, rt: ResponseType): (r: Definitions)
    requires env.Valid()
    ensures Extends(defs, r)
    ensures rt.ResponseSchema? ==> rt.name in r
    ensures rt.ResponseFromReflection? && !IsUnit(rt.typeInfo) ==> env.modelName(rt.typeInfo) in r
    ensures rt.ResponseFromReflection? && IsUnit(rt.typeInfo) ==> r == defs
  {
    match rt
    case ResponseFromReflection(typeInfo) => Register(env, defs, typeInfo)
    case ResponseSchema(name, schema) => PutIfAbsent(defs, name, schema)
  }

  /** The definitions after every declared response has been registered, in order. */
  function RegisterResponses(env: Collaborators, defs: Definitions, rs: seq<(HttpStatusCode, ResponseType)>): (r: Definitions)
    requires env.Valid()
    ensures Extends(defs, r)
    decreases |rs|
  {
    if rs == [] then defs
    else
      var d1 := RegisterResponse(env, defs, rs[0].1);
      var r := RegisterResponses(env, d1, rs[1..]);
      ExtendsTransitive(defs, d1, r);
      r
  }

  /** What a declared response promises to leave registered. */
  ghost predicate ResponseRegistered(env: Collaborators, defs: Definitions, rt: ResponseType) {
    match rt
    case ResponseFromReflection(typeInfo) => !IsUnit(typeInfo) ==> env.modelName(typeInfo) in defs
    case ResponseSchema(name, _) => name in defs
  }

  /**
   * Every reflected non-Unit response type and every named response schema
   * has a definition after the responses are registered.
   */
  lemma {:induction false} ResponsesRegistered(env: Collaborators, defs: Definitions, rs: seq<(HttpStatusCode, ResponseType)>)
    requires env.Valid()
    ensures forall i :: 0 <= i < |rs| ==> ResponseRegistered(env, RegisterResponses(env, defs, rs), rs[i].1)
    decreases |rs|
  {
    if rs != [] {
      var d1 := RegisterResponse(env, defs, rs[0].1);
      var r := RegisterResponses(env, d1, rs[1..]);
      ResponsesRegistered(env, d1, rs[1..]);
      assert ResponseRegistered(env, r, rs[0].1);
      forall i | 1 <= i < |rs| ensures ResponseRegistered(env, r, rs[i].1) {
        assert rs[i] == rs[1..][i - 1];
      }
    }
  }

  /** `.toMap()` of the keyed responses, starting from `acc`: a later key overwrites an earlier one. */
  function ResponseMapFrom(env: Collaborators, acc: map<string, Response>, rs: seq<(HttpStatusCode, ResponseType)>): (r: map<string, Response>)
    ensures acc.Keys <= r.Keys
    ensures forall i :: 0 <= i < |rs| ==> StatusKey(rs[i].0) in r
    decreases |rs|
  {
    if rs == [] then acc
    else
      var r := ResponseMapFrom(env, acc[StatusKey(rs[0].0) := ResponseOf(env, rs[0].0, rs[0].1)], rs[1..]);
      assert forall i :: 1 <= i < |rs| ==> rs[i] == rs[1..][i - 1];
      r
  }

  /** The response map of the operation: keyed by `status.value.toString()`. */
  function ResponseMap(env: Collaborators, rs: seq<(HttpStatusCode, ResponseType)>): (r: map<string, Response>)
    ensures r.Keys == StatusKeys(rs)
  {
    ResponseMapFromKeys(env, map[], rs);
    ResponseMapFrom(env, map[], rs)
  }

  /** The keys the declared responses produce. */
  ghost function StatusKeys(rs: seq<(HttpStatusCode, ResponseType)>): set<string> {
    set i | 0 <= i < |rs| :: StatusKey(rs[i].0)
  }

  /** `i` is the last declared response with its key. */
  ghost predicate LastWithKey(rs: seq<(HttpStatusCode, ResponseType)>, i: int)
    requires 0 <= i < |rs|
  {
    forall j :: i < j < |rs| ==> StatusKey(rs[j].0) != StatusKey(rs[i].0)
  }

  /** The keys of a non-empty list are its first key and the keys of its tail. */
  lemma StatusKeysCons(rs: seq<(HttpStatusCode, ResponseType)>)
    requires rs != []
    ensures StatusKeys(rs) == {StatusKey(rs[0].0)} + StatusKeys(rs[1..])
  {
    var tail := rs[1..];
    forall k | k in StatusKeys(rs) ensures k in {StatusKey(rs[0].0)} + StatusKeys(tail) {
      var i :| 0 <= i < |rs| && k == StatusKey(rs[i].0);
      if i > 0 { assert k == StatusKey(tail[i - 1].0); }
    }
    forall k | k in StatusKeys(tail) ensures k in StatusKeys(rs) {
      var i :| 0 <= i < |tail| && k == StatusKey(tail[i].0);
      assert k == StatusKey(rs[i + 1].0);
    }
  }

  /** `.toMap()` adds exactly the declared keys and keeps every other entry of `acc`. */
  lemma {:induction false} ResponseMapFromKeys(env: Collaborators, acc: map<string, Response>, rs: seq<(HttpStatusCode, ResponseType)>)
    ensures ResponseMapFrom(env, acc, rs).Keys == acc.Keys + StatusKeys(rs)
    ensures forall k :: k in acc && k !in StatusKeys(rs) ==> ResponseMapFrom(env, acc, rs)[k] == acc[k]
    decreases |rs|
  {
    if rs != [] {
      var acc1 := acc[StatusKey(rs[0].0) := ResponseOf(env, rs[0].0, rs[0].1)];
      ResponseMapFromKeys(env, acc1, rs[1..]);
      StatusKeysCons(rs);
    }
  }

  /** A last declaration after the first is still last in the tail. */
  lemma LastWithKeyTail(rs: seq<(HttpStatusCode, ResponseType)>, i: int)
    requires 0 < i < |rs| && LastWithKey(rs, i)
    ensures LastWithKey(rs[1..], i - 1)
  {
    forall j | i - 1 < j < |rs| - 1 ensures StatusKey(rs[1..][j].0) != StatusKey(rs[1..][i - 1].0) {
      assert rs[1..][j] == rs[j + 1];
    }
  }

  /** `.toMap()` keeps, for each key, the response of the last declaration with that key. */
  lemma {:induction false} ResponseMapFromLast(env: Collaborators, acc: map<string, Response>, rs: seq<(HttpStatusCode, ResponseType)>)
    ensures forall i :: 0 <= i < |rs| ==> StatusKey(rs[i].0) in ResponseMapFrom(env, acc, rs)
    ensures forall i :: 0 <= i < |rs| && LastWithKey(rs, i) ==>
      ResponseMapFrom(env, acc, rs)[StatusKey(rs[i].0)] == ResponseOf(env, rs[i].0, rs[i].1)
    decreases |rs|
  {
    ResponseMapFromKeys(env, acc, rs);
    assert forall i :: 0 <= i < |rs| ==> StatusKey(rs[i].0) in StatusKeys(rs);
    if rs != [] {
      var acc1 := acc[StatusKey(rs[0].0) := ResponseOf(env, rs[0].0, rs[0].1)];
      var tail := rs[1..];
      var r := ResponseMapFrom(env, acc, rs);
      assert r == ResponseMapFrom(env, acc1, tail);
      ResponseMapFromLast(env, acc1, tail);
      forall i | 0 <= i < |rs| && LastWithKey(rs, i)
        ensures r[StatusKey(rs[i].0)] == ResponseOf(env, rs[i].0, rs[i].1)
      {
        if i == 0 {
          ResponseMapFromKeys(env, acc1, tail);
          assert StatusKey(rs[0].0) !in StatusKeys(tail);
        } else {
          LastWithKeyTail(rs, i);
          assert tail[i - 1] == rs[i];
        }
      }
    }
  }

  /**
   * The response map has one key per declared status value, and each key holds
   * the response of the last declaration with that key.
   */
  lemma ResponseMapContents(env: Collaborators, rs: seq<(HttpStatusCode, ResponseType)>)
    ensures ResponseMap(env, rs).Keys == StatusKeys(rs)
    ensures forall i :: 0 <= i < |rs| ==> StatusKey(rs[i].0) in ResponseMap(env, rs)
    ensures forall i :: 0 <= i < |rs| && LastWithKey(rs, i) ==>
      ResponseMap(env, rs)[StatusKey(rs[i].0)] == ResponseOf(env, rs[i].0, rs[i].1)
  {
    ResponseMapFromKeys(env, map[], rs);
    ResponseMapFromLast(env, map[], rs);
  }

  /** With pairwise distinct status values, every declared response is in the map as declared. */
  lemma ResponseMapDistinct(env: Collaborators, rs: seq<(HttpStatusCode, ResponseType)>)
    requires forall i, j :: 0 <= i < j < |rs| ==> rs[i].0.value != rs[j].0.value
    ensures forall i :: 0 <= i < |rs| ==>
      StatusKey(rs[i].0) in ResponseMap(env, rs) &&
      ResponseMap(env, rs)[StatusKey(rs[i].0)] == ResponseOf(env, rs[i].0, rs[i].1)
  {
    ResponseMapContents(env, rs);
    forall i | 0 <= i < |rs| ensures LastWithKey(rs, i) {
      forall j | i < j < |rs| ensures StatusKey(rs[j].0) != StatusKey(rs[i].0) {
        if StatusKey(rs[j].0) == StatusKey(rs[i].0) {
          StatusKeyInjective(rs[j].0, rs[i].0);
        }
      }
    }
  }

  // --------------------------------------------------------------- parameters

  /** The body contributes a parameter unless it is the reflected Unit type. */
  predicate HasBodyParameter(body: BodyType) {
    !(body.BodyFromReflection? && IsUnit(body.typeInfo))
  }

  /** The parameters of one group of member properties, in property order. */
  function PropertyParameters(env: Collaborators, props: seq<Property>, path: string, kind: Option<ParameterInputType>): (r: seq<Parameter>)
    ensures |r| == |props|
    ensures forall i :: 0 <= i < |props| ==> r[i] == env.toParameter(props[i], path, kind).parameter
  {
    if props == [] then [] else [env.toParameter(props[0], path, kind).parameter] + PropertyParameters(env, props[1..], path, kind)
  }

  /** The definitions after the nested types of one group of properties are registered. */
  function RegisterPropertyTypes(env: Collaborators, defs: Definitions, props: seq<Property>, path: string, kind: Option<ParameterInputType>): (r: Definitions)
    requires env.Valid()
    ensures Extends(defs, r)
    ensures NestedRegistered(env, r, props, path, kind)
    decreases |props|
  {
    if props == [] then defs
    else
      var nested := env.toParameter(props[0], path, kind).nested;
      var d1 := RegisterAll(env, defs, nested);
      var r := RegisterPropertyTypes(env, d1, props[1..], path, kind);
      ExtendsTransitive(defs, d1, r);
      RegisteredMembers(env, defs, nested);
      NestedRegisteredCons(env, d1, r, props, path, kind);
      r
  }

  /**
   * Every non-Unit nested type that `toParameter` reports for a property of the
   * group has a definition in `defs`.
   */
  ghost predicate NestedRegistered(env: Collaborators, defs: Definitions, props: seq<Property>, path: string, kind: Option<ParameterInputType>) {
    forall i, n :: 0 <= i < |props| && n in env.toParameter(props[i], path, kind).nested && !IsUnit(n) ==>
      env.modelName(n) in defs
  }

  /** The first property's nested types, then the rest's, make the whole group's. */
  lemma NestedRegisteredCons(env: Collaborators, d1: Definitions, r: Definitions, props: seq<Property>, path: string, kind: Option<ParameterInputType>)
    requires props != [] && Extends(d1, r)
    requires forall n :: n in env.toParameter(props[0], path, kind).nested && !IsUnit(n) ==> env.modelName(n) in d1
    requires NestedRegistered(env, r, props[1..], path, kind)
    ensures NestedRegistered(env, r, props, path, kind)
  {
    forall i, n | 0 <= i < |props| && n in env.toParameter(props[i], path, kind).nested && !IsUnit(n)
      ensures env.modelName(n) in r
    {
      if i > 0 {
        assert props[i] == props[1..][i - 1];
      }
    }
  }

  /** An extended table keeps every group's nested types registered. */
  lemma NestedRegisteredStable(env: Collaborators, defs: Definitions, more: Definitions, props: seq<Property>, path: string, kind: Option<ParameterInputType>)
    requires Extends(defs, more) && NestedRegistered(env, defs, props, path, kind)
    ensures NestedRegistered(env, more, props, path, kind)
  {
  }

  /** An absent group of properties contributes no parameter and no definition. */
  lemma EmptyGroup(env: Collaborators, defs: Definitions, path: string, kind: Option<ParameterInputType>)
    requires env.Valid()
    ensures PropertyParameters(env, [], path, kind) == []
    ensures RegisterPropertyTypes(env, defs, [], path, kind) == defs
  {
  }

  /**
   * The properties of an optional extra class, or none: the `parameter?.let`
   * and `headers?.let` of lines 131 and 139. Its effect on the parameter list
   * is stated by `ParameterOrder` and `AbsentGroupsAddNothing`.
   */
  function OptionalProperties(env: Collaborators, k: Option<KClass>): seq<Property> {
    match k
    case Some(c) => env.memberProperties(c)
    case None => []
  }

  /** The body parameter, if any, as a list of at most one. */
  function BodyParameters(env: Collaborators, body: BodyType): (r: seq<Parameter>)
    ensures |r| <= 1
    ensures r == [] <==> body.BodyFromReflection? && IsUnit(body.typeInfo)
    ensures r != [] ==> r[0] == env.bodyParameter(body)
  {
    if HasBodyParameter(body) then [env.bodyParameter(body)] else []
  }

  /**
   * The parameter list of the operation (lines 121-147): the body parameter,
   * then the location class's properties, then the extra query properties,
   * then the header properties.
   */
  function Parameters(env: Collaborators, m: Metadata, path: string, locationType: KClass, body: BodyType): (r: seq<Parameter>)
    ensures |r| == |BodyParameters(env, body)| + |env.memberProperties(locationType)|
      + |OptionalProperties(env, m.parameter)| + |OptionalProperties(env, m.headers)|
    ensures body.BodyFromSchema? ==> r[0] == env.bodyParameter(body)
  {
    BodyParameters(env, body)
    + PropertyParameters(env, env.memberProperties(locationType), path, None)
    + PropertyParameters(env, OptionalProperties(env, m.parameter), path, Some(Query))
    + PropertyParameters(env, OptionalProperties(env, m.headers), path, Some(Header))
  }

  /**
   * The fixed parameter order: position by position, the list is the body
   * parameter (present exactly when the body is not reflected Unit), then one
   * parameter per location property, per extra query property and per header
   * property, each bound with its own location tag.
   */
  lemma {:induction false} ParameterOrder(env: Collaborators, m: Metadata, path: string, locationType: KClass, body: BodyType)
    ensures var ps, b := Parameters(env, m, path, locationType, body), if HasBodyParameter(body) then 1 else 0;
      var loc, query, hdr := env.memberProperties(locationType), OptionalProperties(env, m.parameter), OptionalProperties(env, m.headers);
      && |ps| == b + |loc| + |query| + |hdr|
      && (b == 1 ==> ps[0] == env.bodyParameter(body))
      && (forall i :: 0 <= i < |loc| ==> ps[b + i] == env.toParameter(loc[i], path, None).parameter)
      && (forall i :: 0 <= i < |query| ==> ps[b + |loc| + i] == env.toParameter(query[i], path, Some(Query)).parameter)
      && (forall i :: 0 <= i < |hdr| ==> ps[b + |loc| + |query| + i] == env.toParameter(hdr[i], path, Some(Header)).parameter)
  {
    var loc, query, hdr := env.memberProperties(locationType), OptionalProperties(env, m.parameter), OptionalProperties(env, m.headers);
    var bp := BodyParameters(env, body);
    var pl := PropertyParameters(env, loc, path, None);
    var pq := PropertyParameters(env, query, path, Some(Query));
    var ph := PropertyParameters(env, hdr, path, Some(Header));
    var ps := Parameters(env, m, path, locationType, body);
    assert ps == bp + pl + pq + ph;
    var b := |bp|;
    forall i | 0 <= i < |loc| ensures ps[b + i] == pl[i] { assert (bp + pl)[b + i] == pl[i]; }
    forall i | 0 <= i < |query| ensures ps[b + |loc| + i] == pq[i] { assert (bp + pl + pq)[b + |loc| + i] == pq[i]; }
  }

  /** An explicit body schema always contributes the first parameter. */
  lemma SchemaBodyComesFirst(env: Collaborators, m: Metadata, path: string, locationType: KClass, typeInfo: TypeInfo)
    requires m.bodySchema.Some?
    ensures var body := CreateBodyType(env, m, typeInfo);
      var ps := Parameters(env, m, path, locationType, body);
      |ps| >= 1 && ps[0] == env.bodyParameter(body)
  {
    ParameterOrder(env, m, path, locationType, CreateBodyType(env, m, typeInfo));
  }

  /** Without extra query or header classes, those groups contribute nothing. */
  lemma AbsentGroupsAddNothing(env: Collaborators, m: Metadata, path: string, locationType: KClass, body: BodyType)
    requires m.parameter.None? && m.headers.None?
    ensures Parameters(env, m, path, locationType, body)
      == BodyParameters(env, body) + PropertyParameters(env, env.memberProperties(locationType), path, None)
  {
    assert PropertyParameters(env, [], path, Some(Query)) == [];
    assert PropertyParameters(env, [], path, Some(Header)) == [];
  }

  // ------------------------------------------------------------ the operation

  /**
   * The definitions after the parameters are built, starting from `defs`: the
   * nested types of the location, query and header properties, in that order.
   */
  function ParameterDefinitions(env: Collaborators, defs: Definitions, m: Metadata, path: string, locationType: KClass): (r: Definitions)
    requires env.Valid()
    ensures Extends(defs, r)
    ensures ParameterTypesRegistered(env, r, m, path, locationType)
  {
    var d3 := RegisterPropertyTypes(env, defs, env.memberProperties(locationType), path, None);
    var d4 := RegisterPropertyTypes(env, d3, OptionalProperties(env, m.parameter), path, Some(Query));
    var r := RegisterPropertyTypes(env, d4, OptionalProperties(env, m.headers), path, Some(Header));
    ExtendsTransitive(defs, d3, d4);
    ExtendsTransitive(defs, d4, r);
    ExtendsTransitive(d3, d4, r);
    NestedRegisteredStable(env, d3, r, env.memberProperties(locationType), path, None);
    NestedRegisteredStable(env, d4, r, OptionalProperties(env, m.parameter), path, Some(Query));
    r
  }

  /** The nested types of the location, query and header properties all have definitions. */
  ghost predicate ParameterTypesRegistered(env: Collaborators, defs: Definitions, m: Metadata, path: string, locationType: KClass) {
    && NestedRegistered(env, defs, env.memberProperties(locationType), path, None)
    && NestedRegistered(env, defs, OptionalProperties(env, m.parameter), path, Some(Query))
    && NestedRegistered(env, defs, OptionalProperties(env, m.headers), path, Some(Header))
  }

  /** The definitions `createOperation` leaves behind: the responses' first, then the parameters'. */
  function OperationDefinitions(env: Collaborators, defs: Definitions, m: Metadata, path: string, locationType: KClass): (r: Definitions)
    requires env.Valid()
    ensures Extends(RegisterResponses(env, defs, m.responses), r)
    ensures forall i :: 0 <= i < |m.responses| ==> ResponseRegistered(env, r, m.responses[i].1)
    ensures ParameterTypesRegistered(env, r, m, path, locationType)
  {
    var d2 := RegisterResponses(env, defs, m.responses);
    var r := ParameterDefinitions(env, d2, m, path, locationType);
    ResponsesRegistered(env, defs, m.responses);
    assert forall i :: 0 <= i < |m.responses| ==> ResponseRegistered(env, d2, m.responses[i].1);
    r
  }

  /** The definitions after `applyOperations`: the body's first, then those of `createOperation`. */
  function DefinitionsAfter(env: Collaborators, defs: Definitions, m: Metadata, path: string, locationType: KClass, body: BodyType): (r: Definitions)
    requires env.Valid()
    ensures Extends(defs, r)
  {
    var d1 := RegisterBody(env, defs, body);
    var r := OperationDefinitions(env, d1, m, path, locationType);
    ExtendsTransitive(defs, d1, RegisterResponses(env, d1, m.responses));
    ExtendsTransitive(defs, RegisterResponses(env, d1, m.responses), r);
    r
  }

  /**
   * After `applyOperations` the body's definition and every response's
   * definition are present, and nothing registered before was changed.
   */
  lemma DefinitionsAfterRegistered(env: Collaborators, defs: Definitions, m: Metadata, path: string, locationType: KClass, body: BodyType)
    requires env.Valid()
    ensures var r := DefinitionsAfter(env, defs, m, path, locationType, body);
      && Extends(defs, r)
      && (body.BodyFromSchema? ==> body.name in r)
      && (body.BodyFromReflection? && !IsUnit(body.typeInfo) ==> env.modelName(body.typeInfo) in r)
      && (forall i :: 0 <= i < |m.responses| ==> ResponseRegistered(env, r, m.responses[i].1))
      && ParameterTypesRegistered(env, r, m, path, locationType)
  {
    var d1 := RegisterBody(env, defs, body);
    var d2 := RegisterResponses(env, d1, m.responses);
    var r := DefinitionsAfter(env, defs, m, path, locationType, body);
    assert r == OperationDefinitions(env, d1, m, path, locationType);
    assert Extends(d1, d2) && Extends(d2, r);
  }

  /** The lower-cased method name that keys the operation under its path. */
  function MethodKey(httpMethod: HttpMethod): (r: string)
    ensures |r| == |httpMethod.value|
    ensures forall i :: 0 <= i < |r| ==> r[i] == LowerChar(httpMethod.value[i])
  {
    ToLowerCase(httpMethod.value)
  }

  /** Lowering an upper-case ASCII name with the given lower-case spelling. */
  lemma LowerAscii(s: string, t: string)
    requires |s| == |t|
    requires forall i :: 0 <= i < |s| ==> LowerChar(s[i]) == t[i]
    ensures ToLowerCase(s) == t
  {
  }

  /** The keys of the standard methods. */
  lemma StandardMethodKeys()
    ensures MethodKey(Get) == "get" && MethodKey(Post) == "post" && MethodKey(Put) == "put"
    ensures MethodKey(Patch) == "patch" && MethodKey(Delete) == "delete"
    ensures MethodKey(Head) == "head" && MethodKey(Options) == "options"
  {
    LowerAscii("GET", "get");
    LowerAscii("POST", "post");
    LowerAscii("PUT", "put");
    LowerAscii("PATCH", "patch");
    LowerAscii("DELETE", "delete");
    LowerAscii("HEAD", "head");
    LowerAscii("OPTIONS", "options");
  }

  /** The arguments `createOperation` hands to `Operation.create`. */
  function OperationSpecOf(env: Collaborators, m: Metadata, location: Location, group: Option<Group>,
                           httpMethod: HttpMethod, locationType: KClass, body: BodyType): (r: OperationSpec)
    ensures r.metadata == m && r.location == location && r.group == group
    ensures r.httpMethod == httpMethod && r.locationType == locationType
    ensures r.responses == ResponseMap(env, m.responses)
    ensures r.parameters == Parameters(env, m, location.path, locationType, body)
    ensures r.responses.Keys == StatusKeys(m.responses)
    ensures |r.parameters| == |BodyParameters(env, body)| + |env.memberProperties(locationType)|
      + |OptionalProperties(env, m.parameter)| + |OptionalProperties(env, m.headers)|
  {
    OperationSpec(m, ResponseMap(env, m.responses), Parameters(env, m, location.path, locationType, body),
                  location, group, httpMethod, locationType)
  }

  /** `paths.getOrPut(path) { mutableMapOf() }.put(key, op)` */
  function PutOperation(paths: Paths, path: string, key: string, op: Operation): (r: Paths)
    ensures path in r && key in r[path] && r[path][key] == op
    ensures r.Keys == paths.Keys + {path}
    ensures r[path].Keys == (if path in paths then paths[path].Keys else {}) + {key}
    ensures forall p, k :: p in paths && k in paths[p] && (p != path || k != key) ==>
      p in r && k in r[p] && r[p][k] == paths[p][k]
    ensures forall p :: p in paths && p != path ==> r[p] == paths[p]
  {
    var slot := if path in paths then paths[path] else map[];
    paths[path := slot[key := op]]
  }

  /** A second registration for the same slot overwrites the first. */
  lemma PutOperationOverwrites(paths: Paths, path: string, key: string, first: Operation, second: Operation)
    ensures PutOperation(PutOperation(paths, path, key, first), path, key, second) == PutOperation(paths, path, key, second)
  {
    var slot := if path in paths then paths[path] else map[];
    assert slot[key := first][key := second] == slot[key := second];
  }

  /** The path table after `applyOperations`. */
  function PathsAfter(env: Collaborators, paths: Paths, m: Metadata, location: Location, group: Option<Group>,
                      httpMethod: HttpMethod, locationType: KClass, body: BodyType): (r: Paths)
    ensures location.path in r && MethodKey(httpMethod) in r[location.path]
    ensures r.Keys == paths.Keys + {location.path}
    ensures r[location.path].Keys
      == (if location.path in paths then paths[location.path].Keys else {}) + {MethodKey(httpMethod)}
    ensures r[location.path][MethodKey(httpMethod)]
      == env.createOperation(OperationSpecOf(env, m, location, group, httpMethod, locationType, body))
    ensures forall p :: p in paths && p != location.path ==> p in r && r[p] == paths[p]
    ensures forall k :: k in r[location.path] && k != MethodKey(httpMethod) ==>
      location.path in paths && k in paths[location.path] && r[location.path][k] == paths[location.path][k]
  {
    PutOperation(paths, location.path, MethodKey(httpMethod),
                 env.createOperation(OperationSpecOf(env, m, location, group, httpMethod, locationType, body)))
  }
}
