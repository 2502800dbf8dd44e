/**
 * `SwaggerSupport`: the object that owns the Swagger document and registers
 * one operation per declared route, updating `definitions` and `paths` in
 * place; plus the mount configuration and the redirect target of its UI.
 */
module SwaggerSupport {
  import opened Kotlin
  import opened Ktor
  import opened SwaggerModel
  import opened DefinitionRegistry
  import opened Operations

  /** `SwaggerUiConfiguration` without its initial document. */
  datatype SwaggerUiConfiguration = SwaggerUiConfiguration(path: string, forwardRoot: bool, provideUi: bool)

  /** The configuration's default values: mounted at "apidocs", root not forwarded, UI served. */
  function DefaultConfiguration(): (c: SwaggerUiConfiguration)
    ensures c.path == "apidocs" && !c.forwardRoot && c.provideUi
  {
    SwaggerUiConfiguration(path := "apidocs", forwardRoot := false, provideUi := true)
  }

  /** Where `redirect(path)` sends the browser: the UI page, pointed at the document. */
  function RedirectTarget(path: string): (r: string)
    ensures |r| == |path| + 29
    ensures r[0] == '/' && r[1..|path| + 1] == path
    ensures r[|path| + 1..] == "/index.html?url=swagger.json"
  {
    "/" + path + "/index.html?url=swagger.json"
  }

  /** Different mount paths redirect to different targets. */
  lemma RedirectTargetInjective(p: string, q: string)
    requires RedirectTarget(p) == RedirectTarget(q)
    ensures p == q
  {
    assert |p| == |q|;
    assert p == RedirectTarget(p)[1..|p| + 1];
  }

  /** With the default configuration the UI is reached at "/apidocs/index.html?url=swagger.json". */
  lemma DefaultRedirect()
    ensures RedirectTarget(DefaultConfiguration().path) == "/apidocs/index.html?url=swagger.json"
  {
    assert "/" + "apidocs" == "/apidocs";
    assert "/apidocs" + "/index.html?url=swagger.json" == "/apidocs/index.html?url=swagger.json";
  }

  /** The feature instance: the document's definitions and paths, and the collaborators it calls. */
  class SwaggerSupport {
    const env: Collaborators
    var definitions: Definitions
    var paths: Paths

    constructor (env: Collaborators, definitions: Definitions, paths: Paths)
      requires env.Valid()
      ensures this.env == env && this.definitions == definitions && this.paths == paths
    {
      this.env := env;
      this.definitions := definitions;
      this.paths := paths;
    }

    /** `Metadata.apply(locationClass, bodyTypeInfo, method)`, with the class's annotations as inputs. */
    method Apply(m: Metadata, location: Location, group: Option<Group>, locationClass: KClass,
                 bodyTypeInfo: TypeInfo, httpMethod: HttpMethod) returns (outcome: Outcome)
      requires env.Valid()
      modifies this
      ensures outcome == RequireMethodSupportsBody(m, httpMethod)
      ensures outcome.Fail? ==> definitions == old(definitions) && paths == old(paths)
      ensures outcome.Pass? ==>
        var body := CreateBodyType(env, m, bodyTypeInfo);
        && definitions == DefinitionsAfter(env, old(definitions), m, location.path, locationClass, body)
        && paths == PathsAfter(env, old(paths), m, location, group, httpMethod, locationClass, body)
    {
      outcome := RequireMethodSupportsBody(m, httpMethod);
      if outcome.Pass? {
        var bodyType := CreateBodyType(env, m, bodyTypeInfo);
        ApplyOperations(m, location, group, httpMethod, locationClass, bodyType);
      }
    }

    /** `applyOperations`: register the body, build the operation, store it in its slot. */
    method ApplyOperations(m: Metadata, location: Location, group: Option<Group>, httpMethod: HttpMethod,
                           locationType: KClass, bodyType: BodyType)
      requires env.Valid()
      modifies this
      ensures definitions == DefinitionsAfter(env, old(definitions), m, location.path, locationType, bodyType)
      ensures paths == PathsAfter(env, old(paths), m, location, group, httpMethod, locationType, bodyType)
    {
      ghost var p0 := paths;
      match bodyType {
        case BodyFromSchema(name, schema) =>
          AddDefintion(name, schema);
        case BodyFromReflection(typeInfo) =>
          if !IsUnit(typeInfo) {
            AddDefinition(typeInfo);
          }
      }
      ghost var d1 := definitions;
      assert d1 == RegisterBody(env, old(definitions), bodyType);
      var operation := CreateOperation(m, location, group, httpMethod, locationType, bodyType);
      assert definitions == OperationDefinitions(env, d1, m, location.path, locationType);
      var slot := if location.path in paths then paths[location.path] else map[];
      paths := paths[location.path := slot[ToLowerCase(httpMethod.value) := operation]];
      assert paths == PutOperation(p0, location.path, MethodKey(httpMethod), operation);
    }

    /** The local `createOperation` of `applyOperations`. */
    method CreateOperation(m: Metadata, location: Location, group: Option<Group>, httpMethod: HttpMethod,
                           locationType: KClass, bodyType: BodyType) returns (operation: Operation)
      requires env.Valid()
      modifies this
      ensures operation == env.createOperation(OperationSpecOf(env, m, location, group, httpMethod, locationType, bodyType))
      ensures definitions == OperationDefinitions(env, old(definitions), m, location.path, locationType)
      ensures paths == old(paths)
    {
      var responses := CreateResponses(m.responses);
      var parameters := CreateParameters(m, location.path, locationType, bodyType);
      operation := env.createOperation(OperationSpec(m, responses, parameters, location, group, httpMethod, locationType));
    }

    /** `responses.map { (status, type) -> ... }.toMap()`: register each response's definition and key it. */
    method CreateResponses(rs: seq<(HttpStatusCode, ResponseType)>) returns (responses: map<string, Response>)
      requires env.Valid()
      modifies this
      ensures responses == ResponseMap(env, rs)
      ensures definitions == RegisterResponses(env, old(definitions), rs)
      ensures paths == old(paths)
    {
      responses := map[];
      var i := 0;
      while i < |rs|
        invariant 0 <= i <= |rs|
        invariant RegisterResponses(env, definitions, rs[i..]) == RegisterResponses(env, old(definitions), rs)
        invariant ResponseMapFrom(env, responses, rs[i..]) == ResponseMap(env, rs)
        invariant paths == old(paths)
      {
        var (status, responseType) := rs[i];
        var response := CreateResponse(status, responseType);
        assert rs[i..][1..] == rs[i + 1..];
        responses := responses[IntToString(status.value) := response];
        i := i + 1;
      }
    }

    /** One step of the `responses.map`: register the response's definition and create its `Response`. */
    method CreateResponse(status: HttpStatusCode, responseType: ResponseType) returns (response: Response)
      requires env.Valid()
      modifies this
      ensures response == ResponseOf(env, status, responseType)
      ensures definitions == RegisterResponse(env, old(definitions), responseType)
      ensures paths == old(paths)
    {
      match responseType {
        case ResponseFromReflection(typeInfo) =>
          AddDefinition(typeInfo);
          response := env.reflectedResponse(status, typeInfo);
        case ResponseSchema(name, schema) =>
          AddDefintion(name, schema);
          response := env.namedResponse(name);
      }
    }

    /** The `parameters` list of `createOperation`, registering each property's nested types. */
    method CreateParameters(m: Metadata, path: string, locationType: KClass, bodyType: BodyType) returns (parameters: seq<Parameter>)
      requires env.Valid()
      modifies this
      ensures parameters == Parameters(env, m, path, locationType, bodyType)
      ensures definitions == ParameterDefinitions(env, old(definitions), m, path, locationType)
      ensures paths == old(paths)
    {
      parameters := [];
      if HasBodyParameter(bodyType) {
        parameters := parameters + [env.bodyParameter(bodyType)];
      }
      ghost var bodyParameters := parameters;
      assert bodyParameters == BodyParameters(env, bodyType);
      var bound := BindProperties(env.memberProperties(locationType), path, None);
      parameters := parameters + bound;
      ghost var (p0, d1) := (parameters, definitions);
      ghost var query := OptionalProperties(env, m.parameter);
      if m.parameter.Some? {
        bound := BindProperties(env.memberProperties(m.parameter.value), path, Some(Query));
        parameters := parameters + bound;
      } else {
        EmptyGroup(env, d1, path, Some(Query));
      }
      assert parameters == p0 + PropertyParameters(env, query, path, Some(Query));
      assert definitions == RegisterPropertyTypes(env, d1, query, path, Some(Query));
      ghost var (p1, d2) := (parameters, definitions);
      ghost var hdr := OptionalProperties(env, m.headers);
      if m.headers.Some? {
        bound := BindProperties(env.memberProperties(m.headers.value), path, Some(Header));
        parameters := parameters + bound;
      } else {
        EmptyGroup(env, d2, path, Some(Header));
      }
      assert parameters == p1 + PropertyParameters(env, hdr, path, Some(Header));
      assert definitions == RegisterPropertyTypes(env, d2, hdr, path, Some(Header));
      assert parameters == bodyParameters + PropertyParameters(env, env.memberProperties(locationType), path, None)
        + PropertyParameters(env, query, path, Some(Query)) + PropertyParameters(env, hdr, path, Some(Header));
    }

    /**
     * `properties.map { it.toParameter(path, kind).let { addDefinitions(it.second); it.first } }`
     */
    method BindProperties(props: seq<Property>, path: string, kind: Option<ParameterInputType>) returns (ps: seq<Parameter>)
      requires env.Valid()
      modifies this
      ensures ps == PropertyParameters(env, props, path, kind)
      ensures definitions == RegisterPropertyTypes(env, old(definitions), props, path, kind)
      ensures paths == old(paths)
    {
      ps := [];
      var i := 0;
      while i < |props|
        invariant 0 <= i <= |props|
        invariant |ps| == i && forall j :: 0 <= j < i ==> ps[j] == env.toParameter(props[j], path, kind).parameter
        invariant RegisterPropertyTypes(env, definitions, props[i..], path, kind)
          == RegisterPropertyTypes(env, old(definitions), props, path, kind)
        invariant paths == old(paths)
      {
        var data := env.toParameter(props[i], path, kind);
        AddDefinitions(data.nested);
        assert props[i..][1..] == props[i + 1..];
        ps := ps + [data.parameter];
        i := i + 1;
      }
    }

    /** `addDefintion` (spelled as in the source): `definitions.putIfAbsent(name, schema)`. */
    method AddDefintion(name: string, schema: Schema)
      modifies this
      ensures definitions == PutIfAbsent(old(definitions), name, schema)
      ensures paths == old(paths)
    {
      if name !in definitions {
        definitions := definitions[name := schema];
      }
    }

    /**
     * `addDefinition(typeInfo)`: compute the model data only when the name is
     * absent, collect the nested types it reports, then register each of them.
     */
    method AddDefinition(typeInfo: TypeInfo)
      requires env.Valid()
      modifies this
      ensures definitions == Register(env, old(definitions), typeInfo)
      ensures paths == old(paths)
      decreases Unregistered(env, definitions)
    {
      if !IsUnit(typeInfo) {
        var accruedNewDefinitions: seq<TypeInfo> := [];
        var name := env.modelName(typeInfo);
        if name !in definitions {
          var modelWithAdditionalDefinitions := env.createModelData(typeInfo);
          accruedNewDefinitions := accruedNewDefinitions + modelWithAdditionalDefinitions.nested;
          UnregisteredDrops(env, definitions, name, modelWithAdditionalDefinitions.schema);
          definitions := definitions[name := modelWithAdditionalDefinitions.schema];
        }
        var i := 0;
        while i < |accruedNewDefinitions|
          invariant 0 <= i <= |accruedNewDefinitions|
          invariant RegisterAll(env, definitions, accruedNewDefinitions[i..]) == Register(env, old(definitions), typeInfo)
          invariant accruedNewDefinitions != [] ==> Unregistered(env, definitions) < Unregistered(env, old(definitions))
          invariant paths == old(paths)
        {
          ghost var before := definitions;
          AddDefinition(accruedNewDefinitions[i]);
          UnregisteredShrinks(env, before, definitions);
          assert accruedNewDefinitions[i..][1..] == accruedNewDefinitions[i + 1..];
          i := i + 1;
        }
      }
    }

    /** `addDefinitions(types)`: register each type in order. */
    method AddDefinitions(kClasses: seq<TypeInfo>)
      requires env.Valid()
      modifies this
      ensures definitions == RegisterAll(env, old(definitions), kClasses)
      ensures paths == old(paths)
    {
      var i := 0;
      while i < |kClasses|
        invariant 0 <= i <= |kClasses|
        invariant RegisterAll(env, definitions, kClasses[i..]) == RegisterAll(env, old(definitions), kClasses)
        invariant paths == old(paths)
      {
        AddDefinition(kClasses[i]);
        assert kClasses[i..][1..] == kClasses[i + 1..];
        i := i + 1;
      }
    }
  }
}
