/**
 * The route-metadata builder of the playground API: an immutable `Metadata`
 * with field-replacing copies, the `responds` / `responses` constructors, the
 * `ok` / `created` / `notFound` pairs, and the choice of HTTP method and
 * entity type the `post` / `put` / `get` / `delete` route helpers register
 * with.
 */
module Api {
  import opened Kotlin
  import Ktor
  import SwaggerModel
  import Operations

  /** A declared response: a status and the class of its payload. */
  type ResponsePair = (Ktor.HttpStatusCode, KClass)

  /**
   * The playground `Metadata` data class; `responses` keeps the pairs in the
   * order they were given.
   */
  datatype Metadata = Metadata(
    responses: seq<ResponsePair>,
    summary: Option<string>,
    headers: Option<KClass>,
    parameter: Option<KClass>)
  {
    /** `header<T>()`: a copy whose headers class is `t`. */
    function Header(t: KClass): (r: Metadata)
      ensures r.headers == Some(t)
      ensures r.responses == responses && r.summary == summary && r.parameter == parameter
    {
      this.(headers := Some(t))
    }

    /** `parameter<T>()`: a copy whose extra query class is `t`. */
    function Parameter(t: KClass): (r: Metadata)
      ensures r.parameter == Some(t)
      ensures r.responses == responses && r.summary == summary && r.headers == headers
    {
      this.(parameter := Some(t))
    }
  }

  /** The two copies touch different fields, so their order does not matter. */
  lemma HeaderParameterCommute(m: Metadata, h: KClass, p: KClass)
    ensures m.Header(h).Parameter(p) == m.Parameter(p).Header(h)
  {
  }

  /** A later `header<T>()` replaces an earlier one. */
  lemma HeaderLastWins(m: Metadata, first: KClass, second: KClass)
    ensures m.Header(first).Header(second) == m.Header(second)
  {
  }

  /** `String.responds(vararg pairs)`: the receiver becomes the summary. */
  function SummaryResponds(summary: string, pairs: seq<ResponsePair>): (r: Metadata)
    ensures r.summary == Some(summary) && r.responses == pairs
    ensures r.headers.None? && r.parameter.None?
  {
    Metadata(responses := pairs, summary := Some(summary), headers := None, parameter := None)
  }

  /** `responds(pair)`: one response, nothing else set. */
  function Responds(pair: ResponsePair): (r: Metadata)
    ensures r.responses == [pair]
    ensures r.summary.None? && r.headers.None? && r.parameter.None?
  {
    Metadata(responses := [pair], summary := None, headers := None, parameter := None)
  }

  /** `responses(vararg pairs)`: the responses, nothing else set. */
  function Responses(pairs: seq<ResponsePair>): (r: Metadata)
    ensures r.responses == pairs
    ensures r.summary.None? && r.headers.None? && r.parameter.None?
  {
    Metadata(responses := pairs, summary := None, headers := None, parameter := None)
  }

  /** `responds(pair)` is `responses(pair)` with a single pair. */
  lemma RespondsIsSingleResponses(pair: ResponsePair)
    ensures Responds(pair) == Responses([pair])
  {
  }

  /** `ok<T>()` */
  function Ok(t: KClass): (r: ResponsePair)
    ensures r.0 == Ktor.OK && r.0.value == 200 && r.1 == t
  {
    (Ktor.OK, t)
  }

  /** `created<T>()` */
  function Created(t: KClass): (r: ResponsePair)
    ensures r.0 == Ktor.Created && r.0.value == 201 && r.1 == t
  {
    (Ktor.Created, t)
  }

  /** `notFound()`: 404 with the absence type as payload. */
  function NotFound(): (r: ResponsePair)
    ensures r.0 == Ktor.NotFound && r.0.value == 404 && r.1 == UnitClass
  {
    (Ktor.NotFound, UnitClass)
  }

  /** What a route helper hands to the synthesis: the method, the location class and the entity type. */
  datatype Registration = Registration(httpMethod: Ktor.HttpMethod, location: KClass, entity: Ktor.TypeInfo)

  /** `post<LOCATION, ENTITY>`: registered as POST with the declared entity type. */
  function Post(location: KClass, entity: Ktor.TypeInfo): (r: Registration)
    ensures r.httpMethod == Ktor.Post && r.location == location && r.entity == entity
  {
    Registration(Ktor.Post, location, entity)
  }

  /** `put<LOCATION, ENTITY>`: registered as PUT with the declared entity type. */
  function Put(location: KClass, entity: Ktor.TypeInfo): (r: Registration)
    ensures r.httpMethod == Ktor.Put && r.location == location && r.entity == entity
  {
    Registration(Ktor.Put, location, entity)
  }

  /** `get<LOCATION>`: registered as GET with entity type Unit. */
  function Get(location: KClass): (r: Registration)
    ensures r.httpMethod == Ktor.Get && r.location == location && Ktor.IsUnit(r.entity)
  {
    Registration(Ktor.Get, location, Ktor.UnitTypeInfo)
  }

  /** `delete<LOCATION>`: registered as DELETE with entity type Unit. */
  function Delete(location: KClass): (r: Registration)
    ensures r.httpMethod == Ktor.Delete && r.location == location && Ktor.IsUnit(r.entity)
  {
    Registration(Ktor.Delete, location, Ktor.UnitTypeInfo)
  }

  /**
   * A GET or DELETE route never yields a body: with an explicit body schema
   * the registration fails, and otherwise the body is reflected Unit, which
   * contributes neither a parameter nor a definition.
   */
  lemma ReadRoutesHaveNoBody(env: SwaggerModel.Collaborators, defs: SwaggerModel.Definitions,
                             m: SwaggerModel.Metadata, location: KClass)
    requires env.Valid()
    ensures forall reg :: reg == Get(location) || reg == Delete(location) ==>
      && (m.bodySchema.Some? <==> Operations.RequireMethodSupportsBody(m, reg.httpMethod).Fail?)
      && (m.bodySchema.None? ==>
            var body := Operations.CreateBodyType(env, m, reg.entity);
            !Operations.HasBodyParameter(body) && Operations.RegisterBody(env, defs, body) == defs)
  {
  }

  /**
   * A POST or PUT route with a non-Unit entity and no explicit schema always
   * has a body parameter and registers the entity's definition.
   */
  lemma WriteRoutesHaveBody(env: SwaggerModel.Collaborators, defs: SwaggerModel.Definitions,
                            m: SwaggerModel.Metadata, location: KClass, entity: Ktor.TypeInfo)
    requires env.Valid()
    requires m.bodySchema.None? && !Ktor.IsUnit(entity)
    ensures forall reg :: reg == Post(location, entity) || reg == Put(location, entity) ==>
      && Operations.RequireMethodSupportsBody(m, reg.httpMethod).Pass?
      && var body := Operations.CreateBodyType(env, m, reg.entity);
      && Operations.HasBodyParameter(body)
      && env.modelName(entity) in Operations.RegisterBody(env, defs, body)
  {
  }

  /** A `notFound()` response creates no definition: its payload is the absence type. */
  lemma NotFoundRegistersNothing(env: SwaggerModel.Collaborators, defs: SwaggerModel.Definitions, reifiedType: string)
    requires env.Valid()
    ensures var t := Ktor.TypeInfo(NotFound().1, reifiedType);
      Operations.RegisterResponse(env, defs, SwaggerModel.ResponseFromReflection(t)) == defs
  {
  }
}
