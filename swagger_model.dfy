/**
 * The entities of the Swagger document model that the synthesis reads and
 * builds, and the collaborators it calls without their code being part of this
 * model (`modelName`, `createModelData`, `memberProperties`, `toParameter`,
 * `bodyParameter`, `Response.create`, `Operation.create`). Those collaborators
 * are fields of `Collaborators`, so every property proved below holds for
 * whatever they compute.
 */
module SwaggerModel {
  import opened Kotlin
  import opened Ktor

  /** A schema object as stored in `Swagger.definitions` (typed `Any` by the source). */
  type Schema

  /** A Swagger `Parameter` object. */
  type Parameter

  /** A Swagger `Response` object. */
  type Response

  /** A Swagger `Operation` object. */
  type Operation

  /** The explicit location tag `toParameter` is given for non-location fields. */
  datatype ParameterInputType = Query | Header

  /** A member property of a class: its name and its declared type. */
  datatype Property = Property(name: string, returnType: TypeInfo)

  /** The `@Location` annotation of a location class: its path template. */
  datatype Location = Location(path: string)

  /** The `@Group` annotation of a location class: the tag of its operations. */
  datatype Group = Group(name: string)

  /** A caller-supplied body schema, optionally named. */
  datatype BodySchema = BodySchema(name: Option<string>, schema: Schema)

  /** What a declared response carries: a reflected type or an explicit, named schema. */
  datatype ResponseType =
    | ResponseFromReflection(typeInfo: TypeInfo)
    | ResponseSchema(name: string, schema: Schema)

  /**
   * The route metadata the synthesis consumes: an optional explicit body
   * schema, the declared responses in declaration order, optional classes
   * holding extra query parameters and headers, and a summary.
   */
  datatype Metadata = Metadata(
    bodySchema: Option<BodySchema>,
    responses: seq<(HttpStatusCode, ResponseType)>,
    parameter: Option<KClass>,
    headers: Option<KClass>,
    summary: Option<string>)

  /** How the request body is described: an explicit named schema, or a reflected type. */
  datatype BodyType =
    | BodyFromSchema(name: string, schema: Schema)
    | BodyFromReflection(typeInfo: TypeInfo)

  /** What `createModelData` returns: the schema and the nested types it references. */
  datatype ModelData = ModelData(schema: Schema, nested: seq<TypeInfo>)

  /** What `toParameter` returns: the parameter and the nested types it references. */
  datatype ParameterData = ParameterData(parameter: Parameter, nested: seq<TypeInfo>)

  /** The arguments `Operation.create` is called with. */
  datatype OperationSpec = OperationSpec(
    metadata: Metadata,
    responses: map<string, Response>,
    parameters: seq<Parameter>,
    location: Location,
    group: Option<Group>,
    httpMethod: HttpMethod,
    locationType: KClass)

  /**
   * The collaborators the synthesis calls. `modelNames` is the finite set of
   * names `modelName` can produce: a program has finitely many classes, and
   * this finiteness is what makes `addDefinition` terminate.
   */
  datatype Collaborators = Collaborators(
    modelName: TypeInfo -> string,
    modelNames: set<string>,
    createModelData: TypeInfo -> ModelData,
    memberProperties: KClass -> seq<Property>,
    toParameter: (Property, string, Option<ParameterInputType>) -> ParameterData,
    bodyParameter: BodyType -> Parameter,
    reflectedResponse: (HttpStatusCode, TypeInfo) -> Response,
    namedResponse: string -> Response,
    createOperation: OperationSpec -> Operation)
  {
    ghost predicate Valid() {
      forall t :: modelName(t) in modelNames
    }
  }

  type Definitions = map<string, Schema>
  type Paths = map<string, map<string, Operation>>
}
