# ktor-swagger: a verified model of Swagger document synthesis

This project models the core of ktor-swagger, a Ktor feature that builds a
Swagger 2.0 document from the routes an application declares. The model
covers two things.

- `SwaggerSupport`. When a route is declared, the feature checks that the
  HTTP method may carry a body. It then works out the body type, registers
  the schema definitions that the body, the responses and the parameters
  need, builds the operation's response map and its ordered parameter list,
  and stores the operation in the document's `paths[path][method]` slot.
  The definitions table is append-only: the first writer of a name wins. A
  reflected type is expanded only when its name is new, and the nested types
  it reports are then registered recursively, so self-referential types
  terminate.
- The playground `Api.kt` builder. It supplies the route metadata (copies
  of `Metadata`, `responds`, `ok`, `created`, `notFound`) and the method and
  entity type each route helper registers with.

Modules, leaves first:

| file | module | models |
|---|---|---|
| kotlin.dfy | `Kotlin` | nullable values, `require` failure, `KClass` identity, ASCII `toLowerCase`, `Int.toString` |
| ktor.dfy | `Ktor` | `HttpMethod`, `HttpStatusCode`, `TypeInfo`, the Unit check |
| swagger_model.dfy | `SwaggerModel` | the document entities and the collaborators whose code is not part of this model |
| definitions.dfy | `DefinitionRegistry` | `addDefintion`, `addDefinition` and `addDefinitions` as functions on the definitions map, with termination and closure |
| operations.dfy | `Operations` | `requireMethodSupportsBody`, `createBodyType`, and each step of `applyOperations` as functions |
| swagger_support.dfy | `SwaggerSupport` | the `SwaggerSupport` class, which updates `definitions` and `paths` in place and is proved equal to those functions; UI configuration defaults; the redirect target |
| api.dfy | `Api` | the playground `Metadata` and its builder functions; the route helpers |

Several collaborators are called by the core but their code is not part of
this model: `modelName`, `createModelData`, `memberProperties`,
`toParameter`, `bodyParameter`, both `Response.create`s and
`Operation.create`. They are the function-valued fields of
`SwaggerModel.Collaborators`. Every property below holds whatever those
functions compute. The one assumption is `Collaborators.Valid()`: the set of
names `modelName` can return is finite (`modelNames`). A program has
finitely many classes, so this holds in practice. It is also exactly what
makes the recursion in `addDefinition` terminate. The termination measure
is the number of names in `modelNames` that are not yet keys of
`definitions`.

The operation object the source stores is `Operation.create(...)`. The model
stores `env.createOperation(spec)`, where `spec` (an `OperationSpec`)
records the values that call receives. That way the response map and the
parameter order can be stated and proved.

## Two behaviours of the code worth noting

- When two types share a definition name, the first writer wins. The code
  stores definitions with `putIfAbsent` and `computeIfAbsent`
  (SwaggerSupport.kt lines 169 and 175), which never overwrite an entry
  (`PutIfAbsent`, `Register`).
- A Unit response still gets an entry in the operation's response map,
  through `Response.create(status, type)` (line 110). Only its definition is
  skipped, by the Unit check on line 173 (`ResponseMapContents`,
  `NotFoundRegistersNothing`).

## Model

| member | source | states |
|---|---|---|
| `Kotlin.ToLowerCase` | ktor-swagger/src/main/kotlin/de/nielsfalk/ktor/swagger/SwaggerSupport.kt:163 | the result has the input's length and every character lowered (A-Z to a-z, other characters unchanged) |
| `Kotlin.NatToStringInjective` | ktor-swagger/src/main/kotlin/de/nielsfalk/ktor/swagger/SwaggerSupport.kt:118 | two naturals with the same decimal text are equal |
| `Kotlin.IntToStringInjective` | ktor-swagger/src/main/kotlin/de/nielsfalk/ktor/swagger/SwaggerSupport.kt:118 | `Int.toString` is injective, including for negative values |
| `Operations.StatusKeyInjective` | ktor-swagger/src/main/kotlin/de/nielsfalk/ktor/swagger/SwaggerSupport.kt:118 | two statuses with the same response key have the same numeric value |
| `Operations.StandardStatusKeys` | ktor-swagger/src/main/kotlin/de/nielsfalk/ktor/swagger/SwaggerSupport.kt:118 | the OK, Created and NotFound statuses are keyed "200", "201" and "404" |
| `Operations.StatusKey` | ktor-swagger/src/main/kotlin/de/nielsfalk/ktor/swagger/SwaggerSupport.kt:118 | the key is non-empty and starts with '-' exactly when the status value is negative |
| `Kotlin.NatToString` | ktor-swagger/src/main/kotlin/de/nielsfalk/ktor/swagger/SwaggerSupport.kt:118 | the decimal text is non-empty, all digits, has two or more digits exactly from 10 on, and ends with the last digit |
| `Kotlin.IntToString` | ktor-swagger/src/main/kotlin/de/nielsfalk/ktor/swagger/SwaggerSupport.kt:118 | the text is non-empty and starts with '-' exactly when the number is negative |
| `Operations.StandardMethodKeys` | ktor-swagger/src/main/kotlin/de/nielsfalk/ktor/swagger/SwaggerSupport.kt:163 | GET, POST, PUT, PATCH, DELETE, HEAD and OPTIONS are stored under "get", "post", "put", "patch", "delete", "head" and "options" |
| `Operations.RequireMethodSupportsBody` | ktor-swagger/src/main/kotlin/de/nielsfalk/ktor/swagger/SwaggerSupport.kt:73-76 | registration fails exactly when the method is GET or DELETE (the set on line 59) and an explicit body schema is given; the failure carries the source's message |
| `Ktor.MethodToString` | ktor-swagger/src/main/kotlin/de/nielsfalk/ktor/swagger/SwaggerSupport.kt:75 | the `$method` text is "HttpMethod(value=", the method name, then ")" |
| `Operations.CreateBodyType` | ktor-swagger/src/main/kotlin/de/nielsfalk/ktor/swagger/SwaggerSupport.kt:65-71 | the body comes from a schema exactly when a body schema is given; it is named by the schema's name, or else by the entity type's model name; otherwise the body is the reflected entity type |
| `Operations.RegisterBody` | ktor-swagger/src/main/kotlin/de/nielsfalk/ktor/swagger/SwaggerSupport.kt:96-103 | an explicit body is put-if-absent under its name; a reflected non-Unit body's model name becomes a key; a reflected Unit body changes nothing; no existing entry changes |
| `DefinitionRegistry.PutIfAbsent` | ktor-swagger/src/main/kotlin/de/nielsfalk/ktor/swagger/SwaggerSupport.kt:168-170 | afterwards the name is a key; an existing entry is never overwritten; a new name holds the given schema; the keys grow by exactly that name; every other entry is unchanged |
| `DefinitionRegistry.UnregisteredDrops` | ktor-swagger/src/main/kotlin/de/nielsfalk/ktor/swagger/SwaggerSupport.kt:175 | inserting a new possible name strictly decreases the number of unregistered names, which is the recursion's termination measure |
| `DefinitionRegistry.Register` | ktor-swagger/src/main/kotlin/de/nielsfalk/ktor/swagger/SwaggerSupport.kt:172-183 | terminates on every input, self-referential types included; no key removed and no value changed; a non-Unit type's name is a key afterwards; for Unit, or for a name already present, nothing changes; a new name holds the producer's schema |
| `DefinitionRegistry.RegisterAll` | ktor-swagger/src/main/kotlin/de/nielsfalk/ktor/swagger/SwaggerSupport.kt:185-188 | no entry changes, and every non-Unit type in the list has its name registered |
| `DefinitionRegistry.ExtendsTransitive` | ktor-swagger/src/main/kotlin/de/nielsfalk/ktor/swagger/SwaggerSupport.kt:168-170 | "no key removed, no value changed" composes across successive registrations |
| `DefinitionRegistry.UnregisteredShrinks` | ktor-swagger/src/main/kotlin/de/nielsfalk/ktor/swagger/SwaggerSupport.kt:181 | growing the keys never increases the termination measure |
| `DefinitionRegistry.ClosedAfterProducer` | ktor-swagger/src/main/kotlin/de/nielsfalk/ktor/swagger/SwaggerSupport.kt:175-181 | one producer run, followed by a closed registration of its nested types, gives a closed registration |
| `DefinitionRegistry.ClosedSequence` | ktor-swagger/src/main/kotlin/de/nielsfalk/ktor/swagger/SwaggerSupport.kt:181 | two closed registrations in a row make one |
| `DefinitionRegistry.RegisteredMembers` | ktor-swagger/src/main/kotlin/de/nielsfalk/ktor/swagger/SwaggerSupport.kt:181 | every non-Unit member of a registered list has a definition |
| `DefinitionRegistry.RegisterClosed` | ktor-swagger/src/main/kotlin/de/nielsfalk/ktor/swagger/SwaggerSupport.kt:174-181 | each type whose producer ran is non-Unit and was new, its schema is stored under its name, and every non-Unit nested type it reports is registered too, transitively; the new keys are exactly those types' names |
| `DefinitionRegistry.RegisterAllClosed` | ktor-swagger/src/main/kotlin/de/nielsfalk/ktor/swagger/SwaggerSupport.kt:185-188 | the same closure for a list of types registered in order |
| `DefinitionRegistry.ProducerRunsIffAbsent` | ktor-swagger/src/main/kotlin/de/nielsfalk/ktor/swagger/SwaggerSupport.kt:173-179 | the producer runs for a type exactly when it is not Unit and its name is absent; otherwise no producer runs at all |
| `DefinitionRegistry.Produced` | ktor-swagger/src/main/kotlin/de/nielsfalk/ktor/swagger/SwaggerSupport.kt:173-181 | the producer runs for the type itself exactly when it is non-Unit and its name is absent, and every type whose producer runs during the registration is non-Unit and was absent at the start |
| `DefinitionRegistry.ProducedAll` | ktor-swagger/src/main/kotlin/de/nielsfalk/ktor/swagger/SwaggerSupport.kt:185-188 | every type whose producer runs while a list is registered is non-Unit and was absent at the start |
| `DefinitionRegistry.RegisterIdempotent` | ktor-swagger/src/main/kotlin/de/nielsfalk/ktor/swagger/SwaggerSupport.kt:172-183 | registering a type a second time changes nothing and runs no producer |
| `Operations.RegisterResponse` | ktor-swagger/src/main/kotlin/de/nielsfalk/ktor/swagger/SwaggerSupport.kt:107-116 | a named response schema's name becomes a key; a reflected non-Unit response type's name becomes a key; a Unit response changes nothing; no entry changes |
| `Operations.ResponseOf` | ktor-swagger/src/main/kotlin/de/nielsfalk/ktor/swagger/SwaggerSupport.kt:107-116 | a reflected response becomes `Response.create(status, type)`; a named schema becomes `Response.create(name)` |
| `Operations.RegisterResponses` | ktor-swagger/src/main/kotlin/de/nielsfalk/ktor/swagger/SwaggerSupport.kt:106-119 | registering the responses in order never removes or changes an entry |
| `Operations.ResponsesRegistered` | ktor-swagger/src/main/kotlin/de/nielsfalk/ktor/swagger/SwaggerSupport.kt:106-119 | after all responses are registered, each one's definition (reflected non-Unit type or schema name) is present |
| `Operations.StatusKeysCons` | ktor-swagger/src/main/kotlin/de/nielsfalk/ktor/swagger/SwaggerSupport.kt:118 | the keys of a response list are its first key plus the keys of the rest |
| `Operations.ResponseMapFromKeys` | ktor-swagger/src/main/kotlin/de/nielsfalk/ktor/swagger/SwaggerSupport.kt:118-119 | `.toMap()` adds exactly the declared status keys and keeps every other entry |
| `Operations.ResponseMapFrom` | ktor-swagger/src/main/kotlin/de/nielsfalk/ktor/swagger/SwaggerSupport.kt:118-119 | `.toMap()` from an initial map keeps its keys and has every declared status key |
| `Operations.ResponseMap` | ktor-swagger/src/main/kotlin/de/nielsfalk/ktor/swagger/SwaggerSupport.kt:106-119 | the operation's response map has exactly the declared status keys |
| `Operations.LastWithKeyTail` | ktor-swagger/src/main/kotlin/de/nielsfalk/ktor/swagger/SwaggerSupport.kt:118-119 | a declaration that is last with its key stays last once the first declaration is dropped |
| `Operations.ResponseMapFromLast` | ktor-swagger/src/main/kotlin/de/nielsfalk/ktor/swagger/SwaggerSupport.kt:118-119 | every declared key is present and holds the response of the last declaration with that key |
| `Operations.ResponseMapContents` | ktor-swagger/src/main/kotlin/de/nielsfalk/ktor/swagger/SwaggerSupport.kt:106-119 | the response map's keys are exactly `status.value.toString()` of the declared responses, and each key holds the last such response (`Response.create(status, type)` or `Response.create(name)`) |
| `Operations.ResponseMapDistinct` | ktor-swagger/src/main/kotlin/de/nielsfalk/ktor/swagger/SwaggerSupport.kt:106-119 | when the status values are pairwise distinct, every declared response appears under its own key, exactly as declared |
| `Operations.PropertyParameters` | ktor-swagger/src/main/kotlin/de/nielsfalk/ktor/swagger/SwaggerSupport.kt:125-130 | one parameter per property, in property order: the first component of `toParameter` with the group's location tag |
| `Operations.BodyParameters` | ktor-swagger/src/main/kotlin/de/nielsfalk/ktor/swagger/SwaggerSupport.kt:122-124 | at most one parameter; none exactly when the body is reflected Unit; otherwise it is `bodyType.bodyParameter()` |
| `Operations.Parameters` | ktor-swagger/src/main/kotlin/de/nielsfalk/ktor/swagger/SwaggerSupport.kt:121-147 | the list has one entry per body parameter, location property, query property and header property; an explicit body schema is entry 0 |
| `Operations.RegisterPropertyTypes` | ktor-swagger/src/main/kotlin/de/nielsfalk/ktor/swagger/SwaggerSupport.kt:125-146 | `addDefinitions(it.second)` for each property of a group, in order: no entry is removed or changed, and every non-Unit nested type that `toParameter` reports for any property of the group is registered afterwards |
| `Operations.NestedRegisteredCons` | ktor-swagger/src/main/kotlin/de/nielsfalk/ktor/swagger/SwaggerSupport.kt:125-130 | the first property's nested types being registered, together with the rest of the group's, gives the whole group's |
| `Operations.NestedRegisteredStable` | ktor-swagger/src/main/kotlin/de/nielsfalk/ktor/swagger/SwaggerSupport.kt:127 | an extended table keeps a group's nested types registered |
| `Operations.EmptyGroup` | ktor-swagger/src/main/kotlin/de/nielsfalk/ktor/swagger/SwaggerSupport.kt:131-146 | an absent group contributes no parameter and no definition |
| `Operations.ParameterOrder` | ktor-swagger/src/main/kotlin/de/nielsfalk/ktor/swagger/SwaggerSupport.kt:121-147 | position by position the list is: the body parameter, present exactly when the body is not reflected Unit; then one per location property (no tag); then one per extra query property (`query`); then one per header property (`header`) |
| `Operations.SchemaBodyComesFirst` | ktor-swagger/src/main/kotlin/de/nielsfalk/ktor/swagger/SwaggerSupport.kt:122-124 | an explicit body schema always contributes the first parameter |
| `Operations.AbsentGroupsAddNothing` | ktor-swagger/src/main/kotlin/de/nielsfalk/ktor/swagger/SwaggerSupport.kt:131-146 | without extra query or header classes the list is the body parameter plus the location parameters only |
| `Operations.ParameterDefinitions` | ktor-swagger/src/main/kotlin/de/nielsfalk/ktor/swagger/SwaggerSupport.kt:121-147 | no entry is removed or changed, and afterwards the nested types of the location, query and header properties all have definitions |
| `Operations.OperationDefinitions` | ktor-swagger/src/main/kotlin/de/nielsfalk/ktor/swagger/SwaggerSupport.kt:105-147 | after `createOperation`, every declared response's definition and every parameter's nested type are present, and nothing registered by the responses has changed |
| `Operations.DefinitionsAfter` | ktor-swagger/src/main/kotlin/de/nielsfalk/ktor/swagger/SwaggerSupport.kt:96-147 | the definitions after `applyOperations` extend those before: monotone growth, no overwrite |
| `Operations.DefinitionsAfterRegistered` | ktor-swagger/src/main/kotlin/de/nielsfalk/ktor/swagger/SwaggerSupport.kt:96-147 | afterwards the body's definition (explicit name, or reflected non-Unit model name), every response's definition and the nested types of the location, query and header properties are all present, and nothing that was there changed |
| `Operations.PutOperation` | ktor-swagger/src/main/kotlin/de/nielsfalk/ktor/swagger/SwaggerSupport.kt:160-165 | afterwards `paths[path][key]` holds the new operation; every other path's slot map is exactly as before, absent paths other than `path` stay absent; within `path` every other method slot is unchanged and the only key added is the method |
| `Operations.PutOperationOverwrites` | ktor-swagger/src/main/kotlin/de/nielsfalk/ktor/swagger/SwaggerSupport.kt:160-165 | a second registration in the same slot overwrites the first |
| `Operations.PathsAfter` | ktor-swagger/src/main/kotlin/de/nielsfalk/ktor/swagger/SwaggerSupport.kt:160-165 | `paths[location.path][lowercase(method)]` holds `Operation.create` applied to this operation's arguments; the only path added is `location.path` and the only method key added under it is the method; every other path maps to exactly its old slots, and every other method slot of that path keeps its operation |
| `Operations.MethodKey` | ktor-swagger/src/main/kotlin/de/nielsfalk/ktor/swagger/SwaggerSupport.kt:163 | the key has the method name's length and each character lowered |
| `Operations.OperationSpecOf` | ktor-swagger/src/main/kotlin/de/nielsfalk/ktor/swagger/SwaggerSupport.kt:149-157 | `Operation.create` receives the metadata, location, group, method and location class unchanged, the last-wins response map (`ResponseMap`, contents in `ResponseMapContents`) and the ordered parameter list (`Parameters`, order in `ParameterOrder`) |
| `Operations.LowerAscii` | ktor-swagger/src/main/kotlin/de/nielsfalk/ktor/swagger/SwaggerSupport.kt:163 | lowering a string whose characters lower to a given spelling yields that spelling |
| `SwaggerSupport.SwaggerSupport.constructor` | ktor-swagger/src/main/kotlin/de/nielsfalk/ktor/swagger/SwaggerSupport.kt:20-22 | the feature owns the given document maps and collaborators |
| `SwaggerSupport.SwaggerSupport.Apply` | ktor-swagger/src/main/kotlin/de/nielsfalk/ktor/swagger/SwaggerSupport.kt:78-86 | the outcome is the body guard's; on failure nothing changes; on success the new definitions and paths are `DefinitionsAfter` and `PathsAfter` of the old ones, with the body from `CreateBodyType` |
| `SwaggerSupport.SwaggerSupport.ApplyOperations` | ktor-swagger/src/main/kotlin/de/nielsfalk/ktor/swagger/SwaggerSupport.kt:88-166 | the body is registered, then the operation is built and put in `paths[location.path][lowercase(method)]`; the new state is `DefinitionsAfter` / `PathsAfter` of the old |
| `SwaggerSupport.SwaggerSupport.CreateOperation` | ktor-swagger/src/main/kotlin/de/nielsfalk/ktor/swagger/SwaggerSupport.kt:105-158 | `Operation.create` receives the response map and the ordered parameter list; the definitions become `OperationDefinitions` of the old; paths are untouched |
| `SwaggerSupport.SwaggerSupport.CreateResponses` | ktor-swagger/src/main/kotlin/de/nielsfalk/ktor/swagger/SwaggerSupport.kt:106-119 | the loop over the responses returns `ResponseMap` and leaves `RegisterResponses` of the old definitions |
| `SwaggerSupport.SwaggerSupport.CreateResponse` | ktor-swagger/src/main/kotlin/de/nielsfalk/ktor/swagger/SwaggerSupport.kt:107-116 | one mapped response: the definitions become `RegisterResponse` of the old and the result is `ResponseOf` (the matching `Response.create`); paths untouched |
| `SwaggerSupport.SwaggerSupport.CreateParameters` | ktor-swagger/src/main/kotlin/de/nielsfalk/ktor/swagger/SwaggerSupport.kt:121-147 | the mutable list built by `add` / `addAll` equals `Parameters` (order as in `ParameterOrder`); the definitions become `ParameterDefinitions` of the old |
| `SwaggerSupport.SwaggerSupport.BindProperties` | ktor-swagger/src/main/kotlin/de/nielsfalk/ktor/swagger/SwaggerSupport.kt:125-130 | the mapped list equals `PropertyParameters`, and each property's nested types are registered in order |
| `SwaggerSupport.SwaggerSupport.AddDefintion` | ktor-swagger/src/main/kotlin/de/nielsfalk/ktor/swagger/SwaggerSupport.kt:168-170 | the in-place update equals `PutIfAbsent` of the old definitions; paths untouched |
| `SwaggerSupport.SwaggerSupport.AddDefinition` | ktor-swagger/src/main/kotlin/de/nielsfalk/ktor/swagger/SwaggerSupport.kt:172-183 | the recursive in-place update terminates (measure: unregistered names) and equals `Register` of the old definitions; paths untouched |
| `SwaggerSupport.SwaggerSupport.AddDefinitions` | ktor-swagger/src/main/kotlin/de/nielsfalk/ktor/swagger/SwaggerSupport.kt:185-188 | the loop equals `RegisterAll` of the old definitions; paths untouched |
| `SwaggerSupport.DefaultConfiguration` | ktor-swagger/src/main/kotlin/de/nielsfalk/ktor/swagger/SwaggerSupport.kt:191-196 | the defaults are path "apidocs", `forwardRoot` false and `provideUi` true |
| `SwaggerSupport.RedirectTarget` | ktor-swagger/src/main/kotlin/de/nielsfalk/ktor/swagger/SwaggerSupport.kt:51-53 | the target is "/", then the mount path, then "/index.html?url=swagger.json" |
| `SwaggerSupport.RedirectTargetInjective` | ktor-swagger/src/main/kotlin/de/nielsfalk/ktor/swagger/SwaggerSupport.kt:51-53 | different mount paths give different redirect targets |
| `SwaggerSupport.DefaultRedirect` | ktor-swagger/src/test/kotlin/de/nielsfalk/playground/ktor/swagger/SwaggerSupportTest.kt:20-22 | with the defaults, the redirect goes to "/apidocs/index.html?url=swagger.json" |
| `Api.Metadata.Header` | ktor-swagger/src/main/kotlin/de/nielsfalk/playground/ktor/swagger/Api.kt:27 | the copy's `headers` is the given class; `responses`, `summary` and `parameter` are unchanged |
| `Api.Metadata.Parameter` | ktor-swagger/src/main/kotlin/de/nielsfalk/playground/ktor/swagger/Api.kt:29 | the copy's `parameter` is the given class; `responses`, `summary` and `headers` are unchanged |
| `Api.HeaderParameterCommute` | ktor-swagger/src/main/kotlin/de/nielsfalk/playground/ktor/swagger/Api.kt:27-29 | the two copies commute |
| `Api.HeaderLastWins` | ktor-swagger/src/main/kotlin/de/nielsfalk/playground/ktor/swagger/Api.kt:27 | a later `header<T>()` replaces an earlier one |
| `Api.SummaryResponds` | ktor-swagger/src/main/kotlin/de/nielsfalk/playground/ktor/swagger/Api.kt:32 | the receiver string is the summary and the pairs are the responses; `headers` and `parameter` are null |
| `Api.Responds` | ktor-swagger/src/main/kotlin/de/nielsfalk/playground/ktor/swagger/Api.kt:34 | the one pair is the only response; `summary`, `headers` and `parameter` are null |
| `Api.Responses` | ktor-swagger/src/main/kotlin/de/nielsfalk/playground/ktor/swagger/Api.kt:35 | the pairs are the responses; `summary`, `headers` and `parameter` are null |
| `Api.RespondsIsSingleResponses` | ktor-swagger/src/main/kotlin/de/nielsfalk/playground/ktor/swagger/Api.kt:34-35 | `responds(pair)` equals `responses(pair)` |
| `Api.Ok` | ktor-swagger/src/main/kotlin/de/nielsfalk/playground/ktor/swagger/Api.kt:37 | the pair is (OK, 200) with the given class |
| `Api.Created` | ktor-swagger/src/main/kotlin/de/nielsfalk/playground/ktor/swagger/Api.kt:38 | the pair is (Created, 201) with the given class |
| `Api.NotFound` | ktor-swagger/src/main/kotlin/de/nielsfalk/playground/ktor/swagger/Api.kt:39 | the pair is (NotFound, 404) with `Unit::class` |
| `Api.Post` | ktor-swagger/src/main/kotlin/de/nielsfalk/playground/ktor/swagger/Api.kt:42-50 | registers as POST with the declared entity type |
| `Api.Put` | ktor-swagger/src/main/kotlin/de/nielsfalk/playground/ktor/swagger/Api.kt:52-60 | registers as PUT with the declared entity type |
| `Api.Get` | ktor-swagger/src/main/kotlin/de/nielsfalk/playground/ktor/swagger/Api.kt:62-68 | registers as GET with entity type Unit |
| `Api.Delete` | ktor-swagger/src/main/kotlin/de/nielsfalk/playground/ktor/swagger/Api.kt:70-76 | registers as DELETE with entity type Unit |
| `Api.ReadRoutesHaveNoBody` | ktor-swagger/src/main/kotlin/de/nielsfalk/playground/ktor/swagger/Api.kt:62-76 | for GET and DELETE routes, an explicit body schema makes registration fail; without one, the body contributes neither a parameter nor a definition |
| `Api.WriteRoutesHaveBody` | ktor-swagger/src/main/kotlin/de/nielsfalk/playground/ktor/swagger/Api.kt:42-60 | for POST and PUT routes with a non-Unit entity and no explicit schema, registration proceeds, a body parameter is present, and the entity's definition is registered |
| `Api.NotFoundRegistersNothing` | ktor-swagger/src/main/kotlin/de/nielsfalk/playground/ktor/swagger/Api.kt:39 | a `notFound()` response leaves the definitions unchanged, because its type is Unit |

## Left out

- Feature installation and routing are left out: `install`, `routing`, the
  `/{path}`, `/{path}/{fileName}` and `/` routes, `respond`,
  `respondRedirect` and `SwaggerUi.serve`. They are HTTP plumbing over the
  Ktor framework and webjar file serving. Only the redirect target string
  and the configuration defaults are modelled.
- `SwaggerUiConfiguration.swagger` (the initial `Swagger()` document) is left
  out. The `Swagger` class is not part of this model. The constructor of
  `SwaggerSupport.SwaggerSupport` takes the initial maps as inputs instead.
  The document's other fields (`swagger`, `info`, `basePath`) are not
  modelled either.
- Kotlin reflection and annotations are not modelled. `getAnnotation` for
  `@Location` and `@Group` is replaced by the explicit inputs `location` and
  `group` of `Apply`. A location class without `@Location` (a null pointer
  failure in the source) is not modelled. `memberProperties` is a
  collaborator that returns an ordered list.
- The inline reified `Metadata.apply<LOCATION, ENTITY>(method)` (lines 61-63)
  is not a separate member. `Apply` takes the class and the `TypeInfo` that
  it would pass.
- The bodies of `createModelData`, `modelName`, `toParameter`,
  `bodyParameter`, `Response.create` and `Operation.create` are not part of
  this model. They are uninterpreted fields of `Collaborators`, and the
  properties hold for any choice of them.
- Thread safety of `computeIfAbsent` is not modelled, because the model is
  single-threaded. JSON serialisation of the document is not modelled
  either.
- Only the redirect assertion of the test class is modelled
  (`DefaultRedirect`). The test class's other checks are HTTP responses.
- In `Api.kt`, `mapOf(*pairs)` is kept as the list of pairs in the given
  order. What `mapOf` does with duplicate keys is library behaviour and is
  not specified.
- The swagger-side `Metadata.responses` is an ordered list of (status,
  response type) pairs. Its `.toMap()` is modelled explicitly: a later
  declaration with the same status value replaces an earlier one.
- The `post` / `put` / `get` / `delete` helpers stop where they hand the
  method and entity type to the synthesis. Handler wiring (`call.receive()`,
  the Ktor `post<LOCATION>` routes) is not modelled.
- Kotlin.ToLowerCase: lowers only the ASCII letters A-Z, because HTTP method
  names are ASCII. Locale-dependent and non-ASCII case mapping is not
  modelled.
- DefinitionRegistry.Register: termination rests on
  `Collaborators.Valid()`, which says `modelName` has a finite range. A
  collaborator that could invent ever-new names would make the original
  recursion diverge as well.
