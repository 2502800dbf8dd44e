/**
 * The Ktor values the synthesis works with: HTTP methods, status codes and the
 * reified `TypeInfo` of a route's entity or response type.
 */
module Ktor {
  import opened Kotlin

  /** `io.ktor.http.HttpMethod`: a data class identified by its upper-case name. */
  datatype HttpMethod = HttpMethod(value: string)

  const Get := HttpMethod("GET")
  const Post := HttpMethod("POST")
  const Put := HttpMethod("PUT")
  const Patch := HttpMethod("PATCH")
  const Delete := HttpMethod("DELETE")
  const Head := HttpMethod("HEAD")
  const Options := HttpMethod("OPTIONS")

  /** The data class's generated `toString()`, used in the `require` message. */
  function MethodToString(m: HttpMethod): (r: string)
    ensures |r| == |m.value| + 18
    ensures r[..17] == "HttpMethod(value=" && r[17..|r| - 1] == m.value && r[|r| - 1] == ')'
  {
    "HttpMethod(value=" + m.value + ")"
  }

  /** `io.ktor.http.HttpStatusCode`: a numeric value and its reason phrase. */
  datatype HttpStatusCode = HttpStatusCode(value: int, description: string)

  const OK := HttpStatusCode(200, "OK")
  const Created := HttpStatusCode(201, "Created")
  const NotFound := HttpStatusCode(404, "Not Found")

  /**
   * `io.ktor.client.call.TypeInfo`: the erased class of a type and its full
   * reified (generic) type, kept as its rendered name.
   */
  datatype TypeInfo = TypeInfo(typeClass: KClass, reifiedType: string)

  /** `typeInfo.type == Unit::class` */
  predicate IsUnit(t: TypeInfo) {
    t.typeClass == UnitClass
  }

  /** `typeInfo<Unit>()` */
  const UnitTypeInfo := TypeInfo(UnitClass, "kotlin.Unit")
}
