/**
 * Request values as the route handlers see them: `searchParams.get(name)` and the string
 * fields of a JSON body are `None` when absent.
 */
module Params {
  import opened Wrappers

  /** JavaScript truthiness of a string value that may be absent. */
  predicate Truthy(v: Option<string>) {
    v.Some? && v.value != ""
  }

  /** `v || fallback`. */
  function OrDefault(v: Option<string>, fallback: string): string {
    if Truthy(v) then v.value else fallback
  }
}
