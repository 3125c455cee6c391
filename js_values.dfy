/**
 * How the JavaScript handlers see one field of a parsed JSON body or frame:
 * either absent (`undefined`) or a string.
 */
module JsValues {
  import opened Wrappers

  /** `None` is a missing field (`undefined`), `Some(s)` a string field. */
  type Field = Option<string>

  /** JavaScript truthiness of a field: present and not the empty string. */
  predicate Truthy(f: Field)
  {
    f.Some? && f.value != ""
  }
}
