/** Request fields and handler outcomes.
    A JSON body or query string gives each field as absent, null or a value;
    the handlers test fields with Python truthiness, so "" counts as missing. */
module Requests {

  datatype Option<+T> = None | Some(value: T)

  /** Python truthiness of an optional string field: present and non-empty. */
  predicate Given(field: Option<string>) {
    field.Some? && field.value != ""
  }

  /** The list a request names when it names none. */
  const DefaultList: string := "default"

  /** The list a request addresses: `data.get('list_name') or 'default'`. */
  function ListNameOf(field: Option<string>): (name: string)
    ensures name != ""
    ensures Given(field) ==> name == field.value
    ensures !Given(field) ==> name == DefaultList
  {
    if Given(field) then field.value else DefaultList
  }

  /** What a handler answers: a JSON payload (HTTP 200), a 400 or a 404 with the
      error text the handler puts in its body. */
  datatype Response<+T> = Ok(value: T) | BadRequest(reason: string) | NotFound(reason: string)
}
