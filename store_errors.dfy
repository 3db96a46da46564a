/**
 * `StoreError`. The variants that wrap a foreign error value (HTTP, JSON) carry
 * that error's message as text.
 */
module StoreErrors {

  datatype StoreError =
    | Network(message: string)
    | Json(message: string)
    | Validation(message: string)
    | Security(message: string)
}
