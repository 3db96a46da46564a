/**
 * `ExtensionError`. The variants that wrap a foreign error value (I/O, JSON,
 * SQLite) carry that error's message as text.
 */
module Errors {

  datatype ExtensionError =
    | Io(message: string)
    | Json(message: string)
    | Database(message: string)
    | Validation(message: string)
    | NotFound(message: string)
    | PermissionDenied(message: string)
}
