/** Optional values, standing for the C code's nullable pointers. */
module Wrappers {

  datatype Option<T> = None | Some(value: T)
}

/**
 * The process environment, passed as a value instead of being read through
 * `g_getenv`.
 */
module Env {
  import opened Wrappers

  /** The variable every tool reads to find the record store. */
  const DB_VARIABLE := "CDCC_DB"

  /** `g_getenv(name)`: the value bound to `name`, or NULL. */
  function Getenv(env: map<string, string>, name: string): (r: Option<string>)
    ensures r.Some? <==> name in env
    ensures r.Some? ==> r.value == env[name]
  {
    if name in env then Some(env[name]) else None
  }
}
