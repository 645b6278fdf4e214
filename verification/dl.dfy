/** What the model needs of the operating system's dynamic loader: symbol
    tables, and the behaviour of an address-resolver function once found. */
module Dl {
  import opened Wrappers

  /** A non-NULL code address. */
  type Addr = a: nat | a > 0 witness 1

  /** Whether a loader call (`dlopen`, `LoadLibraryA`, `open_libgl`)
      succeeded; the C returns 0 for `Ok` and 1 for `Failed`. */
  datatype Status = Ok | Failed

  /** A symbol-table lookup (`dlsym` or `GetProcAddress`) on an open library. */
  function Lookup(table: map<string, Addr>, symbol: string): Option<Addr> {
    if symbol in table then Some(table[symbol]) else None
  }

  /** Calling the resolver function found at `resolver` (such as
      `eglGetProcAddress`) with `name`: each resolver is described by the
      finite table of names it answers; any other name gives NULL. */
  function CallResolver(behaviour: map<Addr, map<string, Addr>>, resolver: Addr, name: string): Option<Addr> {
    if resolver in behaviour then Lookup(behaviour[resolver], name) else None
  }
}
