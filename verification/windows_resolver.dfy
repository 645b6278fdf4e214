/** The Windows branch of the runtime part of `gll.c`: `opengl32.dll` is
    loaded, `wglGetProcAddress` is taken from it, and each procedure is
    asked of `wglGetProcAddress` first and of the DLL's export table second. */
module WindowsResolver {
  import opened Wrappers
  import opened Dl

  /** Whether `LoadLibraryA("opengl32.dll")` succeeds, what the DLL exports,
      and what each resolver function answers. */
  datatype WinEnv = WinEnv(
    loadable: bool,
    exports: map<string, Addr>,
    behaviour: map<Addr, map<string, Addr>>)

  /** `libgl` (whether the DLL is loaded) and `gll_wglGetProcAddress`. */
  datatype WinState = WinState(libgl: bool, wglGetProcAddress: Option<Addr>)

  const WglResolver := "wglGetProcAddress"

  /** `open_libgl` as written: success depends on the DLL alone; whether
      `wglGetProcAddress` was found is never checked. */
  function OpenLibGL(env: WinEnv, st: WinState): (r: (Status, WinState))
    ensures r.0 == Ok <==> env.loadable
    ensures r.0 == Ok ==> r.1 == WinState(true, Lookup(env.exports, WglResolver))
    ensures r.0 == Failed ==> r.1 == st.(libgl := false)
  {
    if !env.loadable then (Failed, st.(libgl := false))
    else (Ok, WinState(true, Lookup(env.exports, WglResolver)))
  }

  /** A DLL without `wglGetProcAddress` is reported as opened, leaving a NULL
      resolver that `get_proc` would call. */
  lemma OpenLibGLUncheckedResolver(env: WinEnv, st: WinState)
    requires env.loadable && WglResolver !in env.exports
    ensures OpenLibGL(env, st).0 == Ok
    ensures OpenLibGL(env, st).1.wglGetProcAddress.None?
  {
  }

  /** `open_libgl` with the missing check added: success guarantees the
      resolver that `get_proc` calls. */
  function OpenLibGLChecked(env: WinEnv, st: WinState): (r: (Status, WinState))
    ensures r.0 == Ok <==> env.loadable && WglResolver in env.exports
    ensures r.0 == Ok ==> r.1.libgl && r.1.wglGetProcAddress == Some(env.exports[WglResolver])
    ensures r.0 == Failed ==> !r.1.libgl
  {
    var (status, st') := OpenLibGL(env, st);
    if status == Ok && st'.wglGetProcAddress.None? then (Failed, WinState(false, None))
    else (status, st')
  }

  /** The code as written and the checked open differ exactly on a DLL that
      loads but does not export `wglGetProcAddress`. */
  lemma OpenLibGLCheckedAgrees(env: WinEnv, st: WinState)
    ensures OpenLibGLChecked(env, st) == OpenLibGL(env, st) <==> !env.loadable || WglResolver in env.exports
  {
  }

  /** `GetProcAddress(libgl, name)`; a NULL module finds nothing. */
  function Direct(env: WinEnv, st: WinState, name: string): Option<Addr> {
    if st.libgl then Lookup(env.exports, name) else None
  }

  /** `get_proc`: `wglGetProcAddress` first, the export table second. The
      resolver is called unconditionally, so it must have been found. */
  function GetProc(env: WinEnv, st: WinState, name: string): (r: Option<Addr>)
    requires st.wglGetProcAddress.Some?
    ensures r == FirstSome([CallResolver(env.behaviour, st.wglGetProcAddress.value, name), Direct(env, st, name)])
  {
    var proc := CallResolver(env.behaviour, st.wglGetProcAddress.value, name);
    if proc.None? then Direct(env, st, name) else proc
  }

  /** Entry points that `wglGetProcAddress` does not know, such as the
      OpenGL 1.1 ones, are still found in the export table. */
  lemma GetProcFallsBack(env: WinEnv, st: WinState, name: string, a: Addr)
    requires st.libgl && st.wglGetProcAddress.Some?
    requires CallResolver(env.behaviour, st.wglGetProcAddress.value, name).None?
    requires Lookup(env.exports, name) == Some(a)
    ensures GetProc(env, st, name) == Some(a)
  {
  }
}
