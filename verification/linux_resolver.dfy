/** The Linux branch of the runtime part of `gll.c`: choosing which of the
    GL libraries to open (`open_libs`), finding the address-resolver
    function (`open_libgl`), resolving one procedure (`get_proc`) and
    releasing the libraries (`close_libgl`).

    The process is abstracted into an `Env`: which libraries are already
    loaded (what `dlopen` with `RTLD_NOLOAD` reports), which further ones
    `dlopen` could load, each library's exported symbols, and what each
    resolver function answers. A library handle is represented by the
    library it refers to. */
module LinuxResolver {
  import opened Wrappers
  import opened Dl

  datatype Lib =
    | OpenGL0  // libOpenGL.so.0, the vendor-neutral dispatch library
    | GL1      // libGL.so.1, the legacy combined library
    | EGL1     // libEGL.so.1
    | GLX1     // libGLX.so.1

  datatype Env = Env(
    alreadyLoaded: set<Lib>,
    openable: set<Lib>,
    exports: map<Lib, map<string, Addr>>,
    behaviour: map<Addr, map<string, Addr>>)

  const EglResolver := "eglGetProcAddress"
  const GlxResolver := "glXGetProcAddressARB"

  predicate Loaded(env: Env, l: Lib) {
    l in env.alreadyLoaded
  }

  /** `dlopen` succeeds on a library already in the process or loadable. */
  predicate CanOpen(env: Env, l: Lib) {
    l in env.alreadyLoaded || l in env.openable
  }

  /** The symbols a library exports; none for a library the environment
      does not describe. */
  function Exports(env: Env, l: Lib): map<string, Addr> {
    if l in env.exports then env.exports[l] else map[]
  }

  /** `is_lib_loaded`: `dlopen(name, RTLD_LAZY | RTLD_LOCAL | RTLD_NOLOAD)`. */
  function Probe(env: Env, l: Lib): Option<Lib> {
    if Loaded(env, l) then Some(l) else None
  }

  /** `dlopen(name, RTLD_LAZY | RTLD_LOCAL)`. */
  function Open(env: Env, l: Lib): Option<Lib> {
    if CanOpen(env, l) then Some(l) else None
  }

  /** `dlsym(handle, symbol)`; a NULL handle finds nothing. */
  function Sym(env: Env, handle: Option<Lib>, symbol: string): Option<Addr> {
    match handle
    case None => None
    case Some(l) => Lookup(Exports(env, l), symbol)
  }

  /** The static handles `libgl`, `libegl` and `libglx`. */
  datatype Handles = Handles(libgl: Option<Lib>, libegl: Option<Lib>, libglx: Option<Lib>)

  const NoHandles := Handles(None, None, None)

  /** How many of the three handles hold `l`. */
  function Held(h: Handles, l: Lib): nat {
    (if h.libgl == Some(l) then 1 else 0)
    + (if h.libegl == Some(l) then 1 else 0)
    + (if h.libglx == Some(l) then 1 else 0)
  }

  /** The handles after `close_libgl` and the libraries passed to
      `dlclose`, in call order. */
  datatype Closing = Closing(after: Handles, closed: seq<Lib>)

  /** The library a handle refers to, if any, as a list of zero or one. */
  function Closed(handle: Option<Lib>): (r: seq<Lib>)
    ensures forall l :: multiset(r)[l] == if handle == Some(l) then 1 else 0
  {
    if handle.Some? then [handle.value] else []
  }

  /** `close_libgl`: every non-NULL handle is closed once and reset to NULL. */
  function CloseLibGL(h: Handles): (r: Closing)
    ensures r.after == NoHandles
    ensures forall l :: multiset(r.closed)[l] == Held(h, l)
  {
    var gl, egl, glx := Closed(h.libgl), Closed(h.libegl), Closed(h.libglx);
    assert multiset(gl + egl + glx) == multiset(gl) + multiset(egl) + multiset(glx);
    Closing(NoHandles, gl + egl + glx)
  }

  /** A second `close_libgl` closes nothing and changes nothing. */
  lemma CloseLibGLIdempotent(h: Handles)
    ensures CloseLibGL(CloseLibGL(h).after) == Closing(NoHandles, [])
    ensures |CloseLibGL(CloseLibGL(h).after).closed| == 0
  {
  }

  /** The library set `open_libs` settles on, in the order it tries them. */
  datatype Choice =
    | DispatchBesideWindowing  // EGL or GLX already loaded: libOpenGL alone
    | ReuseLegacy              // libGL already loaded
    | DispatchWithEgl          // libOpenGL and libEGL as a pair
    | Legacy                   // libGL opened afresh
    | NoLibrary

  /** The five cases of the fallback chain, stated on the environment alone. */
  function Choose(env: Env): Choice {
    if (Loaded(env, EGL1) || Loaded(env, GLX1)) && CanOpen(env, OpenGL0) then DispatchBesideWindowing
    else if Loaded(env, GL1) then ReuseLegacy
    else if CanOpen(env, OpenGL0) && CanOpen(env, EGL1) then DispatchWithEgl
    else if CanOpen(env, GL1) then Legacy
    else NoLibrary
  }

  /** `open_libs`, step by step as the C does it, starting from handles `s`.
      Its contract gives the outcome of each case of `Choose`. */
  function OpenLibs(env: Env, s: Handles): (r: (Status, Handles))
    ensures r.0 == Ok <==> Choose(env) != NoLibrary
    ensures r.0 == Ok ==> r.1.libgl.Some?
    ensures r.0 == Failed ==> r.1 == NoHandles
    ensures Choose(env) == DispatchBesideWindowing && Loaded(env, EGL1) ==>
              r.1 == Handles(Some(OpenGL0), Some(EGL1), s.libglx)
    ensures Choose(env) == DispatchBesideWindowing && !Loaded(env, EGL1) ==>
              r.1 == Handles(Some(OpenGL0), None, Some(GLX1))
    ensures Choose(env) == ReuseLegacy || Choose(env) == Legacy ==>
              r.1 == Handles(Some(GL1), None, None)
    ensures Choose(env) == DispatchWithEgl ==>
              r.1 == Handles(Some(OpenGL0), Some(EGL1), None)
  {
    // the GLX probe runs only when the EGL probe fails
    var s1 := s.(libegl := Probe(env, EGL1));
    var s2 := if s1.libegl.Some? then s1 else s1.(libglx := Probe(env, GLX1));
    var s3 := if s2.libegl.Some? || s2.libglx.Some? then s2.(libgl := Open(env, OpenGL0)) else s2;
    if (s3.libegl.Some? || s3.libglx.Some?) && s3.libgl.Some? then (Ok, s3)
    else
      var s4 := if s3.libegl.Some? || s3.libglx.Some? then CloseLibGL(s3).after else s3;
      var s5 := s4.(libgl := Probe(env, GL1));
      if s5.libgl.Some? then (Ok, s5)
      else
        var s6 := s5.(libgl := Open(env, OpenGL0), libegl := Open(env, EGL1));
        if s6.libgl.Some? && s6.libegl.Some? then (Ok, s6)
        else
          var s7 := CloseLibGL(s6).after.(libgl := Open(env, GL1));
          if s7.libgl.Some? then (Ok, s7) else (Failed, s7)
  }

  /** From the initial all-NULL handles, `open_libs` holds only libraries the
      process could open, `libgl` only a GL library and the other two only
      their own library. */
  lemma OpenLibsHoldsOpenable(env: Env)
    ensures var h := OpenLibs(env, NoHandles).1;
            && (h.libgl.Some? ==> h.libgl.value in {OpenGL0, GL1} && CanOpen(env, h.libgl.value))
            && (h.libegl.Some? ==> h.libegl == Some(EGL1) && CanOpen(env, EGL1))
            && (h.libglx.Some? ==> h.libglx == Some(GLX1) && CanOpen(env, GLX1))
  {
  }

  /** The static `gll_glGetProcAddress` beside the handles. */
  datatype State = State(handles: Handles, getProcAddress: Option<Addr>)

  const Initial := State(NoHandles, None)

  /** Fails with every handle closed when no resolver was found. */
  function FinishOpen(st: State, chosen: (Status, Handles), resolver: Option<Addr>): (Status, State) {
    if chosen.0 == Failed then (Failed, State(chosen.1, st.getProcAddress))
    else if resolver.None? then (Failed, State(CloseLibGL(chosen.1).after, None))
    else (Ok, State(chosen.1, resolver))
  }

  /** The process in which `open_libs` settles on libOpenGL beside an
      already loaded libGLX, libEGL not being loaded. */
  predicate GlxOnly(env: Env) {
    Choose(env) == DispatchBesideWindowing && !Loaded(env, EGL1)
  }

  /** `open_libgl` as written: in the GLX branch it asks `libegl`, which is
      NULL there, for `glXGetProcAddressARB`. That branch always fails with
      everything closed; every other branch behaves as the corrected
      `OpenLibGL`, which gives the resolver each one takes. */
  function OpenLibGLAsWritten(env: Env, st: State): (r: (Status, State))
    ensures r.0 == Ok ==> r.1.handles.libgl.Some? && r.1.getProcAddress.Some?
    ensures r.0 == Failed ==> r.1.handles == NoHandles
    ensures GlxOnly(env) ==> r == (Failed, State(NoHandles, None))
    ensures !GlxOnly(env) ==> r == OpenLibGL(env, st)
  {
    var chosen := OpenLibs(env, st.handles);
    var h := chosen.1;
    var resolver :=
      if h.libegl.Some? then Sym(env, h.libegl, EglResolver)
      else if h.libglx.Some? then Sym(env, h.libegl, GlxResolver)
      else Sym(env, h.libgl, GlxResolver);
    FinishOpen(st, chosen, resolver)
  }

  /** The GLX branch of the code as written never finds a resolver, so it
      fails and closes everything even when libGLX exports one. */
  lemma GlxBranchAsWrittenFails(env: Env, st: State)
    requires !Loaded(env, EGL1) && Loaded(env, GLX1) && CanOpen(env, OpenGL0)
    requires GlxResolver in Exports(env, GLX1)
    ensures OpenLibGLAsWritten(env, st) == (Failed, State(NoHandles, None))
  {
  }

  /** `open_libgl` with the GLX branch asking `libglx`. The resolver comes
      from libEGL when it is open, else from libGLX when it is open, else
      from libGL; success leaves `libgl` and the resolver set, failure
      leaves every handle NULL. */
  function OpenLibGL(env: Env, st: State): (r: (Status, State))
    ensures r.0 == Ok ==> r.1.handles.libgl.Some? && r.1.getProcAddress.Some?
    ensures r.0 == Failed ==> r.1.handles == NoHandles
    ensures Choose(env) == NoLibrary ==> r == (Failed, State(NoHandles, st.getProcAddress))
    ensures Choose(env) == DispatchBesideWindowing && Loaded(env, EGL1) ==>
              r.1.getProcAddress == Lookup(Exports(env, EGL1), EglResolver)
    ensures Choose(env) == DispatchBesideWindowing && !Loaded(env, EGL1) ==>
              r.1.getProcAddress == Lookup(Exports(env, GLX1), GlxResolver)
    ensures Choose(env) == DispatchWithEgl ==>
              r.1.getProcAddress == Lookup(Exports(env, EGL1), EglResolver)
    ensures Choose(env) == ReuseLegacy || Choose(env) == Legacy ==>
              r.1.getProcAddress == Lookup(Exports(env, GL1), GlxResolver)
    ensures Choose(env) != NoLibrary ==> (r.0 == Ok <==> r.1.getProcAddress.Some?)
    ensures r.0 == Ok ==> r.1.handles == OpenLibs(env, st.handles).1
  {
    var chosen := OpenLibs(env, st.handles);
    var h := chosen.1;
    var resolver :=
      if h.libegl.Some? then Sym(env, h.libegl, EglResolver)
      else if h.libglx.Some? then Sym(env, h.libglx, GlxResolver)
      else Sym(env, h.libgl, GlxResolver);
    FinishOpen(st, chosen, resolver)
  }

  /** With only libGLX loaded and exporting its resolver, the corrected
      `open_libgl` succeeds with libOpenGL and libGLX open. */
  lemma GlxBranchSucceeds(env: Env, st: State)
    requires !Loaded(env, EGL1) && Loaded(env, GLX1) && CanOpen(env, OpenGL0)
    requires GlxResolver in Exports(env, GLX1)
    ensures OpenLibGL(env, st)
            == (Ok, State(Handles(Some(OpenGL0), None, Some(GLX1)), Some(Exports(env, GLX1)[GlxResolver])))
  {
  }

  /** The two places `get_proc` looks. */
  datatype Source = Direct | ViaResolver

  /** libOpenGL exports the core entry points directly, so with libEGL open
      the direct lookup comes first; otherwise the resolver does. */
  function LookupOrder(h: Handles): seq<Source> {
    if h.libegl.Some? then [Direct, ViaResolver] else [ViaResolver, Direct]
  }

  function Attempt(env: Env, st: State, src: Source, name: string): Option<Addr>
    requires st.getProcAddress.Some?
  {
    match src
    case Direct => Sym(env, st.handles.libgl, name)
    case ViaResolver => CallResolver(env.behaviour, st.getProcAddress.value, name)
  }

  /** What each source in the lookup order yields, in that order. */
  function Attempts(env: Env, st: State, name: string): seq<Option<Addr>>
    requires st.getProcAddress.Some?
  {
    var order := LookupOrder(st.handles);
    [Attempt(env, st, order[0], name), Attempt(env, st, order[1], name)]
  }

  /** `get_proc` once `open_libgl` has succeeded, so that the resolver is
      set. The result is the first hit in the lookup order; NULL exactly
      when both sources miss. */
  function GetProc(env: Env, st: State, name: string): (r: Option<Addr>)
    requires st.getProcAddress.Some?
    ensures r == FirstSome(Attempts(env, st, name))
  {
    var h := st.handles;
    var p1 := if h.libegl.Some? then Sym(env, h.libgl, name) else None;
    var p2 := if p1.None? then CallResolver(env.behaviour, st.getProcAddress.value, name) else p1;
    if h.libegl.None? && p2.None? then Sym(env, h.libgl, name) else p2
  }

  /** `get_proc` fails only when every source it tries fails, and a hit
      comes from one of them. */
  lemma GetProcMisses(env: Env, st: State, name: string)
    requires st.getProcAddress.Some?
    ensures GetProc(env, st, name).None? <==>
              Sym(env, st.handles.libgl, name).None?
              && CallResolver(env.behaviour, st.getProcAddress.value, name).None?
    ensures GetProc(env, st, name).Some? ==>
              GetProc(env, st, name) == Sym(env, st.handles.libgl, name)
              || GetProc(env, st, name) == CallResolver(env.behaviour, st.getProcAddress.value, name)
  {
  }

  /** What a call of `get_proc` does in any state, including before
      `open_libgl` or after it failed; `gllGetProcAddress` forwards to it. */
  datatype Call = Returns(proc: Option<Addr>) | CallsNull

  /** Whether `get_proc` reaches its call of `gll_glGetProcAddress`: it does
      unless libEGL is open and the direct lookup already hit. */
  predicate ReachesResolver(env: Env, st: State, name: string) {
    !(st.handles.libegl.Some? && Sym(env, st.handles.libgl, name).Some?)
  }

  /** `get_proc` as written, in every state: calling the resolver while
      `gll_glGetProcAddress` is NULL is a call through a NULL pointer. */
  function GetProcAsWritten(env: Env, st: State, name: string): (r: Call)
    ensures r == CallsNull <==> st.getProcAddress.None? && ReachesResolver(env, st, name)
    ensures st.getProcAddress.Some? ==> r == Returns(FirstSome(Attempts(env, st, name)))
  {
    var h := st.handles;
    var p1 := if h.libegl.Some? then Sym(env, h.libgl, name) else None;
    if p1.None? && st.getProcAddress.None? then CallsNull
    else
      var p2 := if p1.None? then CallResolver(env.behaviour, st.getProcAddress.value, name) else p1;
      Returns(if h.libegl.None? && p2.None? then Sym(env, h.libgl, name) else p2)
  }

  /** `gllGetProcAddress` before `gllLoadGL` calls a NULL pointer. */
  lemma GetProcBeforeOpen(env: Env, name: string)
    ensures Initial.getProcAddress.None? && ReachesResolver(env, Initial, name)
    ensures GetProcAsWritten(env, Initial, name) == CallsNull
  {
  }

  /** So does `gllGetProcAddress` after `open_libgl` failed from the start. */
  lemma GetProcAfterFailedOpen(env: Env, name: string)
    requires OpenLibGLAsWritten(env, Initial).0 == Failed
    ensures GetProcAsWritten(env, OpenLibGLAsWritten(env, Initial).1, name) == CallsNull
  {
  }

  /** In a process with only libGLX loaded the two defects compound: the
      open as written fails, and a lookup after it calls a NULL pointer. */
  lemma GlxOnlyLookupCallsNull(env: Env, name: string)
    requires GlxOnly(env)
    ensures OpenLibGLAsWritten(env, Initial).0 == Failed
    ensures GetProcAsWritten(env, OpenLibGLAsWritten(env, Initial).1, name) == CallsNull
  {
    GetProcAfterFailedOpen(env, name);
  }

  /** `get_proc` with the resolver call guarded by `if (gll_glGetProcAddress)`:
      a NULL resolver counts as a miss, so a lookup before a successful
      `open_libgl` returns NULL instead of crashing. */
  function GetProcChecked(env: Env, st: State, name: string): (r: Option<Addr>)
    ensures st.getProcAddress.Some? ==> r == GetProc(env, st, name)
    ensures st.getProcAddress.None? ==> r == Sym(env, st.handles.libgl, name)
  {
    var h := st.handles;
    var p1 := if h.libegl.Some? then Sym(env, h.libgl, name) else None;
    var p2 :=
      if p1.Some? then p1
      else if st.getProcAddress.Some? then CallResolver(env.behaviour, st.getProcAddress.value, name)
      else None;
    if h.libegl.None? && p2.None? then Sym(env, h.libgl, name) else p2
  }

  /** Before `open_libgl`, and after it failed, the guarded lookup finds
      nothing; once a resolver is held it behaves exactly as written. */
  lemma GetProcCheckedAgrees(env: Env, st: State, name: string)
    ensures GetProcChecked(env, Initial, name) == None
    ensures OpenLibGLAsWritten(env, Initial).0 == Failed ==>
              GetProcChecked(env, OpenLibGLAsWritten(env, Initial).1, name) == None
    ensures OpenLibGL(env, Initial).0 == Failed ==>
              GetProcChecked(env, OpenLibGL(env, Initial).1, name) == None
    ensures st.getProcAddress.Some? ==>
              GetProcAsWritten(env, st, name) == Returns(GetProcChecked(env, st, name))
  {
  }
}
