# gll loader generator, modelled in Dafny

`gll_gen.py` scans the Khronos header `glcorearb.h` for OpenGL entry
points and writes a tiny loader: `include/GL/gll.h`, with one function
pointer slot per entry point and a `#define` that redirects the name to
its slot, and `src/gll.c`, which defines the slots, fills them through a
loader callback (`load_procs`), and on each platform finds the system
OpenGL library and its address-resolver function (`open_libgl`,
`get_proc`, `close_libgl`).

The model covers both halves:

- **The header scan.** `Extract` models the anchored greedy pattern
  `GLAPI.*APIENTRY\s+(\w+)` as Python's `re.match` evaluates it (greedy
  `.*`, backtracking to the last place the rest matches), the vendor
  suffix filter `is_ext` under the `--ext` flag, and `procs.sort()`
  (`Order`). Python 3's string ordering, `str.isspace` whitespace set,
  ASCII `\w` and `str.upper` live in `Order` and `Text`. Under Python 2
  the script matches byte strings, where `\s` is only the six ASCII
  whitespace characters; the model follows Python 3.
- **The emitted text.** `Emit` builds each per-procedure line of the two
  files exactly as the format strings do: the `{0: <55}` padding, the
  `PFN…PROC` typedef name and the `__gll_` slot prefix. It also reads each
  line back, which proves that every line names its procedure and typedef.
  `Generate` ties the scan to the two files.
- **The runtime in the emitted `gll.c`.** `LinuxResolver` models the
  `open_libs` fallback chain over libOpenGL, libGL, libEGL and libGLX. It
  also models how `open_libgl` picks the resolver, the two lookup orders of
  `get_proc`, and `close_libgl`. `WindowsResolver` models the
  `opengl32.dll` branch. `Loader` models `load_procs`, `gllLoadGLLoader`
  and `gllLoadGL`.

The operating system enters only as data. `Dl` gives a symbol table per
library, and each resolver function is described by the table of names it
answers. `LinuxResolver.Env` records which libraries are already in the
process and which `dlopen` could load.

Where the code and its documentation differ, the model follows the code:

- Duplicate names are not removed, so the list is non-decreasing rather
  than strictly increasing.
- On Linux the resolver is taken from whichever handle is open, with no
  fallback to another library.
- `gllLoadGL` is declared `void` but returns the status of `open_libgl`
  (lines 314-316). `Loader.LoadGL` returns that status as `status`.
- On Linux, a lookup before a successful `open_libgl` calls a NULL
  pointer; it does not return NULL (see "## Findings").
  `LinuxResolver.GetProcAsWritten` models that call in every state.
  `LinuxResolver.GetProc` and `WindowsResolver.GetProc` model the lookup
  once a resolver is held.
- Only the Linux `close_libgl` resets its handles, so only it is safe to
  call twice.

## Model

| member | source | states |
|---|---|---|
| Text.LeftJustify | gll_gen.py:115 | `{0: <N}` pads with blanks to at least N characters, keeps the text as a prefix and never truncates |
| Text.UpperIdentifier | gll_gen.py:115 | upper-casing a procedure name gives an identifier with no lower-case letter |
| Order.LessEqTotal | gll_gen.py:80 | any two names are comparable under Python's string order |
| Order.LessEqTransitive | gll_gen.py:80 | Python's string order is transitive |
| Order.LessEqAntisymmetric | gll_gen.py:80 | two names each at most the other are equal |
| Order.Sort | gll_gen.py:80 | `procs.sort()` returns a non-decreasing permutation of the list |
| Order.SortedUnique | gll_gen.py:80 | a multiset of names has exactly one sorted arrangement, so the result does not depend on the sorting algorithm |
| Extract.IsExtIff | gll_gen.py:14-17 | a name is a vendor name exactly when it ends in ARB, EXT, KHR, OVR, NV, AMD or INTEL |
| Extract.IsExtExamples | gll_gen.py:14-17 | `glFooEXT` is a vendor name and `glClear` is not |
| Extract.LastSite | gll_gen.py:69 | backtracking of the greedy `.*` stops at the last position where `APIENTRY`, whitespace and a word follow |
| Extract.MatchProcNone | gll_gen.py:69-74 | a line yields no name exactly when no split of it matches `GLAPI.*APIENTRY\s+(\w+)` from its start |
| Extract.MatchProcIsPythonMatch | gll_gen.py:69-76 | the captured name is the one Python's match returns: the longest `.*`, then the longest word |
| Extract.MatchDeclaration | gll_gen.py:69-76 | a one-line declaration `GLAPI … APIENTRY name(…)` yields `name`, provided `APIENTRY` does not occur again from the name onwards |
| Extract.ExampleClear | gll_gen.py:69-76 | the `glClear` declaration yields `glClear` |
| Extract.ExampleDrawArrays | gll_gen.py:69-76 | the `glDrawArrays` declaration, whose name holds an `A`, yields `glDrawArrays` |
| Extract.ExampleFooExt | gll_gen.py:14-76 | the `glFooEXT` declaration yields `glFooEXT`, a vendor name |
| Extract.CollectCounts | gll_gen.py:70-78 | each kept name is collected once per line that yields it, and a dropped name not at all |
| Extract.CollectMembers | gll_gen.py:70-78 | a name is collected exactly when some line yields it and the `--ext` flag keeps it |
| Extract.CollectWithoutExt | gll_gen.py:77-78 | without `--ext` the loop collects the `--ext` list minus its vendor names, in the same order |
| Extract.Procs | gll_gen.py:68-80 | the written list is sorted, holds identifiers only, and holds each kept name as often as lines yield it |
| Extract.ProcsMembers | gll_gen.py:68-80 | a name is written exactly when some header line yields it and the flag keeps it |
| Extract.ProcsWithoutExt | gll_gen.py:77-80 | the sorted list without `--ext` is the sorted list with it, minus the vendor names |
| Extract.CollectOfTwo | gll_gen.py:70-78 | two lines are collected in line order, each contributing its capture exactly when the flag keeps it |
| Extract.ProcsOfTwo | gll_gen.py:68-80 | with the plain name ordered first, the written lists are `[a]` and `[a, b]` |
| Extract.ExampleProcs | gll_gen.py:68-80 | a header with `glClear` and `glFooEXT` gives `["glClear"]` without `--ext` and `["glClear", "glFooEXT"]` with it |
| Emit.ProcTypeShape | gll_gen.py:115 | the `PFN…PROC` typedef name is an identifier, seven characters longer than the name, with no lower-case letter |
| Emit.ExternDeclRoundTrip | gll_gen.py:114-115 | each `extern` line of `gll.h` declares the slot of its procedure with the procedure's typedef |
| Emit.MacroDefRoundTrip | gll_gen.py:119-120 | each `#define` redirects a procedure name to the slot of the same name |
| Emit.SlotDefRoundTrip | gll_gen.py:334-335 | each slot definition in `gll.c` uses the same typedef and name as its declaration |
| Emit.LoadAssignRoundTrip | gll_gen.py:340-344 | each `load_procs` assignment stores into the procedure's slot, casts to its typedef and asks the loader for its own name |
| Emit.FilesAgree | gll_gen.py:114-346 | `gll.h` and `gll.c` declare, redirect, define and load the same procedures in the same order |
| Generate.RunAgrees | gll_gen.py:68-346 | over one run, both files list exactly the sorted, filtered names of the header, each with its own typedef |
| LinuxResolver.CloseLibGL | gll_gen.py:214-227 | every non-NULL handle is closed exactly once and all three are left NULL |
| LinuxResolver.CloseLibGLIdempotent | gll_gen.py:214-227 | a second `close_libgl` closes nothing |
| LinuxResolver.OpenLibs | gll_gen.py:229-263 | the fallback chain picks libOpenGL beside a loaded EGL or GLX, else a loaded libGL, else libOpenGL with libEGL, else libGL; it fails with all handles NULL only when none of these is available |
| LinuxResolver.OpenLibsHoldsOpenable | gll_gen.py:229-263 | each handle holds only a library of its own kind that the process could open |
| LinuxResolver.OpenLibGLAsWritten | gll_gen.py:265-287 | `open_libgl` as written fails with everything closed and no resolver whenever only GLX is present; in every other process it returns what the corrected `OpenLibGL` returns, so success sets libgl and the resolver |
| LinuxResolver.GlxBranchAsWrittenFails | gll_gen.py:274-275 | with libGLX loaded and exporting its resolver, the code as written still fails and closes everything |
| LinuxResolver.OpenLibGL | gll_gen.py:265-287 | the resolver is taken from libEGL, else libGLX, else libGL; success means libgl and the resolver are set, and failure leaves every handle NULL |
| LinuxResolver.GlxBranchSucceeds | gll_gen.py:271-287 | with the GLX branch asking libGLX, a process with only libGLX loaded opens libOpenGL and gets its resolver |
| LinuxResolver.GetProc | gll_gen.py:289-305 | `get_proc` returns the first hit of its lookup order: libOpenGL before the resolver when libEGL is open, the resolver first otherwise |
| LinuxResolver.GetProcMisses | gll_gen.py:289-305 | `get_proc` returns NULL exactly when both libgl and the resolver miss, and any hit comes from one of them |
| LinuxResolver.GetProcAsWritten | gll_gen.py:289-305 | in any state, `get_proc` calls through a NULL pointer exactly when no resolver is held and the direct lookup has not already hit; with a resolver it returns the first hit |
| LinuxResolver.GetProcBeforeOpen | gll_gen.py:294-298 | `gllGetProcAddress` before `gllLoadGL` calls a NULL `gll_glGetProcAddress` |
| LinuxResolver.GetProcAfterFailedOpen | gll_gen.py:294-298 | after the code's first `open_libgl` fails, `gllGetProcAddress` still calls a NULL `gll_glGetProcAddress` |
| LinuxResolver.GlxOnlyLookupCallsNull | gll_gen.py:274-298 | with only libGLX loaded, the code's `open_libgl` fails and a lookup after it calls a NULL pointer |
| LinuxResolver.GetProcChecked | gll_gen.py:289-305 | with the resolver call guarded, a held resolver gives `get_proc`'s result and a missing one leaves only the direct lookup |
| LinuxResolver.GetProcCheckedAgrees | gll_gen.py:289-305 | the guarded lookup returns NULL before `open_libgl` and after it fails (as written or corrected), and it equals the code as written whenever a resolver is held |
| WindowsResolver.OpenLibGL | gll_gen.py:153-162 | `open_libgl` as written: success depends on loading `opengl32.dll` alone, and a failed load keeps the old resolver slot |
| WindowsResolver.OpenLibGLCheckedAgrees | gll_gen.py:153-162 | the code as written and the checked open agree exactly unless the DLL loads but lacks `wglGetProcAddress` |
| WindowsResolver.OpenLibGLUncheckedResolver | gll_gen.py:159-161 | a DLL without `wglGetProcAddress` is reported as opened with a NULL resolver |
| WindowsResolver.OpenLibGLChecked | gll_gen.py:153-162 | with the missing check added, success holds exactly when the DLL loads and exports the resolver |
| WindowsResolver.GetProc | gll_gen.py:168-177 | `wglGetProcAddress` is asked first and the DLL's export table second |
| WindowsResolver.GetProcFallsBack | gll_gen.py:168-177 | a name the resolver does not know is still found in the export table |
| Loader.LoadProcs | gll_gen.py:324-346 | each listed slot holds what the loader callback returns for its name, and every other slot is unchanged |
| Loader.LoadGL | gll_gen.py:311-322 | the status and state are those of the corrected `open_libgl`, which equal the code's outside a GLX-only process; on failure no slot changes and every handle is NULL; on success each listed slot holds what `get_proc` resolves for its name and every other slot is unchanged |

## Left out

- `download`, argument parsing, directory creation and file writing (lines 19-61, 86-87, 134-136): I/O. The model takes the header as a sequence of lines and produces the emitted text as a sequence of chunks.
- The fixed boilerplate of both files (include guards, typedefs, prototypes): constant text that depends on no input.
- The Apple branch (lines 179-203): a single `dlopen`/`dlsym` with no choice to make.
- The Windows `close_libgl`: it only frees the DLL.
- Library reference counts, `RTLD_*` flags and the `atexit` registration in `gllLoadGL`: process-wide loader state outside the model.
- Extract.MatchProc: `\w` and `str.upper` are modelled on ASCII text only; Python 3 also treats non-ASCII letters and digits as word characters.
- LinuxResolver.Sym: `dlsym` on a NULL handle is taken to find nothing. On glibc a NULL handle means `RTLD_DEFAULT`, a search of the whole process.
- LinuxResolver.OpenLibs: a non-NULL `libglx` left from an earlier call when libEGL is found is kept, as in the code. The leak from overwriting a still-open handle is not tracked.
- Loader.LoadGL: the generated `gll.c` does not compile as written. `gllLoadGL` returns a value from a `void` function (lines 316 and 321), and `gllLoadGLLoader` calls `loadProcs` where `load_procs` is meant (line 325). The model follows the evident intent: open, then fill every slot through `get_proc`.
- WindowsResolver.GetProc: requires a held resolver. A Windows lookup before `open_libgl` also calls a NULL pointer (line 171), as the Linux one does. The as-written variant is modelled only for Linux, by `LinuxResolver.GetProcAsWritten`.
- Loader.LoadGL: it opens through the corrected `LinuxResolver.OpenLibGL` and not the code's `open_libgl`. In a process with only libGLX loaded (see "## Findings"), the code's `gllLoadGL` fails and leaves every slot NULL, while the model succeeds. In every other process the two are equal, as its second ensures states.
- Loader.LoadGL: only the Linux resolver is wired in; the Windows one is modelled separately by `WindowsResolver`.

## Findings

| source | as written | input that shows it | evidently intended | confidence | as-written member | corrected member |
|---|---|---|---|---|---|---|
| gll_gen.py:275 | the GLX branch of `open_libgl` calls `dlsym(libegl, "glXGetProcAddressARB")`, and `libegl` is NULL in that branch | a process with libGLX loaded, libEGL not loaded and libOpenGL available; libGLX exports `glXGetProcAddressARB` | `dlsym(libglx, "glXGetProcAddressARB")` | medium, not executed; glibc treats a NULL handle as `RTLD_DEFAULT`, which may find the symbol anyway | LinuxResolver.OpenLibGLAsWritten | LinuxResolver.OpenLibGL |
| gll_gen.py:159-161 | the Windows `open_libgl` reports success without checking that `wglGetProcAddress` was found, and `get_proc` then calls it unconditionally (line 171) | an `opengl32.dll` that loads but does not export `wglGetProcAddress` | fail `open_libgl` when the resolver is missing, as the Linux branch does at line 281 | low, not executed; every real `opengl32.dll` exports it | WindowsResolver.OpenLibGL | WindowsResolver.OpenLibGLChecked |
| gll_gen.py:294-298 | `get_proc` calls `gll_glGetProcAddress` without checking it, and `gllGetProcAddress` (line 328) reaches `get_proc` in any state | `gllGetProcAddress("glClear")` before `gllLoadGL`, or after `open_libgl` failed, as it does whenever only libGLX is loaded | a lookup with no resolver returns NULL | medium, not executed | LinuxResolver.GetProcAsWritten | LinuxResolver.GetProcChecked |
