/** The entry points of `gll.c`: `load_procs` fills every slot through a
    loader callback, and `gllLoadGL` opens the libraries and fills the slots
    through `get_proc`. (`gllGetProcAddress` only forwards to `get_proc`,
    which `LinuxResolver.GetProcAsWritten` models in every state.) Slots are
    a map from procedure name to the stored address, `None` being NULL. */
module Loader {
  import opened Wrappers
  import opened Dl
  import LinuxResolver

  /** `load_procs` (and `gllLoadGLLoader`, which forwards to it): one call
      of `loadProc` per listed procedure, in list order, each result stored
      in that procedure's slot; slots of unlisted names are untouched. */
  method LoadProcs(procs: seq<string>, loadProc: string -> Option<Addr>, slots0: map<string, Option<Addr>>)
    returns (slots: map<string, Option<Addr>>)
    ensures slots.Keys == slots0.Keys + (set n | n in procs)
    ensures forall n | n in procs :: slots[n] == loadProc(n)
    ensures forall n | n in slots0 && n !in procs :: slots[n] == slots0[n]
  {
    slots := slots0;
    var i := 0;
    while i < |procs|
      invariant 0 <= i <= |procs|
      invariant slots.Keys == slots0.Keys + (set n | n in procs[..i])
      invariant forall n | n in procs[..i] :: slots[n] == loadProc(n)
      invariant forall n | n in slots0 && n !in procs[..i] :: slots[n] == slots0[n]
    {
      assert procs[..i + 1] == procs[..i] + [procs[i]];
      slots := slots[procs[i] := loadProc(procs[i])];
      i := i + 1;
    }
    assert procs[..i] == procs;
  }

  /** `gllLoadGL` on Linux: when `open_libgl` fails every slot keeps its
      value and every handle is NULL; otherwise each listed slot holds what
      `get_proc` resolves for its name and every other slot is unchanged.
      The libraries are opened by the corrected `open_libgl`; outside a
      process with only libGLX loaded this is the open the code performs. */
  method LoadGL(env: LinuxResolver.Env, st: LinuxResolver.State, procs: seq<string>,
                slots0: map<string, Option<Addr>>)
    returns (status: Status, st': LinuxResolver.State, slots: map<string, Option<Addr>>)
    ensures (status, st') == LinuxResolver.OpenLibGL(env, st)
    ensures !LinuxResolver.GlxOnly(env) ==> (status, st') == LinuxResolver.OpenLibGLAsWritten(env, st)
    ensures status == Failed ==> slots == slots0 && st'.handles == LinuxResolver.NoHandles
    ensures status == Ok ==>
              && st'.getProcAddress.Some?
              && slots.Keys == slots0.Keys + (set n | n in procs)
              && (forall n | n in procs :: slots[n] == LinuxResolver.GetProc(env, st', n))
              && (forall n | n in slots0 && n !in procs :: slots[n] == slots0[n])
    ensures LinuxResolver.Choose(env) == LinuxResolver.NoLibrary ==> status == Failed
  {
    var opening := LinuxResolver.OpenLibGL(env, st);
    status, st' := opening.0, opening.1;
    if status == Failed {
      slots := slots0;
      return;
    }
    var ready := st';
    slots := LoadProcs(procs, n => LinuxResolver.GetProc(env, ready, n), slots0);
  }
}
