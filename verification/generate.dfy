/** The generator end to end: the procedure list taken from `glcorearb.h`
    drives both emitted files, so `gll.h` and `gll.c` declare, redirect,
    define and load exactly the collected names, in the same order. */
module Generate {
  import opened Wrappers
  import opened Text
  import opened Order
  import opened Extract
  import opened Emit

  /** The collected list, the header text and the source text of one run. */
  datatype Output = Output(procs: seq<string>, header: seq<string>, source: seq<string>)

  /** One run of the generator over the lines of `glcorearb.h`. */
  function Run(lines: seq<string>, ext: bool): Output {
    var procs := Procs(lines, ext);
    Output(procs, HeaderBody(procs), SourceBody(procs))
  }

  /** The i-th `extern`, `#define`, slot definition and `loadProc` assignment
      of a run all read back as the i-th collected name and its typedef; the
      collected names are sorted identifiers, and vendor names appear only
      under `-ext`. */
  lemma RunAgrees(lines: seq<string>, ext: bool)
    ensures var o := Run(lines, ext);
      && Sorted(o.procs)
      && |o.header| == 2 * |o.procs| + 1
      && |o.source| == 2 * |o.procs| + 2
      && o.header[|o.procs|] == "\n"
      && forall i :: 0 <= i < |o.procs| ==>
           && IsIdentifier(o.procs[i])
           && (ext || !IsExt(o.procs[i]))
           && ReadBinding(o.header[i], "extern ", ";\n") == Some((ProcType(o.procs[i]), o.procs[i]))
           && ReadBinding(o.header[|o.procs| + 1 + i], "#define ", "\n") == Some((o.procs[i], o.procs[i]))
           && ReadBinding(o.source[i], "", ";\n") == Some((ProcType(o.procs[i]), o.procs[i]))
           && ReadLoad(o.source[|o.procs| + 1 + i]) == Some((o.procs[i], ProcType(o.procs[i])))
  {
    var ps := Procs(lines, ext);
    FilesAgree(ps);
    forall i | 0 <= i < |ps|
      ensures IsIdentifier(ps[i]) && (ext || !IsExt(ps[i]))
    {
      assert ps[i] in ps;
      ProcsMembers(lines, ext, ps[i]);
    }
  }
}
