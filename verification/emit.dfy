/** The per-procedure text that `gll_gen.py` writes into `gll.h` (an
    `extern` slot declaration and a `#define` redirection per name) and into
    `gll.c` (a slot definition and a `loadProc` assignment per name), and
    readers that recover the name and type from each emitted line. */
module Emit {
  import opened Wrappers
  import opened Text

  /** Every slot variable is the procedure name behind this prefix. */
  const SlotPrefix := "__gll_"

  /** `'PFN{0}PROC'.format(proc.upper())`: the function-pointer typedef that
      `glcorearb.h` declares for the procedure. */
  function ProcType(name: string): string {
    "PFN" + Upper(name) + "PROC"
  }

  /** The typedef name is itself an identifier, seven characters longer than
      the procedure name, and holds no lower-case letter. */
  lemma ProcTypeShape(name: string)
    requires IsIdentifier(name)
    ensures IsIdentifier(ProcType(name))
    ensures |ProcType(name)| == |name| + 7
    ensures forall c | c in ProcType(name) :: !('a' <= c <= 'z')
  {
    UpperIdentifier(name);
    var t := ProcType(name);
    forall c | c in t
      ensures IsWordChar(c) && !('a' <= c <= 'z')
    {
      var i :| 0 <= i < |t| && t[i] == c;
      if 3 <= i < 3 + |name| {
        assert c == Upper(name)[i - 3];
        assert c in Upper(name);
      }
    }
  }

  /** `'extern {0: <55} __gll_{1};\n'` */
  function ExternDecl(name: string): string {
    "extern " + LeftJustify(ProcType(name), 55) + " " + SlotPrefix + name + ";\n"
  }

  /** `'#define {0: <48} __gll_{0}\n'` */
  function MacroDef(name: string): string {
    "#define " + LeftJustify(name, 48) + " " + SlotPrefix + name + "\n"
  }

  /** `'{0: <55} __gll_{1};\n'` */
  function SlotDef(name: string): string {
    LeftJustify(ProcType(name), 55) + " " + SlotPrefix + name + ";\n"
  }

  /** The body text of `load_procs` for one procedure. */
  function LoadAssign(name: string): string {
    "\n    " + SlotPrefix + name + " =\n        (" + ProcType(name) + ")loadProc(\"" + name + "\");\n"
  }

  /** One emitted chunk per procedure, in list order. */
  function PerProc(procs: seq<string>, line: string -> string): (r: seq<string>)
    ensures |r| == |procs|
    ensures forall i :: 0 <= i < |procs| ==> r[i] == line(procs[i])
  {
    seq(|procs|, i requires 0 <= i < |procs| => line(procs[i]))
  }

  /** The procedure-dependent part of `gll.h`: the declarations, a blank
      line, then the redirections. */
  function HeaderBody(procs: seq<string>): seq<string> {
    PerProc(procs, ExternDecl) + ["\n"] + PerProc(procs, MacroDef)
  }

  /** The procedure-dependent part of `gll.c`: the slot definitions, the
      opening of `load_procs`, one assignment per procedure, the closing brace. */
  function SourceBody(procs: seq<string>): seq<string> {
    PerProc(procs, SlotDef) + [LoadProcsOpening] + PerProc(procs, LoadAssign) + ["}"]
  }

  const LoadProcsOpening := "\nstatic void load_procs(GLLloadproc loadProc) {"

  // ---------------------------------------------------------------------
  // Reading the emitted lines back
  // ---------------------------------------------------------------------

  /** Removes `lit` from the front of `s`. */
  function Strip(s: string, lit: string): Option<string> {
    if lit <= s then Some(s[|lit|..]) else None
  }

  /** Reads `lead + field + blanks + "__gll_" + name + tail` into
      `(field, name)`, both identifiers. */
  function ReadBinding(line: string, lead: string, tail: string): Option<(string, string)> {
    match Strip(line, lead)
    case None => None
    case Some(s1) =>
      var (field, s2) := SplitRun(s1, IsWordChar);
      var (gap, s3) := SplitRun(s2, IsSpace);
      match Strip(s3, SlotPrefix)
      case None => None
      case Some(s4) =>
        var (name, s5) := SplitRun(s4, IsWordChar);
        if |field| > 0 && |gap| > 0 && |name| > 0 && s5 == tail then Some((field, name)) else None
  }

  /** Reads a `load_procs` assignment into `(name, type)`, requiring the
      slot and the string literal to name the same procedure. */
  function ReadLoad(line: string): Option<(string, string)> {
    match Strip(line, "\n    " + SlotPrefix)
    case None => None
    case Some(s1) =>
      var (name, s2) := SplitRun(s1, IsWordChar);
      match Strip(s2, " =\n        (")
      case None => None
      case Some(s3) =>
        var (ty, s4) := SplitRun(s3, IsWordChar);
        match Strip(s4, ")loadProc(\"")
        case None => None
        case Some(s5) =>
          var (name', s6) := SplitRun(s5, IsWordChar);
          if |name| > 0 && |ty| > 0 && name' == name && s6 == "\");\n" then Some((name, ty)) else None
  }

  lemma StripOf(lit: string, rest: string)
    ensures Strip(lit + rest, lit) == Some(rest)
  {
    assert (lit + rest)[..|lit|] == lit;
    assert (lit + rest)[|lit|..] == rest;
  }

  /** The blanks `LeftJustify` adds, plus the separating blank. */
  function Gap(field: string, width: nat): string {
    LeftJustify(field, width)[|field|..] + " "
  }

  /** The gap is a non-empty run of blanks, and it is all that lies between
      the field and the slot name. */
  lemma GapShape(field: string, width: nat)
    ensures LeftJustify(field, width) + " " == field + Gap(field, width)
    ensures |Gap(field, width)| > 0 && forall c | c in Gap(field, width) :: IsSpace(c)
  {
    var j := LeftJustify(field, width);
    var pad := Gap(field, width);
    assert j == j[..|field|] + j[|field|..];
    forall c | c in pad
      ensures IsSpace(c)
    {
      var i :| 0 <= i < |pad| && pad[i] == c;
      if i < |j| - |field| {
        assert pad[i] == j[|field| + i];
      }
    }
  }

  /** The line split into the pieces the reader consumes one after another. */
  lemma BindingLayout(lead: string, field: string, width: nat, name: string, tail: string)
    ensures lead + LeftJustify(field, width) + " " + SlotPrefix + name + tail
            == lead + (field + (Gap(field, width) + (SlotPrefix + (name + tail))))
  {
    GapShape(field, width);
    var j := LeftJustify(field, width);
    calc {
      lead + j + " " + SlotPrefix + name + tail;
      lead + (j + " ") + (SlotPrefix + (name + tail));
      lead + (field + Gap(field, width)) + (SlotPrefix + (name + tail));
      lead + (field + (Gap(field, width) + (SlotPrefix + (name + tail))));
    }
  }

  /** Reading back a line built from a padded field and a slot name gives
      the field and the name. */
  lemma ReadBindingOf(lead: string, field: string, width: nat, name: string, tail: string)
    requires IsIdentifier(field) && IsIdentifier(name)
    requires |tail| > 0 && !IsWordChar(tail[0])
    ensures ReadBinding(lead + LeftJustify(field, width) + " " + SlotPrefix + name + tail, lead, tail)
            == Some((field, name))
  {
    GapShape(field, width);
    BindingLayout(lead, field, width, name, tail);
    var pad := Gap(field, width);
    var s4 := name + tail;
    var s3 := SlotPrefix + s4;
    var s2 := pad + s3;
    var s1 := field + s2;
    StripOf(lead, s1);
    assert s2[0] == pad[0] && pad[0] in pad;
    SplitRunOf(field, s2, IsWordChar);
    assert s3[0] == '_';
    SplitRunOf(pad, s3, IsSpace);
    StripOf(SlotPrefix, s4);
    SplitRunOf(name, tail, IsWordChar);
  }

  /** Each `extern` declaration reads back as the procedure's typedef and name. */
  lemma ExternDeclRoundTrip(name: string)
    requires IsIdentifier(name)
    ensures ReadBinding(ExternDecl(name), "extern ", ";\n") == Some((ProcType(name), name))
  {
    ProcTypeShape(name);
    ReadBindingOf("extern ", ProcType(name), 55, name, ";\n");
  }

  /** Each `#define` redirects the name to the slot of the same name. */
  lemma MacroDefRoundTrip(name: string)
    requires IsIdentifier(name)
    ensures ReadBinding(MacroDef(name), "#define ", "\n") == Some((name, name))
  {
    ReadBindingOf("#define ", name, 48, name, "\n");
  }

  /** Each slot definition reads back as the same typedef and name as its
      declaration. */
  lemma SlotDefRoundTrip(name: string)
    requires IsIdentifier(name)
    ensures ReadBinding(SlotDef(name), "", ";\n") == Some((ProcType(name), name))
  {
    ProcTypeShape(name);
    assert SlotDef(name) == "" + LeftJustify(ProcType(name), 55) + " " + SlotPrefix + name + ";\n";
    ReadBindingOf("", ProcType(name), 55, name, ";\n");
  }

  /** Each assignment stores into the procedure's slot, casts to its typedef
      and asks the loader for the procedure's own name. */
  lemma LoadAssignRoundTrip(name: string)
    requires IsIdentifier(name)
    ensures ReadLoad(LoadAssign(name)) == Some((name, ProcType(name)))
  {
    ProcTypeShape(name);
    var ty := ProcType(name);
    var s6 := "\");\n";
    var s5 := name + s6;
    var s4 := ")loadProc(\"" + s5;
    var s3 := ty + s4;
    var s2 := " =\n        (" + s3;
    var s1 := name + s2;
    assert LoadAssign(name) == "\n    " + SlotPrefix + s1;
    StripOf("\n    " + SlotPrefix, s1);
    SplitRunOf(name, s2, IsWordChar);
    StripOf(" =\n        (", s3);
    SplitRunOf(ty, s4, IsWordChar);
    StripOf(")loadProc(\"", s5);
    SplitRunOf(name, s6, IsWordChar);
  }

  /** `gll.h` and `gll.c` agree: `gll.h` holds the declarations, one blank
      line and the redirections; `gll.c` holds the definitions, the opening
      of `load_procs`, the assignments and the closing brace; the i-th entry
      of each part names the i-th procedure and uses its typedef. */
  lemma FilesAgree(procs: seq<string>)
    requires forall n | n in procs :: IsIdentifier(n)
    ensures |HeaderBody(procs)| == 2 * |procs| + 1 && HeaderBody(procs)[|procs|] == "\n"
    ensures |SourceBody(procs)| == 2 * |procs| + 2
    ensures forall i :: 0 <= i < |procs| ==>
              && ReadBinding(HeaderBody(procs)[i], "extern ", ";\n") == Some((ProcType(procs[i]), procs[i]))
              && ReadBinding(HeaderBody(procs)[|procs| + 1 + i], "#define ", "\n") == Some((procs[i], procs[i]))
              && ReadBinding(SourceBody(procs)[i], "", ";\n") == Some((ProcType(procs[i]), procs[i]))
              && ReadLoad(SourceBody(procs)[|procs| + 1 + i]) == Some((procs[i], ProcType(procs[i])))
  {
    forall i | 0 <= i < |procs|
      ensures ReadBinding(HeaderBody(procs)[i], "extern ", ";\n") == Some((ProcType(procs[i]), procs[i]))
      ensures ReadBinding(HeaderBody(procs)[|procs| + 1 + i], "#define ", "\n") == Some((procs[i], procs[i]))
      ensures ReadBinding(SourceBody(procs)[i], "", ";\n") == Some((ProcType(procs[i]), procs[i]))
      ensures ReadLoad(SourceBody(procs)[|procs| + 1 + i]) == Some((procs[i], ProcType(procs[i])))
    {
      assert procs[i] in procs;
      var n := procs[i];
      BodiesAt(procs, i);
      ExternDeclRoundTrip(n);
      MacroDefRoundTrip(n);
      SlotDefRoundTrip(n);
      LoadAssignRoundTrip(n);
    }
  }

  /** Where the i-th procedure's lines sit in the two bodies. */
  lemma BodiesAt(procs: seq<string>, i: nat)
    requires i < |procs|
    ensures |HeaderBody(procs)| == 2 * |procs| + 1 && |SourceBody(procs)| == 2 * |procs| + 2
    ensures HeaderBody(procs)[i] == ExternDecl(procs[i])
    ensures HeaderBody(procs)[|procs| + 1 + i] == MacroDef(procs[i])
    ensures SourceBody(procs)[i] == SlotDef(procs[i])
    ensures SourceBody(procs)[|procs| + 1 + i] == LoadAssign(procs[i])
  {
    var ex, md := PerProc(procs, ExternDecl), PerProc(procs, MacroDef);
    var sd, la := PerProc(procs, SlotDef), PerProc(procs, LoadAssign);
    assert HeaderBody(procs) == ex + ["\n"] + md;
    assert SourceBody(procs) == sd + [LoadProcsOpening] + la + ["}"];
  }
}
