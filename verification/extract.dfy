/** The header scan of `gll_gen.py`: every line of `glcorearb.h` is matched
    against `GLAPI.*APIENTRY\s+(\w+)` with `re.match`, vendor names are
    dropped unless `--ext` is given, and the collected names are sorted. */
module Extract {
  import opened Wrappers
  import opened Text
  import opened Order

  /** The closed list of vendor suffixes, in the order the script lists them. */
  const ExtSuffixes: seq<string> := ["ARB", "EXT", "KHR", "OVR", "NV", "AMD", "INTEL"]

  /** Python's `s.endswith(suffix)`. */
  predicate EndsWith(s: string, suffix: string) {
    |suffix| <= |s| && s[|s| - |suffix|..] == suffix
  }

  /** `any(p.endswith(suffix) for suffix in suffixes)`. */
  function EndsWithAny(p: string, suffixes: seq<string>): (b: bool)
    ensures b <==> exists i :: 0 <= i < |suffixes| && EndsWith(p, suffixes[i])
  {
    if |suffixes| == 0 then false
    else if EndsWith(p, suffixes[0]) then true
    else
      var b := EndsWithAny(p, suffixes[1..]);
      assert forall i :: 1 <= i < |suffixes| ==> suffixes[i] == suffixes[1..][i - 1];
      b
  }

  /** `is_ext`: the name of a vendor extension entry point. */
  predicate IsExt(p: string) {
    EndsWithAny(p, ExtSuffixes)
  }

  /** `is_ext` holds exactly for names ending in one of the seven suffixes. */
  lemma IsExtIff(p: string)
    ensures IsExt(p) <==>
              || EndsWith(p, "ARB") || EndsWith(p, "EXT") || EndsWith(p, "KHR")
              || EndsWith(p, "OVR") || EndsWith(p, "NV") || EndsWith(p, "AMD")
              || EndsWith(p, "INTEL")
  {
    if EndsWith(p, "ARB") { assert ExtSuffixes[0] == "ARB"; }
    if EndsWith(p, "EXT") { assert ExtSuffixes[1] == "EXT"; }
    if EndsWith(p, "KHR") { assert ExtSuffixes[2] == "KHR"; }
    if EndsWith(p, "OVR") { assert ExtSuffixes[3] == "OVR"; }
    if EndsWith(p, "NV") { assert ExtSuffixes[4] == "NV"; }
    if EndsWith(p, "AMD") { assert ExtSuffixes[5] == "AMD"; }
    if EndsWith(p, "INTEL") { assert ExtSuffixes[6] == "INTEL"; }
  }

  lemma IsExtExamples()
    ensures IsExt("glFooEXT")
    ensures !IsExt("glClear")
  {
    IsExtIff("glFooEXT");
    IsExtIff("glClear");
  }

  // ---------------------------------------------------------------------
  // The regular expression GLAPI.*APIENTRY\s+(\w+), anchored by re.match
  // ---------------------------------------------------------------------

  const Glapi := "GLAPI"
  const Apientry := "APIENTRY"

  /** The ways the pattern can match at the start of `line`: `mid` is what
      `.*` consumed, `ws` what `\s+` consumed and `name` what `(\w+)`
      captured. */
  ghost predicate RegexAccepts(line: string, mid: string, ws: string, name: string) {
    && Glapi + mid + Apientry + ws + name <= line
    && (forall c | c in mid :: NotNewline(c))
    && |ws| > 0 && (forall c | c in ws :: IsSpace(c))
    && IsIdentifier(name)
  }

  /** The match Python's backtracking returns: `.*` as long as possible, then
      the longest capture for that `.*`. */
  ghost predicate PythonMatch(line: string, mid: string, ws: string, name: string) {
    && RegexAccepts(line, mid, ws, name)
    && forall mid', ws', name' :: RegexAccepts(line, mid', ws', name') ==>
         |mid'| < |mid| || (|mid'| == |mid| && name' <= name)
  }

  /** Whether the rest of the pattern matches from position `p`:
      `APIENTRY`, at least one whitespace character, then a word character. */
  predicate SiteAt(line: string, p: nat)
    requires p <= |line|
  {
    && p + |Apientry| <= |line|
    && line[p..p + |Apientry|] == Apientry
    && var j := RunEnd(line, p + |Apientry|, IsSpace);
       p + |Apientry| < j < |line| && IsWordChar(line[j])
  }

  /** The capture when `APIENTRY` sits at position `p`: the word after the
      longest run of whitespace that follows it, if any. */
  function CaptureAt(line: string, p: nat): (r: Option<string>)
    requires p <= |line|
    ensures r.Some? <==> SiteAt(line, p)
    ensures r.Some? ==> IsIdentifier(r.value)
  {
    if SiteAt(line, p) then
      var j := RunEnd(line, p + |Apientry|, IsSpace);
      var k := RunEnd(line, j, IsWordChar);
      assert forall c | c in line[j..k] :: IsWordChar(c);
      Some(line[j..k])
    else None
  }

  /** Backtracking of the greedy `.*`: the last position at or before `p`
      (and not before the end of `GLAPI`) where the rest of the pattern
      matches. */
  function LastSite(line: string, p: nat): (r: Option<nat>)
    requires |Glapi| <= p <= |line|
    ensures r.Some? ==> |Glapi| <= r.value <= p && SiteAt(line, r.value)
    ensures r.Some? ==> forall q :: r.value < q <= p ==> !SiteAt(line, q)
    ensures r.None? ==> forall q :: |Glapi| <= q <= p ==> !SiteAt(line, q)
    decreases p
  {
    if SiteAt(line, p) then Some(p)
    else if p == |Glapi| then None
    else LastSite(line, p - 1)
  }

  /** `p.match(line)` followed by `m.group(1)`. */
  function MatchProc(line: string): (r: Option<string>)
    ensures r.Some? ==> IsIdentifier(r.value)
  {
    if Glapi <= line then
      match LastSite(line, RunEnd(line, |Glapi|, NotNewline))
      case Some(p) => CaptureAt(line, p)
      case None => None
    else None
  }

  /** A capture found at `p` is a match of the pattern. */
  lemma CaptureSound(line: string, p: nat)
    requires Glapi <= line && |Glapi| <= p <= RunEnd(line, |Glapi|, NotNewline)
    requires CaptureAt(line, p).Some?
    ensures RegexAccepts(line, line[|Glapi|..p], line[p + |Apientry|..RunEnd(line, p + |Apientry|, IsSpace)],
                         CaptureAt(line, p).value)
  {
    var j := RunEnd(line, p + |Apientry|, IsSpace);
    var k := RunEnd(line, j, IsWordChar);
    var mid, ws := line[|Glapi|..p], line[p + |Apientry|..j];
    CaptureAtIs(line, p, j, k);
    PiecesPrefix(line, p, j, k);
    RunChars(line, |Glapi|, p, NotNewline);
    RunChars(line, p + |Apientry|, j, IsSpace);
  }

  /** The pieces of the line in front of a capture ending at `k`, put
      back together, are a prefix of the line. */
  lemma PiecesPrefix(line: string, p: nat, j: nat, k: nat)
    requires Glapi <= line && |Glapi| <= p && p + |Apientry| <= j <= k <= |line|
    requires line[p..p + |Apientry|] == Apientry
    ensures Glapi + line[|Glapi|..p] + Apientry + line[p + |Apientry|..j] + line[j..k] <= line
  {
    assert line[..|Glapi|] == Glapi;
    assert line[..k] == line[..|Glapi|] + line[|Glapi|..p] + line[p..p + |Apientry|] + line[p + |Apientry|..j] + line[j..k];
  }

  /** Every match of the pattern is found by `CaptureAt` at the end of its
      `.*`, which lies within the first line, with the match's capture a
      prefix of the one found. */
  lemma CaptureComplete(line: string, mid: string, ws: string, name: string)
    requires RegexAccepts(line, mid, ws, name)
    ensures |Glapi| <= |Glapi| + |mid| <= RunEnd(line, |Glapi|, NotNewline)
    ensures CaptureAt(line, |Glapi| + |mid|).Some?
    ensures name <= CaptureAt(line, |Glapi| + |mid|).value
  {
    var p := |Glapi| + |mid|;
    MatchPieces(line, mid, ws, name);
    forall k | |Glapi| <= k < p
      ensures NotNewline(line[k])
    {
      assert line[k] == mid[k - |Glapi|];
    }
    RunEndAtLeast(line, |Glapi|, p, NotNewline);
    CaptureAfter(line, p, ws, name);
  }

  /** `APIENTRY`, whitespace and a word at `p` give a capture there that
      extends the word. */
  lemma CaptureAfter(line: string, p: nat, ws: string, name: string)
    requires p + |Apientry| + |ws| + |name| <= |line|
    requires line[p..p + |Apientry|] == Apientry
    requires |ws| > 0 && (forall c | c in ws :: IsSpace(c))
    requires line[p + |Apientry|..p + |Apientry| + |ws|] == ws
    requires IsIdentifier(name) && line[p + |Apientry| + |ws|..p + |Apientry| + |ws| + |name|] == name
    ensures CaptureAt(line, p).Some?
    ensures name <= CaptureAt(line, p).value
  {
    var j := p + |Apientry| + |ws|;
    forall k | p + |Apientry| <= k < j
      ensures IsSpace(line[k])
    {
      assert line[k] == ws[k - p - |Apientry|];
    }
    assert line[j] == name[0] && name[0] in name;
    WordCharNotSpace(line[j]);
    RunEndIs(line, p + |Apientry|, j, IsSpace);
    forall k | j <= k < j + |name|
      ensures IsWordChar(line[k])
    {
      assert line[k] == name[k - j];
    }
    RunEndAtLeast(line, j, j + |name|, IsWordChar);
    var e := RunEnd(line, j, IsWordChar);
    assert j + |name| <= e;
    CaptureAtIs(line, p, j, e);
    assert line[j..e][..|name|] == line[j..j + |name|] == name;
  }

  /** The capture at `p` once both runs after `APIENTRY` are known. */
  lemma CaptureAtIs(line: string, p: nat, j: nat, e: nat)
    requires p + |Apientry| < j < e <= |line|
    requires line[p..p + |Apientry|] == Apientry
    requires RunEnd(line, p + |Apientry|, IsSpace) == j
    requires RunEnd(line, j, IsWordChar) == e
    ensures CaptureAt(line, p) == Some(line[j..e])
  {
    assert IsWordChar(line[j]);
  }

  /** The pieces of a match, located in the line. */
  lemma MatchPieces(line: string, mid: string, ws: string, name: string)
    requires Glapi + mid + Apientry + ws + name <= line
    ensures var p := |Glapi| + |mid|;
            var j := p + |Apientry| + |ws|;
            && j + |name| <= |line|
            && line[..|Glapi|] == Glapi
            && line[|Glapi|..p] == mid
            && line[p..p + |Apientry|] == Apientry
            && line[p + |Apientry|..j] == ws
            && line[j..j + |name|] == name
  {
    var whole := Glapi + mid + Apientry + ws + name;
    var p := |Glapi| + |mid|;
    var j := p + |Apientry| + |ws|;
    assert whole == line[..|whole|];
    assert line[..|Glapi|] == Glapi by {
      assert whole[..|Glapi|] == Glapi;
    }
    assert line[|Glapi|..p] == mid by {
      assert whole[|Glapi|..p] == mid;
    }
    assert line[p..p + |Apientry|] == Apientry by {
      assert whole[p..p + |Apientry|] == Apientry;
    }
    assert line[p + |Apientry|..j] == ws by {
      assert whole[p + |Apientry|..j] == ws;
    }
    assert line[j..j + |name|] == name by {
      assert whole[j..j + |name|] == name;
    }
  }

  /** The scanner returns nothing exactly when the pattern cannot match. */
  lemma {:induction false} MatchProcNone(line: string)
    ensures MatchProc(line).None? <==> forall mid, ws, name :: !RegexAccepts(line, mid, ws, name)
  {
    if exists mid, ws, name :: RegexAccepts(line, mid, ws, name) {
      var mid, ws, name :| RegexAccepts(line, mid, ws, name);
      CaptureComplete(line, mid, ws, name);
      assert line[..|Glapi|] == Glapi;
      assert MatchProc(line).Some?;
    }
    if MatchProc(line).Some? {
      MatchProcWitness(line);
    }
  }

  /** Where the `.*` of the scanner's match ends. */
  function MatchSite(line: string): (p: nat)
    requires MatchProc(line).Some?
    ensures |Glapi| <= p <= RunEnd(line, |Glapi|, NotNewline) && CaptureAt(line, p) == MatchProc(line)
  {
    LastSite(line, RunEnd(line, |Glapi|, NotNewline)).value
  }

  /** The scanner's capture comes from a match of the pattern. */
  lemma MatchProcAccepts(line: string)
    requires MatchProc(line).Some?
    ensures var p := MatchSite(line);
            RegexAccepts(line, line[|Glapi|..p], line[p + |Apientry|..RunEnd(line, p + |Apientry|, IsSpace)],
                         MatchProc(line).value)
  {
    CaptureSound(line, MatchSite(line));
  }

  /** A name the scanner returns is the capture of Python's match. */
  lemma MatchProcWitness(line: string)
    requires MatchProc(line).Some?
    ensures exists mid, ws :: PythonMatch(line, mid, ws, MatchProc(line).value)
  {
    var p := MatchSite(line);
    var n := MatchProc(line).value;
    var mid, ws := line[|Glapi|..p], line[p + |Apientry|..RunEnd(line, p + |Apientry|, IsSpace)];
    MatchProcAccepts(line);
    forall mid', ws', name' | RegexAccepts(line, mid', ws', name')
      ensures |mid'| < |mid| || (|mid'| == |mid| && name' <= n)
    {
      NoLaterMatch(line, mid', ws', name');
    }
    assert PythonMatch(line, mid, ws, n);
  }

  /** Any match of the pattern ends its `.*` no later than the scanner's,
      and when it ends at the same place its capture is a prefix of the
      scanner's. */
  lemma NoLaterMatch(line: string, mid: string, ws: string, name: string)
    requires MatchProc(line).Some? && RegexAccepts(line, mid, ws, name)
    ensures |Glapi| + |mid| <= MatchSite(line)
    ensures |Glapi| + |mid| == MatchSite(line) ==> name <= MatchProc(line).value
  {
    var m := RunEnd(line, |Glapi|, NotNewline);
    CaptureComplete(line, mid, ws, name);
    LastSiteIsLast(line, m, |Glapi| + |mid|);
  }

  /** No position after the one `LastSite` picks has a capture. */
  lemma LastSiteIsLast(line: string, m: nat, q: nat)
    requires |Glapi| <= m <= |line| && LastSite(line, m).Some?
    requires |Glapi| <= q <= m && CaptureAt(line, q).Some?
    ensures q <= LastSite(line, m).value
  {
  }

  /** `m.group(1)` is `n` exactly when Python's match captures `n`. */
  lemma MatchProcIsPythonMatch(line: string, n: string)
    ensures MatchProc(line) == Some(n) <==> exists mid, ws :: PythonMatch(line, mid, ws, n)
  {
    if exists mid, ws :: PythonMatch(line, mid, ws, n) {
      var mid, ws :| PythonMatch(line, mid, ws, n);
      MatchProcNone(line);
      MatchProcWitness(line);
      var mid0, ws0 :| PythonMatch(line, mid0, ws0, MatchProc(line).value);
      var n0 := MatchProc(line).value;
      assert |mid| == |mid0| && n <= n0 && n0 <= n;
      assert n == n0;
    }
    if MatchProc(line) == Some(n) {
      MatchProcWitness(line);
    }
  }

  /** No capture can start where the line does not hold an `A`. */
  lemma NoCaptureWithoutA(line: string, q: nat)
    requires q <= |line|
    requires q < |line| ==> line[q] != 'A'
    ensures CaptureAt(line, q).None?
  {
    if q + |Apientry| <= |line| {
      assert line[q..q + |Apientry|][0] == line[q];
    }
  }

  /** `LastSite` picks a capture position when none lies after it. */
  lemma LastSiteIs(line: string, m: nat, p: nat)
    requires |Glapi| <= p <= m <= |line|
    requires CaptureAt(line, p).Some?
    requires forall q :: p < q <= m ==> CaptureAt(line, q).None?
    ensures LastSite(line, m) == Some(p)
  {
    forall q | p < q <= m
      ensures !SiteAt(line, q)
    {
      assert CaptureAt(line, q).None?;
    }
  }

  /** In a declaration line the identifier after `APIENTRY` is captured. */
  lemma CaptureDeclaration(line: string, pre: string, name: string, post: string)
    requires line == Glapi + pre + Apientry + " " + name + post
    requires IsIdentifier(name)
    requires |post| > 0 && !IsWordChar(post[0])
    ensures CaptureAt(line, |Glapi| + |pre|) == Some(name)
  {
    var p := |Glapi| + |pre|;
    var j := p + |Apientry| + 1;
    var head := Glapi + pre;
    var rest := name + post;
    assert line == head + (Apientry + " ") + rest;
    assert line[p..p + |Apientry|] == Apientry;
    assert line[p + |Apientry|] == ' ';
    assert line[j] == name[0] && name[0] in name;
    RunEndIs(line, p + |Apientry|, j, IsSpace);
    forall k | j <= k < j + |name|
      ensures IsWordChar(line[k])
    {
      assert line[k] == rest[k - j] == name[k - j];
      assert name[k - j] in name;
    }
    assert line[j + |name|] == rest[|name|] == post[0];
    RunEndIs(line, j, j + |name|, IsWordChar);
    assert line[j..j + |name|] == name;
    CaptureAtIs(line, p, j, j + |name|);
  }

  /** Whether `w` occurs in `s` starting at position `i`. */
  predicate MentionsAt(s: string, w: string, i: nat) {
    i + |w| <= |s| && s[i..i + |w|] == w
  }

  /** Whether `w` occurs in `s` as a contiguous piece. */
  predicate Mentions(s: string, w: string) {
    exists i: nat | i <= |s| :: MentionsAt(s, w, i)
  }

  /** A text without an `A` cannot mention `APIENTRY`. */
  lemma NoAMentionsNoApientry(s: string)
    requires forall c | c in s :: c != 'A'
    ensures !Mentions(s, Apientry)
  {
    forall i: nat | i + |Apientry| <= |s|
      ensures !MentionsAt(s, Apientry, i)
    {
      assert s[i..i + |Apientry|][0] == s[i] && s[i] in s && Apientry[0] == 'A';
    }
  }

  /** Where the text after a prefix of the line does not mention
      `APIENTRY` from offset `q`, no capture starts at `q`. */
  lemma NoCaptureInRest(line: string, head: string, rest: string, q: nat)
    requires line == head + rest
    requires |head| <= q <= |line|
    requires !Mentions(rest, Apientry)
    ensures CaptureAt(line, q).None?
  {
    if q + |Apientry| <= |line| {
      var i := q - |head|;
      assert line[q..q + |Apientry|] == rest[i..i + |Apientry|];
      assert !MentionsAt(rest, Apientry, i);
    }
  }

  /** In a declaration line where `APIENTRY` does not occur again after the
      name begins, no later position holds a capture. */
  lemma NoLaterCapture(line: string, pre: string, name: string, post: string)
    requires line == Glapi + pre + Apientry + " " + name + post
    requires !Mentions(name + post, Apientry)
    ensures forall q :: |Glapi| + |pre| < q <= |line| ==> CaptureAt(line, q).None?
  {
    var p := |Glapi| + |pre|;
    var head := Glapi + pre + Apientry + " ";
    var tail := Apientry + " ";
    assert line == head + (name + post);
    assert head == (Glapi + pre) + tail;
    forall q | p < q <= |line|
      ensures CaptureAt(line, q).None?
    {
      if q < |head| {
        assert line[q] == head[q] == tail[q - p];
        NoCaptureWithoutA(line, q);
      } else {
        NoCaptureInRest(line, head, name + post, q);
      }
    }
  }

  /** A declaration line in which `APIENTRY` does not occur again after the
      name begins yields the identifier that follows it. */
  lemma MatchDeclaration(pre: string, name: string, post: string)
    requires forall c | c in pre :: NotNewline(c)
    requires IsIdentifier(name)
    requires |post| > 0 && !IsWordChar(post[0])
    requires !Mentions(name + post, Apientry)
    ensures MatchProc(Glapi + pre + Apientry + " " + name + post) == Some(name)
  {
    var line := Glapi + pre + Apientry + " " + name + post;
    var p := |Glapi| + |pre|;
    CaptureDeclaration(line, pre, name, post);
    NoLaterCapture(line, pre, name, post);
    DotStarReaches(line, pre, Apientry + " " + name + post);
    LastSiteIs(line, RunEnd(line, |Glapi|, NotNewline), p);
  }

  /** The `.*` after `GLAPI` can consume a prefix `pre` free of newlines. */
  lemma DotStarReaches(line: string, pre: string, rest: string)
    requires line == Glapi + pre + rest
    requires forall c | c in pre :: NotNewline(c)
    ensures Glapi <= line
    ensures |Glapi| + |pre| <= RunEnd(line, |Glapi|, NotNewline)
  {
    forall k | |Glapi| <= k < |Glapi| + |pre|
      ensures NotNewline(line[k])
    {
      assert line[k] == pre[k - |Glapi|];
      assert pre[k - |Glapi|] in pre;
    }
    RunEndAtLeast(line, |Glapi|, |Glapi| + |pre|, NotNewline);
  }

  /** An `A` that is not followed by a `P` cannot start `APIENTRY`. */
  lemma NoApientryWithoutAP(s: string)
    requires forall i | 0 <= i < |s| - 1 && s[i] == 'A' :: s[i + 1] != 'P'
    ensures !Mentions(s, Apientry)
  {
    forall i: nat | i + |Apientry| <= |s|
      ensures !MentionsAt(s, Apientry, i)
    {
      assert s[i..i + |Apientry|][0] == s[i] && s[i..i + |Apientry|][1] == s[i + 1];
      assert Apientry[0] == 'A' && Apientry[1] == 'P';
    }
  }

  /** The declaration `GLAPI void APIENTRY glClear (GLbitfield mask);` of
      `glcorearb.h`, given as the pieces around `GLAPI` and `APIENTRY ` that
      `MatchDeclaration` names, yields `glClear`. */
  lemma ExampleClear(pre: string, name: string, post: string)
    requires pre == " void " && name == "glClear" && post == " (GLbitfield mask);"
    ensures MatchProc(Glapi + pre + Apientry + " " + name + post) == Some(name)
  {
    NoAMentionsNoApientry(name + post);
    MatchDeclaration(pre, name, post);
  }

  /** Likewise `GLAPI void APIENTRY glDrawArrays (GLenum mode, GLint first,
      GLsizei count);`, whose name holds an `A`, yields `glDrawArrays`. */
  lemma ExampleDrawArrays(pre: string, name: string, post: string)
    requires pre == " void " && name == "glDrawArrays"
    requires post == " (GLenum mode, GLint first, GLsizei count);"
    ensures MatchProc(Glapi + pre + Apientry + " " + name + post) == Some(name)
  {
    NoApientryWithoutAP(name + post);
    MatchDeclaration(pre, name, post);
  }

  // ---------------------------------------------------------------------
  // Collecting, filtering and sorting
  // ---------------------------------------------------------------------

  /** Whether a captured name is kept under the `--ext` flag. */
  predicate Keep(name: string, ext: bool) {
    ext || !IsExt(name)
  }

  /** The loop over the header's lines: the kept names in line order. */
  function Collect(lines: seq<string>, ext: bool): (procs: seq<string>)
    ensures forall n | n in procs :: IsIdentifier(n)
  {
    if |lines| == 0 then []
    else
      var rest := Collect(lines[1..], ext);
      match MatchProc(lines[0])
      case Some(n) => if Keep(n, ext) then [n] + rest else rest
      case None => rest
  }

  /** How many lines of the header yield `name`. */
  function Occurrences(lines: seq<string>, name: string): nat {
    if |lines| == 0 then 0
    else (if MatchProc(lines[0]) == Some(name) then 1 else 0) + Occurrences(lines[1..], name)
  }

  /** Every kept name is collected once per line that yields it: nothing is
      deduplicated, and dropped names do not appear at all. */
  lemma {:induction false} CollectCounts(lines: seq<string>, ext: bool, name: string)
    ensures multiset(Collect(lines, ext))[name] == if Keep(name, ext) then Occurrences(lines, name) else 0
  {
    if |lines| > 0 {
      CollectCounts(lines[1..], ext, name);
    }
  }

  /** A name is collected exactly when some line yields it and the flag keeps it. */
  lemma {:induction false} CollectMembers(lines: seq<string>, ext: bool, name: string)
    ensures name in Collect(lines, ext) <==>
              Keep(name, ext) && exists i :: 0 <= i < |lines| && MatchProc(lines[i]) == Some(name)
  {
    CollectCounts(lines, ext, name);
    OccurrencesPositive(lines, name);
    assert name in Collect(lines, ext) <==> name in multiset(Collect(lines, ext));
  }

  lemma {:induction false} OccurrencesPositive(lines: seq<string>, name: string)
    ensures Occurrences(lines, name) > 0 <==> exists i :: 0 <= i < |lines| && MatchProc(lines[i]) == Some(name)
  {
    if |lines| > 0 {
      var tail := lines[1..];
      OccurrencesPositive(tail, name);
      if Occurrences(lines, name) > 0 {
        if MatchProc(lines[0]) != Some(name) {
          var i :| 0 <= i < |tail| && MatchProc(tail[i]) == Some(name);
          assert lines[i + 1] == tail[i];
        }
      } else {
        forall i | 0 <= i < |lines|
          ensures MatchProc(lines[i]) != Some(name)
        {
          if i > 0 {
            assert lines[i] == tail[i - 1];
          }
        }
      }
    }
  }

  /** The names without the vendor ones, order kept. */
  function DropVendor(names: seq<string>): (r: seq<string>)
    ensures forall n | n in r :: !IsExt(n)
    ensures forall n :: multiset(r)[n] == if IsExt(n) then 0 else multiset(names)[n]
  {
    if |names| == 0 then []
    else
      assert names == [names[0]] + names[1..];
      var rest := DropVendor(names[1..]);
      if IsExt(names[0]) then rest else [names[0]] + rest
  }

  /** Without `--ext` the loop yields the with-`--ext` list minus the
      vendor names. */
  lemma {:induction false} CollectWithoutExt(lines: seq<string>)
    ensures Collect(lines, false) == DropVendor(Collect(lines, true))
  {
    if |lines| > 0 {
      CollectWithoutExt(lines[1..]);
    }
  }

  /** The module-level `procs` after `procs.sort()`. */
  function Procs(lines: seq<string>, ext: bool): (procs: seq<string>)
    ensures Sorted(procs)
    ensures forall n | n in procs :: IsIdentifier(n)
    ensures forall n :: multiset(procs)[n] == if Keep(n, ext) then Occurrences(lines, n) else 0
  {
    var collected := Collect(lines, ext);
    forall n
      ensures multiset(collected)[n] == if Keep(n, ext) then Occurrences(lines, n) else 0
    {
      CollectCounts(lines, ext, n);
    }
    var sorted := Sort(collected);
    forall n | n in sorted
      ensures IsIdentifier(n)
    {
      assert n in multiset(sorted);
      assert n in collected;
    }
    sorted
  }

  /** The names written out are exactly the kept captures of the header. */
  lemma ProcsMembers(lines: seq<string>, ext: bool, name: string)
    ensures name in Procs(lines, ext) <==>
              Keep(name, ext) && exists i :: 0 <= i < |lines| && MatchProc(lines[i]) == Some(name)
  {
    OccurrencesPositive(lines, name);
    assert name in Procs(lines, ext) <==> name in multiset(Procs(lines, ext));
  }

  /** The list written without `--ext` is the list written with it, vendor
      names removed; in particular it is a sub-multiset of it. */
  lemma ProcsWithoutExt(lines: seq<string>)
    ensures Procs(lines, false) == DropVendor(Procs(lines, true))
    ensures multiset(Procs(lines, false)) <= multiset(Procs(lines, true))
  {
    var on, off := Procs(lines, true), Procs(lines, false);
    var dropped := DropVendor(on);
    DropVendorSorted(on);
    forall n
      ensures multiset(off)[n] == multiset(dropped)[n] <= multiset(on)[n]
    {
      assert Keep(n, true);
    }
    assert multiset(off) == multiset(dropped);
    SortedUnique(off, dropped);
  }

  /** Filtering keeps a sorted list sorted. */
  lemma {:induction false} DropVendorSorted(names: seq<string>)
    requires Sorted(names)
    ensures Sorted(DropVendor(names))
  {
    if |names| > 0 {
      SortedTail(names);
      DropVendorSorted(names[1..]);
      if !IsExt(names[0]) {
        var rest := DropVendor(names[1..]);
        forall y | y in rest
          ensures LessEq(names[0], y)
        {
          assert y in multiset(rest);
          assert y in multiset(names[1..]);
          var j :| 0 <= j < |names[1..]| && names[1..][j] == y;
          assert names[j + 1] == y;
        }
        SortedCons(names[0], rest);
      }
    }
  }

  /** What one line contributes to the collected list: its capture when
      there is one and the flag keeps it, nothing otherwise. */
  function Kept(l: string, ext: bool): seq<string> {
    if MatchProc(l).Some? && Keep(MatchProc(l).value, ext) then [MatchProc(l).value] else []
  }

  /** One step of the loop: the first line contributes its kept capture. */
  lemma CollectCons(l: string, rest: seq<string>, ext: bool)
    ensures Collect([l] + rest, ext) == Kept(l, ext) + Collect(rest, ext)
  {
    assert ([l] + rest)[0] == l && ([l] + rest)[1..] == rest;
  }

  /** Two lines are collected as the first line's contribution followed by
      the second's. */
  lemma CollectOfTwo(l1: string, l2: string, ext: bool)
    ensures Collect([l1, l2], ext) == Kept(l1, ext) + Kept(l2, ext)
  {
    var empty: seq<string> := [];
    assert [l1, l2] == [l1] + ([l2] + empty);
    CollectCons(l2, empty, ext);
    CollectCons(l1, [l2] + empty, ext);
  }

  /** Two lines yielding a kept name `a` and a vendor name `b` with
      `a <= b`: the list is `[a]` without `--ext` and `[a, b]` with it. */
  lemma ProcsOfTwo(l1: string, l2: string, a: string, b: string)
    requires MatchProc(l1) == Some(a) && MatchProc(l2) == Some(b)
    requires !IsExt(a) && IsExt(b) && LessEq(a, b)
    ensures Procs([l1, l2], false) == [a]
    ensures Procs([l1, l2], true) == [a, b]
  {
    assert Kept(l1, false) == [a] && Kept(l1, true) == [a];
    assert Kept(l2, false) == [] && Kept(l2, true) == [b];
    CollectOfTwo(l1, l2, false);
    CollectOfTwo(l1, l2, true);
    assert Collect([l1, l2], false) == [a] && Collect([l1, l2], true) == [a, b];
    assert Sorted([a, b]);
    SortedUnique(Procs([l1, l2], false), [a]);
    SortedUnique(Procs([l1, l2], true), [a, b]);
  }

  /** The declaration `GLAPI void APIENTRY glFooEXT (void);` yields the
      vendor name `glFooEXT`. */
  lemma ExampleFooExt(pre: string, name: string, post: string)
    requires pre == " void " && name == "glFooEXT" && post == " (void);"
    ensures MatchProc(Glapi + pre + Apientry + " " + name + post) == Some(name)
    ensures IsExt(name)
  {
    NoAMentionsNoApientry(name + post);
    MatchDeclaration(pre, name, post);
    IsExtIff(name);
  }

  /** `"glClear" <= "glFooEXT"`: they first differ at `C` and `F`. */
  lemma ClearBeforeFoo(a: string, b: string)
    requires a == "glClear" && b == "glFooEXT"
    ensures LessEq(a, b)
  {
    assert a[1..][1..][0] == 'C' && b[1..][1..][0] == 'F';
  }

  /** A header holding the declarations of `glClear` and of the vendor
      entry point `glFooEXT` gives `["glClear"]` without `--ext` and
      `["glClear", "glFooEXT"]` with it. The lines are given as the pieces
      `MatchDeclaration` names. */
  lemma ExampleProcs(pre: string, clear: string, clearPost: string, foo: string, fooPost: string)
    requires pre == " void " && clear == "glClear" && clearPost == " (GLbitfield mask);"
    requires foo == "glFooEXT" && fooPost == " (void);"
    ensures var lines := [Glapi + pre + Apientry + " " + clear + clearPost,
                          Glapi + pre + Apientry + " " + foo + fooPost];
            && Procs(lines, false) == [clear]
            && Procs(lines, true) == [clear, foo]
  {
    ExampleClear(pre, clear, clearPost);
    ExampleFooExt(pre, foo, fooPost);
    IsExtIff(clear);
    ClearBeforeFoo(clear, foo);
    ProcsOfTwo(Glapi + pre + Apientry + " " + clear + clearPost,
               Glapi + pre + Apientry + " " + foo + fooPost, clear, foo);
  }
}
