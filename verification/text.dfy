/** Character classes and small string formats shared by the header scanner
    and the code emitter: Python's `\s` and `\w`, maximal runs of a class,
    `str.upper` on ASCII and the `{0: <N}` padding of `str.format`. */
module Text {

  /** Python's `\s` on `str` patterns: every code point for which
      `str.isspace()` holds. */
  predicate IsSpace(c: char) {
    var n := c as int;
    || (9 <= n <= 13) || (28 <= n <= 32)
    || n == 0x85 || n == 0xA0 || n == 0x1680
    || (0x2000 <= n <= 0x200A)
    || n == 0x2028 || n == 0x2029 || n == 0x202F || n == 0x205F || n == 0x3000
  }

  /** Python's `\w`, restricted to ASCII: letters, digits and underscore. */
  predicate IsWordChar(c: char) {
    ('a' <= c <= 'z') || ('A' <= c <= 'Z') || ('0' <= c <= '9') || c == '_'
  }

  /** Python's `.` without DOTALL: anything but a line feed. */
  predicate NotNewline(c: char) {
    c != '\n'
  }

  /** No word character is whitespace, so `\s+` and `(\w+)` cannot overlap. */
  lemma WordCharNotSpace(c: char)
    requires IsWordChar(c)
    ensures !IsSpace(c)
  {
  }

  /** A non-empty run of word characters: what `(\w+)` can capture. */
  predicate IsIdentifier(s: string) {
    |s| > 0 && forall c | c in s :: IsWordChar(c)
  }

  /** The end of the longest run of characters satisfying `p` that starts at `i`. */
  function RunEnd(s: string, i: nat, p: char -> bool): (e: nat)
    requires i <= |s|
    ensures i <= e <= |s|
    ensures forall k {:trigger p(s[k])} :: i <= k < e ==> p(s[k])
    ensures e == |s| || !p(s[e])
    decreases |s| - i
  {
    if i < |s| && p(s[i]) then RunEnd(s, i + 1, p) else i
  }

  /** Any position that closes a run of `p` characters is where `RunEnd` stops. */
  lemma RunEndIs(s: string, i: nat, e: nat, p: char -> bool)
    requires i <= e <= |s|
    requires forall k :: i <= k < e ==> p(s[k])
    requires e == |s| || !p(s[e])
    ensures RunEnd(s, i, p) == e
  {
  }

  /** A run of `p` characters up to `e` means `RunEnd` reaches at least `e`. */
  lemma RunEndAtLeast(s: string, i: nat, e: nat, p: char -> bool)
    requires i <= e <= |s|
    requires forall k :: i <= k < e ==> p(s[k])
    ensures e <= RunEnd(s, i, p)
  {
  }

  /** Every character inside a run satisfies `p`. */
  lemma RunChars(s: string, i: nat, e: nat, p: char -> bool)
    requires i <= |s| && i <= e <= RunEnd(s, i, p)
    ensures forall c | c in s[i..e] :: p(c)
  {
    forall c | c in s[i..e]
      ensures p(c)
    {
      var k :| 0 <= k < e - i && s[i..e][k] == c;
      assert s[i + k] == c;
    }
  }

  /** Splits `s` into its longest prefix of `p` characters and the rest. */
  function SplitRun(s: string, p: char -> bool): (r: (string, string))
    ensures r.0 + r.1 == s
    ensures forall c | c in r.0 :: p(c)
    ensures |r.1| == 0 || !p(r.1[0])
  {
    var e := RunEnd(s, 0, p);
    assert s[..e] + s[e..] == s;
    (s[..e], s[e..])
  }

  /** `SplitRun` undoes the concatenation of a run and a rest that does not
      continue the run. */
  lemma SplitRunOf(w: string, rest: string, p: char -> bool)
    requires forall c | c in w :: p(c)
    requires |rest| == 0 || !p(rest[0])
    ensures SplitRun(w + rest, p) == (w, rest)
  {
    var s := w + rest;
    forall k | 0 <= k < |w|
      ensures p(s[k])
    {
      assert s[k] == w[k];
    }
    if |rest| > 0 {
      assert s[|w|] == rest[0];
    }
    RunEndIs(s, 0, |w|, p);
    assert s[..|w|] == w;
    assert s[|w|..] == rest;
  }

  /** Python's `str.upper` on one ASCII character. */
  function UpperChar(c: char): char {
    if 'a' <= c <= 'z' then (c as int - 32) as char else c
  }

  /** Python's `str.upper` on ASCII text. */
  function Upper(s: string): string {
    seq(|s|, i requires 0 <= i < |s| => UpperChar(s[i]))
  }

  /** Upper-casing keeps word characters word characters and leaves no
      lower-case ASCII letter behind. */
  lemma UpperIdentifier(s: string)
    requires IsIdentifier(s)
    ensures IsIdentifier(Upper(s))
    ensures forall c | c in Upper(s) :: !('a' <= c <= 'z')
  {
    forall c | c in Upper(s)
      ensures IsWordChar(c) && !('a' <= c <= 'z')
    {
      var i :| 0 <= i < |Upper(s)| && Upper(s)[i] == c;
      assert s[i] in s;
    }
  }

  /** `n` blanks. */
  function Spaces(n: nat): string {
    seq(n, _ => ' ')
  }

  /** `'{0: <width}'.format(s)`: left-justified, padded with blanks to at
      least `width` characters, never truncated. */
  function LeftJustify(s: string, width: nat): (r: string)
    ensures |r| == if |s| < width then width else |s|
    ensures r[..|s|] == s
    ensures forall i :: |s| <= i < |r| ==> r[i] == ' '
  {
    if |s| < width then s + Spaces(width - |s|) else s
  }
}
