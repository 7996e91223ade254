/** The `java.lang.String` operations the security core relies on: `startsWith`, `trim`,
    `isBlank` and `split` with a one-character delimiter. Strings are sequences of code points. */
module JavaStrings {

  /** `s.startsWith(p)`. */
  predicate StartsWith(s: string, p: string) {
    |p| <= |s| && s[..|p|] == p
  }

  /* ---------------------------------------------------------------------------
   * trim
   * ------------------------------------------------------------------------- */

  /** A code point `String.trim` removes: anything up to and including U+0020. */
  predicate IsTrimmable(c: char) {
    c <= ' '
  }

  predicate AllTrimmable(s: string) {
    forall k | 0 <= k < |s| :: IsTrimmable(s[k])
  }

  /** A string that `trim` leaves as it is: empty, or neither end is trimmable. */
  predicate IsTrimmed(s: string) {
    |s| == 0 || (!IsTrimmable(s[0]) && !IsTrimmable(s[|s| - 1]))
  }

  /** Length of the longest trimmable prefix of `s`. */
  function LeadingTrimmable(s: string): (n: nat)
    ensures n <= |s|
    ensures AllTrimmable(s[..n])
    ensures n < |s| ==> !IsTrimmable(s[n])
  {
    if |s| == 0 || !IsTrimmable(s[0]) then 0
    else
      var m := LeadingTrimmable(s[1..]);
      assert s[..m + 1] == [s[0]] + s[1..][..m];
      m + 1
  }

  /** Length of the longest trimmable suffix of `s`. */
  function TrailingTrimmable(s: string): (n: nat)
    ensures n <= |s|
    ensures AllTrimmable(s[|s| - n..])
    ensures n < |s| ==> !IsTrimmable(s[|s| - n - 1])
  {
    if |s| == 0 || !IsTrimmable(s[|s| - 1]) then 0
    else
      var init := s[..|s| - 1];
      var m := TrailingTrimmable(init);
      assert s[|s| - (m + 1)..] == init[|init| - m..] + [s[|s| - 1]];
      m + 1
  }

  /** `s.trim()`: `s` without its trimmable prefix and suffix. */
  function Trim(s: string): (r: string)
    ensures IsTrimmed(r)
    ensures |r| <= |s|
    ensures forall k | 0 <= k < |r| :: r[k] in s
    ensures IsTrimmed(s) ==> r == s
  {
    var a := LeadingTrimmable(s);
    var b := TrailingTrimmable(s[a..]);
    assert s[a..][|s| - a - b..] == s[|s| - b..];
    TrimBounds(s, a, b);
    s[a..|s| - b]
  }

  /** Cutting a maximal trimmable prefix of length `a` from `s`, and a maximal trimmable
      suffix of length `b` from the rest, leaves a trimmed part of `s`, and cuts nothing from
      a string already trimmed. */
  lemma TrimBounds(s: string, a: nat, b: nat)
    requires a + b <= |s|
    requires AllTrimmable(s[..a]) && (a < |s| ==> !IsTrimmable(s[a]))
    requires AllTrimmable(s[|s| - b..]) && (a + b < |s| ==> !IsTrimmable(s[|s| - b - 1]))
    ensures IsTrimmed(s[a..|s| - b])
    ensures forall c | c in s[a..|s| - b] :: c in s
    ensures IsTrimmed(s) ==> a == 0 && b == 0
  {
    var r := s[a..|s| - b];
    assert forall k | 0 <= k < |r| :: r[k] == s[a + k];
    assert 0 < a ==> IsTrimmable(s[..a][0]) && s[..a][0] == s[0];
    assert 0 < b ==> IsTrimmable(s[|s| - b..][b - 1]) && s[|s| - b..][b - 1] == s[|s| - 1];
  }

  /** `trim` removes exactly the padding: whatever trimmable text surrounds a trimmed
      string, trimming gives that string back. */
  lemma {:induction false} TrimPadded(lead: string, t: string, trail: string)
    requires AllTrimmable(lead) && AllTrimmable(trail) && IsTrimmed(t)
    ensures Trim(lead + t + trail) == t
  {
    var s := lead + t + trail;
    var a := LeadingTrimmable(s);
    if |t| == 0 {
      assert AllTrimmable(s) by {
        forall k | 0 <= k < |s| ensures IsTrimmable(s[k]) {
          if k < |lead| { assert s[k] == lead[k]; } else { assert s[k] == trail[k - |lead|]; }
        }
      }
      assert a == |s|;
    } else {
      assert s[|lead|] == t[0];
      assert a == |lead|;
      var rest := s[a..];
      assert rest == t + trail;
      var b := TrailingTrimmable(rest);
      assert rest[|rest| - 1 - |trail|] == t[|t| - 1];
      assert b == |trail|;
      assert rest[..|rest| - b] == t;
    }
  }

  /* ---------------------------------------------------------------------------
   * isBlank
   * ------------------------------------------------------------------------- */

  /** `Character.isWhitespace`: the ASCII controls TAB..CR and FS..US, and the Unicode space,
      line and paragraph separators other than the non-breaking ones (U+00A0, U+2007, U+202F). */
  predicate IsJavaWhitespace(c: char) {
    var n := c as int;
    || n == 0x20
    || (0x09 <= n <= 0x0D)
    || (0x1C <= n <= 0x1F)
    || n == 0x1680
    || (0x2000 <= n <= 0x2006)
    || (0x2008 <= n <= 0x200A)
    || n == 0x2028
    || n == 0x2029
    || n == 0x205F
    || n == 0x3000
  }

  /** `s.isBlank()`: empty or whitespace only. */
  predicate IsBlank(s: string) {
    forall k | 0 <= k < |s| :: IsJavaWhitespace(s[k])
  }

  /** `isBlank` and `trim` disagree on what counts as space: every ASCII Java whitespace
      character is trimmable, but U+2000 is blank yet survives `trim`, and U+0000 is
      trimmed yet not blank. */
  lemma BlankVersusTrim()
    ensures forall c: char :: IsJavaWhitespace(c) && c as int < 0x80 ==> IsTrimmable(c)
    ensures IsBlank([0x2000 as char]) && IsTrimmed([0x2000 as char])
    ensures IsTrimmable(0 as char) && !IsJavaWhitespace(0 as char)
  {
  }

  /* ---------------------------------------------------------------------------
   * split
   * ------------------------------------------------------------------------- */

  /** The pieces joined back together, `sep` between consecutive ones. */
  function Join(pieces: seq<string>, sep: char): string {
    if |pieces| == 0 then ""
    else if |pieces| == 1 then pieces[0]
    else pieces[0] + [sep] + Join(pieces[1..], sep)
  }

  predicate FreeOf(pieces: seq<string>, sep: char) {
    forall i | 0 <= i < |pieces| :: sep !in pieces[i]
  }

  /** Every piece of `s` between occurrences of `sep`, empty pieces included. */
  function SplitOn(s: string, sep: char): (pieces: seq<string>)
    ensures |pieces| >= 1
    ensures FreeOf(pieces, sep)
    ensures Join(pieces, sep) == s
  {
    if |s| == 0 then [""]
    else
      var rest := SplitOn(s[1..], sep);
      if s[0] == sep then
        assert s == [sep] + s[1..];
        [""] + rest
      else
        var first := [s[0]] + rest[0];
        var pieces := [first] + rest[1..];
        assert pieces[1..] == rest[1..];
        assert s == [s[0]] + s[1..];
        if |rest| == 1 then pieces
        else
          assert Join(rest, sep) == rest[0] + [sep] + Join(rest[1..], sep);
          assert Join(pieces, sep) == first + [sep] + Join(rest[1..], sep);
          pieces
  }

  lemma JoinPrefix(pieces: seq<string>, sep: char)
    requires |pieces| >= 2
    ensures |Join(pieces, sep)| > |pieces[0]|
    ensures Join(pieces, sep)[..|pieces[0]|] == pieces[0]
    ensures Join(pieces, sep)[|pieces[0]|] == sep
    ensures Join(pieces, sep)[|pieces[0]| + 1..] == Join(pieces[1..], sep)
  {
  }

  /** Joining is injective on `sep`-free pieces: the joined text determines the pieces. */
  lemma {:induction false} JoinInjective(a: seq<string>, b: seq<string>, sep: char)
    requires |a| >= 1 && |b| >= 1
    requires FreeOf(a, sep) && FreeOf(b, sep)
    requires Join(a, sep) == Join(b, sep)
    ensures a == b
  {
    var s := Join(a, sep);
    if |a| == 1 && |b| == 1 {
    } else if |a| == 1 {
      JoinPrefix(b, sep);
      assert false;
    } else if |b| == 1 {
      JoinPrefix(a, sep);
      assert false;
    } else {
      JoinPrefix(a, sep);
      JoinPrefix(b, sep);
      if |a[0]| < |b[0]| {
        assert false;
      } else if |b[0]| < |a[0]| {
        assert false;
      }
      assert a[0] == b[0];
      assert Join(a[1..], sep) == Join(b[1..], sep);
      JoinInjective(a[1..], b[1..], sep);
      assert a == [a[0]] + a[1..];
      assert b == [b[0]] + b[1..];
    }
  }

  /** Splitting undoes joining `sep`-free pieces. */
  lemma SplitJoin(pieces: seq<string>, sep: char)
    requires |pieces| >= 1 && FreeOf(pieces, sep)
    ensures SplitOn(Join(pieces, sep), sep) == pieces
  {
    JoinInjective(SplitOn(Join(pieces, sep), sep), pieces, sep);
  }

  /** The pieces without their run of trailing empty strings. */
  function DropTrailingEmpty(pieces: seq<string>): (r: seq<string>)
    ensures |r| <= |pieces| && r == pieces[..|r|]
    ensures forall i | |r| <= i < |pieces| :: pieces[i] == ""
    ensures |r| == 0 || r[|r| - 1] != ""
  {
    if |pieces| > 0 && pieces[|pieces| - 1] == "" then DropTrailingEmpty(pieces[..|pieces| - 1])
    else pieces
  }

  /** `s.split(String.valueOf(sep))` for a delimiter that is not a regular-expression
      metacharacter: the empty string splits to itself, otherwise trailing empty pieces
      are removed. */
  function JavaSplit(s: string, sep: char): (r: seq<string>)
    ensures FreeOf(r, sep)
  {
    if |s| == 0 then [s] else DropTrailingEmpty(SplitOn(s, sep))
  }

  /** What `split` returns: `[""]` for the empty string; otherwise the plain split with its
      run of trailing empty pieces, and nothing else, removed. */
  lemma JavaSplitPieces(s: string, sep: char)
    ensures |s| == 0 ==> JavaSplit(s, sep) == [""]
    ensures |s| > 0 ==>
      var all := SplitOn(s, sep);
      var r := JavaSplit(s, sep);
      && |r| <= |all| && r == all[..|r|]
      && (forall i | |r| <= i < |all| :: all[i] == "")
      && (|r| == 0 || r[|r| - 1] != "")
  {
  }
}
