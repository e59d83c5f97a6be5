/** The two PHP string builtins the option store relies on: `trim` with its
    default character list and `stripslashes`, together with `addslashes`,
    the escaping that `stripslashes` undoes. */
module PhpString {

  /** The default character list of `trim`: space, tab, newline, carriage
      return, NUL and vertical tab. */
  predicate IsTrimChar(c: char) {
    c == ' ' || c == '\t' || c == '\n' || c == '\r' || c == '\0' || c == 11 as char
  }

  predicate AllTrimChars(s: string) {
    forall i :: 0 <= i < |s| ==> IsTrimChar(s[i])
  }

  /** `ltrim`: drops the longest prefix of trim characters. */
  function TrimLeft(s: string): (r: string)
    ensures |r| <= |s| && r == s[|s| - |r|..]
    ensures AllTrimChars(s[..|s| - |r|])
    ensures |r| > 0 ==> !IsTrimChar(r[0])
    decreases |s|
  {
    if |s| > 0 && IsTrimChar(s[0]) then TrimLeft(s[1..]) else s
  }

  /** `rtrim`: drops the longest suffix of trim characters. */
  function TrimRight(s: string): (r: string)
    ensures |r| <= |s| && r == s[..|r|]
    ensures AllTrimChars(s[|r|..])
    ensures |r| > 0 ==> !IsTrimChar(r[|r| - 1])
    decreases |s|
  {
    if |s| > 0 && IsTrimChar(s[|s| - 1]) then
    var r := TrimRight(s[..|s| - 1]);
    assert s[|r|..] == s[..|s| - 1][|r|..] + [s[|s| - 1]];
    r
  else s
  }

  /** Where the text `trim` keeps begins: the number of leading trim
      characters. */
  function TrimStart(s: string): (a: nat)
    ensures a <= |s| && AllTrimChars(s[..a])
  {
    |s| - |TrimLeft(s)|
  }

  /** `trim`: the input with its leading and trailing trim characters
      removed; what is left is the piece of the input that starts at
      `TrimStart(s)`, with only trim characters after it. */
  function Trim(s: string): (r: string)
    ensures TrimStart(s) + |r| <= |s|
    ensures r == s[TrimStart(s)..TrimStart(s) + |r|]
    ensures AllTrimChars(s[TrimStart(s) + |r|..])
    ensures |r| > 0 ==> !IsTrimChar(r[0]) && !IsTrimChar(r[|r| - 1])
  {
    var left := TrimLeft(s);
    var r := TrimRight(left);
    SliceOfSlice(s, TrimStart(s), |r|);
    r
  }

  /** Trimming twice trims no more than trimming once. */
  lemma {:induction false} TrimIdempotent(s: string)
    ensures Trim(Trim(s)) == Trim(s)
  {
    var r := Trim(s);
    assert TrimLeft(r) == r;
    if |r| > 0 {
      assert TrimRight(r) == r;
    }
  }

  lemma {:induction false} SliceOfSlice(s: string, a: int, n: int)
    requires 0 <= a <= |s| && 0 <= n <= |s| - a
    ensures s[a..][..n] == s[a..a + n] && s[a..][n..] == s[a + n..]
  {
  }

  /** `stripslashes`: a backslash is dropped and the character after it kept
      literally, except that backslash-zero becomes NUL; a trailing lone
      backslash disappears. */
  function StripSlashes(s: string): (r: string)
    ensures |r| <= |s|
    decreases |s|
  {
    if |s| == 0 then ""
    else if s[0] == '\\' then
      if |s| == 1 then ""
      else [if s[1] == '0' then '\0' else s[1]] + StripSlashes(s[2..])
    else [s[0]] + StripSlashes(s[1..])
  }

  /** `addslashes` for one character: quotes and backslash gain a backslash,
      NUL becomes backslash-zero. */
  function Escape(c: char): (r: string)
    ensures |r| == 1 <==> r == [c]
  {
    if c == '\0' then "\\0"
    else if c == '\'' || c == '"' || c == '\\' then ['\\', c]
    else [c]
  }

  /** `addslashes`: every character escaped in turn. */
  function AddSlashes(s: string): (r: string)
    ensures |r| >= |s|
    decreases |s|
  {
    if |s| == 0 then "" else Escape(s[0]) + AddSlashes(s[1..])
  }

  /** `stripslashes` undoes `addslashes` on every string. */
  lemma {:induction false} StripSlashesUndoesAddSlashes(s: string)
    ensures StripSlashes(AddSlashes(s)) == s
    decreases |s|
  {
    if |s| > 0 {
      var t := AddSlashes(s[1..]);
      StripSlashesUndoesAddSlashes(s[1..]);
      var c := s[0];
      var e := Escape(c);
      assert AddSlashes(s) == e + t;
      if |e| == 1 {
        assert c != '\\';
        assert (e + t)[1..] == t;
      } else {
        assert (e + t)[2..] == t;
      }
      assert s == [c] + s[1..];
    }
  }
}
