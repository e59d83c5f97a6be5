/** The two regular expressions the colour picker accepts:
      `/^#([a-f0-9]{6}|[a-f0-9]{3})$/i`  and
      `/^rgba\(\s*([0-9]{1,3})\s*,\s*([0-9]{1,3})\s*,\s*([0-9]{1,3})\s*,\s*([0-9\.]{1,4})\s*\)/i`.
    The first is anchored at both ends, where PCRE's `$` also matches before a
    final newline; the second has no end anchor, so it accepts any string that
    merely begins with an rgba expression. The rgba expression is a sequence
    of character-class repetitions, recognised by a greedy scanner that is
    proved to accept exactly the strings the expression matches. */
module ColorSyntax {

  import opened Opt

  // ---------------------------------------------------------------- hex form

  predicate IsHexDigit(c: char) {
    '0' <= c <= '9' || 'a' <= c <= 'f' || 'A' <= c <= 'F'
  }

  predicate AllHex(h: string) {
    forall i :: 0 <= i < |h| ==> IsHexDigit(h[i])
  }

  /** What the anchored hex expression matches: `#`, then 3 or 6 hex digits
      in either case, then the end of the string or a final newline. */
  ghost predicate HexPattern(s: string) {
    exists h :: (|h| == 3 || |h| == 6) && AllHex(h) && (s == "#" + h || s == "#" + h + "\n")
  }

  /** The test the colour picker runs for the hex form. */
  predicate IsHexColor(s: string) {
    && |s| >= 2
    && s[0] == '#'
    && var body := if s[|s| - 1] == '\n' then s[1..|s| - 1] else s[1..];
       (|body| == 3 || |body| == 6) && AllHex(body)
  }

  lemma {:induction false} HexColorIsPattern(s: string)
    ensures IsHexColor(s) <==> HexPattern(s)
  {
    if IsHexColor(s) {
      HexColorMatches(s);
    }
    if HexPattern(s) {
      var h :| (|h| == 3 || |h| == 6) && AllHex(h) && (s == "#" + h || s == "#" + h + "\n");
      HexDigitsPass(s, h);
    }
  }

  lemma {:induction false} HexColorMatches(s: string)
    requires IsHexColor(s)
    ensures HexPattern(s)
  {
    var h := if s[|s| - 1] == '\n' then s[1..|s| - 1] else s[1..];
    if s[|s| - 1] == '\n' {
      assert s == "#" + h + "\n";
    } else {
      assert s == "#" + h;
    }
  }

  lemma {:induction false} HexDigitsPass(s: string, h: string)
    requires (|h| == 3 || |h| == 6) && AllHex(h)
    requires s == "#" + h || s == "#" + h + "\n"
    ensures IsHexColor(s)
  {
    assert s[0] == '#';
    if s == "#" + h {
      assert s[|s| - 1] == h[|h| - 1];
      assert IsHexDigit(h[|h| - 1]);
      assert s[1..] == h;
    } else {
      assert s[|s| - 1] == '\n';
      assert s[1..|s| - 1] == h;
    }
  }

  // ------------------------------------------------- class-repetition tokens

  /** A character class of the expression: one literal character, one ASCII
      letter in either case (the `/i` flag), PCRE's `\s`, `[0-9]`, `[0-9.]`. */
  datatype CharClass = Ch(c: char) | NoCase(lower: char) | Space | Digit | DigitOrDot

  function Upper(c: char): char {
    if 'a' <= c <= 'z' then (c as int - 32) as char else c
  }

  predicate In(cls: CharClass, c: char) {
    match cls
    case Ch(d) => c == d
    case NoCase(l) => c == l || c == Upper(l)
    case Space => c == ' ' || c == '\t' || c == '\n' || c == 11 as char || c == 12 as char || c == '\r'
    case Digit => '0' <= c <= '9'
    case DigitOrDot => '0' <= c <= '9' || c == '.'
  }

  datatype Bound = AtMost(n: nat) | Unbounded

  /** `cls{lo,hi}`; `*` is `{0,}` and a plain class is `{1,1}`. */
  datatype Token = Token(cls: CharClass, lo: nat, hi: Bound)

  /** `part` is one way the token can match. */
  predicate Fits(t: Token, part: string) {
    && t.lo <= |part|
    && (t.hi.AtMost? ==> |part| <= t.hi.n)
    && forall i :: 0 <= i < |part| ==> In(t.cls, part[i])
  }

  predicate FitsAll(pat: seq<Token>, parts: seq<string>) {
    |parts| == |pat| && forall i :: 0 <= i < |pat| ==> Fits(pat[i], parts[i])
  }

  function Concat(parts: seq<string>): string
    decreases |parts|
  {
    if |parts| == 0 then "" else parts[0] + Concat(parts[1..])
  }

  /** What the unanchored-at-the-end expression matches: some split of a
      prefix of `s` into parts, one per token. */
  ghost predicate PrefixMatches(pat: seq<Token>, s: string) {
    exists parts, rest :: FitsAll(pat, parts) && s == Concat(parts) + rest
  }

  /** Length of the longest prefix of `s` inside the class. */
  function Run(cls: CharClass, s: string): (n: nat)
    ensures n <= |s|
    ensures forall i :: 0 <= i < n ==> In(cls, s[i])
    ensures n < |s| ==> !In(cls, s[n])
    decreases |s|
  {
    if |s| > 0 && In(cls, s[0]) then 1 + Run(cls, s[1..]) else 0
  }

  /** How many characters a token consumes greedily. */
  function Take(t: Token, s: string): nat {
    var n := Run(t.cls, s);
    match t.hi
    case AtMost(m) => if n < m then n else m
    case Unbounded => n
  }

  datatype Parse = Parse(parts: seq<string>, rest: string)

  /** Greedy scan: each token takes as much as it can, never backtracking. */
  function Scan(pat: seq<Token>, s: string): (r: Option<Parse>)
    decreases |pat|
  {
    if |pat| == 0 then Some(Parse([], s))
    else
      var k := Take(pat[0], s);
      if k < pat[0].lo then None
      else
        match Scan(pat[1..], s[k..])
        case None => None
        case Some(p) => Some(Parse([s[..k]] + p.parts, p.rest))
  }

  /** What a token takes greedily is one way it can match. */
  lemma {:induction false} TakeFits(t: Token, s: string)
    requires t.lo <= Take(t, s)
    ensures Take(t, s) <= |s| && Fits(t, s[..Take(t, s)])
  {
    var k := Take(t, s);
    assert forall i :: 0 <= i < k ==> s[..k][i] == s[i];
  }

  /** Each part the scanner produces is a match of its token. */
  lemma {:induction false} ScanParts(pat: seq<Token>, s: string)
    requires Scan(pat, s).Some?
    ensures FitsAll(pat, Scan(pat, s).value.parts)
    decreases |pat|
  {
    if |pat| > 0 {
      var k := Take(pat[0], s);
      TakeFits(pat[0], s);
      ScanParts(pat[1..], s[k..]);
      var p := Scan(pat[1..], s[k..]).value;
      var parts := [s[..k]] + p.parts;
      assert Scan(pat, s).value.parts == parts;
      forall i | 1 <= i < |pat|
        ensures Fits(pat[i], parts[i])
      {
        assert pat[i] == pat[1..][i - 1] && parts[i] == p.parts[i - 1];
      }
    }
  }

  /** The parts and the rest put back together give the input. */
  lemma {:induction false} ScanSplits(pat: seq<Token>, s: string)
    requires Scan(pat, s).Some?
    ensures s == Concat(Scan(pat, s).value.parts) + Scan(pat, s).value.rest
    decreases |pat|
  {
    if |pat| > 0 {
      var k := Take(pat[0], s);
      ScanSplits(pat[1..], s[k..]);
      var p := Scan(pat[1..], s[k..]).value;
      assert Scan(pat, s).value == Parse([s[..k]] + p.parts, p.rest);
      ConcatCons(s, k, p.parts, p.rest);
    }
  }

  /** A first part of `k` characters in front of a split of the remainder. */
  lemma {:induction false} ConcatCons(s: string, k: nat, parts: seq<string>, rest: string)
    requires k <= |s| && s[k..] == Concat(parts) + rest
    ensures s == Concat([s[..k]] + parts) + rest
  {
    var all := [s[..k]] + parts;
    assert all[0] == s[..k] && all[1..] == parts;
    assert Concat(all) == s[..k] + Concat(parts);
    assert s == s[..k] + s[k..];
  }

  /** Whatever the scanner accepts is a match of the expression. */
  lemma {:induction false} ScanSound(pat: seq<Token>, s: string)
    requires Scan(pat, s).Some?
    ensures FitsAll(pat, Scan(pat, s).value.parts)
    ensures s == Concat(Scan(pat, s).value.parts) + Scan(pat, s).value.rest
  {
    ScanParts(pat, s);
    ScanSplits(pat, s);
  }

  ghost predicate Disjoint(a: CharClass, b: CharClass) {
    forall c :: In(a, c) ==> !In(b, c)
  }

  /** Whatever follows a match of `pat` starts with a character outside `cls`. */
  ghost predicate Stops(cls: CharClass, pat: seq<Token>)
    decreases |pat|
  {
    |pat| > 0 && Disjoint(cls, pat[0].cls) && (pat[0].lo > 0 || Stops(cls, pat[1..]))
  }

  /** Greedy scanning is exact when every token either has a fixed width or is
      followed by a token that cannot continue it. */
  ghost predicate Guarded(pat: seq<Token>)
    decreases |pat|
  {
    |pat| == 0 || ((pat[0].hi == AtMost(pat[0].lo) || Stops(pat[0].cls, pat[1..])) && Guarded(pat[1..]))
  }

  lemma {:induction false} ConcatOfTail(parts: seq<string>, rest: string)
    requires |parts| > 0
    ensures Concat(parts) + rest == parts[0] + (Concat(parts[1..]) + rest)
  {
  }

  lemma {:induction false} FitsAllTail(pat: seq<Token>, parts: seq<string>)
    requires |pat| > 0 && FitsAll(pat, parts)
    ensures Fits(pat[0], parts[0]) && FitsAll(pat[1..], parts[1..])
  {
    forall i | 0 <= i < |pat| - 1
      ensures Fits(pat[1..][i], parts[1..][i])
    {
      assert Fits(pat[i + 1], parts[i + 1]);
    }
  }

  /** One step of the scanner: the first token's take, then the rest. */
  lemma {:induction false} ScanStep(pat: seq<Token>, s: string, parts: seq<string>, rest: string)
    requires |pat| > 0 && pat[0].lo <= Take(pat[0], s) <= |s|
    requires Scan(pat[1..], s[Take(pat[0], s)..]) == Some(Parse(parts, rest))
    ensures Scan(pat, s) == Some(Parse([s[..Take(pat[0], s)]] + parts, rest))
  {
  }

  lemma {:induction false} FirstCharOutside(cls: CharClass, pat: seq<Token>, parts: seq<string>, rest: string)
    requires Stops(cls, pat)
    requires FitsAll(pat, parts)
    ensures |Concat(parts) + rest| > 0 && !In(cls, (Concat(parts) + rest)[0])
    decreases |pat|
  {
    ConcatOfTail(parts, rest);
    FitsAllTail(pat, parts);
    if |parts[0]| == 0 {
      FirstCharOutside(cls, pat[1..], parts[1..], rest);
      assert parts[0] + (Concat(parts[1..]) + rest) == Concat(parts[1..]) + rest;
    } else {
      assert (Concat(parts) + rest)[0] == parts[0][0];
    }
  }

  /** The greedy take of the first token is exactly the first part of any match. */
  lemma {:induction false} TakeIsPart(t: Token, part: string, u: string, followers: seq<Token>, parts: seq<string>, rest: string)
    requires Fits(t, part)
    requires u == Concat(parts) + rest
    requires FitsAll(followers, parts)
    requires t.hi == AtMost(t.lo) || Stops(t.cls, followers)
    ensures Take(t, part + u) == |part|
  {
    var s := part + u;
    assert forall i :: 0 <= i < |part| ==> s[i] == part[i];
    assert Run(t.cls, s) >= |part|;
    if t.hi != AtMost(t.lo) {
      FirstCharOutside(t.cls, followers, parts, rest);
      assert s[|part|] == u[0];
    }
  }

  /** The scanner finds every match of a guarded expression, and finds it
      split exactly as given. */
  lemma {:induction false} ScanComplete(pat: seq<Token>, parts: seq<string>, rest: string)
    requires Guarded(pat)
    requires FitsAll(pat, parts)
    ensures Scan(pat, Concat(parts) + rest) == Some(Parse(parts, rest))
    decreases |pat|
  {
    if |pat| > 0 {
      var s := Concat(parts) + rest;
      var u := Concat(parts[1..]) + rest;
      ConcatOfTail(parts, rest);
      FitsAllTail(pat, parts);
      TakeIsPart(pat[0], parts[0], u, pat[1..], parts[1..], rest);
      var k := |parts[0]|;
      assert s[..k] == parts[0];
      assert s[k..] == u;
      ScanComplete(pat[1..], parts[1..], rest);
      ScanStep(pat, s, parts[1..], rest);
      assert [parts[0]] + parts[1..] == parts;
    } else {
      assert Concat(parts) + rest == rest;
    }
  }

  /** For a guarded expression the greedy scanner decides the expression. */
  lemma {:induction false} ScanDecides(pat: seq<Token>, s: string)
    requires Guarded(pat)
    ensures Scan(pat, s).Some? <==> PrefixMatches(pat, s)
  {
    if Scan(pat, s).Some? {
      ScanSound(pat, s);
    }
    if PrefixMatches(pat, s) {
      var parts, rest :| FitsAll(pat, parts) && s == Concat(parts) + rest;
      ScanComplete(pat, parts, rest);
    }
  }

  // --------------------------------------------------------------- rgba form

  function One(cls: CharClass): Token { Token(cls, 1, AtMost(1)) }

  const Spaces: Token := Token(Space, 0, Unbounded)

  const Channel: Token := Token(Digit, 1, AtMost(3))

  const Alpha: Token := Token(DigitOrDot, 1, AtMost(4))

  /** `\s*d{1,3}\s*,`: one colour channel and its separator. */
  const ChannelThenComma: seq<Token> := [Spaces, Channel, Spaces, One(Ch(','))]

  /** `\s*[0-9.]{1,4}\s*\)`: the alpha value and the closing parenthesis. */
  const AlphaThenClose: seq<Token> := [Spaces, Alpha, Spaces, One(Ch(')'))]

  const RgbaOpen: seq<Token> := [One(NoCase('r')), One(NoCase('g')), One(NoCase('b')), One(NoCase('a')), One(Ch('('))]

  /** `rgba\(\s*d{1,3}\s*,\s*d{1,3}\s*,\s*d{1,3}\s*,\s*[0-9.]{1,4}\s*\)` with `/i`. */
  const RgbaPattern: seq<Token> :=
    RgbaOpen + (ChannelThenComma + (ChannelThenComma + (ChannelThenComma + AlphaThenClose)))

  /** A decidable sufficient test for `Disjoint`. */
  predicate DisjointTest(a: CharClass, b: CharClass) {
    match a
    case Ch(c) => !In(b, c)
    case NoCase(l) => !In(b, l) && !In(b, Upper(l))
    case _ =>
      match b
      case Ch(c) => !In(a, c)
      case NoCase(l) => !In(a, l) && !In(a, Upper(l))
      case Space => !a.Space?
      case _ => a.Space?
  }

  lemma {:induction false} DisjointTestSound(a: CharClass, b: CharClass)
    requires DisjointTest(a, b)
    ensures Disjoint(a, b)
  {
  }

  predicate StopsTest(cls: CharClass, pat: seq<Token>)
    decreases |pat|
  {
    |pat| > 0 && DisjointTest(cls, pat[0].cls) && (pat[0].lo > 0 || StopsTest(cls, pat[1..]))
  }

  predicate GuardedTest(pat: seq<Token>)
    decreases |pat|
  {
    |pat| == 0 || ((pat[0].hi == AtMost(pat[0].lo) || StopsTest(pat[0].cls, pat[1..])) && GuardedTest(pat[1..]))
  }

  lemma {:induction false} StopsTestSound(cls: CharClass, pat: seq<Token>)
    requires StopsTest(cls, pat)
    ensures Stops(cls, pat)
    decreases |pat|
  {
    DisjointTestSound(cls, pat[0].cls);
    if pat[0].lo == 0 {
      StopsTestSound(cls, pat[1..]);
    }
  }

  lemma {:induction false} GuardedTestSound(pat: seq<Token>)
    requires GuardedTest(pat)
    ensures Guarded(pat)
    decreases |pat|
  {
    if |pat| > 0 {
      if pat[0].hi != AtMost(pat[0].lo) {
        StopsTestSound(pat[0].cls, pat[1..]);
      }
      GuardedTestSound(pat[1..]);
    }
  }

  lemma {:induction false} GuardedTestCons(t: Token, rest: seq<Token>)
    requires t.hi == AtMost(t.lo) || StopsTest(t.cls, rest)
    requires GuardedTest(rest)
    ensures GuardedTest([t] + rest)
  {
    assert ([t] + rest)[1..] == rest;
  }

  lemma {:induction false} ChannelThenCommaGuarded(next: seq<Token>)
    requires GuardedTest(next)
    ensures GuardedTest(ChannelThenComma + next)
  {
    var q3 := [One(Ch(','))] + next;
    GuardedTestCons(One(Ch(',')), next);
    assert ([Spaces] + q3)[1..] == q3;
    GuardedTestCons(Spaces, q3);
    var q1 := [Spaces] + q3;
    GuardedTestCons(Channel, q1);
    var q0 := [Channel] + q1;
    assert q0[1..] == q1;
    GuardedTestCons(Spaces, q0);
    assert ChannelThenComma + next == [Spaces] + q0;
  }

  lemma {:induction false} AlphaThenCloseGuarded()
    ensures GuardedTest(AlphaThenClose)
  {
    var q3: seq<Token> := [One(Ch(')'))];
    GuardedTestCons(One(Ch(')')), []);
    assert [One(Ch(')'))] + [] == q3;
    GuardedTestCons(Spaces, q3);
    var q1 := [Spaces] + q3;
    assert q1[1..] == q3;
    GuardedTestCons(Alpha, q1);
    var q0 := [Alpha] + q1;
    assert q0[1..] == q1;
    GuardedTestCons(Spaces, q0);
    assert AlphaThenClose == [Spaces] + q0;
  }

  /** Tokens that match a fixed number of characters can be put in front of
      any guarded pattern. */
  lemma {:induction false} ExactPrefixGuarded(pre: seq<Token>, next: seq<Token>)
    requires forall i :: 0 <= i < |pre| ==> pre[i].hi == AtMost(pre[i].lo)
    requires GuardedTest(next)
    ensures GuardedTest(pre + next)
    decreases |pre|
  {
    if |pre| > 0 {
      assert forall i :: 0 <= i < |pre| - 1 ==> pre[1..][i] == pre[i + 1];
      ExactPrefixGuarded(pre[1..], next);
      GuardedTestCons(pre[0], pre[1..] + next);
      assert pre + next == [pre[0]] + (pre[1..] + next);
    } else {
      assert pre + next == next;
    }
  }

  lemma {:induction false} RgbaOpenGuarded(next: seq<Token>)
    requires GuardedTest(next)
    ensures GuardedTest(RgbaOpen + next)
  {
    ExactPrefixGuarded(RgbaOpen, next);
  }

  lemma {:induction false} RgbaPatternGuarded()
    ensures Guarded(RgbaPattern)
  {
    AlphaThenCloseGuarded();
    var args := ChannelThenComma + AlphaThenClose;
    ChannelThenCommaGuarded(AlphaThenClose);
    ChannelThenCommaGuarded(args);
    ChannelThenCommaGuarded(ChannelThenComma + args);
    RgbaOpenGuarded(ChannelThenComma + (ChannelThenComma + args));
    GuardedTestSound(RgbaPattern);
  }

  /** The test the colour picker runs for the rgba form. */
  predicate IsRgbaPrefix(s: string) {
    Scan(RgbaPattern, s).Some?
  }

  lemma {:induction false} RgbaPrefixIsPattern(s: string)
    ensures IsRgbaPrefix(s) <==> PrefixMatches(RgbaPattern, s)
  {
    RgbaPatternGuarded();
    ScanDecides(RgbaPattern, s);
  }

  // ------------------------------------------------------------ colour test

  /** A colour the picker keeps: it fails only when neither expression matches. */
  predicate ColorOk(s: string) {
    IsHexColor(s) || IsRgbaPrefix(s)
  }

  /** The colour test is exactly "the hex expression matches or the rgba
      expression matches a prefix". */
  lemma {:induction false} ColorOkIsRegex(s: string)
    ensures ColorOk(s) <==> HexPattern(s) || PrefixMatches(RgbaPattern, s)
  {
    HexColorIsPattern(s);
    RgbaPrefixIsPattern(s);
  }
}
