/**
 * The JavaScript string operations the bot's logic relies on, stated on
 * `seq<char>`: `includes`, `trim`, `split(/ +/)`, `toLowerCase`, `join` and
 * the decimal rendering of an integer in a template literal.
 */
module Text {

  // ---------------------------------------------------------------------------
  // Substring search: `s.includes(sub)`
  // ---------------------------------------------------------------------------

  predicate IsPrefix(p: string, s: string) {
    |p| <= |s| && s[..|p|] == p
  }

  /** `sub` occurs in `s` starting at index `i`. */
  predicate OccursAt(s: string, sub: string, i: nat) {
    i + |sub| <= |s| && s[i..i + |sub|] == sub
  }

  /** `s.includes(sub)`: case-sensitive, character by character. */
  predicate Contains(s: string, sub: string)
    decreases |s|
  {
    IsPrefix(sub, s) || (|s| > 0 && Contains(s[1..], sub))
  }

  /** `Contains` holds exactly when `sub` occurs at some index of `s`. */
  lemma {:induction false} ContainsIffOccurs(s: string, sub: string)
    ensures Contains(s, sub) <==> exists i: nat :: OccursAt(s, sub, i)
    decreases |s|
  {
    if IsPrefix(sub, s) {
      assert OccursAt(s, sub, 0);
    } else if |s| > 0 {
      ContainsIffOccurs(s[1..], sub);
      if Contains(s[1..], sub) {
        var i: nat :| OccursAt(s[1..], sub, i);
        assert s[1..][i..i + |sub|] == s[i + 1..i + 1 + |sub|];
        assert OccursAt(s, sub, i + 1);
      }
      if i: nat :| OccursAt(s, sub, i) {
        assert i != 0;
        assert s[1..][i - 1..i - 1 + |sub|] == s[i..i + |sub|];
        assert OccursAt(s[1..], sub, i - 1);
      }
    }
  }

  /** A string lacking some character of `sub` does not contain `sub`. */
  lemma {:induction false} MissingCharNotContained(s: string, sub: string, c: char)
    requires c in sub && c !in s
    ensures !Contains(s, sub)
    decreases |s|
  {
    if |s| > 0 {
      MissingCharNotContained(s[1..], sub, c);
    }
  }

  /** Every string contains itself; in particular `"Villager".includes("Villager")`. */
  lemma ContainsSelf(s: string)
    ensures Contains(s, s)
  {
    assert IsPrefix(s, s);
  }

  // ---------------------------------------------------------------------------
  // `s.trim()`
  // ---------------------------------------------------------------------------

  /** The code points ECMAScript's `trim` strips: WhiteSpace and LineTerminator. */
  predicate IsWhitespace(c: char) {
    || c == '\t' || c == '\n' || c == '\U{B}' || c == '\U{C}' || c == '\r' || c == ' '
    || c == '\U{A0}' || c == '\U{1680}' || ('\U{2000}' <= c <= '\U{200A}')
    || c == '\U{2028}' || c == '\U{2029}' || c == '\U{202F}' || c == '\U{205F}'
    || c == '\U{3000}' || c == '\U{FEFF}'
  }

  predicate AllWhitespace(s: string) {
    forall k :: 0 <= k < |s| ==> IsWhitespace(s[k])
  }

  /** Leading whitespace removed: the longest suffix of `s` that does not start with whitespace. */
  function TrimStart(s: string): (r: string)
    ensures |r| <= |s| && r == s[|s| - |r|..]
    ensures AllWhitespace(s[..|s| - |r|])
    ensures r == [] || !IsWhitespace(r[0])
    decreases |s|
  {
    if |s| > 0 && IsWhitespace(s[0]) then TrimStart(s[1..]) else s
  }

  /** Trailing whitespace removed: the longest prefix of `s` that does not end with whitespace. */
  function TrimEnd(s: string): (r: string)
    ensures |r| <= |s| && r == s[..|r|]
    ensures AllWhitespace(s[|r|..])
    ensures r == [] || !IsWhitespace(r[|r| - 1])
    decreases |s|
  {
    if |s| > 0 && IsWhitespace(s[|s| - 1]) then TrimEnd(s[..|s| - 1]) else s
  }

  /** `r` is the slice of `s` at index `i` and only whitespace surrounds it. */
  predicate PaddedAt(s: string, r: string, i: nat) {
    OccursAt(s, r, i) && AllWhitespace(s[..i]) && AllWhitespace(s[i + |r|..])
  }

  /** Neither end of `s` is whitespace. */
  predicate IsTrimmed(s: string) {
    s == [] || (!IsWhitespace(s[0]) && !IsWhitespace(s[|s| - 1]))
  }

  /**
   * `s.trim()`: `s` with whitespace removed from both ends, so that what is left
   * is a slice of `s` surrounded only by whitespace, neither end of which is
   * whitespace; a string whose ends are not whitespace is its own trim.
   */
  function Trim(s: string): (r: string)
    ensures exists i: nat :: PaddedAt(s, r, i)
    ensures IsTrimmed(r)
    ensures IsTrimmed(s) ==> r == s
  {
    var t := TrimStart(s);
    var r := TrimEnd(t);
    var i := |s| - |t|;
    assert s[i..i + |r|] == t[..|r|];
    assert s[i + |r|..] == t[|r|..];
    assert PaddedAt(s, r, i);
    r
  }

  /** Leading whitespace before a string that does not start with whitespace is all `TrimStart` drops. */
  lemma {:induction false} TrimStartPadded(pre: string, v: string)
    requires AllWhitespace(pre)
    requires v == [] || !IsWhitespace(v[0])
    ensures TrimStart(pre + v) == v
    decreases |pre|
  {
    if pre == [] {
      assert pre + v == v;
    } else {
      assert (pre + v)[1..] == pre[1..] + v;
      TrimStartPadded(pre[1..], v);
    }
  }

  /** Trailing whitespace after a string that does not end with whitespace is all `TrimEnd` drops. */
  lemma {:induction false} TrimEndPadded(v: string, post: string)
    requires AllWhitespace(post)
    requires v == [] || !IsWhitespace(v[|v| - 1])
    ensures TrimEnd(v + post) == v
    decreases |post|
  {
    if post == [] {
      assert v + post == v;
    } else {
      var n := |post| - 1;
      assert (v + post)[..|v + post| - 1] == v + post[..n];
      TrimEndPadded(v, post[..n]);
    }
  }

  /** Whatever whitespace surrounds a trimmed string, `trim` gives that string back. */
  lemma TrimPadded(pre: string, m: string, post: string)
    requires AllWhitespace(pre) && AllWhitespace(post) && IsTrimmed(m)
    ensures Trim(pre + m + post) == m
  {
    assert pre + m + post == pre + (m + post);
    if m == [] {
      assert m + post == post;
      assert pre + post == [] || IsWhitespace((pre + post)[0]);
      TrimStartPadded(pre + post, []);
      assert pre + post + [] == pre + post;
    } else {
      TrimStartPadded(pre, m + post);
    }
    TrimEndPadded(m, post);
  }

  lemma TrimIdempotent(s: string)
    ensures Trim(Trim(s)) == Trim(s)
  {
  }

  // ---------------------------------------------------------------------------
  // `s.split(/ +/)`: split at every run of space characters
  // ---------------------------------------------------------------------------

  /** `s` without its leading run of spaces. */
  function DropSpaces(s: string): (r: string)
    ensures |r| <= |s| && r == s[|s| - |r|..]
    ensures forall k :: 0 <= k < |s| - |r| ==> s[k] == ' '
    ensures r == [] || r[0] != ' '
    decreases |s|
  {
    if |s| > 0 && s[0] == ' ' then DropSpaces(s[1..]) else s
  }

  /**
   * `s.split(/ +/)`. There is always at least one token and no token holds a
   * space; a leading (trailing) run of spaces yields an empty first (last)
   * token, as in JavaScript, and `"".split(/ +/)` is `[""]`.
   */
  function Split(s: string): (r: seq<string>)
    ensures |r| >= 1
    ensures forall t :: t in r ==> ' ' !in t
    decreases |s|
  {
    if |s| == 0 then [""]
    else if s[0] == ' ' then
      var d := DropSpaces(s);
      [""] + Split(d)
    else
      var rest := Split(s[1..]);
      [[s[0]] + rest[0]] + rest[1..]
  }

  /** `ss.join(sep)`. */
  function Join(ss: seq<string>, sep: string): string {
    if |ss| == 0 then "" else if |ss| == 1 then ss[0] else ss[0] + sep + Join(ss[1..], sep)
  }

  /** A word that `split(/ +/)` can return from a string that `trim` left unchanged. */
  predicate IsWord(t: string) {
    t != [] && ' ' !in t
  }

  /** A non-space character joins the first token of what follows it. */
  lemma SplitCons(c: char, w: string)
    requires c != ' '
    ensures Split([c] + w) == [[c] + Split(w)[0]] + Split(w)[1..]
  {
    assert ([c] + w)[0] == c && ([c] + w)[1..] == w;
  }

  lemma {:induction false} SplitPrefix(t: string, u: string)
    requires ' ' !in t
    ensures Split(t + u) == [t + Split(u)[0]] + Split(u)[1..]
    decreases |t|
  {
    if t == [] {
      var x := Split(u);
      assert t + u == u;
      assert t + x[0] == x[0];
      assert [x[0]] + x[1..] == x;
    } else {
      var c, t' := t[0], t[1..];
      assert c in t;
      assert t + u == [c] + (t' + u);
      assert t + Split(u)[0] == [c] + (t' + Split(u)[0]);
      SplitPrefix(t', u);
      SplitCons(c, t' + u);
    }
  }

  lemma SplitAfterSpace(w: string)
    requires w == [] || w[0] != ' '
    ensures Split(" " + w) == [""] + Split(w)
  {
    assert (" " + w)[1..] == w;
    assert DropSpaces(" " + w) == DropSpaces(w) == w;
  }

  /** `n` spaces. */
  function Spaces(n: nat): (r: string)
    ensures |r| == n && forall k :: 0 <= k < n ==> r[k] == ' '
  {
    seq(n, _ => ' ')
  }

  lemma {:induction false} DropSpacesRun(n: nat, u: string)
    requires u == [] || u[0] != ' '
    ensures DropSpaces(Spaces(n) + u) == u
    decreases n
  {
    if n == 0 {
      assert Spaces(n) + u == u;
    } else {
      assert (Spaces(n) + u)[1..] == Spaces(n - 1) + u;
      DropSpacesRun(n - 1, u);
    }
  }

  /**
   * A run of one or more spaces is a single separator: the word before it is a
   * token of its own and splitting carries on after the run.
   */
  lemma SplitSpaceRun(t: string, n: nat, u: string)
    requires ' ' !in t && n >= 1 && (u == [] || u[0] != ' ')
    ensures Split(t + Spaces(n) + u) == [t] + Split(u)
  {
    var g := Spaces(n) + u;
    assert t + Spaces(n) + u == t + g;
    SplitPrefix(t, g);
    DropSpacesRun(n, u);
    assert Split(g) == [""] + Split(u);
    assert t + "" == t;
  }

  /** The word `w` on its own is its only token. */
  lemma SplitWord(w: string)
    requires ' ' !in w
    ensures Split(w) == [w]
  {
    SplitPrefix(w, "");
    assert w + "" == w;
  }

  /** Words separated by runs of spaces, `gaps[i]` of them after word `i`. */
  function JoinRuns(ws: seq<string>, gaps: seq<nat>): string
    requires |ws| >= 1 && |gaps| == |ws| - 1
    decreases |ws|
  {
    if |ws| == 1 then ws[0] else ws[0] + Spaces(gaps[0]) + JoinRuns(ws[1..], gaps[1..])
  }

  lemma {:induction false} JoinRunsEnds(ws: seq<string>, gaps: seq<nat>)
    requires |ws| >= 1 && |gaps| == |ws| - 1
    requires forall i :: 0 <= i < |ws| ==> ws[i] != []
    ensures var j := JoinRuns(ws, gaps);
            |j| >= 1 && j[0] == ws[0][0] && j[|j| - 1] == ws[|ws| - 1][|ws[|ws| - 1]| - 1]
    decreases |ws|
  {
    if |ws| > 1 {
      JoinRunsEnds(ws[1..], gaps[1..]);
    }
  }

  /** However many spaces separate the words, splitting gives back exactly the words. */
  lemma {:induction false} SplitJoinRuns(ws: seq<string>, gaps: seq<nat>)
    requires |ws| >= 1 && |gaps| == |ws| - 1
    requires forall i :: 0 <= i < |ws| ==> IsWord(ws[i])
    requires forall i :: 0 <= i < |gaps| ==> gaps[i] >= 1
    ensures Split(JoinRuns(ws, gaps)) == ws
    decreases |ws|
  {
    if |ws| == 1 {
      SplitWord(ws[0]);
    } else {
      var rest := JoinRuns(ws[1..], gaps[1..]);
      SplitJoinRuns(ws[1..], gaps[1..]);
      JoinRunsEnds(ws[1..], gaps[1..]);
      SplitSpaceRun(ws[0], gaps[0], rest);
      assert [ws[0]] + ws[1..] == ws;
    }
  }

  /** No two adjacent spaces. */
  predicate SingleSpaced(s: string) {
    forall i :: 0 <= i < |s| - 1 ==> !(s[i] == ' ' && s[i + 1] == ' ')
  }

  lemma {:induction false} JoinPrependFirst(c: char, ts: seq<string>, sep: string)
    requires |ts| >= 1
    ensures Join([[c] + ts[0]] + ts[1..], sep) == [c] + Join(ts, sep)
  {
    var us := [[c] + ts[0]] + ts[1..];
    if |ts| > 1 {
      assert us[1..] == ts[1..];
    }
  }

  /** Re-joining the tokens of a single-spaced string with one space gives the string back. */
  lemma {:induction false} JoinSplit(s: string)
    requires SingleSpaced(s)
    ensures Join(Split(s), " ") == s
    decreases |s|
  {
    if |s| == 0 {
    } else if s[0] == ' ' {
      var d := DropSpaces(s);
      assert d == s[1..] by {
        if |s| > 1 { assert s[1] != ' '; }
      }
      JoinSplit(s[1..]);
      var x := Split(d);
      assert ([""] + x)[1..] == x;
      assert Join([""] + x, " ") == "" + " " + Join(x, " ");
      assert s == " " + s[1..];
    } else {
      var rest := Split(s[1..]);
      JoinSplit(s[1..]);
      JoinPrependFirst(s[0], rest, " ");
      assert s == [s[0]] + s[1..];
    }
  }

  lemma {:induction false} SplitInnerWords(s: string)
    requires s == [] || s[|s| - 1] != ' '
    ensures forall i :: 1 <= i < |Split(s)| ==> Split(s)[i] != []
    decreases |s|
  {
    if |s| == 0 {
    } else if s[0] == ' ' {
      var d := DropSpaces(s);
      assert d != [] && d[|d| - 1] == s[|s| - 1];
      SplitInnerWords(d);
      assert Split(d)[0] != [] by {
        assert d[0] != ' ';
      }
      assert Split(s) == [""] + Split(d);
    } else {
      var rest := Split(s[1..]);
      assert s[1..] == [] || s[1..][|s[1..]| - 1] == s[|s| - 1];
      SplitInnerWords(s[1..]);
    }
  }

  /** A trimmed, non-empty string splits into non-empty words only. */
  lemma SplitTrimmedWords(s: string)
    requires s != [] && !IsWhitespace(s[0]) && !IsWhitespace(s[|s| - 1])
    ensures forall i :: 0 <= i < |Split(s)| ==> IsWord(Split(s)[i])
  {
    SplitInnerWords(s);
  }

  // ---------------------------------------------------------------------------
  // `s.toLowerCase()` (on the ASCII letters)
  // ---------------------------------------------------------------------------

  predicate IsUpper(c: char) {
    'A' <= c <= 'Z'
  }

  function LowerChar(c: char): (d: char)
    ensures !IsUpper(d)
    ensures IsUpper(c) ==> d as int == c as int + 32
    ensures !IsUpper(c) ==> d == c
  {
    if IsUpper(c) then (c as int + 32) as char else c
  }

  /** `s.toLowerCase()`: every upper-case ASCII letter replaced by its lower-case form. */
  function Lower(s: string): (r: string)
    ensures |r| == |s|
    ensures forall i :: 0 <= i < |s| ==> r[i] == LowerChar(s[i])
  {
    seq(|s|, i requires 0 <= i < |s| => LowerChar(s[i]))
  }

  lemma LowerIdempotent(s: string)
    ensures Lower(Lower(s)) == Lower(s)
  {
  }

  // ---------------------------------------------------------------------------
  // Decimal rendering of an integer, `${n}`
  // ---------------------------------------------------------------------------

  function DigitChar(d: nat): (c: char)
    requires d < 10
    ensures '0' <= c <= '9' && c as int - '0' as int == d
  {
    ('0' as int + d) as char
  }

  predicate IsDigits(s: string) {
    forall k :: 0 <= k < |s| ==> '0' <= s[k] <= '9'
  }

  /** Decimal digits of `n`, most significant first, with no leading zero. */
  function NatToString(n: nat): (r: string)
    ensures |r| >= 1 && IsDigits(r)
    ensures r[0] == '0' ==> n == 0
    decreases n
  {
    if n < 10 then [DigitChar(n)] else NatToString(n / 10) + [DigitChar(n % 10)]
  }

  /** `${i}` for an integer-valued number: an optional minus sign and the digits. */
  function IntToString(i: int): string {
    if i < 0 then "-" + NatToString(-i) else NatToString(i)
  }

  /** The value a string of decimal digits denotes. */
  function ParseNat(s: string): nat
    requires IsDigits(s)
  {
    if s == [] then 0 else ParseNat(s[..|s| - 1]) * 10 + (s[|s| - 1] as int - '0' as int)
  }

  /** The strings `ParseInt` accepts: digits, optionally after a minus sign. */
  predicate IsIntText(s: string) {
    s == [] || (s[0] == '-' && IsDigits(s[1..])) || (s[0] != '-' && IsDigits(s))
  }

  function ParseInt(s: string): int
    requires IsIntText(s)
  {
    if s != [] && s[0] == '-' then 0 - ParseNat(s[1..]) else ParseNat(s)
  }

  lemma {:induction false} ParseNatToString(n: nat)
    ensures ParseNat(NatToString(n)) == n
    decreases n
  {
    var s := NatToString(n);
    if n < 10 {
      assert s[..|s| - 1] == [];
    } else {
      ParseNatToString(n / 10);
      assert s[..|s| - 1] == NatToString(n / 10);
    }
  }

  /** The rendering of an integer reads back as that integer. */
  lemma ParseIntToString(i: int)
    ensures IsIntText(IntToString(i)) && ParseInt(IntToString(i)) == i
  {
    if i < 0 {
      ParseNatToString(-i);
      assert IntToString(i)[1..] == NatToString(-i);
    } else {
      ParseNatToString(i);
    }
  }
}
