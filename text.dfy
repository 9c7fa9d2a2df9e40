/** Character and string operations the pipeline borrows from Python's `str`:
    `strip`, `startswith`, `in` (substring), ASCII `lower`, `splitlines`, and
    `str(n)` for natural numbers. */
module Text {

  datatype Option<T> = None | Some(value: T)

  /** Python's `str.isspace` set, the characters `str.strip()` removes. */
  const SpaceChars: set<char> := {
    '\U{0009}', '\U{000A}', '\U{000B}', '\U{000C}', '\U{000D}', '\U{001C}', '\U{001D}', '\U{001E}',
    '\U{001F}', ' ', '\U{0085}', '\U{00A0}', '\U{1680}', '\U{2000}', '\U{2001}', '\U{2002}', '\U{2003}',
    '\U{2004}', '\U{2005}', '\U{2006}', '\U{2007}', '\U{2008}', '\U{2009}', '\U{200A}', '\U{2028}',
    '\U{2029}', '\U{202F}', '\U{205F}', '\U{3000}'
  }

  predicate IsSpace(c: char) {
    c in SpaceChars
  }

  /** No printable ASCII character other than the blank is white space. */
  lemma PrintableNotSpace(c: char)
    requires '!' <= c <= '~'
    ensures !IsSpace(c)
  {
  }

  /** The line boundaries of Python's `str.splitlines` ("\r\n" counts as one). */
  predicate IsLineBreak(c: char) {
    || c == '\n' || c == '\r' || c == '\U{000B}' || c == '\U{000C}'
    || c == '\U{001C}' || c == '\U{001D}' || c == '\U{001E}'
    || c == '\U{0085}' || c == '\U{2028}' || c == '\U{2029}'
  }

  predicate NoLineBreak(s: string) {
    forall k | 0 <= k < |s| :: !IsLineBreak(s[k])
  }

  // ---------------------------------------------------------------- strip

  function StripLeft(s: string): string
    decreases |s|
  {
    if |s| > 0 && IsSpace(s[0]) then StripLeft(s[1..]) else s
  }

  function StripRight(s: string): string
    decreases |s|
  {
    if |s| > 0 && IsSpace(s[|s| - 1]) then StripRight(s[..|s| - 1]) else s
  }

  /** `s.strip()` */
  function Strip(s: string): string {
    StripRight(StripLeft(s))
  }

  /** A string `strip()` leaves alone: empty, or no white space at either end. */
  predicate Stripped(s: string) {
    s == [] || (!IsSpace(s[0]) && !IsSpace(s[|s| - 1]))
  }

  lemma {:induction false} StripLeftShape(s: string)
    ensures StripLeft(s) == [] || !IsSpace(StripLeft(s)[0])
    ensures |StripLeft(s)| <= |s| && StripLeft(s) == s[|s| - |StripLeft(s)|..]
    ensures forall k | 0 <= k < |s| - |StripLeft(s)| :: IsSpace(s[k])
    decreases |s|
  {
    if |s| > 0 && IsSpace(s[0]) {
      StripLeftShape(s[1..]);
      assert forall k | 1 <= k < |s| - |StripLeft(s)| :: s[k] == s[1..][k - 1];
    }
  }

  lemma {:induction false} StripRightShape(s: string)
    ensures StripRight(s) == [] || !IsSpace(StripRight(s)[|StripRight(s)| - 1])
    ensures |StripRight(s)| <= |s| && StripRight(s) == s[..|StripRight(s)|]
    ensures forall k | |StripRight(s)| <= k < |s| :: IsSpace(s[k])
    decreases |s|
  {
    if |s| > 0 && IsSpace(s[|s| - 1]) {
      StripRightShape(s[..|s| - 1]);
      assert forall k | |StripRight(s)| <= k < |s| - 1 :: s[k] == s[..|s| - 1][k];
    }
  }

  /** Cutting white space off the right end keeps the first character when
      that character is not white space. */
  lemma {:induction false} StripRightKeepsHead(s: string)
    requires |s| > 0 && !IsSpace(s[0])
    ensures |StripRight(s)| > 0 && StripRight(s)[0] == s[0]
    decreases |s|
  {
    if IsSpace(s[|s| - 1]) {
      StripRightKeepsHead(s[..|s| - 1]);
    }
  }

  /** The result of `strip()` is a contiguous piece of its argument with no
      white space at either end, and what it cuts off on either side is all
      white space. */
  lemma StripShape(s: string)
    ensures Stripped(Strip(s))
    ensures exists i, j :: 0 <= i <= j <= |s| && Strip(s) == s[i..j] && StripCut(s, i, j)
  {
    var l := StripLeft(s);
    StripLeftShape(s);
    StripRightShape(l);
    var r := StripRight(l);
    if r != [] {
      assert r[0] == l[0];
    }
    var i, j := |s| - |l|, |s| - |l| + |r|;
    assert r == s[i..][..|r|];
    assert r == s[i..j];
    forall k | j <= k < |s| ensures IsSpace(s[k]) {
      assert s[k] == l[k - i];
    }
    assert StripCut(s, i, j);
  }

  /** Everything of `s` before `i` and from `j` on is white space. */
  predicate StripCut(s: string, i: nat, j: nat)
    requires i <= j <= |s|
  {
    && (forall k | 0 <= k < i :: IsSpace(s[k]))
    && (forall k | j <= k < |s| :: IsSpace(s[k]))
  }

  /** A string with no white space at its ends is its own `strip()`. */
  lemma StrippedIsFixed(s: string)
    requires Stripped(s)
    ensures Strip(s) == s
  {
  }

  /** `strip()` is idempotent. */
  lemma StripIdempotent(s: string)
    ensures Strip(Strip(s)) == Strip(s)
  {
    StripShape(s);
    StrippedIsFixed(Strip(s));
  }

  /** `strip()` keeps the first character when it is not white space. */
  lemma StripKeepsHead(s: string)
    requires |s| > 0 && !IsSpace(s[0])
    ensures |Strip(s)| > 0 && Strip(s)[0] == s[0]
  {
    StripRightKeepsHead(s);
  }

  /** `strip()` cannot introduce a line break. */
  lemma StripNoLineBreak(s: string)
    requires NoLineBreak(s)
    ensures NoLineBreak(Strip(s))
  {
    StripShape(s);
    var i, j :| 0 <= i <= j <= |s| && Strip(s) == s[i..j];
    forall k | 0 <= k < |Strip(s)| ensures !IsLineBreak(Strip(s)[k]) {
      assert Strip(s)[k] == s[i + k];
    }
  }

  // ---------------------------------------------------------------- search

  /** `s.startswith(p)` */
  predicate StartsWith(s: string, p: string) {
    |p| <= |s| && s[..|p|] == p
  }

  /** `sub in s` */
  predicate Contains(s: string, sub: string)
    decreases |s|
  {
    StartsWith(s, sub) || (|s| > 0 && Contains(s[1..], sub))
  }

  /** `any(k in s for k in keywords)` */
  predicate ContainsAny(s: string, keywords: seq<string>) {
    exists k | 0 <= k < |keywords| :: Contains(s, keywords[k])
  }

  /** A string containing `sub` contains `sub`'s characters. */
  lemma {:induction false} ContainsHasChar(s: string, sub: string, k: nat)
    requires Contains(s, sub) && k < |sub|
    ensures sub[k] in s
    decreases |s|
  {
    if StartsWith(s, sub) {
      assert s[k] == sub[k];
    } else {
      ContainsHasChar(s[1..], sub, k);
      assert sub[k] in s[1..];
    }
  }

  /** A witness position makes `Contains` true. */
  lemma {:induction false} ContainsAt(s: string, sub: string, i: nat)
    requires i + |sub| <= |s| && s[i..i + |sub|] == sub
    ensures Contains(s, sub)
    decreases i
  {
    if i > 0 {
      assert s[1..][i - 1..i - 1 + |sub|] == sub;
      ContainsAt(s[1..], sub, i - 1);
    }
  }

  /** A string containing `sub` contains every slice of `sub`. */
  lemma {:induction false} ContainsSlice(s: string, sub: string, i: nat, j: nat)
    requires Contains(s, sub) && i <= j <= |sub|
    ensures Contains(s, sub[i..j])
    decreases |s|
  {
    if StartsWith(s, sub) {
      assert s[..|sub|] == sub;
      assert forall k | i <= k < j :: s[k] == sub[k];
      assert s[i..j] == sub[i..j];
      ContainsAt(s, sub[i..j], i);
    } else {
      ContainsSlice(s[1..], sub, i, j);
    }
  }

  /** A string lacking the first character of every keyword contains none. */
  lemma MissingHeadsNotContained(s: string, keywords: seq<string>)
    requires forall k | 0 <= k < |keywords| :: |keywords[k]| > 0 && keywords[k][0] !in s
    ensures !ContainsAny(s, keywords)
  {
    forall k | 0 <= k < |keywords| ensures !Contains(s, keywords[k]) {
      MissingHeadNotContained(s, keywords[k]);
    }
  }

  /** A string lacking the first character of `sub` does not contain it. */
  lemma MissingHeadNotContained(s: string, sub: string)
    requires |sub| > 0 && sub[0] !in s
    ensures !Contains(s, sub)
  {
    if Contains(s, sub) {
      ContainsHasChar(s, sub, 0);
    }
  }

  /** The first position of `c` in `s`, as `str.find` or the leftmost match of
      a regular expression beginning with `c` reports it. */
  function IndexOf(s: string, c: char): (r: Option<nat>)
    ensures r.Some? ==> r.value < |s|
    decreases |s|
  {
    if s == [] then None
    else if s[0] == c then Some(0)
    else match IndexOf(s[1..], c)
      case None => None
      case Some(i) => Some(i + 1)
  }

  /** The position found holds `c` and no earlier one does; none is found
      exactly when `c` is absent. */
  lemma {:induction false} IndexOfSpec(s: string, c: char)
    ensures IndexOf(s, c).Some? ==>
              var i := IndexOf(s, c).value;
              s[i] == c && c !in s[..i]
    ensures IndexOf(s, c).None? <==> c !in s
    decreases |s|
  {
    if s != [] && s[0] != c {
      IndexOfSpec(s[1..], c);
      assert s == [s[0]] + s[1..];
      match IndexOf(s[1..], c)
      case None =>
      case Some(i) =>
        assert s[..i + 1] == [s[0]] + s[1..][..i];
    }
  }

  /** The first occurrence is the one with no earlier occurrence. */
  lemma IndexOfAt(s: string, c: char, i: nat)
    requires i < |s| && s[i] == c && c !in s[..i]
    ensures IndexOf(s, c) == Some(i)
  {
    IndexOfSpec(s, c);
    assert s[..i + 1][i] == c;
    var r := IndexOf(s, c).value;
    assert forall k | 0 <= k < i :: s[..i][k] == s[k];
    assert forall k | 0 <= k < r :: s[..r][k] == s[k];
  }

  // ---------------------------------------------------------------- lower

  /** ASCII lower-casing of one character. */
  function LowerChar(c: char): (r: char)
    ensures !('A' <= r <= 'Z')
    ensures 'A' <= c <= 'Z' ==> 'a' <= r <= 'z' && r as int == c as int + 32
    ensures !('A' <= c <= 'Z') ==> r == c
  {
    if 'A' <= c <= 'Z' then (c as int + 32) as char else c
  }

  /** `s.lower()`, restricted to ASCII letters. */
  function ToLower(s: string): (r: string)
    ensures |r| == |s|
    ensures forall k | 0 <= k < |s| :: r[k] == LowerChar(s[k])
    ensures forall k | 0 <= k < |s| ::
              if 'A' <= s[k] <= 'Z' then r[k] as int == s[k] as int + 32 else r[k] == s[k]
    ensures forall k | 0 <= k < |s| :: !('A' <= r[k] <= 'Z')
  {
    seq(|s|, k requires 0 <= k < |s| => LowerChar(s[k]))
  }

  /** A string with no ASCII capital is its own lower-cased form. */
  lemma LowerFixesUncased(s: string)
    requires forall k | 0 <= k < |s| :: !('A' <= s[k] <= 'Z')
    ensures ToLower(s) == s
  {
  }

  /** Lower-casing twice changes nothing more. */
  lemma LowerIdempotent(s: string)
    ensures ToLower(ToLower(s)) == ToLower(s)
  {
    LowerFixesUncased(ToLower(s));
  }

  /** No upper-case ASCII letter survives `ToLower`, so a keyword that holds
      one can never be found in a lower-cased name. */
  lemma LowerMissesUpper(s: string, keyword: string, k: nat)
    requires k < |keyword| && 'A' <= keyword[k] <= 'Z'
    ensures !Contains(ToLower(s), keyword)
  {
    if Contains(ToLower(s), keyword) {
      ContainsHasChar(ToLower(s), keyword, k);
      assert false;
    }
  }

  // ---------------------------------------------------------------- numbers

  function DigitChar(d: nat): char
    requires d < 10
  {
    "0123456789"[d]
  }

  function DigitValue(c: char): nat {
    if '0' <= c <= '9' then c as int - '0' as int else 0
  }

  /** `str(n)` for a natural number: decimal, no leading zeros. */
  function NatToString(n: nat): (s: string)
    ensures |s| > 0
    decreases n
  {
    if n < 10 then [DigitChar(n)] else NatToString(n / 10) + [DigitChar(n % 10)]
  }

  /** `int(s)` for a string of decimal digits. */
  function ParseNat(s: string): nat
    decreases |s|
  {
    if s == [] then 0 else ParseNat(s[..|s| - 1]) * 10 + DigitValue(s[|s| - 1])
  }

  /** Decimal rendering is read back by `ParseNat`, and it is made of digits
      only, so it has no white space and no line break. */
  lemma {:induction false} NatToStringRoundTrip(n: nat)
    ensures ParseNat(NatToString(n)) == n
    ensures |NatToString(n)| > 0
    ensures forall k | 0 <= k < |NatToString(n)| :: '0' <= NatToString(n)[k] <= '9'
    ensures n == 0 || NatToString(n)[0] != '0'
    decreases n
  {
    if n >= 10 {
      NatToStringRoundTrip(n / 10);
      var s := NatToString(n);
      assert s[..|s| - 1] == NatToString(n / 10);
      assert s[0] == NatToString(n / 10)[0];
    } else {
      assert "0123456789"[0] == '0';
    }
  }

  // ---------------------------------------------------------------- lines

  /** Index of the first line boundary in `s`, or `|s|` when there is none. */
  function LineEnd(s: string): (e: nat)
    ensures e <= |s|
    ensures NoLineBreak(s[..e])
    ensures e < |s| ==> IsLineBreak(s[e])
    decreases |s|
  {
    if s == [] then 0
    else if IsLineBreak(s[0]) then 0
    else
      var e := LineEnd(s[1..]);
      assert s[..e + 1] == [s[0]] + s[1..][..e];
      e + 1
  }

  /** `s.splitlines()`: the pieces between line boundaries; a final boundary
      does not open an empty last line. */
  function SplitLines(s: string): seq<string>
    decreases |s|
  {
    if s == [] then []
    else
      var e := LineEnd(s);
      if e == |s| then [s]
      else
        var next := if s[e] == '\r' && e + 1 < |s| && s[e + 1] == '\n' then e + 2 else e + 1;
        [s[..e]] + SplitLines(s[next..])
  }

  /** The text of `lines`, each followed by a newline. */
  function JoinLines(lines: seq<string>): string
    decreases |lines|
  {
    if lines == [] then []
    else JoinLines(lines[..|lines| - 1]) + lines[|lines| - 1] + "\n"
  }

  lemma {:induction false} JoinLinesAppend(a: seq<string>, b: seq<string>)
    ensures JoinLines(a + b) == JoinLines(a) + JoinLines(b)
    decreases |b|
  {
    if b != [] {
      var b' := b[..|b| - 1];
      assert (a + b)[..|a + b| - 1] == a + b';
      JoinLinesAppend(a, b');
    } else {
      assert a + b == a;
    }
  }

  /** No piece that `splitlines()` returns holds a line boundary. */
  lemma {:induction false} SplitLinesNoLineBreak(s: string)
    ensures forall k | 0 <= k < |SplitLines(s)| :: NoLineBreak(SplitLines(s)[k])
    decreases |s|
  {
    if s != [] {
      var e := LineEnd(s);
      if e < |s| {
        var next := if s[e] == '\r' && e + 1 < |s| && s[e + 1] == '\n' then e + 2 else e + 1;
        SplitLinesNoLineBreak(s[next..]);
      } else {
        assert s[..e] == s;
      }
    }
  }

  /** The first line boundary after a piece free of boundaries ends the line. */
  lemma {:induction false} LineEndAfter(l: string, rest: string)
    requires NoLineBreak(l)
    ensures LineEnd(l + "\n" + rest) == |l|
    decreases |l|
  {
    if l != [] {
      assert (l + "\n" + rest)[1..] == l[1..] + "\n" + rest;
      LineEndAfter(l[1..], rest);
    }
  }

  /** Joining lines that hold no line boundary and splitting the result again
      gives back the same lines. */
  lemma {:induction false} SplitJoinLines(lines: seq<string>)
    requires forall k | 0 <= k < |lines| :: NoLineBreak(lines[k])
    ensures SplitLines(JoinLines(lines)) == lines
    decreases |lines|
  {
    if lines != [] {
      var l, rest := lines[0], lines[1..];
      assert lines == [l] + rest;
      JoinLinesAppend([l], rest);
      assert [l][..0] == [];
      var s := JoinLines(lines);
      assert s == l + "\n" + JoinLines(rest);
      LineEndAfter(l, JoinLines(rest));
      assert s[..|l|] == l;
      assert s[|l| + 1..] == JoinLines(rest);
      SplitJoinLines(rest);
    }
  }
}
