/**
 * The java.lang.String and java.lang.Integer operations that the ring's
 * protocol code relies on, written out with Java's semantics:
 * indexOf with a start position, split with a literal separator (trailing
 * empty strings dropped), split on runs of whitespace, trim, toUpperCase,
 * Integer.parseInt and Integer.toString.
 */
module JavaText {

  datatype Option<T> = None | Some(value: T)

  /** Bounds of a Java int. */
  const IntMin: int := -0x8000_0000
  const IntMax: int := 0x7fff_ffff

  predicate IsInt32(n: int) { IntMin <= n <= IntMax }

  // ---------------------------------------------------------------------
  // indexOf

  /** The pattern p occurs in s starting at position j. */
  predicate MatchAt(s: string, p: string, j: int)
  {
    0 <= j && j + |p| <= |s| && s[j..j + |p|] == p
  }

  /** s.indexOf(p, from): the first match at or after from (a negative
      from counts as 0), or -1 when there is none. */
  function IndexOfFrom(s: string, p: string, from: int): (r: int)
    requires |p| > 0
    ensures r == -1 || (r >= from && MatchAt(s, p, r))
    ensures forall j :: from <= j && (r == -1 || j < r) ==> !MatchAt(s, p, j)
    decreases |s| - from
  {
    if from < 0 then IndexOfFrom(s, p, 0)
    else if from + |p| > |s| then -1
    else if s[from..from + |p|] == p then from
    else IndexOfFrom(s, p, from + 1)
  }

  /** s.indexOf(p). */
  function IndexOf(s: string, p: string): (r: int)
    requires |p| > 0
    ensures r == -1 || MatchAt(s, p, r)
    ensures forall j :: 0 <= j && (r == -1 || j < r) ==> !MatchAt(s, p, j)
  {
    IndexOfFrom(s, p, 0)
  }

  /** The first match at or after from is the one at i. */
  lemma IndexOfFromIs(s: string, p: string, from: int, i: int)
    requires |p| > 0 && from <= i && MatchAt(s, p, i)
    requires forall j :: from <= j < i ==> !MatchAt(s, p, j)
    ensures IndexOfFrom(s, p, from) == i
  {
  }

  /** There is no match at or after from. */
  lemma IndexOfFromNone(s: string, p: string, from: int)
    requires |p| > 0
    requires forall j :: from <= j ==> !MatchAt(s, p, j)
    ensures IndexOfFrom(s, p, from) == -1
  {
  }

  /** A match of p in a + b at or after |a| is a match of p in b. */
  lemma MatchInSuffix(a: string, b: string, p: string, j: int)
    requires |a| <= j
    ensures MatchAt(a + b, p, j) == MatchAt(b, p, j - |a|)
  {
    if j + |p| <= |a + b| {
      assert (a + b)[j..j + |p|] == b[j - |a|..j - |a| + |p|];
    }
  }

  /** No match starts inside a prefix that lacks the pattern's first
      character, so searching a + b from inside a amounts to searching b. */
  lemma IndexOfFromAfterPrefix(a: string, b: string, p: string, from: int)
    requires |p| > 0 && from <= |a| && p[0] !in a
    ensures IndexOfFrom(a + b, p, from) == if IndexOf(b, p) < 0 then -1 else |a| + IndexOf(b, p)
  {
    var s := a + b;
    forall j | from <= j < |a|
      ensures !MatchAt(s, p, j)
    {
      if j >= 0 && j + |p| <= |s| {
        assert s[j..j + |p|][0] == a[j];
      }
    }
    forall j | |a| <= j
      ensures MatchAt(s, p, j) == MatchAt(b, p, j - |a|)
    {
      MatchInSuffix(a, b, p, j);
    }
    var k := IndexOf(b, p);
    if k < 0 {
      IndexOfFromNone(s, p, from);
    } else {
      IndexOfFromIs(s, p, from, |a| + k);
    }
  }

  /** The special case of IndexOfFromAfterPrefix searching from the start. */
  lemma IndexOfAfterPrefix(a: string, b: string, p: string)
    requires |p| > 0 && p[0] !in a
    ensures IndexOf(a + b, p) == if IndexOf(b, p) < 0 then -1 else |a| + IndexOf(b, p)
  {
    IndexOfFromAfterPrefix(a, b, p, 0);
  }

  /** A string that begins with p has its first match at 0. */
  lemma IndexOfAtStart(p: string, b: string)
    requires |p| > 0
    ensures IndexOf(p + b, p) == 0
  {
    assert (p + b)[0..|p|] == p;
    IndexOfFromIs(p + b, p, 0, 0);
  }

  /** A string none of whose characters is p's first has no match. */
  lemma IndexOfNone(s: string, p: string)
    requires |p| > 0 && p[0] !in s
    ensures IndexOf(s, p) == -1
  {
    forall j | 0 <= j
      ensures !MatchAt(s, p, j)
    {
      if j + |p| <= |s| {
        assert s[j..j + |p|][0] == s[j];
      }
    }
    IndexOfFromNone(s, p, 0);
  }

  /** u and p agree on their common length: u could begin a match of p. */
  predicate Compatible(u: string, p: string)
  {
    forall i | 0 <= i < |u| && i < |p| :: u[i] == p[i]
  }

  /** No match of p can start inside x, whatever follows x. */
  predicate NoStart(x: string, p: string)
  {
    forall j | 0 <= j < |x| :: !Compatible(x[j..], p)
  }

  /** A string without p's first character starts no match. */
  lemma NoStartWithout(x: string, p: string)
    requires |p| > 0 && p[0] !in x
    ensures NoStart(x, p)
  {
    forall j | 0 <= j < |x|
      ensures !Compatible(x[j..], p)
    {
      assert x[j..][0] == x[j];
    }
  }

  /** NoStart is kept by concatenation. */
  lemma NoStartConcat(x: string, y: string, p: string)
    requires NoStart(x, p) && NoStart(y, p)
    ensures NoStart(x + y, p)
  {
    var s := x + y;
    forall j | 0 <= j < |s|
      ensures !Compatible(s[j..], p)
    {
      if j < |x| {
        assert !Compatible(x[j..], p);
        var i :| 0 <= i < |x[j..]| && i < |p| && x[j..][i] != p[i];
        assert s[j..][i] == x[j..][i];
      } else {
        assert s[j..] == y[j - |x|..];
      }
    }
  }

  /** When no match starts in a, the first match in a + b is the first
      match in b. */
  lemma IndexOfAfterNoStart(a: string, b: string, p: string)
    requires |p| > 0 && NoStart(a, p)
    ensures IndexOf(a + b, p) == if IndexOf(b, p) < 0 then -1 else |a| + IndexOf(b, p)
  {
    var s := a + b;
    forall j | 0 <= j < |a|
      ensures !MatchAt(s, p, j)
    {
      assert !Compatible(a[j..], p);
      var i :| 0 <= i < |a[j..]| && i < |p| && a[j..][i] != p[i];
      if j + |p| <= |s| {
        assert s[j..j + |p|][i] == a[j..][i];
      }
    }
    forall j | |a| <= j
      ensures MatchAt(s, p, j) == MatchAt(b, p, j - |a|)
    {
      MatchInSuffix(a, b, p, j);
    }
    var k := IndexOf(b, p);
    if k < 0 {
      IndexOfFromNone(s, p, 0);
    } else {
      IndexOfFromIs(s, p, 0, |a| + k);
    }
  }

  /** A match in x stays the first match when text is appended. */
  lemma IndexOfInPrefix(x: string, y: string, p: string)
    requires |p| > 0 && IndexOf(x, p) >= 0
    ensures IndexOf(x + y, p) == IndexOf(x, p)
  {
    var k := IndexOf(x, p);
    var s := x + y;
    assert s[k..k + |p|] == x[k..k + |p|];
    forall j | 0 <= j < k
      ensures !MatchAt(s, p, j)
    {
      assert !MatchAt(x, p, j);
      assert s[j..j + |p|] == x[j..j + |p|];
    }
    IndexOfFromIs(s, p, 0, k);
  }

  /** A slice inside the first part of a concatenation. */
  lemma SliceInPrefix(x: string, y: string, i: int, j: int)
    requires 0 <= i <= j <= |x|
    ensures (x + y)[i..j] == x[i..j]
  {
  }

  /** A slice inside the second part of a concatenation. */
  lemma SliceInSuffix(x: string, y: string, i: int, j: int)
    requires |x| <= i <= j <= |x| + |y|
    ensures (x + y)[i..j] == y[i - |x|..j - |x|]
  {
  }

  // ---------------------------------------------------------------------
  // split

  /** Every piece of s between matches of p, trailing empty pieces kept. */
  function SplitAll(s: string, p: string): (r: seq<string>)
    requires |p| > 0
    ensures |r| >= 1
    decreases |s|
  {
    var i := IndexOf(s, p);
    if i < 0 then [s] else [s[..i]] + SplitAll(s[i + |p|..], p)
  }

  /** The list with its trailing empty strings removed. */
  function DropTrailingEmpty(xs: seq<string>): (r: seq<string>)
    ensures r <= xs
    ensures r == [] || r[|r| - 1] != ""
    ensures forall k :: |r| <= k < |xs| ==> xs[k] == ""
  {
    if xs == [] || xs[|xs| - 1] != "" then xs else DropTrailingEmpty(xs[..|xs| - 1])
  }

  /** s.split(p) for a separator without regular-expression metacharacters:
      when p does not occur the result is [s] (even for s == ""); otherwise
      the pieces with the trailing empty ones dropped. */
  function Split(s: string, p: string): seq<string>
    requires |p| > 0
  {
    if IndexOf(s, p) < 0 then [s] else DropTrailingEmpty(SplitAll(s, p))
  }

  /** Splitting head + p + tail where head holds no match (and no match can
      straddle into p) yields head followed by the pieces of tail. */
  lemma SplitAllCons(head: string, tail: string, p: string)
    requires |p| > 0
    requires IndexOf(head + p + tail, p) == |head|
    ensures SplitAll(head + p + tail, p) == [head] + SplitAll(tail, p)
  {
    var s := head + p + tail;
    assert s[..|head|] == head;
    assert s[|head| + |p|..] == tail;
  }

  /** A string with one occurrence of a one-character separator, followed
      by a non-empty tail, splits into exactly its two sides. */
  lemma SplitTwo(a: string, b: string, sep: string)
    requires |sep| == 1 && sep[0] !in a && sep[0] !in b && |b| > 0
    ensures Split(a + sep + b, sep) == [a, b]
  {
    var s := a + sep + b;
    assert s == a + (sep + b);
    IndexOfAtStart(sep, b);
    IndexOfAfterPrefix(a, sep + b, sep);
    SplitAllCons(a, b, sep);
    IndexOfNone(b, sep);
    assert SplitAll(b, sep) == [b];
  }

  /** A non-empty first piece without the one-character separator is the
      first element of the split. */
  lemma SplitFirst(a: string, rest: string, sep: string)
    requires |sep| == 1 && sep[0] !in a && |a| > 0
    ensures |Split(a + sep + rest, sep)| >= 1 && Split(a + sep + rest, sep)[0] == a
  {
    var s := a + sep + rest;
    assert s == a + (sep + rest);
    IndexOfAtStart(sep, rest);
    IndexOfAfterPrefix(a, sep + rest, sep);
    SplitAllCons(a, rest, sep);
    var xs := SplitAll(s, sep);
    var r := DropTrailingEmpty(xs);
    assert xs[0] == a;
  }

  // ---------------------------------------------------------------------
  // split("\\s+")

  /** The characters matched by the regular expression \s. */
  predicate IsSpace(c: char)
  {
    c == ' ' || c == '\t' || c == '\n' || c == '\U{B}' || c == '\U{C}' || c == '\r'
  }

  /** Index of the first whitespace character at or after from, or |s|. */
  function NextSpace(s: string, from: nat): (r: nat)
    requires from <= |s|
    ensures from <= r <= |s|
    ensures forall j :: from <= j < r ==> !IsSpace(s[j])
    ensures r < |s| ==> IsSpace(s[r])
    decreases |s| - from
  {
    if from == |s| || IsSpace(s[from]) then from else NextSpace(s, from + 1)
  }

  /** Index of the first non-whitespace character at or after from, or |s|. */
  function SkipSpaces(s: string, from: nat): (r: nat)
    requires from <= |s|
    ensures from <= r <= |s|
    ensures forall j :: from <= j < r ==> IsSpace(s[j])
    ensures r < |s| ==> !IsSpace(s[r])
    decreases |s| - from
  {
    if from == |s| || !IsSpace(s[from]) then from else SkipSpaces(s, from + 1)
  }

  /** The pieces of s between maximal runs of whitespace. */
  function SplitAtSpaces(s: string): (r: seq<string>)
    ensures |r| >= 1
    decreases |s|
  {
    var i := NextSpace(s, 0);
    if i == |s| then [s] else [s[..i]] + SplitAtSpaces(s[SkipSpaces(s, i)..])
  }

  /** s.split("\\s+"). A leading run of whitespace gives a leading empty
      token; trailing empty tokens are dropped. */
  function Tokens(s: string): seq<string>
  {
    if NextSpace(s, 0) == |s| then [s] else DropTrailingEmpty(SplitAtSpaces(s))
  }

  /** A word: non-empty text without whitespace. */
  predicate IsWord(w: string)
  {
    |w| > 0 && forall i | 0 <= i < |w| :: !IsSpace(w[i])
  }

  /** A word followed by one blank and more text splits off as the first
      piece. */
  lemma SplitAtSpacesWord(w: string, rest: string)
    requires IsWord(w) && |rest| > 0 && !IsSpace(rest[0])
    ensures SplitAtSpaces(w + " " + rest) == [w] + SplitAtSpaces(rest)
  {
    var s := w + " " + rest;
    assert s[|w|] == ' ' && s[|w| + 1] == rest[0];
    assert NextSpace(s, 0) == |w|;
    assert SkipSpaces(s, |w|) == |w| + 1;
    assert s[..|w|] == w && s[|w| + 1..] == rest;
  }

  /** A single word splits into itself. */
  lemma SplitAtSpacesOneWord(w: string)
    requires IsWord(w)
    ensures SplitAtSpaces(w) == [w]
  {
    assert NextSpace(w, 0) == |w|;
  }

  /** Two words joined by a blank split back into those words. */
  lemma SplitAtSpacesTwoWords(b: string, c: string)
    requires IsWord(b) && IsWord(c)
    ensures SplitAtSpaces(b + " " + c) == [b, c]
  {
    SplitAtSpacesWord(b, c);
    SplitAtSpacesOneWord(c);
  }

  /** Three words joined by single blanks split back into those words. */
  lemma TokensOfThreeWords(a: string, b: string, c: string)
    requires IsWord(a) && IsWord(b) && IsWord(c)
    ensures Tokens(a + " " + (b + " " + c)) == [a, b, c]
  {
    var t := b + " " + c;
    var s := a + " " + t;
    SplitAtSpacesTwoWords(b, c);
    SplitAtSpacesWord(a, t);
    assert SplitAtSpaces(s) == [a, b, c];
    assert s[|a|] == ' ';
    assert NextSpace(s, 0) == |a| < |s|;
  }

  /** toUpperCase leaves text without lower-case letters unchanged. */
  lemma ToUpperNoLower(s: string)
    requires forall i | 0 <= i < |s| :: !('a' <= s[i] <= 'z')
    ensures ToUpper(s) == s
  {
  }

  /** The decimal text of an int is a word. */
  lemma IntToStringWord(n: int)
    ensures IsWord(IntToString(n))
  {
    IntToStringChars(n);
    var t := IntToString(n);
    forall i | 0 <= i < |t|
      ensures !IsSpace(t[i])
    {
      assert t[i] in t;
    }
  }

  // ---------------------------------------------------------------------
  // trim and toUpperCase

  /** s with its leading characters <= ' ' removed. */
  function TrimStart(s: string): (r: string)
    ensures |r| <= |s| && r == s[|s| - |r|..]
    ensures r == [] || r[0] > ' '
  {
    if |s| > 0 && s[0] <= ' ' then TrimStart(s[1..]) else s
  }

  /** s with its trailing characters <= ' ' removed. */
  function TrimEnd(s: string): (r: string)
    ensures r <= s
    ensures r == [] || r[|r| - 1] > ' '
  {
    if |s| > 0 && s[|s| - 1] <= ' ' then TrimEnd(s[..|s| - 1]) else s
  }

  /** s.trim(). */
  function Trim(s: string): string
  {
    TrimEnd(TrimStart(s))
  }

  /** Trimming leaves a string alone when its ends are not blank. */
  lemma TrimClean(s: string)
    requires s == [] || (s[0] > ' ' && s[|s| - 1] > ' ')
    ensures Trim(s) == s
  {
  }

  /** Trimming removes blank padding around a string whose ends are not blank. */
  lemma {:induction false} TrimPadded(pre: string, s: string, post: string)
    requires forall i :: 0 <= i < |pre| ==> pre[i] <= ' '
    requires forall i :: 0 <= i < |post| ==> post[i] <= ' '
    requires |s| > 0 && s[0] > ' ' && s[|s| - 1] > ' '
    ensures Trim(pre + s + post) == s
  {
    TrimStartPadded(pre, s + post);
    assert pre + s + post == pre + (s + post);
    TrimEndPadded(s, post);
  }

  lemma {:induction false} TrimStartPadded(pre: string, s: string)
    requires forall i :: 0 <= i < |pre| ==> pre[i] <= ' '
    requires |s| > 0 && s[0] > ' '
    ensures TrimStart(pre + s) == s
  {
    if pre != [] {
      assert (pre + s)[1..] == pre[1..] + s;
      TrimStartPadded(pre[1..], s);
    }
  }

  lemma {:induction false} TrimEndPadded(s: string, post: string)
    requires forall i :: 0 <= i < |post| ==> post[i] <= ' '
    requires |s| > 0 && s[|s| - 1] > ' '
    ensures TrimEnd(s + post) == s
  {
    if post != [] {
      assert (s + post)[..|s + post| - 1] == s + post[..|post| - 1];
      TrimEndPadded(s, post[..|post| - 1]);
    }
  }

  /** s.toUpperCase(), for the ASCII letters. */
  function ToUpper(s: string): (r: string)
    ensures |r| == |s|
  {
    seq(|s|, i requires 0 <= i < |s| => if 'a' <= s[i] <= 'z' then (s[i] as int - 32) as char else s[i])
  }

  // ---------------------------------------------------------------------
  // Integer.parseInt and Integer.toString

  predicate IsDigit(c: char) { '0' <= c <= '9' }

  predicate AllDigits(s: string) { forall i :: 0 <= i < |s| ==> IsDigit(s[i]) }

  /** The value of a string of decimal digits, most significant first. */
  function DigitsValue(s: string): nat
    requires AllDigits(s)
  {
    if s == [] then 0 else DigitsValue(s[..|s| - 1]) * 10 + (s[|s| - 1] as int - '0' as int)
  }

  /** Integer.parseInt(s): an optional sign followed by at least one ASCII decimal
      digit, whose value fits a Java int; None where Java throws
      NumberFormatException. */
  function ParseInt(s: string): Option<int>
  {
    if |s| == 0 then None
    else
      var body := if s[0] == '-' || s[0] == '+' then s[1..] else s;
      if |body| == 0 || !AllDigits(body) then None
      else
        var mag: int := DigitsValue(body);
        var v := if s[0] == '-' then -mag else mag;
        if IsInt32(v) then Some(v) else None
  }

  function DigitChar(d: nat): char
    requires d < 10
  {
    ('0' as int + d) as char
  }

  /** The decimal digits of n. */
  function NatToString(n: nat): string
  {
    (if n < 10 then "" else NatToString(n / 10)) + [DigitChar(n % 10)]
  }

  /** Integer.toString(n), also what string concatenation writes for an int. */
  function IntToString(n: int): string
  {
    if n < 0 then "-" + NatToString(-n) else NatToString(n)
  }

  /** The decimal text of n is a non-empty digit string denoting n. */
  lemma {:induction false} NatToStringDigits(n: nat)
    ensures |NatToString(n)| > 0 && AllDigits(NatToString(n))
    ensures DigitsValue(NatToString(n)) == n
  {
    var s := NatToString(n);
    var d := DigitChar(n % 10);
    assert IsDigit(d) && d as int - '0' as int == n % 10;
    if n < 10 {
      assert s == [d];
    } else {
      var t := NatToString(n / 10);
      NatToStringDigits(n / 10);
      assert s == t + [d];
      assert s[..|s| - 1] == t;
      assert DigitsValue(s) == DigitsValue(t) * 10 + n % 10;
    }
  }

  /** Integer.parseInt(Integer.toString(n)) == n for every Java int n. */
  lemma ParseIntToString(n: int)
    requires IsInt32(n)
    ensures ParseInt(IntToString(n)) == Some(n)
  {
    if n < 0 {
      NatToStringDigits(-n);
      assert IntToString(n)[1..] == NatToString(-n);
    } else {
      NatToStringDigits(n);
    }
  }

  /** The decimal text of a non-negative int is all digits. */
  lemma NatTextDigits(n: int)
    requires n >= 0
    ensures |IntToString(n)| > 0 && AllDigits(IntToString(n))
  {
    NatToStringDigits(n);
  }

  /** The decimal text of an int holds only digits and a leading minus sign,
      begins with a non-blank character and ends with a digit. */
  lemma IntToStringChars(n: int)
    ensures |IntToString(n)| > 0
    ensures forall c | c in IntToString(n) :: c == '-' || IsDigit(c)
    ensures IsDigit(IntToString(n)[|IntToString(n)| - 1])
  {
    if n < 0 {
      NatToStringDigits(-n);
    } else {
      NatToStringDigits(n);
    }
  }
}
