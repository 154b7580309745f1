/**
 * The string operations of Rust's standard library that the command line
 * tool (src/main.rs) relies on: `str::trim`, `str::to_lowercase` and
 * `join(" ")` on the prompt words. Splitting at spaces undoes the join when
 * no word contains a space.
 */
module Text {

  /** The characters with the Unicode White_Space property. */
  const WhitespaceChars: set<char> := {
    '\t', '\n', '\U{000B}', '\U{000C}', '\r', ' ', '\U{0085}', '\U{00A0}', '\U{1680}',
    '\U{2000}', '\U{2001}', '\U{2002}', '\U{2003}', '\U{2004}', '\U{2005}', '\U{2006}',
    '\U{2007}', '\U{2008}', '\U{2009}', '\U{200A}',
    '\U{2028}', '\U{2029}', '\U{202F}', '\U{205F}', '\U{3000}'
  }

  /** Rust's `char::is_whitespace`. */
  predicate IsWhitespace(c: char) {
    c in WhitespaceChars
  }

  /** No lower-case ASCII letter is white space. */
  lemma LetterNotWhitespace(c: char)
    requires 'a' <= c <= 'z'
    ensures !IsWhitespace(c)
  {
  }

  predicate AllWhitespace(s: string) {
    forall k {:trigger IsWhitespace(s[k])} :: 0 <= k < |s| ==> IsWhitespace(s[k])
  }

  lemma AllWhitespaceConcat(a: string, b: string)
    requires AllWhitespace(a) && AllWhitespace(b)
    ensures AllWhitespace(a + b)
  {
    forall k | 0 <= k < |a + b|
      ensures IsWhitespace((a + b)[k])
    {
      if k < |a| {
        assert (a + b)[k] == a[k];
      } else {
        assert (a + b)[k] == b[k - |a|];
      }
    }
  }

  /** Neither the first nor the last character is white space. */
  predicate TightEdges(s: string) {
    s == [] || (!IsWhitespace(s[0]) && !IsWhitespace(s[|s| - 1]))
  }

  /** `str::trim_start`: what is dropped is white space, what is kept does not start with it. */
  function TrimStart(s: string): (r: string)
    ensures |r| <= |s| && r == s[|s| - |r|..]
    ensures AllWhitespace(s[..|s| - |r|])
    ensures r == [] || !IsWhitespace(r[0])
  {
    if s != [] && IsWhitespace(s[0]) then
      var r := TrimStart(s[1..]);
      DropFront(s, r);
      r
    else
      s
  }

  /** One white space character in front joins what `TrimStart` drops. */
  lemma DropFront(s: string, r: string)
    requires s != [] && IsWhitespace(s[0])
    requires |r| <= |s| - 1 && r == s[1..][|s| - 1 - |r|..]
    requires AllWhitespace(s[1..][..|s| - 1 - |r|])
    ensures r == s[|s| - |r|..] && AllWhitespace(s[..|s| - |r|])
  {
    var n := |s| - |r|;
    forall k | 0 <= k < n
      ensures IsWhitespace(s[..n][k])
    {
      if 0 < k {
        assert s[..n][k] == s[1..][..n - 1][k - 1];
      }
    }
  }

  /** `str::trim_end`: what is dropped is white space, what is kept does not end with it. */
  function TrimEnd(s: string): (r: string)
    ensures |r| <= |s| && r == s[..|r|]
    ensures AllWhitespace(s[|r|..])
    ensures r == [] || !IsWhitespace(r[|r| - 1])
  {
    if s != [] && IsWhitespace(s[|s| - 1]) then
      var r := TrimEnd(s[..|s| - 1]);
      DropBack(s, r);
      r
    else
      s
  }

  /** One white space character behind joins what `TrimEnd` drops. */
  lemma DropBack(s: string, r: string)
    requires s != [] && IsWhitespace(s[|s| - 1])
    requires |r| <= |s| - 1 && r == s[..|s| - 1][..|r|]
    requires AllWhitespace(s[..|s| - 1][|r|..])
    ensures r == s[..|r|] && AllWhitespace(s[|r|..])
  {
    var n := |r|;
    forall k | 0 <= k < |s| - n
      ensures IsWhitespace(s[n..][k])
    {
      if k < |s| - 1 - n {
        assert s[n..][k] == s[..|s| - 1][n..][k];
      }
    }
  }

  /** `str::trim`: white space removed at both ends; `TrimParts` says what was removed. */
  function Trim(s: string): (r: string)
    ensures |r| <= |s| && TightEdges(r)
  {
    var t := TrimStart(s);
    TightPrefix(t, TrimEnd(t));
    TrimEnd(t)
  }

  /** `s` cut into the white space `Trim` drops in front, what it keeps, and the white space it drops behind. */
  lemma TrimParts(s: string) returns (a: string, m: string, b: string)
    ensures s == a + m + b && m == Trim(s)
    ensures AllWhitespace(a) && AllWhitespace(b) && TightEdges(m)
  {
    var t := TrimStart(s);
    m := TrimEnd(t);
    assert m == Trim(s);
    a := s[..|s| - |t|];
    b := t[|m|..];
    Glue(s, |s| - |t|, t, m);
  }

  /** A string is the concatenation of its three slices at `i` and `j`. */
  lemma Cut3(s: string, i: nat, j: nat)
    requires i <= j <= |s|
    ensures s == s[..i] + s[i..j] + s[j..]
  {
    assert s[..j] == s[..i] + s[i..j];
    assert s == s[..j] + s[j..];
  }

  lemma Glue(s: string, i: nat, t: string, m: string)
    requires i <= |s| && t == s[i..] && |m| <= |t| && m == t[..|m|]
    ensures s == s[..i] + m + t[|m|..]
  {
    assert t == m + t[|m|..];
    assert s == s[..i] + t;
  }

  /** A prefix of a string that does not start with white space does not either. */
  lemma TightPrefix(t: string, m: string)
    requires t == [] || !IsWhitespace(t[0])
    requires |m| <= |t| && m == t[..|m|]
    requires m == [] || !IsWhitespace(m[|m| - 1])
    ensures TightEdges(m)
  {
    if m != [] {
      assert m[0] == t[0];
    }
  }

  lemma {:induction false} TrimStartSkips(a: string, t: string)
    requires AllWhitespace(a)
    ensures TrimStart(a + t) == TrimStart(t)
  {
    if a == [] {
      assert a + t == t;
    } else {
      assert (a + t)[0] == a[0];
      assert (a + t)[1..] == a[1..] + t;
      TrimStartSkips(a[1..], t);
    }
  }

  lemma {:induction false} TrimEndSkips(t: string, b: string)
    requires AllWhitespace(b)
    ensures TrimEnd(t + b) == TrimEnd(t)
  {
    if b == [] {
      assert t + b == t;
    } else {
      assert (t + b)[|t + b| - 1] == b[|b| - 1];
      assert (t + b)[..|t + b| - 1] == t + b[..|b| - 1];
      TrimEndSkips(t, b[..|b| - 1]);
    }
  }

  /** Trimming is determined by its characterisation: white space, then a tight core, then white space. */
  lemma TrimUnique(a: string, m: string, b: string)
    requires AllWhitespace(a) && AllWhitespace(b) && TightEdges(m)
    ensures Trim(a + m + b) == m
  {
    assert a + m + b == a + (m + b);
    TrimStartSkips(a, m + b);
    if m == [] {
      assert m + b == b + [];
      TrimStartSkips(b, []);
      assert TrimStart(a + m + b) == [];
    } else {
      assert (m + b)[0] == m[0];
      assert TrimStart(m + b) == m + b;
      TrimEndSkips(m, b);
      assert TrimEnd(m) == m;
    }
  }

  lemma Regroup(x: string, a: string, m: string, b: string, y: string)
    ensures x + (a + m + b) + y == (x + a) + m + (b + y)
  {
  }

  /** White space added around a string is trimmed away with the white space it already had. */
  lemma TrimPadding(before: string, s: string, after: string)
    requires AllWhitespace(before) && AllWhitespace(after)
    ensures Trim(before + s + after) == Trim(s)
  {
    var a, m, b := TrimParts(s);
    Regroup(before, a, m, b, after);
    AllWhitespaceConcat(before, a);
    AllWhitespaceConcat(b, after);
    TrimUnique(before + a, m, b + after);
  }

  /** A string without white space at its ends is its own trim. */
  lemma TrimTight(m: string)
    requires TightEdges(m)
    ensures Trim(m) == m
  {
    assert TrimStart(m) == m;
    assert TrimEnd(m) == m;
  }

  /** `str::trim` is idempotent. */
  lemma TrimIdempotent(s: string)
    ensures Trim(Trim(s)) == Trim(s)
  {
    TrimTight(Trim(s));
  }

  /**
   * `char::to_lowercase`, on the ASCII letters: only upper-case letters
   * change, no upper-case letter is left, and the result is a lower-case
   * letter exactly when the input is a letter of either case.
   */
  function LowerChar(c: char): (r: char)
    ensures r == c || 'A' <= c <= 'Z'
    ensures !('A' <= r <= 'Z')
    ensures 'a' <= r <= 'z' <==> 'a' <= c <= 'z' || 'A' <= c <= 'Z'
  {
    if 'A' <= c <= 'Z' then (c as int + 32) as char else c
  }

  /** `str::to_lowercase`: character by character, the length is kept. */
  function ToLower(s: string): (r: string)
    ensures |r| == |s|
    ensures forall k :: 0 <= k < |s| ==> r[k] == LowerChar(s[k])
  {
    if s == [] then [] else [LowerChar(s[0])] + ToLower(s[1..])
  }

  /** Lowering never turns white space into something else or back. */
  lemma LowerKeepsWhitespace(c: char)
    ensures IsWhitespace(LowerChar(c)) <==> IsWhitespace(c)
  {
  }

  /** The summed length of the words. */
  function TotalLength(words: seq<string>): nat {
    if words == [] then 0 else |words[0]| + TotalLength(words[1..])
  }

  /**
   * `[String]::join(" ")`: the words in order with one space between neighbours, so
   * the length is theirs plus one per gap, and the first word comes first.
   */
  function Join(words: seq<string>): (r: string)
    ensures |words| > 0 ==> |r| == TotalLength(words) + |words| - 1
    ensures |words| > 0 ==> r[..|words[0]|] == words[0]
  {
    if words == [] then []
    else if |words| == 1 then words[0]
    else words[0] + " " + Join(words[1..])
  }

  /** `str::split(' ')`, collected: the pieces between the spaces, `cur` is the piece begun so far. */
  function SplitFrom(s: string, cur: string): (r: seq<string>)
    ensures |r| >= 1
  {
    if s == [] then [cur]
    else if s[0] == ' ' then [cur] + SplitFrom(s[1..], [])
    else SplitFrom(s[1..], cur + [s[0]])
  }

  function Split(s: string): seq<string> {
    SplitFrom(s, [])
  }

  lemma {:induction false} SplitFromWord(w: string, rest: string, cur: string)
    requires ' ' !in w
    ensures SplitFrom(w + rest, cur) == SplitFrom(rest, cur + w)
  {
    if w == [] {
      assert w + rest == rest;
      assert cur + w == cur;
    } else {
      assert (w + rest)[0] == w[0];
      assert (w + rest)[1..] == w[1..] + rest;
      SplitFromWord(w[1..], rest, cur + [w[0]]);
      assert cur + [w[0]] + w[1..] == cur + w;
    }
  }

  /** Joining words that hold no space is undone by splitting at the spaces. */
  lemma {:induction false} SplitJoin(words: seq<string>)
    requires |words| >= 1
    requires forall k :: 0 <= k < |words| ==> ' ' !in words[k]
    ensures Split(Join(words)) == words
  {
    if |words| == 1 {
      SplitFromWord(words[0], [], []);
      assert words[0] + [] == words[0];
      assert [] + words[0] == words[0];
    } else {
      var tail := Join(words[1..]);
      assert words[0] + " " + tail == words[0] + (" " + tail);
      SplitFromWord(words[0], " " + tail, []);
      assert [] + words[0] == words[0];
      assert (" " + tail)[1..] == tail;
      SplitJoin(words[1..]);
      assert words == [words[0]] + words[1..];
    }
  }
}
