/**
 * The two Python string operations the core relies on: `str.strip()` with no
 * argument (which removes the characters for which `str.isspace()` holds from
 * both ends) and `str.split("\n")`.
 */
module Text {

  /** Python's `str.isspace()` for one character: the characters of Unicode
      category Zs, the bidirectional classes WS, B and S, as CPython lists them. */
  predicate IsSpace(c: char)
  {
    c == ' ' || ('\t' <= c <= '\r') || ('\U{1C}' <= c <= '\U{1F}')
    || c == '\U{85}' || c == '\U{A0}' || c == '\U{1680}'
    || ('\U{2000}' <= c <= '\U{200A}') || c == '\U{2028}' || c == '\U{2029}'
    || c == '\U{202F}' || c == '\U{205F}' || c == '\U{3000}'
  }

  predicate AllSpace(s: string)
  {
    forall i :: 0 <= i < |s| ==> IsSpace(s[i])
  }

  /** A string that `strip()` leaves unchanged: empty, or bounded by non-space characters. */
  predicate Trimmed(s: string)
  {
    s == [] || (!IsSpace(s[0]) && !IsSpace(s[|s| - 1]))
  }

  function StripLeft(s: string): string
  {
    if |s| > 0 && IsSpace(s[0]) then StripLeft(s[1..]) else s
  }

  function StripRight(s: string): string
  {
    if |s| > 0 && IsSpace(s[|s| - 1]) then StripRight(s[..|s| - 1]) else s
  }

  /** `lstrip()` removes an all-space prefix and stops at the first non-space character. */
  lemma {:induction false} StripLeftSpec(s: string)
    ensures |StripLeft(s)| <= |s| && StripLeft(s) == s[|s| - |StripLeft(s)|..]
    ensures AllSpace(s[..|s| - |StripLeft(s)|])
    ensures StripLeft(s) == [] || !IsSpace(StripLeft(s)[0])
  {
    if |s| > 0 && IsSpace(s[0]) {
      StripLeftSpec(s[1..]);
      var k := |s| - |StripLeft(s)|;
      assert s[..k] == [s[0]] + s[1..][..k - 1];
    }
  }

  /** `rstrip()` removes an all-space suffix and stops at the last non-space character. */
  lemma {:induction false} StripRightSpec(s: string)
    ensures |StripRight(s)| <= |s| && StripRight(s) == s[..|StripRight(s)|]
    ensures AllSpace(s[|StripRight(s)|..])
    ensures StripRight(s) == [] || !IsSpace(StripRight(s)[|StripRight(s)| - 1])
  {
    if |s| > 0 && IsSpace(s[|s| - 1]) {
      var s' := s[..|s| - 1];
      StripRightSpec(s');
      var k := |StripRight(s)|;
      assert s[k..] == s'[k..] + [s[|s| - 1]];
    }
  }

  /** Python's `s.strip()`. */
  function Strip(s: string): (r: string)
  {
    StripRight(StripLeft(s))
  }

  /** `strip()` removes only outer whitespace: s is some all-space prefix,
      then the result, then some all-space suffix, and the result is trimmed. */
  lemma StripSpec(s: string)
    ensures Trimmed(Strip(s))
    ensures exists i, j :: 0 <= i <= j <= |s| && Strip(s) == s[i..j]
                           && AllSpace(s[..i]) && AllSpace(s[j..])
  {
    var l := StripLeft(s);
    var r := StripRight(l);
    StripLeftSpec(s);
    StripRightSpec(l);
    var i := |s| - |l|;
    var j := i + |r|;
    assert s[i..j] == l[..|r|];
    assert s[..i] == s[..|s| - |l|];
    assert s[j..] == l[|r|..];
    if r != [] {
      assert r[0] == l[0];
    }
  }

  lemma {:induction false} StripLeftSpacePrefix(w: string, x: string)
    requires AllSpace(w)
    ensures StripLeft(w + x) == StripLeft(x)
  {
    if w != [] {
      assert (w + x)[1..] == w[1..] + x;
      StripLeftSpacePrefix(w[1..], x);
    } else {
      assert w + x == x;
    }
  }

  lemma {:induction false} StripRightSpaceSuffix(x: string, w: string)
    requires AllSpace(w)
    ensures StripRight(x + w) == StripRight(x)
  {
    if w != [] {
      var w' := w[..|w| - 1];
      assert (x + w)[..|x + w| - 1] == x + w';
      StripRightSpaceSuffix(x, w');
    } else {
      assert x + w == x;
    }
  }

  /** Appending spaces on the right commutes with stripping on the left. */
  lemma {:induction false} StripLeftAppend(s: string, w: string)
    requires AllSpace(w)
    ensures StripLeft(s) != [] ==> StripLeft(s + w) == StripLeft(s) + w
    ensures StripLeft(s) == [] ==> StripLeft(s + w) == StripLeft(w)
  {
    if |s| > 0 && IsSpace(s[0]) {
      assert (s + w)[1..] == s[1..] + w;
      StripLeftAppend(s[1..], w);
    } else if s == [] {
      assert s + w == w;
    }
  }

  /** A trailing newline or surrounding blank space does not change what `strip()` returns. */
  lemma StripIgnoresOuterSpace(w1: string, s: string, w2: string)
    requires AllSpace(w1) && AllSpace(w2)
    ensures Strip(w1 + s + w2) == Strip(s)
  {
    assert w1 + s + w2 == w1 + (s + w2);
    StripLeftSpacePrefix(w1, s + w2);
    StripLeftAppend(s, w2);
    if StripLeft(s) != [] {
      StripRightSpaceSuffix(StripLeft(s), w2);
    } else {
      assert StripLeft(w2) == [] by {
        assert w2 + [] == w2;
        StripLeftSpacePrefix(w2, []);
      }
    }
  }

  /** `strip()` is idempotent. */
  lemma StripIdempotent(s: string)
    ensures Strip(Strip(s)) == Strip(s)
  {
    StripSpec(s);
  }

  /** Number of occurrences of c in s. */
  function Count(s: string, c: char): (n: nat)
    ensures n <= |s|
    ensures n == 0 <==> c !in s
  {
    if s == [] then 0 else (if s[0] == c then 1 else 0) + Count(s[1..], c)
  }

  /** Python's `s.split("\n")`: the pieces between newlines, always at least one. */
  function SplitLines(s: string): (parts: seq<string>)
    ensures |parts| >= 1
  {
    if s == [] then [""]
    else
      var rest := SplitLines(s[1..]);
      if s[0] == '\n' then [""] + rest else [[s[0]] + rest[0]] + rest[1..]
  }

  /** The inverse of SplitLines: `"\n".join(parts)`. */
  function JoinLines(parts: seq<string>): (s: string)
    requires |parts| >= 1
  {
    if |parts| == 1 then parts[0] else parts[0] + "\n" + JoinLines(parts[1..])
  }

  /** `split` yields one more piece than there are newlines. */
  lemma {:induction false} SplitLinesCount(s: string)
    ensures |SplitLines(s)| == Count(s, '\n') + 1
  {
    if s != [] {
      SplitLinesCount(s[1..]);
    }
  }

  /** No piece contains a newline. */
  lemma {:induction false} SplitLinesNoNewline(s: string)
    ensures forall k :: 0 <= k < |SplitLines(s)| ==> '\n' !in SplitLines(s)[k]
  {
    if s != [] {
      SplitLinesNoNewline(s[1..]);
      var rest := SplitLines(s[1..]);
      if s[0] != '\n' {
        assert '\n' !in rest[0];
        assert [s[0]] + rest[0] == [s[0]] + rest[0];
      }
    }
  }

  /** Joining the pieces with newlines gives back the input. */
  lemma {:induction false} SplitLinesJoin(s: string)
    ensures JoinLines(SplitLines(s)) == s
  {
    if s != [] {
      SplitLinesJoin(s[1..]);
      var rest := SplitLines(s[1..]);
      if s[0] == '\n' {
        JoinLinesEmptyHead(rest);
      } else {
        JoinLinesExtendHead(s[0], rest);
      }
      assert s == [s[0]] + s[1..];
    }
  }

  /** A leading empty piece joins to a leading newline. */
  lemma JoinLinesEmptyHead(rest: seq<string>)
    requires |rest| >= 1
    ensures JoinLines([""] + rest) == "\n" + JoinLines(rest)
  {
    var parts := [""] + rest;
    assert parts[1..] == rest;
    assert JoinLines(parts) == "" + "\n" + JoinLines(rest);
  }

  /** Putting c in front of the first piece puts it in front of the joined text. */
  lemma JoinLinesExtendHead(c: char, rest: seq<string>)
    requires |rest| >= 1
    ensures JoinLines([[c] + rest[0]] + rest[1..]) == [c] + JoinLines(rest)
  {
    var head := [c] + rest[0];
    var parts := [head] + rest[1..];
    assert parts[0] == head;
    if |rest| == 1 {
      assert |parts| == 1;
    } else {
      assert parts[1..] == rest[1..];
      var tail := JoinLines(rest[1..]);
      assert JoinLines(parts) == head + "\n" + tail;
      assert JoinLines(rest) == rest[0] + "\n" + tail;
      LineJoinCons(c, rest[0], tail);
    }
  }

  /** Prepending a character commutes with joining two lines. */
  lemma LineJoinCons(c: char, a: string, t: string)
    ensures ([c] + a) + "\n" + t == [c] + (a + "\n" + t)
  {
  }

  /** Splitting newline-free pieces joined by newlines gives the pieces back. */
  lemma {:induction false} SplitLinesOfJoin(a: string, b: string)
    requires '\n' !in a && '\n' !in b
    ensures SplitLines(a + "\n" + b) == [a, b]
  {
    if a == [] {
      assert a + "\n" + b == "\n" + b;
      assert ("\n" + b)[1..] == b;
      SplitLinesOfLine(b);
    } else {
      assert (a + "\n" + b)[1..] == a[1..] + "\n" + b;
      SplitLinesOfJoin(a[1..], b);
      assert [a[0]] + a[1..] == a;
    }
  }

  lemma {:induction false} SplitLinesOfLine(b: string)
    requires '\n' !in b
    ensures SplitLines(b) == [b]
  {
    if b != [] {
      SplitLinesOfLine(b[1..]);
      assert [b[0]] + b[1..] == b;
    }
  }
}
