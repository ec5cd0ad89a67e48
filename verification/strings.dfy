/** The JavaScript string primitives the tracker relies on, over `seq<char>`:
    `trim`, `toLowerCase`, `split` on one character, `join`, `startsWith`,
    `replaceAll` with a literal pattern, and substring containment. */
module Strings {

  /** The characters `String.prototype.trim` removes: ECMAScript WhiteSpace
      (tab, vertical tab, form feed, space, no-break space, the Zs category,
      the byte order mark) and LineTerminator (line feed, carriage return,
      line and paragraph separators). */
  predicate IsSpace(c: char)
  {
    || ('\t' <= c <= '\r')
    || c == ' '
    || c == '\U{00A0}'
    || c == '\U{1680}'
    || ('\U{2000}' <= c <= '\U{200A}')
    || c == '\U{2028}'
    || c == '\U{2029}'
    || c == '\U{202F}'
    || c == '\U{205F}'
    || c == '\U{3000}'
    || c == '\U{FEFF}'
  }

  predicate AllSpace(s: string)
  {
    forall k :: 0 <= k < |s| ==> IsSpace(s[k])
  }

  /** Neither end of `s` is a whitespace character. */
  predicate IsTrimmed(s: string)
  {
    |s| == 0 || (!IsSpace(s[0]) && !IsSpace(s[|s| - 1]))
  }

  /** The first index at or after `i` that does not hold whitespace. */
  function SkipForward(s: string, i: nat): (j: nat)
    requires i <= |s|
    ensures i <= j <= |s|
    ensures forall k :: i <= k < j ==> IsSpace(s[k])
    ensures j < |s| ==> !IsSpace(s[j])
    decreases |s| - i
  {
    if i < |s| && IsSpace(s[i]) then SkipForward(s, i + 1) else i
  }

  /** The end of `s[i..j]` once its trailing whitespace is dropped. */
  function SkipBackward(s: string, i: nat, j: nat): (e: nat)
    requires i <= j <= |s|
    ensures i <= e <= j
    ensures forall k :: e <= k < j ==> IsSpace(s[k])
    ensures e > i ==> !IsSpace(s[e - 1])
    decreases j
  {
    if j > i && IsSpace(s[j - 1]) then SkipBackward(s, i, j - 1) else j
  }

  /** `s.trim()`: the infix of `s` left after removing every leading and
      trailing whitespace character. */
  function Trim(s: string): (r: string)
    ensures IsTrimmed(r)
    ensures var i := SkipForward(s, 0);
      && i + |r| <= |s| && r == s[i..i + |r|]
      && (forall k :: 0 <= k < i ==> IsSpace(s[k]))
      && (forall k :: i + |r| <= k < |s| ==> IsSpace(s[k]))
    ensures r == "" <==> AllSpace(s)
    ensures IsTrimmed(s) ==> r == s
  {
    var i := SkipForward(s, 0);
    var e := SkipBackward(s, i, |s|);
    assert e > i ==> s[i..e][0] == s[i];
    s[i..e]
  }

  /** ASCII case folding: `A`..`Z` become `a`..`z`, everything else is kept. */
  function LowerChar(c: char): (d: char)
    ensures 'A' <= c <= 'Z' ==> 'a' <= d <= 'z' && d as int == c as int + 32
    ensures !('A' <= c <= 'Z') ==> d == c
  {
    if 'A' <= c <= 'Z' then (c as int + 32) as char else c
  }

  /** `s.toLowerCase()`, restricted to ASCII letters. */
  function ToLower(s: string): (r: string)
    ensures |r| == |s|
    ensures forall k :: 0 <= k < |s| ==> r[k] == LowerChar(s[k])
  {
    if |s| == 0 then "" else [LowerChar(s[0])] + ToLower(s[1..])
  }

  /** `s.split(sep)` for a one-character separator. */
  function Split(s: string, sep: char): (parts: seq<string>)
    ensures |parts| >= 1
    ensures forall k :: 0 <= k < |parts| ==> sep !in parts[k]
    decreases |s|
  {
    if |s| == 0 then [""]
    else
      var rest := Split(s[1..], sep);
      if s[0] == sep then [""] + rest
      else [[s[0]] + rest[0]] + rest[1..]
  }

  /** `parts.join(sep)`. */
  function Join(parts: seq<string>, sep: char): string
  {
    if |parts| == 0 then ""
    else if |parts| == 1 then parts[0]
    else parts[0] + [sep] + Join(parts[1..], sep)
  }

  /** Splitting loses nothing: joining the pieces back gives the text. */
  lemma {:induction false} JoinSplit(s: string, sep: char)
    ensures Join(Split(s, sep), sep) == s
    decreases |s|
  {
    if |s| > 0 {
      var rest := Split(s[1..], sep);
      JoinSplit(s[1..], sep);
      if s[0] == sep {
        assert Split(s, sep) == [""] + rest;
        assert s == [sep] + s[1..];
      } else {
        var parts := Split(s, sep);
        assert parts == [[s[0]] + rest[0]] + rest[1..];
        if |rest| == 1 {
          assert s == [s[0]] + rest[0];
        } else {
          assert parts[1..] == rest[1..];
          assert Join(rest, sep) == rest[0] + [sep] + Join(rest[1..], sep);
          assert s == [s[0]] + s[1..];
        }
      }
    }
  }

  /** Splitting text glued at a separator splits each side separately. */
  lemma {:induction false} SplitConcat(a: string, sep: char, b: string)
    ensures Split(a + [sep] + b, sep) == Split(a, sep) + Split(b, sep)
    decreases |a|
  {
    var s := a + [sep] + b;
    if |a| == 0 {
      assert s == [sep] + b;
      assert s[1..] == b;
    } else {
      assert s[0] == a[0];
      assert s[1..] == a[1..] + [sep] + b;
      SplitConcat(a[1..], sep, b);
    }
  }

  /** A separator-free string is a single piece. */
  lemma {:induction false} SplitWithoutSeparator(p: string, sep: char)
    requires sep !in p
    ensures Split(p, sep) == [p]
    decreases |p|
  {
    if |p| > 0 {
      SplitWithoutSeparator(p[1..], sep);
      assert [p[0]] + p[1..] == p;
    }
  }

  /** Joining separator-free pieces and splitting again gives the pieces back. */
  lemma {:induction false} SplitJoin(parts: seq<string>, sep: char)
    requires |parts| >= 1
    requires forall k :: 0 <= k < |parts| ==> sep !in parts[k]
    ensures Split(Join(parts, sep), sep) == parts
    decreases |parts|
  {
    if |parts| == 1 {
      SplitWithoutSeparator(parts[0], sep);
    } else {
      SplitJoin(parts[1..], sep);
      SplitConcat(parts[0], sep, Join(parts[1..], sep));
      SplitWithoutSeparator(parts[0], sep);
      assert [parts[0]] + parts[1..] == parts;
    }
  }

  /** `s.startsWith(p)`: `s` is `p` followed by the rest of `s`. */
  predicate StartsWith(s: string, p: string): (b: bool)
    ensures b <==> |p| <= |s| && forall k :: 0 <= k < |p| ==> s[k] == p[k]
    ensures b ==> s == p + s[|p|..]
  {
    |p| <= |s| && s[..|p|] == p
  }

  /** `q` occurs somewhere in `s` as a contiguous substring. */
  predicate Contains(s: string, q: string): (b: bool)
    ensures b ==> |q| <= |s|
    ensures q == "" ==> b
    decreases |s|
  {
    StartsWith(s, q) || (|s| > 0 && Contains(s[1..], q))
  }

  /** `Contains` holds exactly when `q` starts at some position of `s`. */
  lemma {:induction false} ContainsIffOccurs(s: string, q: string)
    ensures Contains(s, q) <==> exists i :: 0 <= i <= |s| - |q| && StartsWith(s[i..], q)
    decreases |s|
  {
    assert s[0..] == s;
    if |s| > 0 {
      ContainsIffOccurs(s[1..], q);
      if Contains(s[1..], q) {
        var i :| 0 <= i <= |s| - 1 - |q| && StartsWith(s[1..][i..], q);
        assert s[1..][i..] == s[i + 1..];
      }
      if exists i :: 0 <= i <= |s| - |q| && StartsWith(s[i..], q) {
        var i :| 0 <= i <= |s| - |q| && StartsWith(s[i..], q);
        if i > 0 {
          assert s[1..][i - 1..] == s[i..];
        }
      }
    } else {
      assert forall i :: 0 <= i <= |s| - |q| ==> s[i..] == s;
    }
  }

  /** `s.replaceAll(pat, rep)` with a literal pattern: occurrences are found
      left to right and do not overlap; an empty pattern matches between
      every two characters and at both ends. */
  function ReplaceAll(s: string, pat: string, rep: string): string
    decreases |s|
  {
    if |pat| == 0 then
      if |s| == 0 then rep else rep + [s[0]] + ReplaceAll(s[1..], pat, rep)
    else if |s| < |pat| then s
    else if s[..|pat|] == pat then rep + ReplaceAll(s[|pat|..], pat, rep)
    else [s[0]] + ReplaceAll(s[1..], pat, rep)
  }

  /** Text in which a non-empty pattern does not occur is left unchanged. */
  lemma {:induction false} ReplaceAllWithoutMatch(s: string, pat: string, rep: string)
    requires |pat| > 0 && !Contains(s, pat)
    ensures ReplaceAll(s, pat, rep) == s
    decreases |s|
  {
    if |s| >= |pat| {
      ReplaceAllWithoutMatch(s[1..], pat, rep);
      assert [s[0]] + s[1..] == s;
    }
  }

  /** Where the pattern does not occur at the front, the first character is
      kept and the search moves on by one. */
  lemma NoMatchAtFront(t: string, pat: string, rep: string)
    requires |pat| > 0 && |t| > 0
    requires |t| >= |pat| ==> t[..|pat|] != pat
    ensures ReplaceAll(t, pat, rep) == [t[0]] + ReplaceAll(t[1..], pat, rep)
  {
    if |t| < |pat| {
      assert ReplaceAll(t[1..], pat, rep) == t[1..];
      assert [t[0]] + t[1..] == t;
    }
  }

  /** A prefix that cannot start a match (it lacks the pattern's first
      character) passes through untouched. */
  lemma {:induction false} ReplaceAllSkipsPrefix(w: string, v: string, pat: string, rep: string)
    requires |pat| > 0 && pat[0] !in w
    ensures ReplaceAll(w + v, pat, rep) == w + ReplaceAll(v, pat, rep)
    decreases |w|
  {
    if |w| > 0 {
      var s := w + v;
      assert s[0] == w[0];
      assert s[1..] == w[1..] + v;
      if |s| < |pat| {
        assert ReplaceAll(v, pat, rep) == v;
      } else {
        assert s[..|pat|][0] != pat[0];
        assert ReplaceAll(s, pat, rep) == [w[0]] + ReplaceAll(s[1..], pat, rep);
        ReplaceAllSkipsPrefix(w[1..], v, pat, rep);
        assert [w[0]] + w[1..] == w;
      }
    } else {
      assert w + v == v;
    }
  }

  /** Replacing a single character works character by character, so it
      distributes over concatenation. */
  lemma {:induction false} ReplaceCharAppend(u: string, v: string, c: char, rep: string)
    ensures ReplaceAll(u + v, [c], rep) == ReplaceAll(u, [c], rep) + ReplaceAll(v, [c], rep)
    decreases |u|
  {
    if |u| > 0 {
      var s := u + v;
      assert s[..1] == [u[0]] && u[..1] == [u[0]];
      assert s[1..] == u[1..] + v;
      ReplaceCharAppend(u[1..], v, c, rep);
    } else {
      assert u + v == v;
    }
  }
}
