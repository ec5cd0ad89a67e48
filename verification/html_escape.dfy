/** The browser client's `escapeHtml`: four sequential `replaceAll` passes
    turning `&`, `<`, `>` and `"` into character entity references, and the
    decoder that undoes them. */
module HtmlEscape {
  import opened Strings

  /** `escapeHtml(str)` for a string argument (`String(str ?? "")` turns a
      missing value into the empty string first). `&` is replaced first, so
      the `&` of the later entities is not escaped again. The four passes
      together are exactly the character-by-character entity encoding. */
  function EscapeHtml(s: string): (r: string)
    ensures r == EscapedUpTo(s, 4)
  {
    EscapedUpToZero(s);
    EncodePass(s, 1);
    EncodePass(s, 2);
    EncodePass(s, 3);
    EncodePass(s, 4);
    var amp := ReplaceAll(s, "&", "&amp;");
    var lt := ReplaceAll(amp, "<", "&lt;");
    var gt := ReplaceAll(lt, ">", "&gt;");
    ReplaceAll(gt, "\"", "&quot;")
  }

  /** Entity decoding in the reverse order of `EscapeHtml`'s passes. */
  function UnescapeHtml(s: string): string
  {
    var gt := ReplaceAll(s, "&quot;", "\"");
    var lt := ReplaceAll(gt, "&gt;", ">");
    var amp := ReplaceAll(lt, "&lt;", "<");
    ReplaceAll(amp, "&amp;", "&")
  }

  /** The character escaped by pass `k` (1-based) and its entity. */
  function Special(k: nat): char
    requires 1 <= k <= 4
  {
    if k == 1 then '&' else if k == 2 then '<' else if k == 3 then '>' else '"'
  }

  function Entity(k: nat): string
    requires 1 <= k <= 4
  {
    if k == 1 then "&amp;" else if k == 2 then "&lt;" else if k == 3 then "&gt;" else "&quot;"
  }

  /** What the first `k` passes make of one character. */
  function EscapeCharUpTo(c: char, k: nat): (e: string)
    requires k <= 4
    ensures k >= 1 && c == '&' ==> e == "&amp;"
  {
    if k >= 1 && c == '&' then "&amp;"
    else if k >= 2 && c == '<' then "&lt;"
    else if k >= 3 && c == '>' then "&gt;"
    else if k >= 4 && c == '"' then "&quot;"
    else [c]
  }

  /** The text after the first `k` passes, written character by character. */
  function EscapedUpTo(s: string, k: nat): string
    requires k <= 4
  {
    if |s| == 0 then "" else EscapeCharUpTo(s[0], k) + EscapedUpTo(s[1..], k)
  }

  /** No pass changes anything before the first pass has run. */
  lemma {:induction false} EscapedUpToZero(s: string)
    ensures EscapedUpTo(s, 0) == s
  {
    if |s| > 0 {
      EscapedUpToZero(s[1..]);
      assert [s[0]] + s[1..] == s;
    }
  }

  /** Pass `k` turns the encoding of one character after `k - 1` passes into
      its encoding after `k` passes. */
  lemma EncodeOne(c: char, k: nat)
    requires 1 <= k <= 4
    ensures ReplaceAll(EscapeCharUpTo(c, k - 1), [Special(k)], Entity(k)) == EscapeCharUpTo(c, k)
  {
    if |EscapeCharUpTo(c, k - 1)| == 1 {
      EncodeUnescaped(c, k);
    } else {
      EncodeEscaped(c, k);
    }
  }

  /** A character no earlier pass touched: pass `k` escapes it exactly when
      it is the `k`-th special character. */
  lemma EncodeUnescaped(c: char, k: nat)
    requires 1 <= k <= 4 && |EscapeCharUpTo(c, k - 1)| == 1
    ensures ReplaceAll(EscapeCharUpTo(c, k - 1), [Special(k)], Entity(k)) == EscapeCharUpTo(c, k)
  {
    var u := EscapeCharUpTo(c, k - 1);
    assert u == [c];
    assert u[..1] == u;
    assert ReplaceAll(u[1..], [Special(k)], Entity(k)) == "";
  }

  /** An entity written by an earlier pass holds no later special character,
      so pass `k` leaves it alone. */
  lemma EncodeEscaped(c: char, k: nat)
    requires 1 <= k <= 4 && |EscapeCharUpTo(c, k - 1)| != 1
    ensures ReplaceAll(EscapeCharUpTo(c, k - 1), [Special(k)], Entity(k)) == EscapeCharUpTo(c, k)
  {
    var u := EscapeCharUpTo(c, k - 1);
    assert Special(k) !in u;
    ReplaceAllSkipsPrefix(u, "", [Special(k)], Entity(k));
    assert u + "" == u;
  }

  /** The same, with the rest of the text following. */
  lemma EncodeChar(c: char, k: nat, rest: string)
    requires 1 <= k <= 4
    ensures ReplaceAll(EscapeCharUpTo(c, k - 1) + rest, [Special(k)], Entity(k))
         == EscapeCharUpTo(c, k) + ReplaceAll(rest, [Special(k)], Entity(k))
  {
    ReplaceCharAppend(EscapeCharUpTo(c, k - 1), rest, Special(k), Entity(k));
    EncodeOne(c, k);
  }

  /** Pass `k` of `EscapeHtml` turns the text after `k - 1` passes into the
      text after `k` passes. */
  lemma {:induction false} EncodePass(s: string, k: nat)
    requires 1 <= k <= 4
    ensures ReplaceAll(EscapedUpTo(s, k - 1), [Special(k)], Entity(k)) == EscapedUpTo(s, k)
  {
    if |s| > 0 {
      EncodePass(s[1..], k);
      EncodeChar(s[0], k, EscapedUpTo(s[1..], k - 1));
    } else {
      assert ReplaceAll("", [Special(k)], Entity(k)) == "";
    }
  }

  /** Text whose second character differs from the pattern's cannot match
      at its front. */
  lemma SecondCharMismatch(t: string, e: string, rep: string)
    requires |t| >= 2 && |e| >= 2 && t[1] != e[1]
    ensures ReplaceAll(t, e, rep) == [t[0]] + ReplaceAll(t[1..], e, rep)
  {
    assert |t| >= |e| ==> t[..|e|][1] == t[1];
    NoMatchAtFront(t, e, rep);
  }

  /** A piece starting with `&` whose second character differs from the
      pattern's, with no further `&`, cannot begin a match. */
  lemma ReplaceAllSkipsOtherEntity(u: string, rest: string, e: string, rep: string)
    requires |u| >= 2 && |e| >= 2 && u[0] == e[0] && u[1] != e[1]
    requires e[0] !in u[1..]
    ensures ReplaceAll(u + rest, e, rep) == u + ReplaceAll(rest, e, rep)
  {
    var t := u + rest;
    var tail := u[1..];
    assert t[0] == u[0] && t[1] == u[1];
    SecondCharMismatch(t, e, rep);
    assert t[1..] == tail + rest;
    ReplaceAllSkipsPrefix(tail, rest, e, rep);
    var r := ReplaceAll(rest, e, rep);
    assert [u[0]] + (tail + r) == ([u[0]] + tail) + r;
    assert [u[0]] + tail == u;
  }

  /** Decoding entity `k` undoes pass `k` on the encoding of one character. */
  lemma DecodeChar(c: char, k: nat, rest: string)
    requires 1 <= k <= 4
    ensures ReplaceAll(EscapeCharUpTo(c, k) + rest, Entity(k), [Special(k)])
         == EscapeCharUpTo(c, k - 1) + ReplaceAll(rest, Entity(k), [Special(k)])
  {
    var e := Entity(k);
    var u := EscapeCharUpTo(c, k);
    if c == Special(k) {
      var t := u + rest;
      assert t[..|e|] == e;
      assert t[|e|..] == rest;
    } else if |u| == 1 {
      ReplaceAllSkipsPrefix(u, rest, e, [Special(k)]);
    } else {
      ReplaceAllSkipsOtherEntity(u, rest, e, [Special(k)]);
    }
  }

  /** Decoding entity `k` undoes pass `k`: no other entity and no plain
      character can be mistaken for it, because every `&` left in the text
      starts an entity whose second character differs. */
  lemma {:induction false} DecodePass(s: string, k: nat)
    requires 1 <= k <= 4
    ensures ReplaceAll(EscapedUpTo(s, k), Entity(k), [Special(k)]) == EscapedUpTo(s, k - 1)
  {
    if |s| > 0 {
      DecodePass(s[1..], k);
      DecodeChar(s[0], k, EscapedUpTo(s[1..], k));
    }
  }

  /** Decoding `&quot;`, `&gt;`, `&lt;`, `&amp;` in that order recovers the
      original text, for every input. */
  lemma EscapeRoundTrip(s: string)
    ensures UnescapeHtml(EscapeHtml(s)) == s
  {
    DecodePass(s, 4);
    DecodePass(s, 3);
    DecodePass(s, 2);
    DecodePass(s, 1);
    EscapedUpToZero(s);
  }

  lemma {:induction false} EscapedHasNoMarkup(s: string)
    ensures forall k :: 0 <= k < |EscapedUpTo(s, 4)| ==>
              EscapedUpTo(s, 4)[k] !in {'<', '>', '"'}
  {
    if |s| > 0 {
      EscapedHasNoMarkup(s[1..]);
      var u := EscapeCharUpTo(s[0], 4);
      var r := EscapedUpTo(s, 4);
      assert r == u + EscapedUpTo(s[1..], 4);
      forall k | 0 <= k < |r| ensures r[k] !in {'<', '>', '"'} {
        if k >= |u| {
          assert r[k] == EscapedUpTo(s[1..], 4)[k - |u|];
        }
      }
    }
  }

  /** The output of `escapeHtml` contains no `<`, `>` or `"`, so it can stand
      inside element content or a double-quoted attribute value. */
  lemma EscapeLeavesNoMarkup(s: string)
    ensures forall k :: 0 <= k < |EscapeHtml(s)| ==> EscapeHtml(s)[k] !in {'<', '>', '"'}
  {
    EscapedHasNoMarkup(s);
  }

  lemma {:induction false} EscapedPlainText(s: string)
    requires forall k :: 0 <= k < |s| ==> s[k] !in {'&', '<', '>', '"'}
    ensures EscapedUpTo(s, 4) == s
  {
    if |s| > 0 {
      EscapedPlainText(s[1..]);
      assert [s[0]] + s[1..] == s;
    }
  }

  /** Text with none of `& < > "` is left as it is. */
  lemma EscapeKeepsPlainText(s: string)
    requires forall k :: 0 <= k < |s| ==> s[k] !in {'&', '<', '>', '"'}
    ensures EscapeHtml(s) == s
  {
    EscapedPlainText(s);
  }
}
