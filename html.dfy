/** HTML escaping of clue text and attribute values, its inverse, and the
    removal of markup tags, used to state what the rendered clue contains. */
module Html {

  /** `s.replace(/c/g, rep)` for a one-character pattern: every occurrence of
      `c` is replaced by `rep`, left to right. */
  function ReplaceChar(s: string, c: char, rep: string): string {
    if s == [] then [] else (if s[0] == c then rep else [s[0]]) + ReplaceChar(s[1..], c, rep)
  }

  /** A replace leaves no `c` behind and brings in only characters of `rep`. */
  lemma {:induction false} ReplaceCharRemoves(s: string, c: char, rep: string, x: char)
    requires x in ReplaceChar(s, c, rep)
    ensures (x in s && x != c) || x in rep
  {
    if s != [] {
      var head := if s[0] == c then rep else [s[0]];
      if x !in head {
        ReplaceCharRemoves(s[1..], c, rep, x);
      }
    }
  }

  /** `escapeHTML`: four global replaces, `&` first. No later replacement
      brings back a character an earlier one removed, so the result holds no
      `<`, `>` or `"`. */
  function EscapeHTML(s: string): (r: string)
    ensures '<' !in r && '>' !in r && '"' !in r
  {
    var amp := ReplaceChar(s, '&', "&amp;");
    var lt := ReplaceChar(amp, '<', "&lt;");
    var gt := ReplaceChar(lt, '>', "&gt;");
    EscapeKeepsOut(s, amp, lt, gt);
    ReplaceChar(gt, '"', "&quot;")
  }

  /** After each replace, the characters removed so far stay out. */
  lemma EscapeKeepsOut(s: string, amp: string, lt: string, gt: string)
    requires amp == ReplaceChar(s, '&', "&amp;") && lt == ReplaceChar(amp, '<', "&lt;")
    requires gt == ReplaceChar(lt, '>', "&gt;")
    ensures var r := ReplaceChar(gt, '"', "&quot;"); '<' !in r && '>' !in r && '"' !in r
  {
    var r := ReplaceChar(gt, '"', "&quot;");
    forall x | x in r && (x == '<' || x == '>' || x == '"') ensures false {
      ReplaceCharRemoves(gt, '"', "&quot;", x);
      ReplaceCharRemoves(lt, '>', "&gt;", x);
      ReplaceCharRemoves(amp, '<', "&lt;", x);
    }
  }

  /** Reference definition: one substitution per character. */
  function EscapeChar(c: char): string {
    if c == '&' then "&amp;"
    else if c == '<' then "&lt;"
    else if c == '>' then "&gt;"
    else if c == '"' then "&quot;"
    else [c]
  }

  function EscapeEach(s: string): string {
    if s == [] then [] else EscapeChar(s[0]) + EscapeEach(s[1..])
  }

  lemma {:induction false} ReplaceCharConcat(a: string, b: string, c: char, rep: string)
    ensures ReplaceChar(a + b, c, rep) == ReplaceChar(a, c, rep) + ReplaceChar(b, c, rep)
  {
    if a == [] {
      assert a + b == b;
    } else {
      assert (a + b)[1..] == a[1..] + b;
      ReplaceCharConcat(a[1..], b, c, rep);
    }
  }

  lemma {:induction false} ReplaceCharAbsent(s: string, c: char, rep: string)
    requires c !in s
    ensures ReplaceChar(s, c, rep) == s
  {
    if s != [] {
      ReplaceCharAbsent(s[1..], c, rep);
    }
  }

  lemma ReplaceCharSingle(x: char, c: char, rep: string)
    ensures ReplaceChar([x], c, rep) == if x == c then rep else [x]
  {
    assert [x][1..] == [];
  }

  /** The replaces after the first leave text alone that holds none of the
      characters they replace. */
  lemma LaterReplacesKeep(s: string, afterLt: bool)
    requires '>' !in s && '"' !in s && (afterLt || '<' !in s)
    ensures afterLt ==> ReplaceChar(ReplaceChar(s, '>', "&gt;"), '"', "&quot;") == s
    ensures !afterLt ==>
      ReplaceChar(ReplaceChar(ReplaceChar(s, '<', "&lt;"), '>', "&gt;"), '"', "&quot;") == s
  {
    if !afterLt {
      ReplaceCharAbsent(s, '<', "&lt;");
    }
    ReplaceCharAbsent(s, '>', "&gt;");
    ReplaceCharAbsent(s, '"', "&quot;");
  }

  lemma EscapeAmp()
    ensures EscapeHTML(['&']) == "&amp;"
  {
    var amp := "&amp;";
    assert ReplaceChar(['&'], '&', "&amp;") == amp by {
      ReplaceCharSingle('&', '&', "&amp;");
    }
    assert '<' !in amp && '>' !in amp && '"' !in amp;
    LaterReplacesKeep(amp, false);
  }

  lemma EscapeLt()
    ensures EscapeHTML(['<']) == "&lt;"
  {
    var lt := "&lt;";
    assert ReplaceChar(['<'], '&', "&amp;") == ['<'] by {
      ReplaceCharSingle('<', '&', "&amp;");
    }
    assert ReplaceChar(['<'], '<', "&lt;") == lt by {
      ReplaceCharSingle('<', '<', "&lt;");
    }
    assert '>' !in lt && '"' !in lt;
    LaterReplacesKeep(lt, true);
  }

  lemma EscapeGt()
    ensures EscapeHTML(['>']) == "&gt;"
  {
    var gt := "&gt;";
    assert ReplaceChar(ReplaceChar(['>'], '&', "&amp;"), '<', "&lt;") == ['>'] by {
      ReplaceCharSingle('>', '&', "&amp;");
      ReplaceCharSingle('>', '<', "&lt;");
    }
    assert ReplaceChar(['>'], '>', "&gt;") == gt by {
      ReplaceCharSingle('>', '>', "&gt;");
    }
    assert '"' !in gt;
    ReplaceCharAbsent(gt, '"', "&quot;");
  }

  lemma EscapeOther(x: char)
    requires x != '&' && x != '<' && x != '>'
    ensures EscapeHTML([x]) == if x == '"' then "&quot;" else [x]
  {
    ReplaceCharSingle(x, '&', "&amp;");
    ReplaceCharSingle(x, '<', "&lt;");
    ReplaceCharSingle(x, '>', "&gt;");
    ReplaceCharSingle(x, '"', "&quot;");
  }

  /** The chain of replaces, applied to one character, gives the character's
      own substitution: the entities that a later replace inserts contain no
      character that a later replace looks for, and `&` goes first so no
      entity is escaped twice. */
  lemma EscapeHTMLChar(x: char)
    ensures EscapeHTML([x]) == EscapeChar(x)
  {
    if x == '&' {
      EscapeAmp();
    } else if x == '<' {
      EscapeLt();
    } else if x == '>' {
      EscapeGt();
    } else {
      EscapeOther(x);
    }
  }

  lemma EscapeHTMLConcat(a: string, b: string)
    ensures EscapeHTML(a + b) == EscapeHTML(a) + EscapeHTML(b)
  {
    var r1a, r1b := ReplaceChar(a, '&', "&amp;"), ReplaceChar(b, '&', "&amp;");
    ReplaceCharConcat(a, b, '&', "&amp;");
    var r2a, r2b := ReplaceChar(r1a, '<', "&lt;"), ReplaceChar(r1b, '<', "&lt;");
    ReplaceCharConcat(r1a, r1b, '<', "&lt;");
    var r3a, r3b := ReplaceChar(r2a, '>', "&gt;"), ReplaceChar(r2b, '>', "&gt;");
    ReplaceCharConcat(r2a, r2b, '>', "&gt;");
    ReplaceCharConcat(r3a, r3b, '"', "&quot;");
  }

  /** escapeHTML equals the one-pass, per-character substitution. */
  lemma {:induction false} EscapeHTMLIsPerChar(s: string)
    ensures EscapeHTML(s) == EscapeEach(s)
  {
    if s == [] {
    } else {
      assert s == [s[0]] + s[1..];
      EscapeHTMLConcat([s[0]], s[1..]);
      EscapeHTMLChar(s[0]);
      EscapeHTMLIsPerChar(s[1..]);
    }
  }

  /** `t` starts at offset `i` of `s`. */
  predicate StartsAt(s: string, i: int, t: string) {
    0 <= i && i + |t| <= |s| && s[i..i + |t|] == t
  }

  predicate EntityAt(s: string, i: int) {
    StartsAt(s, i, "&amp;") || StartsAt(s, i, "&lt;") || StartsAt(s, i, "&gt;") || StartsAt(s, i, "&quot;")
  }

  /** Escaped text holds no `<`, `>` or `"`, and every `&` in it begins one
      of the four entities. */
  lemma {:induction false} EscapeHTMLSafe(s: string)
    ensures forall i :: 0 <= i < |EscapeHTML(s)| ==> EscapeHTML(s)[i] !in "<>\""
    ensures forall i :: 0 <= i < |EscapeHTML(s)| && EscapeHTML(s)[i] == '&' ==> EntityAt(EscapeHTML(s), i)
  {
    EscapeHTMLIsPerChar(s);
    EscapeEachSafe(s);
  }

  lemma EscapeCharSafe(c: char)
    ensures |EscapeChar(c)| > 0
    ensures forall i :: 0 <= i < |EscapeChar(c)| ==> EscapeChar(c)[i] !in "<>\""
    ensures forall i :: 0 < i < |EscapeChar(c)| ==> EscapeChar(c)[i] != '&'
    ensures EscapeChar(c)[0] == '&' ==> EntityAt(EscapeChar(c), 0)
  {
  }

  lemma {:induction false} EscapeEachSafe(s: string)
    ensures forall i :: 0 <= i < |EscapeEach(s)| ==> EscapeEach(s)[i] !in "<>\""
    ensures forall i :: 0 <= i < |EscapeEach(s)| && EscapeEach(s)[i] == '&' ==> EntityAt(EscapeEach(s), i)
  {
    if s != [] {
      var e, rest := EscapeChar(s[0]), EscapeEach(s[1..]);
      EscapeEachSafe(s[1..]);
      EscapeCharSafe(s[0]);
      var r := e + rest;
      assert r == EscapeEach(s);
      forall i | 0 <= i < |r|
        ensures r[i] !in "<>\""
        ensures r[i] == '&' ==> EntityAt(r, i)
      {
        if i < |e| {
          assert r[i] == e[i];
          if r[i] == '&' {
            EntityInPrefix(e, rest);
          }
        } else {
          assert r[i] == rest[i - |e|];
          if r[i] == '&' {
            EntityShifted(e, rest, i - |e|);
          }
        }
      }
    }
  }

  lemma EntityInPrefix(e: string, rest: string)
    requires EntityAt(e, 0)
    ensures EntityAt(e + rest, 0)
  {
    var r := e + rest;
    if StartsAt(e, 0, "&amp;") {
      assert r[..5] == e[..5];
    } else if StartsAt(e, 0, "&lt;") {
      assert r[..4] == e[..4];
    } else if StartsAt(e, 0, "&gt;") {
      assert r[..4] == e[..4];
    } else {
      assert r[..6] == e[..6];
    }
  }

  lemma EntityShifted(e: string, rest: string, j: int)
    requires 0 <= j < |rest| && EntityAt(rest, j)
    ensures EntityAt(e + rest, |e| + j)
  {
    var r := e + rest;
    var i := |e| + j;
    if StartsAt(rest, j, "&amp;") {
      assert r[i..i + 5] == rest[j..j + 5];
    } else if StartsAt(rest, j, "&lt;") {
      assert r[i..i + 4] == rest[j..j + 4];
    } else if StartsAt(rest, j, "&gt;") {
      assert r[i..i + 4] == rest[j..j + 4];
    } else {
      assert r[i..i + 6] == rest[j..j + 6];
    }
  }

  /** Reference inverse of escaping: decodes the four entities, left to right. */
  function Unescape(s: string): string
    decreases |s|
  {
    if s == [] then []
    else if StartsAt(s, 0, "&amp;") then ['&'] + Unescape(s[5..])
    else if StartsAt(s, 0, "&lt;") then ['<'] + Unescape(s[4..])
    else if StartsAt(s, 0, "&gt;") then ['>'] + Unescape(s[4..])
    else if StartsAt(s, 0, "&quot;") then ['"'] + Unescape(s[6..])
    else [s[0]] + Unescape(s[1..])
  }

  /** Undoing the escaping gives back the original text. */
  lemma {:induction false} UnescapeEscapeHTML(s: string)
    ensures Unescape(EscapeHTML(s)) == s
  {
    EscapeHTMLIsPerChar(s);
    UnescapeEscapeEach(s);
  }

  lemma {:induction false} UnescapeEscapeEach(s: string)
    ensures Unescape(EscapeEach(s)) == s
  {
    if s != [] {
      var c, rest := s[0], EscapeEach(s[1..]);
      var r := EscapeChar(c) + rest;
      assert r == EscapeEach(s);
      UnescapeEscapeEach(s[1..]);
      UnescapeStep(c, rest);
      assert s == [c] + s[1..];
    }
  }

  lemma UnescapeAmp(rest: string)
    ensures Unescape("&amp;" + rest) == ['&'] + Unescape(rest)
  {
    var r := "&amp;" + rest;
    assert r[..5] == "&amp;" && r[5..] == rest;
  }

  lemma UnescapeLt(rest: string)
    ensures Unescape("&lt;" + rest) == ['<'] + Unescape(rest)
  {
    var r := "&lt;" + rest;
    assert r[..4] == "&lt;" && r[4..] == rest;
    assert !StartsAt(r, 0, "&amp;") by {
      assert r[1] == 'l';
    }
  }

  lemma UnescapeGt(rest: string)
    ensures Unescape("&gt;" + rest) == ['>'] + Unescape(rest)
  {
    var r := "&gt;" + rest;
    assert r[..4] == "&gt;" && r[4..] == rest;
    assert !StartsAt(r, 0, "&amp;") && !StartsAt(r, 0, "&lt;") by {
      assert r[1] == 'g';
    }
  }

  lemma UnescapeQuot(rest: string)
    ensures Unescape("&quot;" + rest) == ['"'] + Unescape(rest)
  {
    var r := "&quot;" + rest;
    assert r[..6] == "&quot;" && r[6..] == rest;
    assert !StartsAt(r, 0, "&amp;") && !StartsAt(r, 0, "&lt;") && !StartsAt(r, 0, "&gt;") by {
      assert r[1] == 'q';
    }
  }

  lemma UnescapePlain(c: char, rest: string)
    requires c != '&'
    ensures Unescape([c] + rest) == [c] + Unescape(rest)
  {
    var r := [c] + rest;
    assert r[0] == c && r[1..] == rest;
    assert !StartsAt(r, 0, "&amp;") && !StartsAt(r, 0, "&lt;") by {
      assert "&amp;"[0] == '&' && "&lt;"[0] == '&';
    }
    assert !StartsAt(r, 0, "&gt;") && !StartsAt(r, 0, "&quot;") by {
      assert "&gt;"[0] == '&' && "&quot;"[0] == '&';
    }
  }

  /** Unescaping reads back exactly the character whose substitution comes
      first. */
  lemma UnescapeStep(c: char, rest: string)
    ensures Unescape(EscapeChar(c) + rest) == [c] + Unescape(rest)
  {
    if c == '&' {
      UnescapeAmp(rest);
    } else if c == '<' {
      UnescapeLt(rest);
    } else if c == '>' {
      UnescapeGt(rest);
    } else if c == '"' {
      UnescapeQuot(rest);
    } else {
      UnescapePlain(c, rest);
    }
  }

  /** Drops everything up to and including the first `>`. */
  function SkipTag(s: string): (r: string)
    ensures |r| <= |s|
  {
    if s == [] then [] else if s[0] == '>' then s[1..] else SkipTag(s[1..])
  }

  /** The text content of markup: each tag, from `<` to the next `>`, is
      removed. */
  function StripTags(s: string): string
    decreases |s|
  {
    if s == [] then []
    else if s[0] == '<' then StripTags(SkipTag(s[1..]))
    else [s[0]] + StripTags(s[1..])
  }

  lemma {:induction false} StripTagsText(a: string, b: string)
    requires '<' !in a
    ensures StripTags(a + b) == a + StripTags(b)
  {
    if a == [] {
      assert a + b == b;
    } else {
      assert (a + b)[0] == a[0];
      assert (a + b)[1..] == a[1..] + b;
      StripTagsText(a[1..], b);
    }
  }

  lemma {:induction false} SkipTagBody(x: string, b: string)
    requires '>' !in x
    ensures SkipTag(x + ['>'] + b) == b
  {
    if x == [] {
      assert x + ['>'] + b == ['>'] + b;
    } else {
      assert (x + ['>'] + b)[1..] == x[1..] + ['>'] + b;
      SkipTagBody(x[1..], b);
    }
  }

  /** A whole tag, `<` then text without `>` then `>`, contributes nothing. */
  lemma StripTagsTag(x: string, b: string)
    requires '>' !in x
    ensures StripTags(['<'] + x + ['>'] + b) == StripTags(b)
  {
    var s := ['<'] + x + ['>'] + b;
    assert s[1..] == x + ['>'] + b;
    SkipTagBody(x, b);
  }
}
