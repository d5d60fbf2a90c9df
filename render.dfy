/** Rendering the claimed ranges: sort them by start offset, then walk the
    clue text left to right, escaping the gaps and wrapping each range's text
    in a span that carries its class, tooltip and attributes. */
module Render {
  import opened Html
  import opened Claims

  predicate SortedByStart(rs: seq<Range>) {
    forall i, j :: 0 <= i < j < |rs| ==> rs[i].start <= rs[j].start
  }

  /** Each range ends before the next one starts. */
  predicate Chained(rs: seq<Range>) {
    forall i, j :: 0 <= i < j < |rs| ==> rs[i].end < rs[j].start
  }

  function InsertByStart(r: Range, rs: seq<Range>): (out: seq<Range>)
    ensures multiset(out) == multiset(rs) + multiset{r}
  {
    if rs == [] then [r]
    else if r.start <= rs[0].start then [r] + rs
    else
      assert rs == [rs[0]] + rs[1..];
      [rs[0]] + InsertByStart(r, rs[1..])
  }

  lemma InsertMembers(r: Range, rs: seq<Range>)
    ensures forall x :: x in InsertByStart(r, rs) <==> x == r || x in rs
  {
    forall x ensures x in InsertByStart(r, rs) <==> x == r || x in rs {
      assert x in InsertByStart(r, rs) <==> x in multiset(InsertByStart(r, rs));
    }
  }

  lemma {:induction false} InsertSorted(r: Range, rs: seq<Range>)
    requires SortedByStart(rs)
    ensures SortedByStart(InsertByStart(r, rs))
  {
    if rs != [] && r.start > rs[0].start {
      var tail := InsertByStart(r, rs[1..]);
      InsertSorted(r, rs[1..]);
      InsertMembers(r, rs[1..]);
      var out := [rs[0]] + tail;
      forall i, j | 0 <= i < j < |out| ensures out[i].start <= out[j].start {
        if i == 0 {
          var x := tail[j - 1];
          assert x in tail;
          if x != r {
            var k :| 0 <= k < |rs[1..]| && rs[1..][k] == x;
            assert rs[k + 1] == x;
          }
        } else {
          assert out[i] == tail[i - 1] && out[j] == tail[j - 1];
        }
      }
    }
  }

  /** `ranges.sort((a, b) => a.start - b.start)`: a permutation of the ranges
      in ascending order of start offset. */
  function SortByStart(rs: seq<Range>): (sorted: seq<Range>)
    ensures multiset(sorted) == multiset(rs)
    ensures SortedByStart(sorted)
  {
    if rs == [] then []
    else
      assert rs == [rs[0]] + rs[1..];
      InsertSorted(rs[0], SortByStart(rs[1..]));
      InsertByStart(rs[0], SortByStart(rs[1..]))
  }

  lemma ChainedCons(a: Range, t: seq<Range>)
    requires Chained(t)
    requires forall x :: x in t ==> a.end < x.start
    ensures Chained([a] + t)
  {
    var out := [a] + t;
    forall i, j | 0 <= i < j < |out| ensures out[i].end < out[j].start {
      if i == 0 {
        assert out[j] == t[j - 1] && t[j - 1] in t;
      } else {
        assert out[i] == t[i - 1] && out[j] == t[j - 1];
      }
    }
  }

  lemma {:induction false} InsertChained(r: Range, s: seq<Range>)
    requires Chained(s) && WellFormed(s)
    requires 0 <= r.start <= r.end && Free(s, r.start, r.end)
    ensures Chained(InsertByStart(r, s))
  {
    if s == [] {
    } else if r.start <= s[0].start {
      assert s[0] in s;
      assert r.end < s[0].start;
      forall x | x in s ensures r.end < x.start {
        var k :| 0 <= k < |s| && s[k] == x;
        if k > 0 {
          assert s[0].end < s[k].start;
        }
      }
      ChainedCons(r, s);
    } else {
      assert s[0] in s;
      var rest := s[1..];
      assert Chained(rest) && WellFormed(rest) && Free(rest, r.start, r.end) by {
        forall x | x in rest ensures x in s {}
        forall i, j | 0 <= i < j < |rest| ensures rest[i].end < rest[j].start {
          assert rest[i] == s[i + 1] && rest[j] == s[j + 1];
        }
      }
      InsertChained(r, rest);
      InsertMembers(r, rest);
      forall x | x in InsertByStart(r, rest) ensures s[0].end < x.start {
        if x != r {
          var k :| 0 <= k < |rest| && rest[k] == x;
          assert s[k + 1] == x;
        }
      }
      ChainedCons(s[0], InsertByStart(r, rest));
    }
  }

  lemma DisjointRest(rs: seq<Range>)
    requires rs != [] && WellFormed(rs) && Disjoint(rs)
    ensures WellFormed(rs[1..]) && Disjoint(rs[1..])
    ensures forall x :: x in rs[1..] ==> Apart(rs[0].start, rs[0].end, x)
  {
    var rest := rs[1..];
    forall x | x in rest ensures x in rs && Apart(rs[0].start, rs[0].end, x) {
      var k :| 0 <= k < |rest| && rest[k] == x;
      assert rs[k + 1] == x;
    }
    forall i, j | 0 <= i < j < |rest| ensures Apart(rest[j].start, rest[j].end, rest[i]) {
      assert rest[i] == rs[i + 1] && rest[j] == rs[j + 1];
    }
  }

  /** Sorting disjoint, well-formed ranges chains them: each ends before the
      next begins, which is what lets the render walk be a single pass. */
  lemma {:induction false} SortChained(rs: seq<Range>)
    requires WellFormed(rs) && Disjoint(rs)
    ensures Chained(SortByStart(rs))
    ensures WellFormed(SortByStart(rs))
  {
    SortKeepsMembers(rs);
    if rs != [] {
      var rest := rs[1..];
      DisjointRest(rs);
      SortChained(rest);
      SortKeepsMembers(rest);
      assert rs[0] in rs;
      InsertChained(rs[0], SortByStart(rest));
    }
  }

  /** The sorted list keeps every property that holds of each range. */
  lemma SortKeepsMembers(rs: seq<Range>)
    ensures forall x :: x in SortByStart(rs) <==> x in rs
  {
    forall x ensures x in SortByStart(rs) <==> x in rs {
      assert x in SortByStart(rs) <==> x in multiset(SortByStart(rs));
    }
  }

  /** `raw.slice(a, b)`: negative bounds count from the end, bounds past the
      end are clamped, and crossed bounds give the empty string. */
  function Slice(s: string, a: int, b: int): (r: string)
    ensures 0 <= a <= b <= |s| ==> r == s[a..b]
    ensures 0 <= a <= |s| && b >= |s| ==> r == s[a..]
    ensures b <= a && 0 <= a && 0 <= b ==> r == []
  {
    var i, j := Clamp(a, |s|), Clamp(b, |s|);
    if i < j then s[i..j] else []
  }

  function Clamp(i: int, n: nat): (k: nat)
    ensures k <= n
  {
    if i < 0 then (if n + i < 0 then 0 else n + i) else if i > n then n else i
  }

  /** `key="escaped value"` for one extra attribute. */
  function AttrText(kv: (string, string)): string {
    kv.0 + "=\"" + EscapeHTML(kv.1) + "\""
  }

  /** The extra attributes, space-separated, in order. Values are escaped,
      so with keys free of `>` the list holds no `>`. */
  function AttrList(attrs: Attrs): (r: string)
    ensures r == [] <==> attrs == []
    ensures (forall kv :: kv in attrs ==> '>' !in kv.0) ==> '>' !in r
    decreases |attrs|
  {
    if attrs == [] then []
    else
      assert attrs[0] in attrs;
      assert forall kv :: kv in attrs[1..] ==> kv in attrs;
      if |attrs| == 1 then AttrText(attrs[0])
      else AttrText(attrs[0]) + " " + AttrList(attrs[1..])
  }

  /** The `data-tip` attribute, present exactly for a non-empty tooltip. */
  function TipAttr(tip: string): (r: string)
    ensures r == [] <==> tip == []
    ensures '>' !in r
  {
    if tip != [] then " data-tip=\"" + EscapeHTML(tip) + "\"" else []
  }

  /** What stands between `<` and `>` in the opening tag: with safe labels
      it holds no `>`, so the tag ends where the markup says. */
  function TagBody(r: Range): (b: string)
    ensures SafeLabels(r.cls, r.attrs) ==> '>' !in b
  {
    var attrs := AttrList(r.attrs);
    "span class=\"" + r.cls + "\"" + TipAttr(r.tip) + (if attrs != [] then " " + attrs else [])
  }

  function OpenTag(r: Range): string {
    "<" + TagBody(r) + ">"
  }

  function SpanHTML(raw: string, r: Range): string {
    OpenTag(r) + EscapeHTML(Slice(raw, r.start, r.end + 1)) + "</span>"
  }

  /** The escaped text between the walk position and the next range. */
  function Gap(raw: string, pos: int, upto: int): string {
    if pos < upto then EscapeHTML(Slice(raw, pos, upto)) else []
  }

  /** The markup for the ranges `rs`, the walk having reached offset `pos`. */
  function Markup(raw: string, rs: seq<Range>, pos: int): string
    decreases |rs|
  {
    if rs == [] then Gap(raw, pos, |raw|)
    else Gap(raw, pos, rs[0].start) + SpanHTML(raw, rs[0]) + Markup(raw, rs[1..], rs[0].end + 1)
  }

  lemma MarkupHead(raw: string, rs: seq<Range>, i: int, pos: int)
    requires 0 <= i < |rs|
    ensures Markup(raw, rs[i..], pos) ==
      Gap(raw, pos, rs[i].start) + SpanHTML(raw, rs[i]) + Markup(raw, rs[i + 1..], rs[i].end + 1)
  {
    assert rs[i..][0] == rs[i] && rs[i..][1..] == rs[i + 1..];
  }

  lemma SliceSplit(s: string, a: int, b: int, c: int)
    requires 0 <= a <= b <= c <= |s|
    ensures s[a..] == s[a..b] + (s[b..c] + s[c..])
  {
  }

  /** One turn of the render loop keeps its invariant: the markup still to
      come splits into the gap, the span and the rest. */
  lemma RenderLoopStep(raw: string, rs: seq<Range>, i: int, pos: int, html: string)
    requires 0 <= i < |rs|
    requires html + Markup(raw, rs[i..], pos) == Markup(raw, rs, 0)
    ensures html + Gap(raw, pos, rs[i].start) + SpanHTML(raw, rs[i]) + Markup(raw, rs[i + 1..], rs[i].end + 1) ==
      Markup(raw, rs, 0)
  {
    MarkupHead(raw, rs, i, pos);
    Regroup(html, Gap(raw, pos, rs[i].start), SpanHTML(raw, rs[i]), Markup(raw, rs[i + 1..], rs[i].end + 1));
  }

  /** Regrouping a concatenation of four strings. */
  lemma Regroup(a: string, b: string, c: string, d: string)
    ensures a + (b + c + d) == a + b + c + d
    ensures b + c + d == b + (c + d)
  {
  }

  /** After the last range: the trailing text completes the markup. */
  lemma RenderEnd(raw: string, sorted: seq<Range>, pos: int, html: string)
    requires html + Markup(raw, sorted[|sorted|..], pos) == Markup(raw, sorted, 0)
    ensures html + Gap(raw, pos, |raw|) == Markup(raw, sorted, 0)
    ensures sorted == [] ==> Markup(raw, sorted, 0) == EscapeHTML(raw)
  {
    assert sorted[|sorted|..] == [];
    if sorted == [] && raw != [] {
      assert Slice(raw, 0, |raw|) == raw;
    }
  }

  /** Appends the escaped text from `pos` up to `upto`, if there is any. */
  method AppendGap(html: string, raw: string, pos: int, upto: int) returns (out: string)
    ensures out == html + Gap(raw, pos, upto)
  {
    out := html;
    if pos < upto {
      out := out + EscapeHTML(Slice(raw, pos, upto));
    }
  }

  /** Appends one span element: the opening tag with its class, tooltip and
      extra attributes, the escaped text the range covers, the closing tag. */
  method AppendSpan(html: string, raw: string, r: Range) returns (out: string)
    ensures out == html + SpanHTML(raw, r)
  {
    var attrs := AttrList(r.attrs);
    var tipAttr := TipAttr(r.tip);
    var body := "span class=\"" + r.cls + "\"" + tipAttr + (if attrs != [] then " " + attrs else []);
    assert body == TagBody(r);
    out := html + ("<" + body + ">" + EscapeHTML(Slice(raw, r.start, r.end + 1)) + "</span>");
  }

  /** The render loop over the sorted ranges; with no ranges the result is the
      escaped clue text. */
  method RenderRanges(raw: string, sorted: seq<Range>) returns (html: string)
    ensures html == Markup(raw, sorted, 0)
    ensures sorted == [] ==> html == EscapeHTML(raw)
  {
    html := [];
    var pos := 0;
    for i := 0 to |sorted|
      invariant html + Markup(raw, sorted[i..], pos) == Markup(raw, sorted, 0)
    {
      var r := sorted[i];
      RenderLoopStep(raw, sorted, i, pos, html);
      html := AppendGap(html, raw, pos, r.start);
      html := AppendSpan(html, raw, r);
      pos := r.end + 1;
    }
    RenderEnd(raw, sorted, pos, html);
    html := AppendGap(html, raw, pos, |raw|);
  }

  /** A span element contributes exactly its (tag-free) content. */
  lemma SpanShape(body: string, content: string, tail: string)
    requires '>' !in body && '<' !in content
    ensures StripTags("<" + body + ">" + content + "</span>" + tail) == content + StripTags(tail)
  {
    var close := ['<'] + "/span" + ['>'] + tail;
    assert "<" + body + ">" + content + "</span>" + tail == ['<'] + body + ['>'] + (content + close);
    StripTagsTag(body, content + close);
    StripTagsText(content, close);
    StripTagsTag("/span", tail);
  }

  lemma SpanText(raw: string, r: Range, tail: string)
    requires SafeLabels(r.cls, r.attrs) && 0 <= r.start <= r.end < |raw|
    ensures StripTags(SpanHTML(raw, r) + tail) == EscapeHTML(raw[r.start..r.end + 1]) + StripTags(tail)
  {
    var content := EscapeHTML(raw[r.start..r.end + 1]);
    assert SpanHTML(raw, r) + tail == "<" + TagBody(r) + ">" + content + "</span>" + tail by {
      assert Slice(raw, r.start, r.end + 1) == raw[r.start..r.end + 1];
    }
    assert '>' !in TagBody(r);
    assert '<' !in content;
    SpanShape(TagBody(r), content, tail);
  }

  lemma GapText(raw: string, pos: int, upto: int, tail: string)
    requires 0 <= pos <= upto <= |raw|
    ensures StripTags(Gap(raw, pos, upto) + tail) == EscapeHTML(raw[pos..upto]) + StripTags(tail)
  {
    if pos < upto {
      assert Slice(raw, pos, upto) == raw[pos..upto];
      StripTagsText(EscapeHTML(raw[pos..upto]), tail);
    } else {
      assert raw[pos..upto] == [];
      assert Gap(raw, pos, upto) + tail == tail;
    }
  }

  /** The first of a chain of renderable ranges lies inside the text, and
      the rest is again a renderable chain that starts after it. */
  lemma ChainedRest(rs: seq<Range>, n: int)
    requires rs != [] && Chained(rs) && WellFormed(rs) && Within(rs, n) && SafeRanges(rs)
    ensures 0 <= rs[0].start <= rs[0].end < n && SafeLabels(rs[0].cls, rs[0].attrs)
    ensures Chained(rs[1..]) && WellFormed(rs[1..]) && Within(rs[1..], n) && SafeRanges(rs[1..])
    ensures rs[1..] != [] ==> rs[0].end + 1 <= rs[1..][0].start
  {
    var rest := rs[1..];
    assert rs[0] in rs;
    forall x | x in rest ensures x in rs {}
    forall i, j | 0 <= i < j < |rest| ensures rest[i].end < rest[j].start {
      assert rest[i] == rs[i + 1] && rest[j] == rs[j + 1];
    }
    if rest != [] {
      assert rest[0] == rs[1];
    }
  }

  /** One gap and one span: their text is the clue text up to the span's end. */
  lemma StepText(raw: string, pos: int, r: Range, tail: string, m: string)
    requires SafeLabels(r.cls, r.attrs) && 0 <= pos <= r.start <= r.end < |raw|
    requires StripTags(tail) == EscapeHTML(raw[r.end + 1..])
    requires m == Gap(raw, pos, r.start) + SpanHTML(raw, r) + tail
    ensures StripTags(m) == EscapeHTML(raw[pos..])
  {
    var gap, span := Gap(raw, pos, r.start), SpanHTML(raw, r);
    var before, inside, after := raw[pos..r.start], raw[r.start..r.end + 1], raw[r.end + 1..];
    assert m == gap + (span + tail) by {
      Regroup([], gap, span, tail);
    }
    assert StripTags(span + tail) == EscapeHTML(inside) + StripTags(tail) by {
      SpanText(raw, r, tail);
    }
    assert StripTags(gap + (span + tail)) == EscapeHTML(before) + StripTags(span + tail) by {
      GapText(raw, pos, r.start, span + tail);
    }
    assert EscapeHTML(raw[pos..]) == EscapeHTML(before) + (EscapeHTML(inside) + EscapeHTML(after)) by {
      SliceSplit(raw, pos, r.start, r.end + 1);
      EscapeHTMLConcat(before, inside + after);
      EscapeHTMLConcat(inside, after);
    }
  }

  lemma FirstSpanText(raw: string, rs: seq<Range>, pos: int)
    requires rs != [] && SafeLabels(rs[0].cls, rs[0].attrs) && 0 <= pos <= rs[0].start <= rs[0].end < |raw|
    requires StripTags(Markup(raw, rs[1..], rs[0].end + 1)) == EscapeHTML(raw[rs[0].end + 1..])
    ensures StripTags(Markup(raw, rs, pos)) == EscapeHTML(raw[pos..])
  {
    var m := Markup(raw, rs, pos);
    assert m == Gap(raw, pos, rs[0].start) + SpanHTML(raw, rs[0]) + Markup(raw, rs[1..], rs[0].end + 1);
    StepText(raw, pos, rs[0], Markup(raw, rs[1..], rs[0].end + 1), m);
  }

  /** The text after the last span. */
  lemma EndText(raw: string, pos: int)
    requires 0 <= pos <= |raw|
    ensures StripTags(Markup(raw, [], pos)) == EscapeHTML(raw[pos..])
  {
    GapText(raw, pos, |raw|, []);
    assert Gap(raw, pos, |raw|) + [] == Gap(raw, pos, |raw|);
    assert raw[pos..|raw|] == raw[pos..];
  }

  /** With the tags removed, the markup from offset `pos` on is exactly the
      escaped clue text from `pos` on: gaps and span contents together cover
      the text once, in order. */
  lemma {:induction false} MarkupText(raw: string, rs: seq<Range>, pos: int)
    requires Chained(rs) && WellFormed(rs) && Within(rs, |raw|) && SafeRanges(rs)
    requires 0 <= pos <= |raw| && (rs != [] ==> pos <= rs[0].start)
    ensures StripTags(Markup(raw, rs, pos)) == EscapeHTML(raw[pos..])
    decreases |rs|
  {
    if rs == [] {
      EndText(raw, pos);
    } else {
      ChainedRest(rs, |raw|);
      MarkupText(raw, rs[1..], rs[0].end + 1);
      FirstSpanText(raw, rs, pos);
    }
  }

  /** Rendering claimed ranges loses nothing: with the tags removed and the
      escaping undone, the markup is the raw clue text exactly. */
  lemma MarkupReconstructs(raw: string, ranges: seq<Range>)
    requires Valid(ranges, |raw|) && SafeRanges(ranges)
    ensures StripTags(Markup(raw, SortByStart(ranges), 0)) == EscapeHTML(raw)
    ensures Unescape(StripTags(Markup(raw, SortByStart(ranges), 0))) == raw
  {
    var sorted := SortByStart(ranges);
    SortChained(ranges);
    SortKeepsMembers(ranges);
    if sorted != [] {
      assert sorted[0] in sorted;
    }
    MarkupText(raw, sorted, 0);
    assert raw[0..] == raw;
    UnescapeEscapeHTML(raw);
  }
}
