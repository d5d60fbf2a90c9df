/** The annotated clue line (`buildAnnotatedClueHTML`): definitions are
    claimed first, then indicators, then fodder words, each at its leftmost
    free occurrence in the lower-cased clue text; the claimed spans are then
    rendered over the original text. */
module Annotate {
  import opened Text
  import opened Html
  import opened Catalog
  import opened Clues
  import opened Claims
  import opened Render

  const DefinitionTip := "Definition — what the answer means."
  const FirstMeaningTip := "Double definition — meaning 1"
  const SecondMeaningTip := "Double definition — meaning 2"
  const FodderTip := "Fodder — used to build the answer."
  const PartKey := "data-part"

  function Digit(d: nat): (c: char)
    requires d < 10
    ensures '0' <= c <= '9' && c as int - '0' as int == d
  {
    (d + '0' as int) as char
  }

  /** `String(n)` for a non-negative integer: its decimal digits, with no
      leading zero except for zero itself. */
  function DecimalString(n: nat): (s: string)
    ensures s != [] && AllDigits(s)
    ensures s[0] == '0' <==> n == 0
    decreases n
  {
    if n < 10 then [Digit(n)] else DecimalString(n / 10) + [Digit(n % 10)]
  }

  predicate AllDigits(s: string) {
    forall i :: 0 <= i < |s| ==> '0' <= s[i] <= '9'
  }

  /** `Number(s)` on a string of decimal digits. */
  function DecimalValue(s: string): nat
    requires AllDigits(s)
    decreases |s|
  {
    if s == [] then 0
    else
      DecimalValue(s[..|s| - 1]) * 10 + (s[|s| - 1] as int - '0' as int)
  }

  /** The part index written into a fodder span's `data-part` attribute is
      read back unchanged by the hover handler's `Number(...)`. */
  lemma {:induction false} DecimalRoundTrip(n: nat)
    ensures DecimalValue(DecimalString(n)) == n
    decreases n
  {
    if n >= 10 {
      DecimalRoundTrip(n / 10);
      var s := DecimalString(n);
      assert s[..|s| - 1] == DecimalString(n / 10);
    }
  }

  /** The definition claims: the two meanings of a double definition, or
      else one claim per definition word; all are safe to serialise. */
  function DefinitionRequests(c: Clue): (r: seq<Request>)
    ensures |r| == if LowerCase(c.clueType) == "double" && |c.definitions| >= 2 then 2 else |c.definitionWords|
    ensures SafeRequests(r)
  {
    if LowerCase(c.clueType) == "double" && |c.definitions| >= 2 then
      [Request(c.definitions[0], "def def-0", FirstMeaningTip, []),
       Request(c.definitions[1], "def def-1", SecondMeaningTip, [])]
    else
      seq(|c.definitionWords|, k requires 0 <= k < |c.definitionWords| =>
        Request(c.definitionWords[k], "def", DefinitionTip, []))
  }

  /** One `indicator` claim per indicator word, in order, all with the
      category's (never empty) tooltip. */
  function IndicatorRequests(c: Clue): (r: seq<Request>)
    ensures |r| == |c.indicatorWords|
    ensures forall k :: 0 <= k < |r| ==> r[k].token == c.indicatorWords[k] && r[k].tip != []
    ensures SafeRequests(r)
  {
    var tip := IndicatorTooltipByType(c.clueType);
    seq(|c.indicatorWords|, k requires 0 <= k < |c.indicatorWords| =>
      Request(c.indicatorWords[k], "indicator", tip, []))
  }

  /** The tooltip of fodder word `i`: the hint of part `i` when that part
      exists and its hint is non-empty, the generic fodder text otherwise. */
  function FodderHint(c: Clue, i: nat): (h: string)
    ensures h != []
  {
    if i < |c.parts| && c.parts[i].hint != [] then c.parts[i].hint else FodderTip
  }

  /** One `fodder` claim per fodder word, in order; claim `k` carries
      `data-part` set to `k` and a non-empty tooltip. */
  function FodderRequests(c: Clue): (r: seq<Request>)
    ensures |r| == |c.fodderWords|
    ensures forall k :: 0 <= k < |r| ==>
      r[k].token == c.fodderWords[k] && r[k].tip != [] && r[k].attrs == [(PartKey, DecimalString(k))]
    ensures SafeRequests(r)
  {
    seq(|c.fodderWords|, k requires 0 <= k < |c.fodderWords| =>
      Request(c.fodderWords[k], "fodder", FodderHint(c, k), [(PartKey, DecimalString(k))]))
  }

  /** All claims in the order they are made. */
  function Requests(c: Clue): seq<Request> {
    DefinitionRequests(c) + IndicatorRequests(c) + FodderRequests(c)
  }

  /** The ranges claimed for the clue, in claim order. */
  function AnnotationRanges(c: Clue): (rs: seq<Range>)
    ensures Valid(rs, |c.clue|) && SafeRanges(rs)
  {
    RequestsSafe(c);
    ClaimAllValid(LowerCase(c.clue), [], Requests(c));
    ClaimAll(LowerCase(c.clue), [], Requests(c))
  }

  lemma RequestsSafe(c: Clue)
    ensures SafeRequests(Requests(c))
  {
    var defs, inds, fods := DefinitionRequests(c), IndicatorRequests(c), FodderRequests(c);
    assert forall q :: q in defs + inds + fods ==> q in defs || q in inds || q in fods;
  }

  /** Claims over a prefix of the requests, extended by one loop step. */
  lemma ClaimStep(lower: string, done: seq<Request>, group: seq<Request>, k: nat)
    requires k < |group|
    ensures ClaimAll(lower, [], done + group[..k + 1]) ==
      ClaimOne(lower, ClaimAll(lower, [], done + group[..k]), group[k])
  {
    assert done + group[..k + 1] == (done + group[..k]) + [group[k]];
    ClaimAllSnoc(lower, [], done + group[..k], group[k]);
  }

  /** The definition section: the two meanings of a double definition, or
      else each definition word, claimed in turn from no claims. */
  method ClaimDefinitions(c: Clue, lower: string) returns (ranges: seq<Range>)
    ensures ranges == ClaimAll(lower, [], DefinitionRequests(c))
  {
    var defs := DefinitionRequests(c);
    ranges := [];
    if LowerCase(c.clueType) == "double" && |c.definitions| >= 2 {
      ranges := FindAndClaim(lower, ranges, c.definitions[0], "def def-0", FirstMeaningTip, []);
      ranges := FindAndClaim(lower, ranges, c.definitions[1], "def def-1", SecondMeaningTip, []);
      ClaimStep(lower, [], defs, 0);
      ClaimStep(lower, [], defs, 1);
      assert defs[..2] == defs;
    } else {
      for k := 0 to |c.definitionWords|
        invariant ranges == ClaimAll(lower, [], [] + defs[..k])
      {
        ranges := FindAndClaim(lower, ranges, c.definitionWords[k], "def", DefinitionTip, []);
        ClaimStep(lower, [], defs, k);
      }
      assert [] + defs[..|defs|] == defs;
    }
  }

  /** The indicator section: each indicator word claimed in turn, with the
      category's tooltip, after the claims made for `done`. */
  method ClaimIndicators(c: Clue, lower: string, done: seq<Request>, claimed: seq<Range>)
    returns (ranges: seq<Range>)
    requires claimed == ClaimAll(lower, [], done)
    ensures ranges == ClaimAll(lower, [], done + IndicatorRequests(c))
  {
    var inds := IndicatorRequests(c);
    var tip := IndicatorTooltipByType(c.clueType);
    ranges := claimed;
    assert done + inds[..0] == done;
    for k := 0 to |c.indicatorWords|
      invariant ranges == ClaimAll(lower, [], done + inds[..k])
    {
      ranges := FindAndClaim(lower, ranges, c.indicatorWords[k], "indicator", tip, []);
      ClaimStep(lower, done, inds, k);
    }
    assert inds[..|inds|] == inds;
  }

  /** The fodder section: fodder word `k` claimed with part `k`'s hint and
      `data-part` set to `k`, after the claims made for `done`. */
  method ClaimFodder(c: Clue, lower: string, done: seq<Request>, claimed: seq<Range>)
    returns (ranges: seq<Range>)
    requires claimed == ClaimAll(lower, [], done)
    ensures ranges == ClaimAll(lower, [], done + FodderRequests(c))
  {
    var fods := FodderRequests(c);
    ranges := claimed;
    assert done + fods[..0] == done;
    for k := 0 to |c.fodderWords|
      invariant ranges == ClaimAll(lower, [], done + fods[..k])
    {
      var hint := if k < |c.parts| && c.parts[k].hint != [] then c.parts[k].hint else FodderTip;
      ranges := FindAndClaim(lower, ranges, c.fodderWords[k], "fodder", hint, [(PartKey, DecimalString(k))]);
      ClaimStep(lower, done, fods, k);
    }
    assert fods[..|fods|] == fods;
  }

  /** `buildAnnotatedClueHTML`: claims every definition, indicator and fodder
      word in turn, sorts the claims and renders them. The result is the
      rendering of the claimed ranges, and removing its tags and undoing its
      escaping gives back the clue text. */
  method BuildAnnotatedClueHTML(c: Clue) returns (html: string)
    ensures html == Markup(c.clue, SortByStart(AnnotationRanges(c)), 0)
    ensures StripTags(html) == EscapeHTML(c.clue)
    ensures Unescape(StripTags(html)) == c.clue
    ensures AnnotationRanges(c) == [] ==> html == EscapeHTML(c.clue)
  {
    var raw := c.clue;
    var lower := LowerCase(raw);
    var ranges := ClaimDefinitions(c, lower);
    ranges := ClaimIndicators(c, lower, DefinitionRequests(c), ranges);
    ranges := ClaimFodder(c, lower, DefinitionRequests(c) + IndicatorRequests(c), ranges);
    assert ranges == AnnotationRanges(c);
    var sorted := SortByStart(ranges);
    html := RenderRanges(raw, sorted);
    MarkupReconstructs(raw, ranges);
  }

  /** Claim priority: everything the definitions claim survives the
      indicator and fodder claims, and everything claimed up to the last
      indicator survives the fodder claims. */
  lemma DefinitionsFirst(c: Clue)
    ensures ClaimAll(LowerCase(c.clue), [], DefinitionRequests(c)) <= AnnotationRanges(c)
    ensures ClaimAll(LowerCase(c.clue), [], DefinitionRequests(c) + IndicatorRequests(c)) <= AnnotationRanges(c)
    ensures |AnnotationRanges(c)| <= |Requests(c)|
  {
    var reqs, d, i := Requests(c), |DefinitionRequests(c)|, |IndicatorRequests(c)|;
    assert reqs[..d] == DefinitionRequests(c);
    assert reqs[..d + i] == DefinitionRequests(c) + IndicatorRequests(c);
    ClaimAllKeepsEarlier(LowerCase(c.clue), [], reqs, d);
    ClaimAllKeepsEarlier(LowerCase(c.clue), [], reqs, d + i);
    ClaimAllKeepsEarlier(LowerCase(c.clue), [], reqs, 0);
    assert reqs[..0] == [];
  }

  /** A fodder span belongs to fodder word `i`: it covers an occurrence of
      that word, carries `data-part` set to `i` and the hint of part `i`. */
  lemma FodderSpanPart(c: Clue, r: Range)
    requires r in AnnotationRanges(c) && r.cls == "fodder"
    ensures exists i :: (
      0 <= i < |c.fodderWords| &&
      r.attrs == [(PartKey, DecimalString(i))] && r.tip == FodderHint(c, i) &&
      ClaimedFor(LowerCase(c.clue), r, Request(c.fodderWords[i], "fodder", FodderHint(c, i), r.attrs)))
  {
    ClaimAllCovers(LowerCase(c.clue), Requests(c));
    var q :| q in Requests(c) && ClaimedFor(LowerCase(c.clue), r, q);
    var fods := FodderRequests(c);
    assert q in fods by {
      OnlyFodderIsFodder(c);
    }
    var k :| 0 <= k < |fods| && fods[k] == q;
    assert q == Request(c.fodderWords[k], "fodder", FodderHint(c, k), [(PartKey, DecimalString(k))]);
  }

  lemma OnlyFodderIsFodder(c: Clue)
    ensures forall x :: x in DefinitionRequests(c) + IndicatorRequests(c) ==> x.cls != "fodder"
  {
  }

  /** Claim priority for indicators: indicator word `k` adds no span when
      every occurrence of it in the clue meets a definition span, however the
      earlier indicators fared. */
  lemma IndicatorInsideDefinition(c: Clue, k: nat)
    requires k < |c.indicatorWords|
    requires forall i :: !Placeable(LowerCase(c.clue), LowerCase(c.indicatorWords[k]),
      ClaimAll(LowerCase(c.clue), [], DefinitionRequests(c)), i)
    ensures ClaimAll(LowerCase(c.clue), [], DefinitionRequests(c) + IndicatorRequests(c)[..k + 1]) ==
      ClaimAll(LowerCase(c.clue), [], DefinitionRequests(c) + IndicatorRequests(c)[..k])
  {
    var lower, defs, inds := LowerCase(c.clue), DefinitionRequests(c), IndicatorRequests(c);
    var reqs := defs + inds[..k];
    var before := ClaimAll(lower, [], reqs);
    var claimedDefs := ClaimAll(lower, [], defs);
    var t := LowerCase(inds[k].token);
    ClaimStep(lower, defs, inds, k);
    assert reqs[..|defs|] == defs;
    ClaimAllKeepsEarlier(lower, [], reqs, |defs|);
    assert forall x :: x in claimedDefs ==> x in before;
    forall i ensures !Placeable(lower, t, before, i) {
      assert !Placeable(lower, t, claimedDefs, i);
    }
    ClaimOneLeftmost(lower, before, inds[k]);
  }

  /** An example of that priority: in the clue "Stop", with "stop" both a
      definition word and (in capitals) an indicator word, the only
      occurrence is marked as the definition and the indicator gets no span. */
  lemma DefinitionBeatsIndicator()
    ensures AnnotationRanges(Clue("Stop", "", "", [], ["stop"], ["STOP"], [], [], "")) ==
      [Range(0, 3, "def", DefinitionTip, [])]
  {
    var c := Clue("Stop", "", "", [], ["stop"], ["STOP"], [], [], "");
    var lower := LowerCase(c.clue);
    LowerCaseIs("Stop", "stop");
    LowerCaseIs("STOP", "stop");
    var d := Request("stop", "def", DefinitionTip, []);
    var i := Request("STOP", "indicator", DefaultIndicatorTip, []);
    assert LowerCase(c.clueType) == [];
    assert DefinitionRequests(c) == [d];
    assert IndicatorTooltipByType(c.clueType) == DefaultIndicatorTip;
    assert IndicatorRequests(c)[0] == i;
    assert IndicatorRequests(c) == [i];
    assert Requests(c) == [d, i];
    var r := Range(0, 3, "def", DefinitionTip, []);
    assert StartsAt(lower, 0, "stop");
    assert ClaimAll(lower, [], [d]) == [r] by {
      assert [d][..0] == [];
    }
    assert FirstPlaceable(lower, "stop", [r], 0) == -1 by {
      assert r in [r] && !Apart(0, 3, r);
    }
    assert [d, i][..1] == [d];
  }
}
