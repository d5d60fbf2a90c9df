/** Mapping each wordplay part of a clue to the answer squares it accounts
    for (`computePartMappings`). Parts are handled in order; the squares
    mapped so far are "claimed", and a part given by its yielded letters is
    placed at the leftmost position that spells those letters over unclaimed
    squares. */
module PartMapper {
  import opened Text
  import opened Clues

  function Min(a: int, b: int): int { if a <= b then a else b }
  function Max(a: int, b: int): int { if a <= b then b else a }

  /** The elements of a mapping, as a set. */
  function Elems(s: seq<int>): set<int> {
    set x | x in s
  }

  /** `indices.filter(n => n >= 0 && n < len)`: the listed indices that fall
      inside the answer, in their original order and with repeats kept. */
  function InBounds(xs: seq<int>, len: int): (r: seq<int>)
    ensures |r| <= |xs|
    ensures forall x :: x in r <==> x in xs && 0 <= x < len
    ensures (forall i :: 0 <= i < |xs| ==> 0 <= xs[i] < len) ==> r == xs
  {
    if xs == [] then []
    else if 0 <= xs[0] < len then [xs[0]] + InBounds(xs[1..], len)
    else InBounds(xs[1..], len)
  }

  /** The filter keeps the order of the indices: filtering a concatenation
      is concatenating the filtered pieces. */
  lemma {:induction false} InBoundsConcat(a: seq<int>, b: seq<int>, len: int)
    ensures InBounds(a + b, len) == InBounds(a, len) + InBounds(b, len)
    decreases |a|
  {
    if a == [] {
      assert a + b == b;
    } else {
      assert (a + b)[1..] == a[1..] + b;
      InBoundsConcat(a[1..], b, len);
    }
  }

  /** The integers `lo`, `lo + 1`, ..., `hi` in ascending order. */
  function Interval(lo: int, hi: int): (r: seq<int>)
    ensures |r| == if lo <= hi then hi - lo + 1 else 0
    ensures forall k :: 0 <= k < |r| ==> r[k] == lo + k
    decreases hi - lo + 1
  {
    if lo > hi then [] else [lo] + Interval(lo + 1, hi)
  }

  /** Extending an interval by one at the top. */
  lemma IntervalSnoc(lo: int, hi: int)
    requires lo <= hi + 1
    ensures Interval(lo, hi + 1) == Interval(lo, hi) + [hi + 1]
  {
    var a, b := Interval(lo, hi + 1), Interval(lo, hi) + [hi + 1];
    assert |a| == |b|;
    forall k | 0 <= k < |a| ensures a[k] == b[k] {
    }
  }

  /** A `range [a, b]` part: the squares from the smaller bound to the larger,
      clipped to the answer. */
  function RangeIndices(a: int, b: int, len: int): seq<int> {
    Interval(Max(0, Min(a, b)), Min(len - 1, Max(a, b)))
  }

  /** The letters `y` can be placed with their first letter on square `pos`:
      they fit inside the answer, spell it there, and use no claimed square. */
  predicate FitsAt(answer: string, y: string, claimed: set<int>, pos: int) {
    0 <= pos && pos + |y| <= |answer| &&
    forall i :: pos <= i < pos + |y| ==> i !in claimed && answer[i] == y[i - pos]
  }

  /** Reference search: the leftmost position at or after `from` where `y`
      fits, or -1. */
  function FirstFit(answer: string, y: string, claimed: set<int>, from: nat): (r: int)
    ensures r == -1 || (from <= r && FitsAt(answer, y, claimed, r))
    ensures forall q :: from <= q && (r == -1 || q < r) ==> !FitsAt(answer, y, claimed, q)
    decreases |answer| - from
  {
    if from + |y| > |answer| then -1
    else if FitsAt(answer, y, claimed, from) then from
    else FirstFit(answer, y, claimed, from + 1)
  }

  /** The squares one part maps to, given the squares already claimed. The
      first of `indices`, a two-element `range` or `yields` that is present
      decides; a part with none of them maps to nothing. */
  function PartMapping(p: Part, answer: string, claimed: set<int>): (r: seq<int>)
    ensures forall x :: x in r ==> 0 <= x < |answer|
    ensures p.indices == [] && |p.range| != 2 ==> forall x :: x in r ==> x !in claimed
  {
    if p.indices != [] then InBounds(p.indices, |answer|)
    else if |p.range| == 2 then RangeIndices(p.range[0], p.range[1], |answer|)
    else if p.yielded != [] then
      var y := UpperCase(p.yielded);
      var pos := FirstFit(answer, y, claimed, 0);
      if pos == -1 then [] else Interval(pos, pos + |y| - 1)
    else []
  }

  /** Every square some mapping uses. */
  function ClaimedBy(ms: seq<seq<int>>): set<int> {
    if ms == [] then {} else ClaimedBy(ms[..|ms| - 1]) + Elems(ms[|ms| - 1])
  }

  /** The mappings of all parts, each computed against what the earlier parts
      claimed. */
  function Mappings(parts: seq<Part>, answer: string): seq<seq<int>>
    decreases |parts|
  {
    if parts == [] then []
    else
      var before := Mappings(parts[..|parts| - 1], answer);
      before + [PartMapping(parts[|parts| - 1], answer, ClaimedBy(before))]
  }

  /** `computePartMappings`: one mapping per part of the clue, in order. */
  method ComputePartMappings(c: Clue, answer: string) returns (mappings: seq<seq<int>>)
    ensures mappings == Mappings(c.parts, answer)
  {
    var claimed: set<int> := {};
    mappings := [];
    var parts := c.parts;
    for i := 0 to |parts|
      invariant mappings == Mappings(parts[..i], answer)
      invariant claimed == ClaimedBy(mappings)
    {
      var indices := MapPart(parts[i], answer, claimed);
      claimed := AddAll(claimed, indices);
      MappingsPrefix(parts, answer, i);
      mappings := mappings + [indices];
    }
    assert parts[..|parts|] == parts;
  }

  /** `indices.forEach(n => claimed.add(n))`. */
  method AddAll(claimed: set<int>, indices: seq<int>) returns (result: set<int>)
    ensures result == claimed + Elems(indices)
  {
    result := claimed;
    for k := 0 to |indices|
      invariant result == claimed + Elems(indices[..k])
    {
      assert indices[..k + 1] == indices[..k] + [indices[k]];
      result := result + {indices[k]};
    }
    assert indices[..|indices|] == indices;
  }

  /** One more part extends the mappings by that part's mapping, computed
      against the squares claimed so far. */
  lemma MappingsPrefix(parts: seq<Part>, answer: string, i: int)
    requires 0 <= i < |parts|
    ensures var before := Mappings(parts[..i], answer);
      Mappings(parts[..i + 1], answer) == before + [PartMapping(parts[i], answer, ClaimedBy(before))]
  {
    assert parts[..i + 1][..i] == parts[..i] && parts[..i + 1][i] == parts[i];
  }

  /** The body of the loop over parts: the squares part `p` maps to. */
  method MapPart(p: Part, answer: string, claimed: set<int>) returns (indices: seq<int>)
    ensures indices == PartMapping(p, answer, claimed)
  {
    indices := [];
    if |p.indices| > 0 {
      indices := InBounds(p.indices, |answer|);
    } else if |p.range| == 2 {
      var a, b := p.range[0], p.range[1];
      indices := CountUp(Max(0, Min(a, b)), Min(|answer| - 1, Max(a, b)));
    } else if |p.yielded| > 0 {
      indices := PlaceYield(answer, UpperCase(p.yielded), claimed);
    }
  }

  /** The range branch's loop: every integer from `start` to `end` in
      increasing order. */
  method CountUp(start: int, end: int) returns (indices: seq<int>)
    ensures indices == Interval(start, end)
  {
    indices := [];
    var j := start;
    while j <= end
      invariant start <= j <= Max(start, end + 1)
      invariant indices == Interval(start, j - 1)
      decreases end - j
    {
      IntervalSnoc(start, j - 1);
      indices := indices + [j];
      j := j + 1;
    }
    assert indices == Interval(start, end) by {
      if start > end {
        assert Interval(start, end) == [];
      }
    }
  }

  /** The yielded-letters branch: try each start position in turn, checking
      the letters one by one, and take the first that fits. */
  method PlaceYield(answer: string, y: string, claimed: set<int>) returns (indices: seq<int>)
    requires y != []
    ensures indices == (var pos := FirstFit(answer, y, claimed, 0);
                        if pos == -1 then [] else Interval(pos, pos + |y| - 1))
  {
    var n, l := |answer|, |y|;
    indices := [];
    var placed := false;
    var pos := 0;
    while pos <= n - l
      invariant 0 <= pos
      invariant forall q :: 0 <= q < pos ==> !FitsAt(answer, y, claimed, q)
      invariant placed ==> FitsAt(answer, y, claimed, pos) && indices == Interval(pos, pos + l - 1)
      invariant !placed ==> indices == []
      decreases n - l + 1 - pos
    {
      var ok := true;
      var k := 0;
      while k < l
        invariant 0 <= k <= l && ok
        invariant forall i :: pos <= i < pos + k ==> i !in claimed && answer[i] == y[i - pos]
        decreases l - k
      {
        if pos + k in claimed || answer[pos + k] != y[k] {
          ok := false;
          assert !FitsAt(answer, y, claimed, pos);
          break;
        }
        k := k + 1;
      }
      if ok {
        k := 0;
        while k < l
          invariant 0 <= k <= l
          invariant indices == Interval(pos, pos + k - 1)
        {
          IntervalSnoc(pos, pos + k - 1);
          indices := indices + [pos + k];
          k := k + 1;
        }
        assert FitsAt(answer, y, claimed, pos);
        placed := true;
        break;
      }
      pos := pos + 1;
    }
    if !placed {
      indices := [];
      assert FirstFit(answer, y, claimed, 0) == -1;
    } else {
      assert FirstFit(answer, y, claimed, 0) == pos;
    }
  }

  /** A range part maps to exactly the integers between its bounds, clipped
      to the answer, in ascending order. */
  lemma RangeExact(a: int, b: int, len: int)
    ensures forall x :: x in RangeIndices(a, b, len) <==> Max(0, Min(a, b)) <= x <= Min(len - 1, Max(a, b))
    ensures forall i, j :: 0 <= i < j < |RangeIndices(a, b, len)| ==> RangeIndices(a, b, len)[i] < RangeIndices(a, b, len)[j]
  {
    var lo, hi := Max(0, Min(a, b)), Min(len - 1, Max(a, b));
    var r := RangeIndices(a, b, len);
    forall x ensures x in r <==> lo <= x <= hi {
      if lo <= x <= hi {
        assert r[x - lo] == x;
      }
    }
  }

  /** The bounds of a range may come in either order: `[2, 0]` over a
      five-letter answer maps to squares 0, 1 and 2. */
  lemma RangeReversedBounds()
    ensures RangeIndices(2, 0, 5) == [0, 1, 2]
  {
    assert Interval(3, 2) == [];
  }

  /** A part given by its yielded letters maps to nothing exactly when those
      letters fit nowhere; otherwise to the squares of the leftmost fit, which
      spell the letters and avoid every square claimed before. */
  lemma YieldLeftmost(p: Part, answer: string, claimed: set<int>)
    requires p.indices == [] && |p.range| != 2 && p.yielded != []
    ensures var m, y := PartMapping(p, answer, claimed), UpperCase(p.yielded);
      (m == [] <==> forall q :: !FitsAt(answer, y, claimed, q)) &&
      (m != [] ==>
        m == Interval(m[0], m[0] + |y| - 1) && FitsAt(answer, y, claimed, m[0]) &&
        forall q :: q < m[0] ==> !FitsAt(answer, y, claimed, q)) &&
      (forall x :: x in m ==> x !in claimed && answer[x] == y[x - m[0]])
  {
    var y := UpperCase(p.yielded);
    var pos := FirstFit(answer, y, claimed, 0);
    var m := PartMapping(p, answer, claimed);
    if pos != -1 {
      assert m[0] == pos;
      forall x | x in m ensures x !in claimed && answer[x] == y[x - m[0]] {
        var k :| 0 <= k < |m| && m[k] == x;
      }
    } else {
      forall q ensures !FitsAt(answer, y, claimed, q) {
        if q >= 0 {
          assert !FitsAt(answer, y, claimed, q);
        }
      }
    }
  }

  /** A square is claimed by a list of mappings exactly when one of them uses it. */
  lemma {:induction false} ClaimedByUnion(ms: seq<seq<int>>)
    ensures forall x :: x in ClaimedBy(ms) <==> exists i :: 0 <= i < |ms| && x in ms[i]
    decreases |ms|
  {
    if ms != [] {
      var init := ms[..|ms| - 1];
      ClaimedByUnion(init);
      forall x ensures x in ClaimedBy(ms) <==> exists i :: 0 <= i < |ms| && x in ms[i] {
        if x in ClaimedBy(init) {
          var i :| 0 <= i < |init| && x in init[i];
          assert ms[i] == init[i];
        }
        if exists i :: 0 <= i < |ms| && x in ms[i] {
          var i :| 0 <= i < |ms| && x in ms[i];
          if i < |init| {
            assert init[i] == ms[i];
          }
        }
      }
    }
  }

  /** One mapping per part, each computed from the part itself and what the
      earlier mappings claimed; every square lies inside the answer. */
  lemma {:induction false} MappingsLength(parts: seq<Part>, answer: string)
    ensures |Mappings(parts, answer)| == |parts|
    decreases |parts|
  {
    if parts != [] {
      MappingsLength(parts[..|parts| - 1], answer);
    }
  }

  /** The mapping of part `i` is computed against the squares the parts
      before it claimed. */
  lemma {:induction false} MappingsAt(parts: seq<Part>, answer: string, i: int)
    requires 0 <= i < |parts|
    ensures |Mappings(parts, answer)| == |parts|
    ensures Mappings(parts, answer)[i] == PartMapping(parts[i], answer, ClaimedBy(Mappings(parts, answer)[..i]))
    decreases |parts|
  {
    var init := parts[..|parts| - 1];
    var ms, before := Mappings(parts, answer), Mappings(init, answer);
    MappingsLength(init, answer);
    assert ms == before + [PartMapping(parts[|parts| - 1], answer, ClaimedBy(before))];
    if i < |init| {
      MappingsAt(init, answer, i);
      assert ms[..i] == before[..i];
      assert parts[i] == init[i];
    } else {
      assert ms[..i] == before;
    }
  }

  lemma MappingsShape(parts: seq<Part>, answer: string)
    ensures |Mappings(parts, answer)| == |parts|
    ensures forall i :: 0 <= i < |parts| ==>
      Mappings(parts, answer)[i] == PartMapping(parts[i], answer, ClaimedBy(Mappings(parts, answer)[..i]))
    ensures forall i, x :: 0 <= i < |parts| && x in Mappings(parts, answer)[i] ==> 0 <= x < |answer|
  {
    MappingsLength(parts, answer);
    var ms := Mappings(parts, answer);
    forall i | 0 <= i < |parts|
      ensures ms[i] == PartMapping(parts[i], answer, ClaimedBy(ms[..i]))
      ensures forall x :: x in ms[i] ==> 0 <= x < |answer|
    {
      MappingsAt(parts, answer, i);
    }
  }

  /** The claimed set carried from part to part is what keeps yielded
      letters off squares an earlier part already mapped. */
  lemma YieldAvoidsEarlierParts(parts: seq<Part>, answer: string, i: int, j: int)
    requires 0 <= j < i < |parts|
    requires parts[i].indices == [] && |parts[i].range| != 2 && parts[i].yielded != []
    ensures |Mappings(parts, answer)| == |parts|
    ensures forall x :: x in Mappings(parts, answer)[i] ==> x !in Mappings(parts, answer)[j]
  {
    MappingsShape(parts, answer);
    var ms := Mappings(parts, answer);
    YieldLeftmost(parts[i], answer, ClaimedBy(ms[..i]));
    ClaimedByUnion(ms[..i]);
    assert ms[..i][j] == ms[j];
  }

  /** One mismatching or claimed square rules a position out. */
  lemma Misfit(answer: string, y: string, claimed: set<int>, pos: int, i: int)
    requires pos <= i < pos + |y| && 0 <= i < |answer|
    requires i in claimed || answer[i] != y[i - pos]
    ensures !FitsAt(answer, y, claimed, pos)
  {
  }

  lemma FirstYieldOfABC()
    ensures Mappings([Part("", [], [], "abc")], "ABCABC") == [[0, 1, 2]]
  {
    UpperCaseIs("abc", "ABC");
    assert FitsAt("ABCABC", "ABC", {}, 0);
    assert Interval(0, 2) == [0, 1, 2] by {
      assert Interval(3, 2) == [];
    }
    assert [Part("", [], [], "abc")][..0] == [];
  }

  lemma SecondPlaceOfABC()
    ensures FirstFit("ABCABC", "ABC", {0, 1, 2}, 0) == 3
  {
    var answer, claimed: set<int> := "ABCABC", {0, 1, 2};
    Misfit(answer, "ABC", claimed, 0, 0);
    Misfit(answer, "ABC", claimed, 1, 1);
    Misfit(answer, "ABC", claimed, 2, 2);
    assert FitsAt(answer, "ABC", claimed, 3);
  }

  lemma SecondYieldOfABC()
    ensures PartMapping(Part("", [], [], "abc"), "ABCABC", {0, 1, 2}) == [3, 4, 5]
  {
    SecondPlaceOfABC();
    UpperCaseIs("abc", "ABC");
    assert Interval(3, 5) == [3, 4, 5] by {
      assert Interval(6, 5) == [];
    }
  }

  /** The same letters yielded twice go to two different places: the second
      part skips the squares the first one claimed. */
  lemma RepeatedYieldsTakeNextPlace()
    ensures Mappings([Part("", [], [], "abc"), Part("", [], [], "abc")], "ABCABC") == [[0, 1, 2], [3, 4, 5]]
  {
    var part := Part("", [], [], "abc");
    FirstYieldOfABC();
    assert [part, part][..1] == [part];
    assert ClaimedBy([[0, 1, 2]]) == {0, 1, 2} by {
      assert [[0, 1, 2]][..0] == [];
      assert Elems([0, 1, 2]) == {0, 1, 2};
    }
    SecondYieldOfABC();
  }

  /** Letters that do not occur in the answer map to nothing: "NGIS" in
      "LIBRA". */
  lemma AbsentYieldMapsToNothing()
    ensures Mappings([Part("sign backwards", [], [], "NGIS")], "LIBRA") == [[]]
  {
    UpperCaseIs("NGIS", "NGIS");
    Misfit("LIBRA", "NGIS", {}, 0, 0);
    Misfit("LIBRA", "NGIS", {}, 1, 1);
    assert FirstFit("LIBRA", "NGIS", {}, 0) == -1;
    assert [Part("sign backwards", [], [], "NGIS")][..0] == [];
  }

  /** Explicit indices and ranges do not consult the claimed squares; only
      yielded letters avoid what earlier parts claimed. */
  lemma ExplicitIndicesIgnoreClaims(p: Part, answer: string, claimed: set<int>)
    requires p.indices != [] || |p.range| == 2
    ensures PartMapping(p, answer, claimed) == PartMapping(p, answer, {})
  {
  }

  /** An example: explicit indices are taken as given, even over squares an
      earlier part already claimed. */
  lemma ExplicitIndicesMayOverlap()
    ensures Mappings([Part("", [0, 1], [], ""), Part("", [1], [], "")], "AB") == [[0, 1], [1]]
  {
    var first, second := Part("", [0, 1], [], ""), Part("", [1], [], "");
    assert [first, second][..1] == [first] && [first][..0] == [];
  }
}
