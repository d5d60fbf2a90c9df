/** Greedy, non-overlapping claiming of clue-text spans (the `claimRange` and
    `findAndClaim` closures of the annotation builder). The list of claimed
    ranges that the closures share is passed in and handed back explicitly. */
module Claims {
  import opened Text
  import opened Html

  type Attrs = seq<(string, string)>

  /** A claimed span: the closed interval [start, end] of offsets into the
      clue text, its CSS class, its tooltip and its extra attributes. */
  datatype Range = Range(start: int, end: int, cls: string, tip: string, attrs: Attrs)

  /** One `findAndClaim` call: the token to look for and what to label it with. */
  datatype Request = Request(token: string, cls: string, tip: string, attrs: Attrs)

  /** The closed interval [start, end] does not meet `r`. */
  predicate Apart(start: int, end: int, r: Range) {
    end < r.start || start > r.end
  }

  predicate Free(ranges: seq<Range>, start: int, end: int) {
    forall r :: r in ranges ==> Apart(start, end, r)
  }

  predicate WellFormed(ranges: seq<Range>) {
    forall r :: r in ranges ==> 0 <= r.start <= r.end
  }

  /** No two claimed ranges share an offset. */
  predicate Disjoint(ranges: seq<Range>) {
    forall i, j :: 0 <= i < j < |ranges| ==> Apart(ranges[j].start, ranges[j].end, ranges[i])
  }

  predicate Within(ranges: seq<Range>, n: int) {
    forall r :: r in ranges ==> r.end < n
  }

  /** The invariant of the claimed list for a clue text of length `n`. */
  predicate Valid(ranges: seq<Range>, n: int) {
    WellFormed(ranges) && Disjoint(ranges) && Within(ranges, n)
  }

  /** Class names and attribute keys reach the markup unescaped: none of them
      may contain the `>` that closes a tag. */
  predicate SafeLabels(cls: string, attrs: Attrs) {
    '>' !in cls && forall kv :: kv in attrs ==> '>' !in kv.0
  }

  predicate SafeRanges(ranges: seq<Range>) {
    forall r :: r in ranges ==> SafeLabels(r.cls, r.attrs)
  }

  predicate SafeRequests(reqs: seq<Request>) {
    forall q :: q in reqs ==> SafeLabels(q.cls, q.attrs)
  }

  lemma DisjointAppend(ranges: seq<Range>, r: Range)
    requires Disjoint(ranges)
    ensures Disjoint(ranges + [r]) <==> Free(ranges, r.start, r.end)
  {
    var all := ranges + [r];
    if Free(ranges, r.start, r.end) {
      forall i, j | 0 <= i < j < |all| ensures Apart(all[j].start, all[j].end, all[i]) {
        if j == |ranges| {
          assert all[i] in ranges;
        }
      }
    } else {
      var x :| x in ranges && !Apart(r.start, r.end, x);
      var i :| 0 <= i < |ranges| && ranges[i] == x;
      assert !Apart(all[|ranges|].start, all[|ranges|].end, all[i]);
    }
  }

  /** `claimRange`: accepts the interval exactly when it is well formed and
      meets no range claimed so far, and then appends it; a rejected claim
      leaves the list unchanged. */
  method ClaimRange(ranges: seq<Range>, start: int, end: int, cls: string, tip: string, attrs: Attrs)
    returns (ok: bool, claimed: seq<Range>)
    ensures ok <==> 0 <= start <= end && Free(ranges, start, end)
    ensures claimed == if ok then ranges + [Range(start, end, cls, tip, attrs)] else ranges
    ensures WellFormed(ranges) && Disjoint(ranges) ==> WellFormed(claimed) && Disjoint(claimed)
  {
    if start < 0 || end < 0 || end < start {
      return false, ranges;
    }
    for i := 0 to |ranges|
      invariant Free(ranges[..i], start, end)
    {
      var r := ranges[i];
      if !(end < r.start || start > r.end) {
        assert r in ranges;
        return false, ranges;
      }
      assert ranges[..i + 1] == ranges[..i] + [r];
    }
    assert ranges[..|ranges|] == ranges;
    ok, claimed := true, ranges + [Range(start, end, cls, tip, attrs)];
    if Disjoint(ranges) {
      DisjointAppend(ranges, Range(start, end, cls, tip, attrs));
    }
  }

  /** `s.indexOf(t, from)`: the first offset at or after `from` where `t`
      occurs, or -1; an empty `t` is found at `from`, clamped to the length. */
  function IndexOf(s: string, t: string, from: nat): (r: int)
    ensures t == [] ==> r == if from <= |s| then from else |s|
    ensures t != [] ==> r == -1 || (from <= r && StartsAt(s, r, t))
    ensures t != [] ==> forall q :: from <= q && (r == -1 || q < r) ==> !StartsAt(s, q, t)
    decreases |s| - from
  {
    if from + |t| > |s| then (if t == [] then |s| else -1)
    else if s[from..from + |t|] == t then from
    else IndexOf(s, t, from + 1)
  }

  /** `t` occurs at offset `i` and the span it would cover is free. */
  predicate Placeable(text: string, t: string, ranges: seq<Range>, i: int) {
    StartsAt(text, i, t) && Free(ranges, i, i + |t| - 1)
  }

  /** Reference search: the smallest offset at or after `from` where `t` can
      be claimed, or -1. */
  function FirstPlaceable(text: string, t: string, ranges: seq<Range>, from: nat): (r: int)
    ensures r == -1 || (from <= r && Placeable(text, t, ranges, r))
    ensures forall q :: from <= q && (r == -1 || q < r) ==> !Placeable(text, t, ranges, q)
    decreases |text| - from
  {
    if from + |t| > |text| then -1
    else if Placeable(text, t, ranges, from) then from
    else FirstPlaceable(text, t, ranges, from + 1)
  }

  /** What one `findAndClaim` call does to the list, as a function. */
  function ClaimOne(text: string, ranges: seq<Range>, q: Request): seq<Range> {
    if q.token == [] then ranges
    else
      var t := LowerCase(q.token);
      var p := FirstPlaceable(text, t, ranges, 0);
      if p == -1 then ranges else ranges + [Range(p, p + |t| - 1, q.cls, q.tip, q.attrs)]
  }

  /** `findAndClaim`: searches the lower-cased clue text for the lower-cased
      token; at each occurrence it tries to claim, and after a rejection
      searches again from the next offset. */
  method FindAndClaim(lower: string, ranges: seq<Range>, token: string, cls: string, tip: string, attrs: Attrs)
    returns (claimed: seq<Range>)
    ensures claimed == ClaimOne(lower, ranges, Request(token, cls, tip, attrs))
  {
    claimed := ranges;
    if token == [] {
      return;
    }
    var t := LowerCase(token);
    var idx := IndexOf(lower, t, 0);
    while idx != -1
      invariant idx == -1 || (0 <= idx && StartsAt(lower, idx, t))
      invariant claimed == ranges
      invariant forall q :: 0 <= q < idx ==> !Placeable(lower, t, ranges, q)
      invariant idx == -1 ==> forall q :: 0 <= q ==> !Placeable(lower, t, ranges, q)
      decreases if idx == -1 then 0 else |lower| + 1 - idx
    {
      var ok;
      ok, claimed := ClaimRange(claimed, idx, idx + |t| - 1, cls, tip, attrs);
      if ok {
        break;
      }
      idx := IndexOf(lower, t, idx + 1);
    }
    var p := FirstPlaceable(lower, t, ranges, 0);
    if claimed != ranges {
      assert Placeable(lower, t, ranges, idx);
      assert p == idx;
    } else {
      assert p == -1;
    }
  }

  /** The `findAndClaim` guarantees: an empty token is a no-op; otherwise at
      most one range is added, the list is unchanged exactly when no offset
      can be claimed, and an added range covers the token at the smallest
      claimable offset. */
  lemma ClaimOneLeftmost(text: string, ranges: seq<Range>, q: Request)
    ensures q.token == [] ==> ClaimOne(text, ranges, q) == ranges
    ensures q.token != [] ==>
      (ClaimOne(text, ranges, q) == ranges <==> forall i :: !Placeable(text, LowerCase(q.token), ranges, i))
    ensures ClaimOne(text, ranges, q) == ranges ||
      exists p :: Placeable(text, LowerCase(q.token), ranges, p) &&
        ClaimOne(text, ranges, q) == ranges + [Range(p, p + |q.token| - 1, q.cls, q.tip, q.attrs)] &&
        forall i :: 0 <= i < p ==> !Placeable(text, LowerCase(q.token), ranges, i)
  {
    if q.token != [] {
      var t := LowerCase(q.token);
      var p := FirstPlaceable(text, t, ranges, 0);
      if p != -1 {
        assert Placeable(text, t, ranges, p);
      } else {
        forall i ensures !Placeable(text, t, ranges, i) {
          if i >= 0 {
            assert !Placeable(text, t, ranges, i);
          }
        }
      }
    }
  }

  /** One claim keeps the list well formed, disjoint, inside the text and
      free of unsafe labels. */
  lemma ClaimOneValid(text: string, ranges: seq<Range>, q: Request)
    requires Valid(ranges, |text|) && SafeRanges(ranges) && SafeLabels(q.cls, q.attrs)
    ensures Valid(ClaimOne(text, ranges, q), |text|) && SafeRanges(ClaimOne(text, ranges, q))
  {
    if q.token != [] {
      var t := LowerCase(q.token);
      var p := FirstPlaceable(text, t, ranges, 0);
      if p != -1 {
        DisjointAppend(ranges, Range(p, p + |t| - 1, q.cls, q.tip, q.attrs));
      }
    }
  }

  /** The requests claimed in order, each against everything claimed before it. */
  function ClaimAll(text: string, ranges: seq<Range>, reqs: seq<Request>): seq<Range>
    decreases |reqs|
  {
    if reqs == [] then ranges
    else ClaimOne(text, ClaimAll(text, ranges, reqs[..|reqs| - 1]), reqs[|reqs| - 1])
  }

  lemma {:induction false} ClaimAllValid(text: string, ranges: seq<Range>, reqs: seq<Request>)
    requires Valid(ranges, |text|) && SafeRanges(ranges) && SafeRequests(reqs)
    ensures Valid(ClaimAll(text, ranges, reqs), |text|) && SafeRanges(ClaimAll(text, ranges, reqs))
    decreases |reqs|
  {
    if reqs != [] {
      var init := reqs[..|reqs| - 1];
      assert SafeRequests(init) by {
        forall q | q in init ensures SafeLabels(q.cls, q.attrs) {
          assert q in reqs;
        }
      }
      ClaimAllValid(text, ranges, init);
      ClaimOneValid(text, ClaimAll(text, ranges, init), reqs[|reqs| - 1]);
    }
  }

  /** Priority: a claim is never undone, so what an earlier request claims
      stays claimed after every later one, and each request claims at most
      one range. */
  lemma {:induction false} ClaimAllKeepsEarlier(text: string, ranges: seq<Range>, reqs: seq<Request>, k: nat)
    requires k <= |reqs|
    ensures ClaimAll(text, ranges, reqs[..k]) <= ClaimAll(text, ranges, reqs)
    ensures |ClaimAll(text, ranges, reqs)| <= |ClaimAll(text, ranges, reqs[..k])| + |reqs| - k
    decreases |reqs|
  {
    if k == |reqs| {
      assert reqs[..k] == reqs;
    } else {
      var init := reqs[..|reqs| - 1];
      assert init[..k] == reqs[..k];
      ClaimAllKeepsEarlier(text, ranges, init, k);
    }
  }

  /** Claiming one more request is one more `findAndClaim` call. */
  lemma ClaimAllSnoc(text: string, ranges: seq<Range>, reqs: seq<Request>, q: Request)
    ensures ClaimAll(text, ranges, reqs + [q]) == ClaimOne(text, ClaimAll(text, ranges, reqs), q)
  {
    assert (reqs + [q])[..|reqs|] == reqs;
  }

  /** Range `r` was claimed for request `q`: it carries the request's labels
      and spans an occurrence of the lower-cased token. */
  predicate ClaimedFor(text: string, r: Range, q: Request) {
    q.token != [] && r.cls == q.cls && r.tip == q.tip && r.attrs == q.attrs &&
    r.end == r.start + |q.token| - 1 && StartsAt(text, r.start, LowerCase(q.token))
  }

  /** Every range claimed from an empty list was claimed for one of the
      requests, with that request's labels, over an occurrence of its token. */
  lemma {:induction false} ClaimAllCovers(text: string, reqs: seq<Request>)
    ensures forall r :: r in ClaimAll(text, [], reqs) ==> exists q :: q in reqs && ClaimedFor(text, r, q)
    decreases |reqs|
  {
    if reqs != [] {
      var init, q := reqs[..|reqs| - 1], reqs[|reqs| - 1];
      ClaimAllCovers(text, init);
      var before := ClaimAll(text, [], init);
      forall r | r in ClaimAll(text, [], reqs) ensures exists q' :: q' in reqs && ClaimedFor(text, r, q') {
        if r in before {
          var q' :| q' in init && ClaimedFor(text, r, q');
          assert q' in reqs;
        } else {
          var t := LowerCase(q.token);
          var p := FirstPlaceable(text, t, before, 0);
          assert r == Range(p, p + |t| - 1, q.cls, q.tip, q.attrs);
          assert ClaimedFor(text, r, q);
        }
      }
    }
  }
}
