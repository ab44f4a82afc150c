/** Choosing the category ids of a game (getCategoryIds).
 *
 *  The categories request answers a list of summaries; those with more than six clues
 *  form the pool, and random draws from the pool are appended to the chosen ids, skipping
 *  ids already chosen, until six ids are chosen.
 */
module Selection {

  /** One entry of the categories request's answer. */
  datatype CategorySummary = CategorySummary(id: int, title: string, cluesCount: int)

  /** A category is eligible when it has strictly more clues than this. */
  const MoreCluesThan := 6
  /** The number of category ids a game needs. */
  const TargetCount := 6

  predicate IsEligible(x: CategorySummary) {
    x.cluesCount > MoreCluesThan
  }

  /** `response.data.filter(c => c.clues_count > 6)`. */
  function Eligible(pool: seq<CategorySummary>): (r: seq<CategorySummary>)
    ensures forall x :: x in r <==> x in pool && IsEligible(x)
    ensures forall x :: multiset(r)[x] == if IsEligible(x) then multiset(pool)[x] else 0
  {
    if pool == [] then []
    else
      assert pool == [pool[0]] + pool[1..];
      (if IsEligible(pool[0]) then [pool[0]] else []) + Eligible(pool[1..])
  }

  /** A value `Math.random()` can return. */
  predicate IsRandom(r: real) {
    0.0 <= r < 1.0
  }

  predicate AllRandom(draws: seq<real>) {
    forall i :: 0 <= i < |draws| ==> IsRandom(draws[i])
  }

  /** `Math.floor(r * len)`, the product taken exactly: an index of a non-empty pool, and 0
   *  for an empty one. */
  function RandomIndex(r: real, len: nat): (k: int)
    requires IsRandom(r)
    ensures len > 0 ==> 0 <= k < len
    ensures len == 0 ==> k == 0
  {
    assert r * len as real < len as real || len == 0 by {
      if len > 0 {
        assert (1.0 - r) * len as real > 0.0;
      }
    }
    (r * len as real).Floor
  }

  /** Every index of a pool of `len` entries is drawn by some random value. */
  lemma EveryIndexDrawable(k: nat, len: nat)
    requires k < len
    ensures IsRandom(k as real / len as real)
    ensures RandomIndex(k as real / len as real, len) == k
  {
    var q := k as real / len as real;
    assert q * len as real == k as real;
    assert q * len as real < 1.0 * len as real;
  }

  /** `k` is an index `Math.floor(Math.random() * len)` can give. */
  predicate IsDrawnIndex(k: int, len: nat) {
    if len == 0 then k == 0 else 0 <= k < len
  }

  predicate AllDrawn(ks: seq<int>, len: nat) {
    forall i :: 0 <= i < |ks| ==> IsDrawnIndex(ks[i], len)
  }

  /** The indices the loop computes from the random values `draws` for a pool of `len`. */
  function Indices(draws: seq<real>, len: nat): (ks: seq<int>)
    requires AllRandom(draws)
    ensures |ks| == |draws|
    ensures AllDrawn(ks, len)
  {
    seq(|draws|, i requires 0 <= i < |draws| => RandomIndex(draws[i], len))
  }

  /** Every sequence of indices of a non-empty pool comes from some random values. */
  lemma {:induction false} EveryIndexSequenceDrawable(ks: seq<int>, len: nat) returns (draws: seq<real>)
    requires len > 0 && AllDrawn(ks, len)
    ensures AllRandom(draws) && Indices(draws, len) == ks
  {
    draws := seq(|ks|, i requires 0 <= i < |ks| => ks[i] as real / len as real);
    forall i | 0 <= i < |ks|
      ensures IsRandom(draws[i]) && RandomIndex(draws[i], len) == ks[i]
    {
      EveryIndexDrawable(ks[i], len);
    }
  }

  /** How getCategoryIds' loop ends. */
  datatype Outcome =
    | Selected      // six ids are chosen and the loop exits
    | NoCategory    // `categClue[randomNum]` is undefined and reading its `id` throws
    | StillDrawing  // the draws given ran out while fewer than six ids are chosen

  /** The loop of getCategoryIds on the chosen ids `ids`, the pool, and the indices `ks`
   *  it draws, in order: how it ends and the ids then chosen. */
  function Select(ids: seq<int>, pool: seq<CategorySummary>, ks: seq<int>): (r: (Outcome, seq<int>))
    ensures ids <= r.1
    ensures r.0 == Selected <==> |r.1| >= TargetCount
    decreases |ks|
  {
    if |ids| >= TargetCount then (Selected, ids)
    else if ks == [] then (StillDrawing, ids)
    else if !(0 <= ks[0] < |pool|) then (NoCategory, ids)
    else
      var id := pool[ks[0]].id;
      Select(if id in ids then ids else ids + [id], pool, ks[1..])
  }

  /** The loop run by a new game on the answer `response` with the random values `draws`. */
  function NewSelection(response: seq<CategorySummary>, draws: seq<real>): (r: (Outcome, seq<int>))
    requires AllRandom(draws)
    ensures Distinct(r.1) && |r.1| <= TargetCount
    ensures r.0 == Selected <==> |r.1| == TargetCount
    ensures ChosenFrom(r.1, response)
  {
    var ks := Indices(draws, |Eligible(response)|);
    NewGameIds(response, ks);
    Select([], Eligible(response), ks)
  }

  predicate Distinct(s: seq<int>) {
    forall i, j :: 0 <= i < j < |s| ==> s[i] != s[j]
  }

  function Elements(s: seq<int>): set<int> {
    set x | x in s
  }

  function Ids(pool: seq<CategorySummary>): set<int> {
    set x | x in pool :: x.id
  }

  /** `id` is the id of a category of `response` with more than six clues. */
  predicate IsEligibleId(id: int, response: seq<CategorySummary>) {
    exists x :: x in response && IsEligible(x) && x.id == id
  }

  predicate ChosenFrom(ids: seq<int>, response: seq<CategorySummary>) {
    forall k :: 0 <= k < |ids| ==> IsEligibleId(ids[k], response)
  }

  /** The loop keeps the ids chosen so far and appends only pool ids not yet chosen. */
  lemma {:induction false} SelectAppendsNewPoolIds(ids: seq<int>, pool: seq<CategorySummary>, ks: seq<int>)
    ensures var result := Select(ids, pool, ks).1;
      ids <= result &&
      forall k :: |ids| <= k < |result| ==> result[k] in Ids(pool) && result[k] !in ids
    decreases |ks|
  {
    if |ids| < TargetCount && ks != [] {
      if 0 <= ks[0] < |pool| {
        var id := pool[ks[0]].id;
        assert id in Ids(pool);
        SelectAppendsNewPoolIds(if id in ids then ids else ids + [id], pool, ks[1..]);
      }
    }
  }

  /** The chosen ids stay pairwise different. */
  lemma {:induction false} SelectKeepsDistinct(ids: seq<int>, pool: seq<CategorySummary>, ks: seq<int>)
    requires Distinct(ids)
    ensures Distinct(Select(ids, pool, ks).1)
    decreases |ks|
  {
    if |ids| < TargetCount && ks != [] {
      if 0 <= ks[0] < |pool| {
        var id := pool[ks[0]].id;
        SelectKeepsDistinct(if id in ids then ids else ids + [id], pool, ks[1..]);
      }
    }
  }

  /** The loop exits exactly when six ids are chosen, never chooses more than six, and,
   *  on indices `Math.floor(Math.random() * n)` can give, throws exactly when it draws
   *  from an empty pool. */
  lemma {:induction false} SelectOutcome(ids: seq<int>, pool: seq<CategorySummary>, ks: seq<int>)
    ensures var (outcome, result) := Select(ids, pool, ks);
      (|ids| <= TargetCount ==> |result| <= TargetCount) &&
      (outcome == Selected <==> |result| >= TargetCount) &&
      (outcome == NoCategory ==> |ids| < TargetCount && ks != []) &&
      (AllDrawn(ks, |pool|) ==> (outcome == NoCategory <==> pool == [] && |ids| < TargetCount && ks != []))
    decreases |ks|
  {
    if |ids| < TargetCount && ks != [] {
      if 0 <= ks[0] < |pool| {
        var id := pool[ks[0]].id;
        SelectOutcome(if id in ids then ids else ids + [id], pool, ks[1..]);
      }
    }
  }

  /** A distinct sequence drawn from `s` has no more elements than `s`. */
  lemma {:induction false} DistinctWithin(ids: seq<int>, s: set<int>)
    requires Distinct(ids)
    requires forall k :: 0 <= k < |ids| ==> ids[k] in s
    ensures |ids| <= |s|
  {
    if ids != [] {
      var last := ids[|ids| - 1];
      DistinctWithin(ids[..|ids| - 1], s - {last});
    }
  }

  lemma {:induction false} DistinctElementsCount(ids: seq<int>)
    requires Distinct(ids)
    ensures |Elements(ids)| == |ids|
  {
    if ids != [] {
      var init := ids[..|ids| - 1];
      DistinctElementsCount(init);
      assert Elements(ids) == Elements(init) + {ids[|ids| - 1]};
    }
  }

  /** A pool with fewer than six different ids never lets the loop exit: whatever the
   *  indices drawn, it throws (empty pool) or is still drawing. */
  lemma SmallPoolNeverSelects(ids: seq<int>, pool: seq<CategorySummary>, ks: seq<int>)
    requires Distinct(ids) && forall k :: 0 <= k < |ids| ==> ids[k] in Ids(pool)
    requires |Ids(pool)| < TargetCount
    ensures Select(ids, pool, ks).0 != Selected
  {
    SelectAppendsNewPoolIds(ids, pool, ks);
    SelectKeepsDistinct(ids, pool, ks);
    SelectOutcome(ids, pool, ks);
    DistinctWithin(Select(ids, pool, ks).1, Ids(pool));
  }

  /** A pool with at least six different ids can always be finished: some indices make
   *  the loop exit. */
  lemma {:induction false} LargePoolCanSelect(ids: seq<int>, pool: seq<CategorySummary>) returns (ks: seq<int>)
    requires Distinct(ids) && |ids| <= TargetCount
    requires forall k :: 0 <= k < |ids| ==> ids[k] in Ids(pool)
    requires |Ids(pool)| >= TargetCount
    ensures AllDrawn(ks, |pool|)
    ensures Select(ids, pool, ks).0 == Selected
    decreases TargetCount - |ids|
  {
    if |ids| == TargetCount {
      ks := [];
    } else {
      DistinctElementsCount(ids);
      var missing := Ids(pool) - Elements(ids);
      assert missing != {} by {
        if missing == {} {
          forall x | x in Ids(pool) ensures x in Elements(ids) {
            assert x !in missing;
          }
          SubsetCount(Ids(pool), Elements(ids));
        }
      }
      var id :| id in missing;
      var k :| 0 <= k < |pool| && pool[k].id == id;
      var rest := LargePoolCanSelect(ids + [id], pool);
      ks := [k] + rest;
      assert ks[1..] == rest;
    }
  }

  /** A new game whose answer has at least six different eligible ids can be finished:
   *  some values of `Math.random()` make the loop exit. */
  lemma NewGameCanFinish(response: seq<CategorySummary>) returns (draws: seq<real>)
    requires |Ids(Eligible(response))| >= TargetCount
    ensures AllRandom(draws) && NewSelection(response, draws).0 == Selected
  {
    var ks := LargePoolCanSelect([], Eligible(response));
    draws := EveryIndexSequenceDrawable(ks, |Eligible(response)|);
  }

  lemma SubsetCount(a: set<int>, b: set<int>)
    requires a <= b
    ensures |a| <= |b|
  {
    assert b == a + (b - a);
  }

  /** With at most six different eligible ids, a new game that leaves the loop has chosen
   *  every one of them. */
  lemma SixEligibleAllChosen(pool: seq<CategorySummary>, ks: seq<int>)
    requires |Ids(pool)| <= TargetCount
    ensures Select([], pool, ks).0 == Selected ==> Elements(Select([], pool, ks).1) == Ids(pool)
  {
    var result := Select([], pool, ks).1;
    if Select([], pool, ks).0 == Selected {
      SelectAppendsNewPoolIds([], pool, ks);
      SelectKeepsDistinct([], pool, ks);
      SelectOutcome([], pool, ks);
      DistinctElementsCount(result);
      assert Elements(result) <= Ids(pool) by {
        forall x | x in Elements(result) ensures x in Ids(pool) {
          var k :| 0 <= k < |result| && result[k] == x;
        }
      }
      SubsetOfSameSize(Elements(result), Ids(pool));
    }
  }

  lemma SubsetOfSameSize(a: set<int>, b: set<int>)
    requires a <= b && |b| <= |a|
    ensures a == b
  {
    SubsetCount(b - a, b);
    assert b == a + (b - a);
  }

  /** Ids of the filtered answer belong to categories of the answer with more than six
   *  clues. */
  lemma PoolIdsChosenFrom(ids: seq<int>, response: seq<CategorySummary>)
    requires forall k :: 0 <= k < |ids| ==> ids[k] in Ids(Eligible(response))
    ensures ChosenFrom(ids, response)
  {
    forall k | 0 <= k < |ids|
      ensures IsEligibleId(ids[k], response)
    {
      assert ids[k] in Ids(Eligible(response));
      var x :| x in Eligible(response) && x.id == ids[k];
      assert x in response && IsEligible(x);
    }
  }

  /** The ids a new game chooses (the loop starting from no ids): pairwise different, at
   *  most six, exactly six when the loop exits, and each the id of a category of the
   *  response with more than six clues. */
  lemma NewGameIds(response: seq<CategorySummary>, ks: seq<int>)
    ensures var (outcome, ids) := Select([], Eligible(response), ks);
      Distinct(ids) && |ids| <= TargetCount &&
      (outcome == Selected <==> |ids| == TargetCount) &&
      ChosenFrom(ids, response)
  {
    var pool := Eligible(response);
    SelectAppendsNewPoolIds([], pool, ks);
    SelectKeepsDistinct([], pool, ks);
    SelectOutcome([], pool, ks);
    PoolIdsChosenFrom(Select([], pool, ks).1, response);
  }
}
