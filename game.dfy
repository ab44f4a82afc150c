/** The game's global state and the handlers that change it: the chosen category ids,
 *  the categories of the board, the click handler and the start / restart sequence.
 */
module Jeopardy {
  import opened CellIds
  import opened Board
  import opened Selection

  /** What handleClick does: a visible effect, or a TypeError when the decoded address
   *  names no clue of the board. */
  datatype ClickResult = Handled(effect: Effect) | ClickTypeError

  /** How setupAndStart ends. */
  datatype StartResult =
    | Started(rendered: Rendered)     // every category was built and fillTable ran
    | SelectionFailed(outcome: Outcome) // getCategoryIds threw or has not left its loop
    | FetchFailed(id: int)            // the category request for `id` failed

  /** How the loop over the chosen ids ends. */
  datatype Fetch = Fetched | Failed(id: int)

  /** The decoded pair `tc` is the address of a clue on the board. */
  predicate Addresses(categories: seq<Category>, tc: (Num, Num)) {
    tc.0.Int? && tc.1.Int? &&
    0 <= tc.0.n < |categories| && 0 <= tc.1.n < |categories[tc.0.n].clues|
  }

  /** Every category the request answers for comes with the positions its sample takes. */
  predicate Catalogued(catalog: map<int, CategoryResponse>, picks: map<int, seq<nat>>) {
    forall id :: id in catalog ==> id in picks && IsDraw(picks[id], |catalog[id].clues|, CluesPerCategory)
  }

  /** `categories[i]` is the category built for `ids[i]`, for every category there is. */
  predicate BuiltInOrder(categories: seq<Category>, ids: seq<int>,
                         catalog: map<int, CategoryResponse>, picks: map<int, seq<nat>>) {
    |categories| <= |ids| &&
    forall i :: 0 <= i < |categories| ==>
      ids[i] in catalog && ids[i] in picks && BuiltFrom(categories[i], catalog[ids[i]], picks[ids[i]])
  }

  /** Categories built from the answers hold only clues that are not yet revealed. */
  lemma BuiltAreHidden(categories: seq<Category>, ids: seq<int>,
                       catalog: map<int, CategoryResponse>, picks: map<int, seq<nat>>)
    requires BuiltInOrder(categories, ids, catalog, picks)
    ensures AllHidden(categories)
  {
  }

  /** Six categories built from the answers for six ids have the shape fillTable reads
   *  exactly when every one of those answers has at least five clues. */
  lemma BuiltBoardShape(categories: seq<Category>, ids: seq<int>,
                        catalog: map<int, CategoryResponse>, picks: map<int, seq<nat>>)
    requires Catalogued(catalog, picks)
    requires |categories| == |ids| == NumCategories
    requires BuiltInOrder(categories, ids, catalog, picks)
    ensures HasBoardShape(categories) <==>
      forall i :: 0 <= i < NumCategories ==> |catalog[ids[i]].clues| >= CluesPerCategory
  {
    forall i | 0 <= i < NumCategories
      ensures |categories[i].clues| == Min(CluesPerCategory, |catalog[ids[i]].clues|)
    {
      var id := ids[i];
      assert id in catalog;
      assert IsDraw(picks[id], |catalog[id].clues|, CluesPerCategory);
      BuiltFromResponse(categories[i], catalog[ids[i]], picks[ids[i]]);
    }
  }

  class Game {
    /** The board: one category per chosen id, in the order of the ids. */
    var categories: seq<Category>
    /** The chosen category ids. */
    var categoryIds: seq<int>

    constructor ()
      ensures categories == [] && categoryIds == []
    {
      categories := [];
      categoryIds := [];
    }

    /** getCategoryIds once the categories request has answered `response`; `draws` are the
     *  values `Math.random()` returns, one per round of the loop. */
    method GetCategoryIds(response: seq<CategorySummary>, draws: seq<real>) returns (outcome: Outcome)
      requires AllRandom(draws)
      modifies this`categoryIds
      ensures (outcome, categoryIds) ==
        Select(old(categoryIds), Eligible(response), Indices(draws, |Eligible(response)|))
      ensures old(categoryIds) <= categoryIds
      ensures forall k :: |old(categoryIds)| <= k < |categoryIds| ==>
        categoryIds[k] !in old(categoryIds) && IsEligibleId(categoryIds[k], response)
      ensures Distinct(old(categoryIds)) ==> Distinct(categoryIds)
      ensures |old(categoryIds)| <= TargetCount ==> |categoryIds| <= TargetCount
      ensures outcome == Selected <==> |categoryIds| >= TargetCount
      ensures outcome == NoCategory <==>
        Eligible(response) == [] && |old(categoryIds)| < TargetCount && draws != []
    {
      var categClue := Eligible(response);
      var ks := Indices(draws, |categClue|);
      SelectAppendsNewPoolIds(categoryIds, categClue, ks);
      if Distinct(categoryIds) {
        SelectKeepsDistinct(categoryIds, categClue, ks);
      }
      SelectOutcome(categoryIds, categClue, ks);
      var i := 0;
      while |categoryIds| < TargetCount && i < |draws|
        invariant 0 <= i <= |draws|
        invariant Select(old(categoryIds), categClue, ks) == Select(categoryIds, categClue, ks[i..])
        decreases |draws| - i
      {
        var randomNum := RandomIndex(draws[i], |categClue|);
        assert randomNum == ks[i];
        if randomNum >= |categClue| {
          // `categClue[randomNum]` is undefined and reading its `id` throws
          return NoCategory;
        }
        if categClue[randomNum].id !in categoryIds {
          categoryIds := categoryIds + [categClue[randomNum].id];
        }
        assert ks[i..][1..] == ks[i + 1..];
        i := i + 1;
      }
      outcome := if |categoryIds| >= TargetCount then Selected else StillDrawing;
    }

    /** handleClick on the cell whose DOM id is `id`. */
    method HandleClick(id: string) returns (r: ClickResult)
      modifies this`categories
      ensures !Addresses(old(categories), DecodeCellId(id)) ==>
        r == ClickTypeError && categories == old(categories)
      ensures Addresses(old(categories), DecodeCellId(id)) ==>
        var t, c := DecodeCellId(id).0.n, DecodeCellId(id).1.n;
        var clue := old(categories)[t].clues[c];
        r == Handled(Click(clue.show).1) &&
        |categories| == |old(categories)| &&
        (forall u :: 0 <= u < |categories| ==>
          categories[u].title == old(categories)[u].title &&
          |categories[u].clues| == |old(categories)[u].clues|) &&
        (forall u, k :: 0 <= u < |categories| && 0 <= k < |categories[u].clues| && (u, k) != (t, c) ==>
          categories[u].clues[k] == old(categories)[u].clues[k]) &&
        categories[t].clues[c] == clue.(show := Click(clue.show).0)
      ensures NoAnswerStored(old(categories)) ==> NoAnswerStored(categories)
    {
      var tc := DecodeCellId(id);
      if !Addresses(categories, tc) {
        // `categories[t]` or `categories[t].clues[c]` is undefined: reading a property throws
        return ClickTypeError;
      }
      var t, c := tc.0.n, tc.1.n;
      var clue := categories[t].clues[c];
      if Falsy(clue.show) {
        var clues := categories[t].clues[c := clue.(show := Text("question"))];
        categories := categories[t := categories[t].(clues := clues)];
        r := Handled(ShowQuestion);
      } else if clue.show == Text("question") {
        r := Handled(ShowAnswer);
      } else {
        r := Handled(Ignored);
      }
    }

    /** The loop of setupAndStart (lines 231-235): build the category of each id in turn
     *  and push it onto `categories`, which the reset before it has emptied. */
    method FetchCategories(ids: seq<int>, catalog: map<int, CategoryResponse>, picks: map<int, seq<nat>>)
      returns (f: Fetch)
      requires Catalogued(catalog, picks)
      requires categories == []
      modifies this`categories
      ensures BuiltInOrder(categories, ids, catalog, picks)
      ensures AllHidden(categories)
      ensures f == Fetched <==> |categories| == |ids|
      ensures f.Failed? ==> |categories| < |ids| && f.id == ids[|categories|] && f.id !in catalog
    {
      for i := 0 to |ids|
        invariant |categories| == i
        invariant BuiltInOrder(categories, ids, catalog, picks)
      {
        var id := ids[i];
        if id !in catalog {
          // the awaited request rejects and the rest of setupAndStart does not run
          BuiltAreHidden(categories, ids, catalog, picks);
          return Failed(id);
        }
        assert id in picks && IsDraw(picks[id], |catalog[id].clues|, CluesPerCategory);
        var obj := GetCategory(catalog[id], picks[id]);
        categories := categories + [obj];
      }
      BuiltAreHidden(categories, ids, catalog, picks);
      f := Fetched;
    }

    /** setupAndStart: reset the globals, choose the ids, build one category per id in
     *  order, then lay out the table. `response`, `catalog` and `picks` stand for the two
     *  requests and the sample; `draws` for `Math.random()`. */
    method SetupAndStart(response: seq<CategorySummary>, draws: seq<real>,
                         catalog: map<int, CategoryResponse>, picks: map<int, seq<nat>>)
      returns (r: StartResult)
      requires AllRandom(draws)
      requires Catalogued(catalog, picks)
      modifies this
      ensures categoryIds == NewSelection(response, draws).1
      ensures r.SelectionFailed? <==> NewSelection(response, draws).0 != Selected
      ensures r.SelectionFailed? ==> categories == [] && r.outcome == NewSelection(response, draws).0
      ensures BuiltInOrder(categories, categoryIds, catalog, picks)
      ensures AllHidden(categories)
      ensures r.FetchFailed? ==>
        |categories| < |categoryIds| && r.id == categoryIds[|categories|] && r.id !in catalog
      ensures r.Started? ==>
        |categories| == |categoryIds| == TargetCount && r.rendered == FillTable(categories) &&
        (r.rendered.Rendered? <==>
          forall i :: 0 <= i < TargetCount ==> |catalog[categoryIds[i]].clues| >= CluesPerCategory)
    {
      categories := [];
      categoryIds := [];
      var outcome := GetCategoryIds(response, draws);
      if outcome != Selected {
        return SelectionFailed(outcome);
      }
      var fetched := FetchCategories(categoryIds, catalog, picks);
      if fetched.Failed? {
        return FetchFailed(fetched.id);
      }
      BuiltBoardShape(categories, categoryIds, catalog, picks);
      r := Started(FillTable(categories));
    }
  }
}
