/** The in-memory board: categories of clues, the per-clue `show` field that a click
 *  advances, the projection of the clues a category request returns, the five-clue
 *  sample, and the 6 x 5 table `fillTable` lays out.
 */
module Board {
  import opened CellIds

  const NumCategories := 6
  const CluesPerCategory := 5

  function Min(a: nat, b: nat): nat {
    if a <= b then a else b
  }

  /** The value of a clue's `show` property: `null` or a string. */
  datatype Show = Null | Text(s: string)

  /** JavaScript's `!show`: `null` and the empty string are falsy. */
  predicate Falsy(v: Show) {
    v == Null || v == Text("")
  }

  datatype Clue = Clue(question: string, answer: string, show: Show)

  datatype Category = Category(title: string, clues: seq<Clue>)

  /** A clue as the category request returns it (fields other than these are dropped). */
  datatype RawClue = RawClue(question: string, answer: string)

  /** The body of the category request: its title and all of its clues. */
  datatype CategoryResponse = CategoryResponse(title: string, clues: seq<RawClue>)

  /** What a click makes visible in the cell. */
  datatype Effect =
    | ShowQuestion  // hide the '?', show the question, hide the answer, colour orange
    | ShowAnswer    // hide the '?' and the question, show the answer, colour green
    | Ignored       // the handler returns without touching anything

  // ---------------------------------------------------------------------------
  // The click transition of handleClick

  /** The new value of `show` and the visible effect of one click on a clue whose
   *  `show` is `s`. A click stores "question" on an unrevealed clue and otherwise leaves
   *  `show` as it was; in particular it never stores "answer". */
  function Click(s: Show): (r: (Show, Effect))
    ensures Falsy(s) ==> r.0 == Text("question")
    ensures !Falsy(s) ==> r.0 == s
    ensures r.0 == Text("answer") ==> s == Text("answer")
    ensures r.1 == ShowQuestion <==> Falsy(s)
    ensures r.1 == ShowAnswer <==> s == Text("question")
  {
    if Falsy(s) then (Text("question"), ShowQuestion)
    else if s == Text("question") then (s, ShowAnswer)
    else (s, Ignored)
  }

  /** The stored value and the effects of `n` clicks in a row on one clue. */
  function Replay(s: Show, n: nat): (Show, seq<Effect>)
    decreases n
  {
    if n == 0 then (s, [])
    else
      var (s', e) := Click(s);
      var (last, rest) := Replay(s', n - 1);
      (last, [e] + rest)
  }

  lemma {:induction false} ReplayFromQuestion(n: nat)
    ensures Replay(Text("question"), n).0 == Text("question")
    ensures |Replay(Text("question"), n).1| == n
    ensures forall k :: 0 <= k < n ==> Replay(Text("question"), n).1[k] == ShowAnswer
  {
    if n > 0 {
      ReplayFromQuestion(n - 1);
      assert Click(Text("question")) == (Text("question"), ShowAnswer);
    }
  }

  /** Clicking an unrevealed clue `n` times shows the question once and then the answer on
   *  every later click; the stored value stays "question", so no click is ever ignored. */
  lemma {:induction false} RepeatedClicks(s: Show, n: nat)
    requires Falsy(s) && n >= 1
    ensures Replay(s, n).0 == Text("question")
    ensures |Replay(s, n).1| == n && Replay(s, n).1[0] == ShowQuestion
    ensures forall k :: 1 <= k < n ==> Replay(s, n).1[k] == ShowAnswer
  {
    ReplayFromQuestion(n - 1);
    assert Click(s) == (Text("question"), ShowQuestion);
  }

  /** A clue is never recorded as showing its answer. */
  predicate NoAnswerStored(categories: seq<Category>) {
    forall t, c :: 0 <= t < |categories| && 0 <= c < |categories[t].clues| ==>
      categories[t].clues[c].show in {Null, Text("question")}
  }

  predicate AllHidden(categories: seq<Category>) {
    forall t, c :: 0 <= t < |categories| && 0 <= c < |categories[t].clues| ==>
      categories[t].clues[c].show == Null
  }

  // ---------------------------------------------------------------------------
  // Building a category: projection and sample

  /** The `{question, answer, show: null}` object made from one raw clue. */
  function Fresh(raw: RawClue): Clue {
    Clue(raw.question, raw.answer, Null)
  }

  /** The projection loop of getCategory: one fresh clue per raw clue, in order. */
  method ProjectClues(clues: seq<RawClue>) returns (cluesArray: seq<Clue>)
    ensures |cluesArray| == |clues|
    ensures forall k :: 0 <= k < |clues| ==>
      cluesArray[k].question == clues[k].question &&
      cluesArray[k].answer == clues[k].answer &&
      cluesArray[k].show == Null
  {
    cluesArray := [];
    for i := 0 to |clues|
      invariant |cluesArray| == i
      invariant forall k :: 0 <= k < i ==> cluesArray[k] == Fresh(clues[k])
    {
      cluesArray := cluesArray + [Fresh(clues[i])];
    }
  }

  /** What lodash's `_.sampleSize(array, n)` is known to return: `picks` lists the
   *  positions it took, all different and in range, as many as `n` or as the array has. */
  predicate IsDraw(picks: seq<nat>, len: nat, n: nat) {
    |picks| == Min(n, len) &&
    (forall k :: 0 <= k < |picks| ==> picks[k] < len) &&
    (forall j, k :: 0 <= j < k < |picks| ==> picks[j] != picks[k])
  }

  function Pick<T>(arr: seq<T>, picks: seq<nat>): seq<T>
    requires forall k :: 0 <= k < |picks| ==> picks[k] < |arr|
  {
    seq(|picks|, k requires 0 <= k < |picks| => arr[picks[k]])
  }

  /** Taking distinct positions takes each element at most as often as it occurs. */
  lemma {:induction false} PickDistinctIsSubMultiset<T>(arr: seq<T>, picks: seq<nat>)
    requires forall k :: 0 <= k < |picks| ==> picks[k] < |arr|
    requires forall j, k :: 0 <= j < k < |picks| ==> picks[j] != picks[k]
    ensures multiset(Pick(arr, picks)) <= multiset(arr)
    decreases |picks|
  {
    if picks != [] {
      var n := |picks| - 1;
      var p := picks[n];
      var rest := arr[..p] + arr[p + 1..];
      var adj := seq(n, k requires 0 <= k < n => if picks[k] < p then picks[k] else picks[k] - 1);
      forall j, k | 0 <= j < k < n ensures adj[j] != adj[k] {
        assert picks[j] != picks[k] && picks[j] != p && picks[k] != p;
      }
      PickDistinctIsSubMultiset(rest, adj);
      assert Pick(arr, picks) == Pick(rest, adj) + [arr[p]];
      assert arr == arr[..p] + [arr[p]] + arr[p + 1..];
      calc {
        multiset(Pick(arr, picks));
        multiset(Pick(rest, adj)) + multiset{arr[p]};
      <= multiset(rest) + multiset{arr[p]};
        multiset(arr[..p]) + multiset(arr[p + 1..]) + multiset{arr[p]};
        multiset(arr);
      }
    }
  }

  /** `_.sampleSize(arr, n)`: `min(n, |arr|)` elements of `arr`, none taken twice. */
  function SampleSize<T>(arr: seq<T>, n: nat, picks: seq<nat>): (sample: seq<T>)
    requires IsDraw(picks, |arr|, n)
    ensures |sample| == Min(n, |arr|)
    ensures multiset(sample) <= multiset(arr)
    ensures forall k :: 0 <= k < |sample| ==> sample[k] == arr[picks[k]]
  {
    PickDistinctIsSubMultiset(arr, picks);
    Pick(arr, picks)
  }

  /** `cat` is what getCategory returns for `resp` when the sample took `picks`. */
  predicate BuiltFrom(cat: Category, resp: CategoryResponse, picks: seq<nat>) {
    (forall k :: 0 <= k < |picks| ==> picks[k] < |resp.clues|) &&
    cat.title == resp.title &&
    |cat.clues| == |picks| &&
    forall k :: 0 <= k < |picks| ==> cat.clues[k] == Fresh(resp.clues[picks[k]])
  }

  /** getCategory, once the request has answered `resp` (line 68 is I/O). */
  method GetCategory(resp: CategoryResponse, picks: seq<nat>) returns (cat: Category)
    requires IsDraw(picks, |resp.clues|, CluesPerCategory)
    ensures BuiltFrom(cat, resp, picks)
    ensures cat.title == resp.title
    ensures |cat.clues| == Min(CluesPerCategory, |resp.clues|)
    ensures forall k :: 0 <= k < |cat.clues| ==> cat.clues[k].show == Null
  {
    var cluesArray := ProjectClues(resp.clues);
    var fiveCluesArray := SampleSize(cluesArray, CluesPerCategory, picks);
    cat := Category(resp.title, fiveCluesArray);
  }

  /** A built category holds unrevealed copies of clues of the response, none twice. */
  lemma {:induction false} BuiltFromResponse(cat: Category, resp: CategoryResponse, picks: seq<nat>)
    requires IsDraw(picks, |resp.clues|, CluesPerCategory)
    requires BuiltFrom(cat, resp, picks)
    ensures |cat.clues| == Min(CluesPerCategory, |resp.clues|)
    ensures multiset(cat.clues) <= multiset(seq(|resp.clues|, k requires 0 <= k < |resp.clues| => Fresh(resp.clues[k])))
    ensures AllHidden([cat])
  {
    var projected := seq(|resp.clues|, k requires 0 <= k < |resp.clues| => Fresh(resp.clues[k]));
    assert cat.clues == Pick(projected, picks);
    PickDistinctIsSubMultiset(projected, picks);
  }

  // ---------------------------------------------------------------------------
  // The table of fillTable

  /** One `<td>`: its id and the question and answer it holds. */
  datatype Cell = Cell(id: string, question: string, answer: string)

  /** The header titles and the rows (one per clue index, one cell per category). */
  datatype Table = Table(head: seq<string>, rows: seq<seq<Cell>>)

  datatype Rendered = Rendered(table: Table) | RenderTypeError

  /** The board has the shape fillTable indexes into: 6 categories of at least 5 clues. */
  predicate HasBoardShape(categories: seq<Category>) {
    |categories| >= NumCategories &&
    forall t :: 0 <= t < NumCategories ==> |categories[t].clues| >= CluesPerCategory
  }

  /** fillTable without the DOM: reading a title or a clue that is not there throws. */
  function FillTable(categories: seq<Category>): (r: Rendered)
    ensures r.Rendered? <==> HasBoardShape(categories)
    ensures r.Rendered? ==>
      |r.table.head| == NumCategories && |r.table.rows| == CluesPerCategory &&
      (forall t :: 0 <= t < NumCategories ==> r.table.head[t] == categories[t].title) &&
      forall c :: 0 <= c < CluesPerCategory ==> |r.table.rows[c]| == NumCategories
  {
    if HasBoardShape(categories) then
      Rendered(Table(
        seq(NumCategories, t requires 0 <= t < NumCategories => categories[t].title),
        seq(CluesPerCategory, c requires 0 <= c < CluesPerCategory =>
          seq(NumCategories, t requires 0 <= t < NumCategories =>
            Cell(EncodeCellId(t, c), categories[t].clues[c].question, categories[t].clues[c].answer)))))
    else RenderTypeError
  }

  /** Every rendered cell holds its clue, and its id decodes to that clue's address. */
  lemma RenderedCellsAddressTheirClue(categories: seq<Category>, t: nat, c: nat)
    requires FillTable(categories).Rendered?
    requires t < NumCategories && c < CluesPerCategory
    ensures var cell := FillTable(categories).table.rows[c][t];
      DecodeCellId(cell.id) == (Int(t), Int(c)) &&
      cell.question == categories[t].clues[c].question &&
      cell.answer == categories[t].clues[c].answer
  {
    BoardCellsRoundTrip(t, c);
  }
}
