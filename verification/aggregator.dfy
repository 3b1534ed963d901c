/** The part of `autocomplete` (search.js) that runs once both lookups have
    answered: score every fetched document, sort by weight (highest first,
    stable), keep the first `MAX_RESULTS`, and project each survivor to the
    shape the client receives, with its name highlighted.

    The fetched documents are an input: the lookups themselves are database
    queries run in parallel. */
module Aggregator {
  import opened Text
  import opened Entities
  import opened Scorer
  import opened Highlighter

  const MAX_RESULTS: nat := 8

  /** `{ weight: weight(doc, query), model: doc }`. */
  datatype Scored = Scored(weight: int, doc: Candidate)

  /** One entry of the list passed to the callback. */
  datatype Result = Result(desc: string, name: string, position: nat, model: ModelName, url: string, weight: int)

  function Min(a: int, b: int): int {
    if a <= b then a else b
  }

  /** The pushes of both lookup callbacks, in the order given. */
  function ScoreAll(found: seq<Candidate>, query: string): (r: seq<Scored>)
    ensures |r| == |found|
    ensures forall j :: 0 <= j < |found| ==> r[j].doc == found[j] && r[j].weight == Weight(found[j], query)
  {
    seq(|found|, j requires 0 <= j < |found| => Scored(Weight(found[j], query), found[j]))
  }

  predicate NonIncreasing(xs: seq<Scored>) {
    forall i, j :: 0 <= i < j < |xs| ==> xs[i].weight >= xs[j].weight
  }

  /** The entries of `xs` that have weight `w`, in their order in `xs`. A sort
      is stable exactly when it keeps every one of these lists unchanged. */
  function WithWeight(xs: seq<Scored>, w: int): seq<Scored> {
    if xs == [] then [] else (if xs[0].weight == w then [xs[0]] else []) + WithWeight(xs[1..], w)
  }

  lemma {:induction false} WithWeightAppend(a: seq<Scored>, b: seq<Scored>, w: int)
    ensures WithWeight(a + b, w) == WithWeight(a, w) + WithWeight(b, w)
    decreases |a|
  {
    if a == [] {
      assert a + b == b;
    } else {
      var ab := a + b;
      assert ab[0] == a[0] && ab[1..] == a[1..] + b;
      var head := if a[0].weight == w then [a[0]] else [];
      assert WithWeight(ab, w) == head + WithWeight(a[1..] + b, w);
      WithWeightAppend(a[1..], b, w);
      assert WithWeight(a, w) == head + WithWeight(a[1..], w);
    }
  }

  /** Puts `x` in front of the first entry that does not outweigh it: an entry
      inserted this way stays ahead of the equal-weight entries that came
      after it in the input. */
  function Insert(x: Scored, xs: seq<Scored>): (r: seq<Scored>)
    requires NonIncreasing(xs)
    ensures NonIncreasing(r)
    ensures multiset(r) == multiset{x} + multiset(xs)
    ensures forall w :: WithWeight(r, w) == (if x.weight == w then [x] else []) + WithWeight(xs, w)
  {
    if xs == [] || xs[0].weight <= x.weight then
      InsertFront(x, xs);
      [x] + xs
    else
      var tail := Insert(x, xs[1..]);
      InsertBehind(x, xs, tail);
      [xs[0]] + tail
  }

  lemma InsertFront(x: Scored, xs: seq<Scored>)
    requires NonIncreasing(xs)
    requires xs == [] || xs[0].weight <= x.weight
    ensures NonIncreasing([x] + xs)
    ensures forall w :: WithWeight([x] + xs, w) == (if x.weight == w then [x] else []) + WithWeight(xs, w)
  {
    assert ([x] + xs)[1..] == xs;
  }

  lemma InsertBehind(x: Scored, xs: seq<Scored>, tail: seq<Scored>)
    requires NonIncreasing(xs) && xs != [] && xs[0].weight > x.weight
    requires NonIncreasing(tail)
    requires multiset(tail) == multiset{x} + multiset(xs[1..])
    requires forall w :: WithWeight(tail, w) == (if x.weight == w then [x] else []) + WithWeight(xs[1..], w)
    ensures NonIncreasing([xs[0]] + tail)
    ensures multiset([xs[0]] + tail) == multiset{x} + multiset(xs)
    ensures forall w :: WithWeight([xs[0]] + tail, w) == (if x.weight == w then [x] else []) + WithWeight(xs, w)
  {
    assert xs == [xs[0]] + xs[1..];
    InsertBehindOrder(x, xs, tail);
    forall w ensures WithWeight([xs[0]] + tail, w) == (if x.weight == w then [x] else []) + WithWeight(xs, w) {
      InsertBehindClass(x, xs, tail, w);
    }
  }

  lemma InsertBehindOrder(x: Scored, xs: seq<Scored>, tail: seq<Scored>)
    requires NonIncreasing(xs) && xs != [] && xs[0].weight > x.weight
    requires NonIncreasing(tail)
    requires multiset(tail) == multiset{x} + multiset(xs[1..])
    ensures NonIncreasing([xs[0]] + tail)
  {
    var r := [xs[0]] + tail;
    forall j | 0 <= j < |tail| ensures xs[0].weight >= tail[j].weight {
      assert tail[j] in multiset(tail);
      if tail[j] != x {
        assert tail[j] in multiset(xs[1..]);
        var k :| 0 <= k < |xs[1..]| && xs[1..][k] == tail[j];
        assert xs[k + 1] == tail[j];
      }
    }
    forall i, j | 0 <= i < j < |r| ensures r[i].weight >= r[j].weight {
      if i > 0 {
        assert r[i] == tail[i - 1] && r[j] == tail[j - 1];
      } else {
        assert r[j] == tail[j - 1];
      }
    }
  }

  lemma InsertBehindClass(x: Scored, xs: seq<Scored>, tail: seq<Scored>, w: int)
    requires xs != [] && xs[0].weight > x.weight
    requires WithWeight(tail, w) == (if x.weight == w then [x] else []) + WithWeight(xs[1..], w)
    ensures WithWeight([xs[0]] + tail, w) == (if x.weight == w then [x] else []) + WithWeight(xs, w)
  {
    var t := [xs[0]] + tail;
    assert t[0] == xs[0] && t[1..] == tail;
    if xs[0].weight == w {
      assert WithWeight(t, w) == [xs[0]] + WithWeight(tail, w);
      assert WithWeight(tail, w) == WithWeight(xs[1..], w);
    } else {
      assert WithWeight(t, w) == WithWeight(tail, w);
      assert WithWeight(xs, w) == WithWeight(xs[1..], w);
    }
  }

  /** `_.sortBy(results, function (result) { return -1 * result.weight })`:
      heaviest first, a permutation of the input, and stable. */
  function SortByWeight(xs: seq<Scored>): (r: seq<Scored>)
    ensures NonIncreasing(r)
    ensures multiset(r) == multiset(xs)
    ensures forall w :: WithWeight(r, w) == WithWeight(xs, w)
  {
    if xs == [] then []
    else
      assert xs == [xs[0]] + xs[1..];
      Insert(xs[0], SortByWeight(xs[1..]))
  }

  /** The first entry of a non-increasing list is the first entry of its own
      weight class. */
  lemma HeadLeadsItsWeight(a: seq<Scored>)
    requires a != []
    ensures WithWeight(a, a[0].weight) == [a[0]] + WithWeight(a[1..], a[0].weight)
  {
  }

  lemma {:induction false} InWithWeight(a: seq<Scored>, w: int, k: nat)
    requires k < |a| && a[k].weight == w
    ensures WithWeight(a, w) != []
    decreases k
  {
    if k > 0 {
      InWithWeight(a[1..], w, k - 1);
    }
  }

  lemma SomeClassNonEmpty(a: seq<Scored>)
    ensures a != [] ==> WithWeight(a, a[0].weight) != []
  {
    if a != [] {
      InWithWeight(a, a[0].weight, 0);
    }
  }

  lemma {:induction false} WithWeightMembers(a: seq<Scored>, w: int, x: Scored)
    requires x in WithWeight(a, w)
    ensures x in a && x.weight == w
    decreases |a|
  {
    if a != [] {
      if x != a[0] || a[0].weight != w {
        WithWeightMembers(a[1..], w, x);
      }
    }
  }

  /** A stable sort by weight has only one possible answer: two non-increasing
      lists with the same entries in every weight class are equal. So
      `SortByWeight` is the result of any stable descending sort. */
  lemma {:induction false} StableSortIsUnique(a: seq<Scored>, b: seq<Scored>)
    requires NonIncreasing(a) && NonIncreasing(b)
    requires forall w :: WithWeight(a, w) == WithWeight(b, w)
    ensures a == b
    decreases |a|
  {
    if a == [] || b == [] {
      SomeClassNonEmpty(a);
      SomeClassNonEmpty(b);
    } else {
      SameHead(a, b);
      TailsAgree(a, b);
      StableSortIsUnique(a[1..], b[1..]);
    }
  }

  /** Two non-empty non-increasing lists with the same weight classes start
      with the same entry. */
  lemma SameHead(a: seq<Scored>, b: seq<Scored>)
    requires a != [] && b != []
    requires NonIncreasing(a) && NonIncreasing(b)
    requires forall w :: WithWeight(a, w) == WithWeight(b, w)
    ensures a[0] == b[0]
  {
    HeadLeadsItsWeight(a);
    HeadLeadsItsWeight(b);
    assert a[0] in WithWeight(b, a[0].weight);
    WithWeightMembers(b, a[0].weight, a[0]);
    assert b[0] in WithWeight(a, b[0].weight);
    WithWeightMembers(a, b[0].weight, b[0]);
    var top := a[0].weight;
    assert top == b[0].weight by {
      var i :| 0 <= i < |b| && b[i] == a[0];
      var j :| 0 <= j < |a| && a[j] == b[0];
    }
    assert WithWeight(a, top) == WithWeight(b, top);
    assert a[0] == WithWeight(a, top)[0] == WithWeight(b, top)[0] == b[0];
  }

  /** Removing the same first entry from both lists keeps their weight
      classes equal. */
  lemma TailsAgree(a: seq<Scored>, b: seq<Scored>)
    requires a != [] && b != [] && a[0] == b[0]
    requires forall w :: WithWeight(a, w) == WithWeight(b, w)
    ensures forall w :: WithWeight(a[1..], w) == WithWeight(b[1..], w)
  {
    forall w ensures WithWeight(a[1..], w) == WithWeight(b[1..], w) {
      assert WithWeight(a, w) == WithWeight(b, w);
      if w == a[0].weight {
        assert WithWeight(a[1..], w) == WithWeight(a, w)[1..];
        assert WithWeight(b[1..], w) == WithWeight(b, w)[1..];
      } else {
        assert WithWeight(a, w) == WithWeight(a[1..], w);
        assert WithWeight(b, w) == WithWeight(b[1..], w);
      }
    }
  }

  /** Every copy of an entry of `scored` that `r` leaves out was left out
      because `r` is full and it weighs no more than the last entry kept. */
  ghost predicate DropsOnlyLighter(scored: seq<Scored>, r: seq<Scored>) {
    forall x :: DroppedCopies(scored, r, x) > 0 ==> |r| == MAX_RESULTS && x.weight <= r[|r| - 1].weight
  }

  /** How many more copies of `x` there are in `scored` than in `r`. */
  ghost function DroppedCopies(scored: seq<Scored>, r: seq<Scored>, x: Scored): int {
    multiset(scored)[x] as int - multiset(r)[x] as int
  }

  /** `results.splice(MAX_RESULTS)` after the sort: the best `MAX_RESULTS`
      entries, in sorted order. Within a weight the kept entries are the first
      ones of the input, and nothing heavier than the last kept entry is
      dropped. */
  function TopResults(scored: seq<Scored>): (r: seq<Scored>)
    ensures |r| == Min(|scored|, MAX_RESULTS)
    ensures NonIncreasing(r)
    ensures multiset(r) <= multiset(scored)
    ensures forall w :: WithWeight(r, w) <= WithWeight(scored, w)
    ensures DropsOnlyLighter(scored, r)
  {
    var sorted := SortByWeight(scored);
    var r := sorted[..Min(|sorted|, MAX_RESULTS)];
    KeptPrefix(scored, sorted, r);
    r
  }

  /** The facts about `TopResults`, for any sorted copy of the input. */
  lemma KeptPrefix(scored: seq<Scored>, sorted: seq<Scored>, r: seq<Scored>)
    requires NonIncreasing(sorted)
    requires multiset(sorted) == multiset(scored)
    requires forall w :: WithWeight(sorted, w) == WithWeight(scored, w)
    requires r == sorted[..Min(|sorted|, MAX_RESULTS)]
    ensures |r| == Min(|scored|, MAX_RESULTS)
    ensures NonIncreasing(r)
    ensures multiset(r) <= multiset(scored)
    ensures forall w :: WithWeight(r, w) <= WithWeight(scored, w)
    ensures DropsOnlyLighter(scored, r)
  {
    assert |sorted| == |multiset(sorted)| == |multiset(scored)| == |scored|;
    var k := Min(|sorted|, MAX_RESULTS);
    PrefixKeepsClasses(sorted, k);
    PrefixDropsLighter(sorted, scored, k);
  }

  /** A prefix holds, within each weight, the first entries of the list. */
  lemma PrefixKeepsClasses(sorted: seq<Scored>, k: nat)
    requires k <= |sorted|
    ensures multiset(sorted[..k]) <= multiset(sorted)
    ensures forall w :: WithWeight(sorted[..k], w) <= WithWeight(sorted, w)
  {
    assert sorted == sorted[..k] + sorted[k..];
    forall w ensures WithWeight(sorted[..k], w) <= WithWeight(sorted, w) {
      WithWeightAppend(sorted[..k], sorted[k..], w);
    }
  }

  /** What a prefix of a non-increasing list leaves out weighs no more than
      what it keeps. */
  lemma PrefixDropsLighter(sorted: seq<Scored>, scored: seq<Scored>, k: nat)
    requires NonIncreasing(sorted) && multiset(sorted) == multiset(scored)
    requires k == Min(|sorted|, MAX_RESULTS)
    ensures DropsOnlyLighter(scored, sorted[..k])
  {
    assert sorted == sorted[..k] + sorted[k..];
    forall x | DroppedCopies(scored, sorted[..k], x) > 0 ensures k == MAX_RESULTS && x.weight <= sorted[k - 1].weight {
      assert multiset(sorted[k..])[x] > 0;
      assert x in sorted[k..];
      var j :| k <= j < |sorted| && sorted[j] == x;
    }
  }

  /** The object built for one kept entry. */
  function Present(sc: Scored, position: nat, query: string): Result {
    Result(sc.doc.searchDesc, HighlightHtml(sc.doc.name, query), position, sc.doc.model, sc.doc.url, sc.weight)
  }

  /** `_.map(results, function (result, i) { ... position: i + 1 ... })`. */
  function Project(top: seq<Scored>, query: string): (r: seq<Result>)
    ensures |r| == |top|
    ensures forall i :: 0 <= i < |top| ==> r[i] == Present(top[i], i + 1, query)
  {
    seq(|top|, i requires 0 <= i < |top| => Present(top[i], i + 1, query))
  }

  /** `r` presents, in order, the entries of `picked`, which are distinct
      entries of `scored` taken, within each weight, from the front. An entry
      is left out only when the list is full, and then it weighs no more than
      the last one kept. */
  ghost predicate Presents(r: seq<Result>, picked: seq<Scored>, scored: seq<Scored>, query: string) {
    && |picked| == |r|
    && multiset(picked) <= multiset(scored)
    && (forall w :: WithWeight(picked, w) <= WithWeight(scored, w))
    && DropsOnlyLighter(scored, picked)
    && (forall i :: 0 <= i < |r| ==> r[i] == Present(picked[i], i + 1, query))
  }

  /** The list `autocomplete(query, cb)` passes to `cb`, given the documents
      the two lookups returned in the order their callbacks pushed them. The
      query is trimmed first. Positions count 1, 2, ...; weights never
      increase down the list; each entry presents a different fetched
      document, copying its description, model, url and weight and
      highlighting its name; documents of equal weight keep their fetch
      order; and a fetched document is dropped only when eight are kept, none
      of them lighter than it. */
  function Autocomplete(query: string, found: seq<Candidate>): (r: seq<Result>)
    ensures |r| == Min(|found|, MAX_RESULTS)
    ensures forall i :: 0 <= i < |r| ==> r[i].position == i + 1
    ensures forall i, j :: 0 <= i < j < |r| ==> r[i].weight >= r[j].weight
    ensures exists picked: seq<Scored> :: Presents(r, picked, ScoreAll(found, Trim(query)), Trim(query))
  {
    var q := Trim(query);
    var top := TopResults(ScoreAll(found, q));
    var r := Project(top, q);
    TopPresented(ScoreAll(found, q), q);
    assert Presents(r, top, ScoreAll(found, q), q);
    r
  }

  /** The projection of the kept entries presents them. */
  lemma TopPresented(scored: seq<Scored>, query: string)
    ensures Presents(Project(TopResults(scored), query), TopResults(scored), scored, query)
  {
    var top := TopResults(scored);
    var r := Project(top, query);
    assert |top| == |r|;
  }

  /** Two Courses of weight 10 fetched before a Note of weight 100: the
      Note comes first, and the Courses keep their fetch order. */
  lemma RankingKeepsFetchOrder(a: Scored, b: Scored, c: Scored)
    requires a.weight == 10 && b.weight == 10 && c.weight == 100
    ensures TopResults([a, b, c]) == [c, a, b]
  {
    forall w ensures WithWeight([a, b, c], w) == WithWeight([c, a, b], w) {
      SameClasses(a, b, c, w);
    }
    TopOfStableOrder([a, b, c], [c, a, b]);
  }

  /** A short list that is already in stable descending order of `xs` is
      what `TopResults(xs)` returns. */
  lemma TopOfStableOrder(xs: seq<Scored>, ys: seq<Scored>)
    requires NonIncreasing(ys) && |ys| <= MAX_RESULTS
    requires forall w :: WithWeight(xs, w) == WithWeight(ys, w)
    ensures TopResults(xs) == ys
  {
    var sorted := SortByWeight(xs);
    StableSortIsUnique(sorted, ys);
    assert sorted[..Min(|sorted|, MAX_RESULTS)] == ys;
  }

  lemma SameClasses(a: Scored, b: Scored, c: Scored, w: int)
    requires a.weight == 10 && b.weight == 10 && c.weight == 100
    ensures WithWeight([a, b, c], w) == WithWeight([c, a, b], w)
  {
    WithWeightOfThree(a, b, c, w);
    WithWeightOfThree(c, a, b, w);
  }

  lemma WithWeightOfThree(a: Scored, b: Scored, c: Scored, w: int)
    ensures WithWeight([a, b, c], w) == WithWeight([a], w) + WithWeight([b], w) + WithWeight([c], w)
  {
    assert [a, b, c] == [a] + [b] + [c];
    WithWeightAppend([a] + [b], [c], w);
    WithWeightAppend([a], [b], w);
  }

  lemma CalcScores(x: Candidate, y: Candidate, z: Candidate)
    requires x.name == "Calculus" && x.model == Course
    requires y.name == "Calculus BC" && y.model == Course
    requires z.name == "Calc Notes" && z.model == Note
    ensures ScoreAll([x, y, z], "Calc") == [Scored(10, x), Scored(10, y), Scored(100, z)]
  {
    CalcCourseWeight(x);
    CalcCourseWeight(y);
    CalcNoteWeight(z);
  }

  /** Query `Calc` over the Courses `Calculus` and `Calculus BC` and the Note
      `Calc Notes`, fetched in that order: the Note is listed first, with
      weight 100, then the two Courses with weight 10 in fetch order. */
  lemma CalcRanking(x: Candidate, y: Candidate, z: Candidate)
    requires x.name == "Calculus" && x.model == Course
    requires y.name == "Calculus BC" && y.model == Course
    requires z.name == "Calc Notes" && z.model == Note
    ensures TopResults(ScoreAll([x, y, z], "Calc")) == [Scored(100, z), Scored(10, x), Scored(10, y)]
  {
    CalcScores(x, y, z);
    RankingKeepsFetchOrder(Scored(10, x), Scored(10, y), Scored(100, z));
  }

  /** Eight entries of weight 100 and one of weight 0: keeping the light one
      in place of the last heavy one does not present the ranking. */
  lemma LightEntryCannotDisplaceHeavy(r: seq<Result>, scored: seq<Scored>, query: string)
    requires |scored| == 9 && scored[8].weight == 0
    requires forall i :: 0 <= i < 8 ==> scored[i].weight == 100
    ensures !Presents(r, scored[..7] + [scored[8]], scored, query)
  {
    var picked := scored[..7] + [scored[8]];
    var x := scored[7];
    assert scored == scored[..7] + [x] + [scored[8]];
    assert x != scored[8];
    assert multiset(scored)[x] == multiset(scored[..7])[x] + 1;
    assert multiset(picked)[x] == multiset(scored[..7])[x];
    assert DroppedCopies(scored, picked, x) > 0;
    assert picked[|picked| - 1] == scored[8];
  }
}
