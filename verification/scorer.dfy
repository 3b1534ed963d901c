/** `weight` (search.js): the relevance score of one fetched document. */
module Scorer {
  import opened Text
  import opened Entities

  const EXACT_MATCH: nat := 1000
  const WORD_MATCH: nat := 100
  const COURSE_BONUS: nat := 10

  /** The model-specific weight: the `switch` adds 10 for a Course and 0 for a
      Note, and has no default, so any other model adds nothing. */
  function ModelBonus(m: ModelName): (b: nat)
    ensures b == (if m.Course? then COURSE_BONUS else 0)
  {
    match m
    case Course => COURSE_BONUS
    case Note => 0
    case OtherModel(_) => 0
  }

  /** `new RegExp('(^|\\s)' + word + '($|\\s)', 'i').test(name)`: the word
      occurs with white space or an end of the name on both sides. */
  predicate WholeWord(name: string, word: string) {
    exists j {:trigger WordAt(name, word, j)} :: 0 <= j <= |name| && WordAt(name, word, j)
  }

  /** `word` occurs at `j`, with white space or an end of the name on both
      sides. */
  predicate WordAt(name: string, word: string, j: int) {
    0 <= j <= |name| && (j == 0 || IsSpace(name[j - 1])) && OccursAtI(name, word, j)
    && (j + |word| == |name| || IsSpace(name[j + |word|]))
  }

  /** How many of the query words occur as whole words in the name; a word
      repeated in the query counts each time. */
  function WordMatches(name: string, words: seq<string>): (n: nat)
    ensures n <= |words|
    ensures n == |words| <==> forall i :: 0 <= i < |words| ==> WholeWord(name, words[i])
    ensures n == 0 <==> forall i :: 0 <= i < |words| ==> !WholeWord(name, words[i])
  {
    if words == [] then 0
    else (if WholeWord(name, words[0]) then 1 else 0) + WordMatches(name, words[1..])
  }

  /** `weight(result, query)`. */
  function Weight(c: Candidate, query: string): (w: nat)
    ensures ModelBonus(c.model) <= w <= COURSE_BONUS + EXACT_MATCH + WORD_MATCH * |Split(query, ' ')|
  {
    ModelBonus(c.model)
    + (if Lower(c.name) == Lower(query) then EXACT_MATCH else 0)
    + WORD_MATCH * WordMatches(c.name, Split(query, ' '))
  }

  /** The query words whose whole-word test succeeds, by position in the query. */
  ghost function WordHits(name: string, words: seq<string>): set<nat> {
    set i: nat | i < |words| && WholeWord(name, words[i])
  }

  lemma {:induction false} WordMatchesAppend(name: string, a: seq<string>, b: seq<string>)
    ensures WordMatches(name, a + b) == WordMatches(name, a) + WordMatches(name, b)
    decreases |a|
  {
    if a == [] {
      assert a + b == b;
    } else {
      assert (a + b)[1..] == a[1..] + b;
      WordMatchesAppend(name, a[1..], b);
    }
  }

  /** The word bonus is paid once per query position whose word is a whole word
      of the name: the count equals the size of that set of positions. */
  lemma {:induction false} WordMatchesCountsHits(name: string, words: seq<string>)
    ensures WordMatches(name, words) == |WordHits(name, words)|
    decreases |words|
  {
    if words != [] {
      var n := |words| - 1;
      var init := words[..n];
      WordMatchesCountsHits(name, init);
      assert words == init + [words[n]];
      WordMatchesAppend(name, init, [words[n]]);
      assert [words[n]][1..] == [];
      var extra: set<nat> := if WholeWord(name, words[n]) then {n} else {};
      var hits, initHits := WordHits(name, words), WordHits(name, init);
      forall x | x in hits ensures x in initHits + extra {
        if x < n {
          assert words[x] == init[x];
        }
      }
      forall x | x in initHits + extra ensures x in hits {
        if x < n {
          assert words[x] == init[x];
        }
      }
      assert hits == initHits + extra;
      assert n !in initHits;
      assert |hits| == |initHits| + |extra|;
    }
  }

  /** The weight in closed form: the model bonus, the exact-match bonus when
      name and query agree up to case, and the word bonus once for every
      query position whose word is a whole word of the name. */
  lemma WeightClosedForm(c: Candidate, query: string)
    ensures Weight(c, query) == ModelBonus(c.model)
                                + (if Lower(c.name) == Lower(query) then EXACT_MATCH else 0)
                                + WORD_MATCH * |WordHits(c.name, Split(query, ' '))|
  {
    WordMatchesCountsHits(c.name, Split(query, ' '));
  }

  /** A name equal to the query up to case contains every query word as a
      whole word. */
  lemma ExactNameHasEveryWord(name: string, query: string, i: nat)
    requires Lower(name) == Lower(query)
    requires i < |Split(query, ' ')|
    ensures WholeWord(name, Split(query, ' ')[i])
  {
    ExactNameHasEveryToken(name, query, Split(query, ' '), i);
  }

  lemma ExactNameHasEveryToken(name: string, query: string, toks: seq<string>, i: nat)
    requires Lower(name) == Lower(query)
    requires i < |toks| && Join(toks, ' ') == query
    ensures WholeWord(name, toks[i])
  {
    var t := toks[i];
    var o := PieceOfQuery(toks, query, i);
    WordOfSameUpToCase(name, query, t, o);
  }

  /** Where query word `i` sits in the query: between spaces or the ends. */
  lemma PieceOfQuery(toks: seq<string>, query: string, i: nat) returns (o: nat)
    requires i < |toks| && Join(toks, ' ') == query
    ensures o + |toks[i]| <= |query| && query[o..o + |toks[i]|] == toks[i]
    ensures o == 0 || query[o - 1] == ' '
    ensures o + |toks[i]| == |query| || query[o + |toks[i]|] == ' '
  {
    o := PieceOfJoin(toks, ' ', i);
  }

  /** A word of the query, bounded by spaces or its ends, is a whole word of
      any name equal to the query up to case. */
  lemma WordOfSameUpToCase(name: string, query: string, t: string, o: nat)
    requires Lower(name) == Lower(query)
    requires o + |t| <= |query| && query[o..o + |t|] == t
    requires o == 0 || query[o - 1] == ' '
    requires o + |t| == |query| || query[o + |t|] == ' '
    ensures WordAt(name, t, o) && WholeWord(name, t)
  {
    SameUpToCaseOccurs(name, query, t, o);
    PieceBoundaries(name, query, o, o + |t|);
    assert WordAt(name, t, o);
  }


  lemma SameUpToCaseOccurs(name: string, query: string, t: string, o: nat)
    requires Lower(name) == Lower(query)
    requires o + |t| <= |query| && query[o..o + |t|] == t
    ensures OccursAtI(name, t, o)
  {
    forall k | 0 <= k < |t| ensures EqI(name[o + k], t[k]) {
      assert Lower(name)[o + k] == Lower(query)[o + k];
      assert query[o..o + |t|][k] == t[k];
    }
  }

  /** The spaces around a query word are spaces of the name as well. */
  lemma PieceBoundaries(name: string, query: string, o: nat, end: nat)
    requires Lower(name) == Lower(query)
    requires o <= end <= |query|
    requires o == 0 || query[o - 1] == ' '
    requires end == |query| || query[end] == ' '
    ensures |name| == |query|
    ensures o == 0 || IsSpace(name[o - 1])
    ensures end == |name| || IsSpace(name[end])
  {
    assert |Lower(name)| == |Lower(query)|;
    if o > 0 {
      SameUpToCaseSpace(name, query, o - 1);
    }
    if end < |query| {
      SameUpToCaseSpace(name, query, end);
    }
  }

  lemma SameUpToCaseSpace(name: string, query: string, k: nat)
    requires Lower(name) == Lower(query)
    requires k < |query| && query[k] == ' '
    ensures k < |name| && name[k] == ' '
  {
    assert Lower(name)[k] == Lower(query)[k];
    assert LowerChar(name[k]) == ' ';
  }

  /** An exact match (ignoring case) earns the exact bonus and every word
      bonus on top of the model bonus. */
  lemma ExactMatchWeight(c: Candidate, query: string)
    requires Lower(c.name) == Lower(query)
    ensures Weight(c, query) == ModelBonus(c.model) + EXACT_MATCH + WORD_MATCH * |Split(query, ' ')|
  {
    var words := Split(query, ' ');
    forall i | 0 <= i < |words| ensures WholeWord(c.name, words[i]) {
      ExactNameHasEveryWord(c.name, query, i);
    }
  }

  /** An exact match outranks every non-exact match for the same query,
      whatever the two documents' models. */
  lemma ExactMatchOutranks(exact: Candidate, other: Candidate, query: string)
    requires Lower(exact.name) == Lower(query)
    requires Lower(other.name) != Lower(query)
    ensures Weight(exact, query) > Weight(other, query)
  {
    ExactMatchWeight(exact, query);
  }

  // ----- A worked example ----------------------------------------------------

  lemma CalcOnlyAtStart(name: string, j: int)
    requires name == "Calculus" || name == "Calculus BC"
    requires OccursAtI(name, "Calc", j)
    ensures j == 0
  {
    var t := "Calc";
    assert EqI(name[j + 0], t[0]) && EqI(name[j + 1], t[1]) && EqI(name[j + 2], t[2]) && EqI(name[j + 3], t[3]);
    assert LowerChar(name[j]) == 'c' && LowerChar(name[j + 1]) == 'a' && LowerChar(name[j + 2]) == 'l';
  }

  lemma CalcNotWholeWord(name: string)
    requires name == "Calculus" || name == "Calculus BC"
    ensures !WholeWord(name, "Calc")
  {
    forall j | 0 <= j <= |name| && OccursAtI(name, "Calc", j) ensures !WordAt(name, "Calc", j) {
      CalcOnlyAtStart(name, j);
    }
  }

  lemma CalcIsOneWord(words: seq<string>)
    requires words == Split("Calc", ' ')
    ensures words == ["Calc"]
  {
  }

  /** For the query 'Calc', the courses 'Calculus' and 'Calculus BC' earn only
      the course bonus: 'Calc' is not a whole word of either, and neither
      equals the query. */
  lemma CalcCourseWeight(c: Candidate)
    requires c.name == "Calculus" || c.name == "Calculus BC"
    requires c.model == Course
    ensures Weight(c, "Calc") == 10
  {
    var words := Split("Calc", ' ');
    CalcIsOneWord(words);
    CalcNotWholeWord(c.name);
    assert WordMatches(c.name, words) == 0;
    assert |Lower(c.name)| != |Lower("Calc")|;
  }

  /** The note 'Calc Notes' earns one word bonus for the query 'Calc'. */
  lemma CalcNoteWeight(c: Candidate)
    requires c.name == "Calc Notes" && c.model == Note
    ensures Weight(c, "Calc") == 100
  {
    var words := Split("Calc", ' ');
    CalcIsOneWord(words);
    var n := c.name;
    assert OccursAtI(n, "Calc", 0) && IsSpace(n[4]);
    assert WordAt(n, words[0], 0);
    assert WordMatches(n, words) == 1;
    assert |Lower(n)| != |Lower("Calc")|;
  }
}
