/** `regexForQuery` (search.js): the prefix matcher used to select autocomplete
    candidates.

    For a query split on ' ' into t0, t1, ..., tn the source builds the
    case-insensitive, end-unanchored regex
        (^|\s)[^a-z]*t0 .*\s[^a-z]*t1 ... .*\s[^a-z]*tn
    with every token escaped to a literal. Instead of a regex engine the
    pattern's language is written out as "there are positions j0 < j1 < ... at
    which the tokens occur, each reached the way the regex allows". The
    character classes are the ECMAScript ones; the pattern itself is handed to
    the database as a `name` filter, whose regex engine treats `\s` and `.`
    slightly differently. */
module Matcher {
  import opened Text

  /** The compiled pattern: the literal tokens, in query order. */
  datatype PrefixPattern = PrefixPattern(tokens: seq<string>)

  /** `regexForQuery(query)`: the pattern's tokens are the query's pieces
      between single spaces, and joining them back gives the query. */
  function RegexForQuery(query: string): (p: PrefixPattern)
    ensures |p.tokens| >= 1
    ensures forall i :: 0 <= i < |p.tokens| ==> ' ' !in p.tokens[i]
    ensures Join(p.tokens, ' ') == query
  {
    PrefixPattern(Split(query, ' '))
  }

  /** `(^|\s)[^a-z]*` can stop at `j`: a run of non-letters ending at `j`
      starts at the beginning of `s` or right after a white-space character. */
  predicate LeadAnchor(s: string, j: int)
    requires 0 <= j <= |s|
  {
    exists p :: 0 <= p <= j && (p == 0 || IsSpace(s[p - 1])) && NonLetters(s, p, j)
  }

  /** `.*\s[^a-z]*` can consume exactly `s[e..j]`. */
  predicate Gap(s: string, e: int, j: int)
    requires 0 <= e <= j <= |s|
  {
    exists q :: e <= q < j && NoLineBreak(s, e, q) && IsSpace(s[q]) && NonLetters(s, q + 1, j)
  }

  /** The later tokens `toks` can be matched in order, the first of them after
      a gap that starts where the previous token ended (`e`). */
  predicate LaterTokensMatch(s: string, toks: seq<string>, e: int)
    requires 0 <= e <= |s|
    decreases |toks|
  {
    || toks == []
    || exists j :: e <= j <= |s| && Gap(s, e, j) && OccursAtI(s, toks[0], j)
                   && LaterTokensMatch(s, toks[1..], j + |toks[0]|)
  }

  /** `s` passes the filter `{ name: p }`: the first token is at an anchored
      position and the other tokens follow in order. Nothing is required after
      the last token. */
  predicate Test(p: PrefixPattern, s: string)
    requires |p.tokens| >= 1
  {
    exists j :: 0 <= j <= |s| && LeadAnchor(s, j) && OccursAtI(s, p.tokens[0], j)
                && LaterTokensMatch(s, p.tokens[1..], j + |p.tokens[0]|)
  }

  predicate QueryMatches(query: string, name: string) {
    Test(RegexForQuery(query), name)
  }

  // ----- Dropping trailing tokens ------------------------------------------

  lemma {:induction false} LaterTokensPrefix(s: string, a: seq<string>, b: seq<string>, e: int)
    requires 0 <= e <= |s|
    requires LaterTokensMatch(s, a + b, e)
    ensures LaterTokensMatch(s, a, e)
    decreases |a|
  {
    if a != [] {
      var j :| e <= j <= |s| && Gap(s, e, j) && OccursAtI(s, (a + b)[0], j)
               && LaterTokensMatch(s, (a + b)[1..], j + |(a + b)[0]|);
      assert (a + b)[1..] == a[1..] + b;
      LaterTokensPrefix(s, a[1..], b, j + |a[0]|);
    }
  }

  /** A pattern that matches still matches once trailing tokens are dropped:
      the shorter regex is a prefix of the longer one and neither is anchored
      at the end. */
  lemma PatternPrefixMatches(s: string, toks: seq<string>, k: nat)
    requires 1 <= k <= |toks|
    requires Test(PrefixPattern(toks), s)
    ensures Test(PrefixPattern(toks[..k]), s)
  {
    var j :| 0 <= j <= |s| && LeadAnchor(s, j) && OccursAtI(s, toks[0], j)
             && LaterTokensMatch(s, toks[1..], j + |toks[0]|);
    assert toks[1..] == toks[..k][1..] + toks[k..];
    LaterTokensPrefix(s, toks[..k][1..], toks[k..], j + |toks[0]|);
  }

  /** Typing more words can only narrow the matches: if `q1 + " " + q2`
      matches a name, so does `q1`. */
  lemma DropTrailingWords(q1: string, q2: string, name: string)
    requires QueryMatches(q1 + " " + q2, name)
    ensures QueryMatches(q1, name)
  {
    SplitAppend(q1, q2, ' ');
    var toks := Split(q1 + " " + q2, ' ');
    var k := |Split(q1, ' ')|;
    assert toks[..k] == Split(q1, ' ');
    PatternPrefixMatches(name, toks, k);
  }

  // ----- Case insensitivity --------------------------------------------------

  lemma LowerKeepsClassesEverywhere()
    ensures forall c :: IsSpace(LowerChar(c)) == IsSpace(c)
    ensures forall c :: IsLineTerminator(LowerChar(c)) == IsLineTerminator(c)
    ensures forall c :: IsLetter(LowerChar(c)) == IsLetter(c)
    ensures forall c :: LowerChar(LowerChar(c)) == LowerChar(c)
  {
    forall c ensures IsSpace(LowerChar(c)) == IsSpace(c) && IsLineTerminator(LowerChar(c)) == IsLineTerminator(c)
                  && IsLetter(LowerChar(c)) == IsLetter(c) && LowerChar(LowerChar(c)) == LowerChar(c) {
      LowerCharKeepsClasses(c);
    }
  }

  /** Lower-casing every token, leaving the name alone. */
  function LowerAll(toks: seq<string>): (r: seq<string>)
    ensures |r| == |toks|
    ensures forall i :: 0 <= i < |toks| ==> r[i] == Lower(toks[i])
  {
    seq(|toks|, i requires 0 <= i < |toks| => Lower(toks[i]))
  }

  lemma {:induction false} LaterTokensIgnoreCase(s: string, toks: seq<string>, e: int)
    requires 0 <= e <= |s|
    ensures LaterTokensMatch(s, toks, e) == LaterTokensMatch(Lower(s), toks, e)
    ensures LaterTokensMatch(s, toks, e) == LaterTokensMatch(s, LowerAll(toks), e)
    decreases |toks|
  {
    LowerKeepsClassesEverywhere();
    var ls := Lower(s);
    if toks != [] {
      var lt := LowerAll(toks);
      assert lt[1..] == LowerAll(toks[1..]);
      forall j | e <= j <= |s|
        ensures Gap(s, e, j) == Gap(ls, e, j)
        ensures OccursAtI(s, toks[0], j) == OccursAtI(ls, toks[0], j) == OccursAtI(s, lt[0], j)
        ensures j + |toks[0]| <= |s| ==>
                  LaterTokensMatch(s, toks[1..], j + |toks[0]|) == LaterTokensMatch(ls, toks[1..], j + |toks[0]|)
                  == LaterTokensMatch(s, lt[1..], j + |toks[0]|)
      {
        forall q | e <= q < j
          ensures NoLineBreak(s, e, q) == NoLineBreak(ls, e, q)
          ensures NonLetters(s, q + 1, j) == NonLetters(ls, q + 1, j)
        {
        }
        if j + |toks[0]| <= |s| {
          LaterTokensIgnoreCase(s, toks[1..], j + |toks[0]|);
        }
      }
    }
  }

  lemma TestIgnoresCase(toks: seq<string>, name: string)
    requires |toks| >= 1
    ensures Test(PrefixPattern(toks), name) == Test(PrefixPattern(toks), Lower(name))
    ensures Test(PrefixPattern(toks), name) == Test(PrefixPattern(LowerAll(toks)), name)
  {
    LowerKeepsClassesEverywhere();
    var lt := LowerAll(toks);
    var ln := Lower(name);
    assert lt[1..] == LowerAll(toks[1..]);
    forall j | 0 <= j <= |name|
      ensures LeadAnchor(name, j) == LeadAnchor(ln, j)
      ensures OccursAtI(name, toks[0], j) == OccursAtI(ln, toks[0], j) == OccursAtI(name, lt[0], j)
      ensures j + |toks[0]| <= |name| ==>
                LaterTokensMatch(name, toks[1..], j + |toks[0]|) == LaterTokensMatch(ln, toks[1..], j + |toks[0]|)
                == LaterTokensMatch(name, lt[1..], j + |toks[0]|)
    {
      forall p | 0 <= p <= j ensures NonLetters(name, p, j) == NonLetters(ln, p, j) {
      }
      if j + |toks[0]| <= |name| {
        LaterTokensIgnoreCase(name, toks[1..], j + |toks[0]|);
      }
    }
  }

  /** The lower-cased query splits into the lower-cased tokens. */
  lemma SplitLower(query: string)
    ensures Split(Lower(query), ' ') == LowerAll(Split(query, ' '))
  {
    var toks := Split(query, ' ');
    var lt := LowerAll(toks);
    LowerJoin(toks);
    forall i | 0 <= i < |lt| ensures ' ' !in lt[i] {
      if ' ' in lt[i] {
        var k :| 0 <= k < |lt[i]| && lt[i][k] == ' ';
        LowerCharKeepsClasses(toks[i][k]);
      }
    }
    SplitJoin(lt, ' ');
  }

  /** Matching ignores case on both sides: lower-casing the name or the query
      does not change whether the query matches. */
  lemma MatchIgnoresCase(query: string, name: string)
    ensures QueryMatches(query, name) == QueryMatches(query, Lower(name))
    ensures QueryMatches(query, name) == QueryMatches(Lower(query), name)
  {
    SplitLower(query);
    TestIgnoresCase(Split(query, ' '), name);
  }

  lemma {:induction false} LowerJoin(toks: seq<string>)
    requires |toks| >= 1
    ensures Lower(Join(toks, ' ')) == Join(LowerAll(toks), ' ')
    decreases |toks|
  {
    if |toks| > 1 {
      LowerJoin(toks[1..]);
      assert LowerAll(toks)[1..] == LowerAll(toks[1..]);
      assert Lower(toks[0] + [' '] + Join(toks[1..], ' '))
          == Lower(toks[0]) + [' '] + Lower(Join(toks[1..], ' '));
    }
  }

  // ----- The documented examples ---------------------------------------------

  /** `regexForQuery('Hist')` matches 'AP History' and 'History'. */
  lemma HistMatchesHistory()
    ensures QueryMatches("Hist", "AP History")
    ensures QueryMatches("Hist", "History")
  {
    assert Split("Hist", ' ') == ["Hist"];
    var s := "AP History";
    assert NonLetters(s, 3, 3);
    assert LeadAnchor(s, 3);
    assert OccursAtI(s, "Hist", 3);
    assert LaterTokensMatch(s, [], 7);
    var h := "History";
    assert NonLetters(h, 0, 0);
    assert LeadAnchor(h, 0);
    assert OccursAtI(h, "Hist", 0);
    assert LaterTokensMatch(h, [], 4);
  }

  /** Case is ignored: `regexForQuery('AP')` matches 'ap history'. */
  lemma UpperQueryMatchesLowerName()
    ensures QueryMatches("AP", "ap history")
  {
    assert Split("AP", ' ') == ["AP"];
    var a := "ap history";
    assert NonLetters(a, 0, 0);
    assert LeadAnchor(a, 0);
    assert OccursAtI(a, "AP", 0);
    assert LaterTokensMatch(a, [], 2);
  }

  lemma SplitEngLit()
    ensures Split("Eng Lit", ' ') == ["Eng", "Lit"]
    ensures Split("Lit Eng", ' ') == ["Lit", "Eng"]
  {
    assert Join(["Eng", "Lit"], ' ') == "Eng Lit";
    SplitJoin(["Eng", "Lit"], ' ');
    assert Join(["Lit", "Eng"], ' ') == "Lit Eng";
    SplitJoin(["Lit", "Eng"], ' ');
  }

  /** `regexForQuery('Eng Lit')` matches 'English Literature'. */
  lemma EngLitMatchesEnglishLiterature()
    ensures QueryMatches("Eng Lit", "English Literature")
  {
    SplitEngLit();
    var e := "English Literature";
    assert NonLetters(e, 0, 0);
    assert LeadAnchor(e, 0);
    assert OccursAtI(e, "Eng", 0);
    assert NoLineBreak(e, 3, 7) && IsSpace(e[7]) && NonLetters(e, 8, 8);
    assert Gap(e, 3, 8);
    assert OccursAtI(e, "Lit", 8);
    assert LaterTokensMatch(e, [], 11);
    assert LaterTokensMatch(e, ["Lit"], 3);
    assert ["Eng", "Lit"][1..] == ["Lit"];
  }

  lemma LitOnlyAtEight(j: int)
    requires OccursAtI("English Literature", "Lit", j)
    ensures j == 8
  {
    var e, t := "English Literature", "Lit";
    assert EqI(e[j + 0], t[0]) && EqI(e[j + 1], t[1]) && EqI(e[j + 2], t[2]);
    assert LowerChar(e[j]) == 'l' && LowerChar(e[j + 1]) == 'i' && LowerChar(e[j + 2]) == 't';
    assert j == 3 || j == 8;
  }

  lemma EngOnlyAtZero(j: int)
    requires OccursAtI("English Literature", "Eng", j)
    ensures j == 0
  {
    var e, t := "English Literature", "Eng";
    assert EqI(e[j + 0], t[0]) && EqI(e[j + 1], t[1]) && EqI(e[j + 2], t[2]);
    assert LowerChar(e[j]) == 'e' && LowerChar(e[j + 1]) == 'n' && LowerChar(e[j + 2]) == 'g';
  }

  lemma NoEngAfterEleven(e0: int)
    requires 11 <= e0 <= 18
    ensures !LaterTokensMatch("English Literature", ["Eng"], e0)
  {
    var e := "English Literature";
    forall j | e0 <= j <= |e| ensures !OccursAtI(e, "Eng", j) {
      if OccursAtI(e, "Eng", j) {
        EngOnlyAtZero(j);
      }
    }
  }

  /** Token order matters: 'Lit Eng' does not match 'English Literature',
      because 'Lit' only starts at the second word and no 'Eng' follows it. */
  lemma ReversedWordsDoNotMatch()
    ensures !QueryMatches("Lit Eng", "English Literature")
  {
    SplitEngLit();
    var e := "English Literature";
    var toks := ["Lit", "Eng"];
    assert toks[0] == "Lit" && toks[1..] == ["Eng"];
    forall j | 0 <= j <= |e| && OccursAtI(e, "Lit", j)
      ensures !LaterTokensMatch(e, ["Eng"], j + 3)
    {
      LitOnlyAtEight(j);
      NoEngAfterEleven(11);
    }
    assert !Test(PrefixPattern(toks), e);
  }

  /** Tokens are literal text: the `.` in `C.` is a dot, not "any character". */
  lemma DotIsLiteral(s: string)
    requires s == "CS"
    ensures !QueryMatches("C.", s)
  {
    assert Split("C.", ' ') == ["C."];
    forall j | 0 <= j <= |s| ensures !OccursAtI(s, "C.", j) {
      if j == 0 {
        assert !EqI(s[0 + 1], "C."[1]);
      }
    }
  }

  /** Regex metacharacters in a token match themselves. */
  lemma PlusIsLiteral(s: string)
    requires s == "Intro to C++"
    ensures QueryMatches("C++", s)
  {
    assert Split("C++", ' ') == ["C++"];
    assert NonLetters(s, 9, 9);
    assert LeadAnchor(s, 9);
    assert OccursAtI(s, "C++", 9);
  }
}
