/** `highlight` (search.js): wraps each match of the alternation
        ((^|\s)[^a-z]*t0)|((^|\s)[^a-z]*t1)|...
    (flags `gi`) in `<strong>...</strong>`.

    The result is modelled as a list of segments, `Plain` text and `Strong`
    (matched) text, and `Render` turns the list into the returned string.
    `Scan` follows the way `String.prototype.replace` walks a global regex:
    the leftmost position that matches wins; at that position the first
    alternative that matches wins; inside an alternative `^` is tried before
    `\s` and `[^a-z]*` is greedy and backtracks; scanning resumes at the end
    of the match, one position further after an empty match. */
module Highlighter {
  import opened Wrappers
  import opened Text

  datatype Segment = Plain(text: string) | Strong(text: string)

  // ----- What one alternative can match --------------------------------------

  /** The alternative `(^|\s)[^a-z]*t` can match `s[p..k + |t|]`: its anchor
      is at `p` (the start of the string, or a white-space character that the
      match includes), a run of non-letters fills `s[..k]` after the anchor,
      and the token occurs at `k`. */
  predicate AltSpan(s: string, t: string, p: int, k: int) {
    && 0 <= p <= k <= |s|
    && ((p == 0 && NonLetters(s, 0, k)) || (p + 1 <= k && IsSpace(s[p]) && NonLetters(s, p + 1, k)))
    && OccursAtI(s, t, k)
  }

  /** Some alternative of the alternation can match exactly `s[p..e]`. */
  predicate SpanAt(s: string, toks: seq<string>, p: int, e: int) {
    exists i, k :: 0 <= i < |toks| && AltSpan(s, toks[i], p, k) && e == k + |toks[i]|
  }

  // ----- How the regex engine picks a match at one position ------------------

  /** The end of the longest `[^a-z]*` run starting at `i`. */
  function RunEnd(s: string, i: nat): (k: nat)
    requires i <= |s|
    ensures i <= k <= |s| && NonLetters(s, i, k) && (k == |s| || IsLetter(s[k]))
    decreases |s| - i
  {
    if i == |s| || IsLetter(s[i]) then i else RunEnd(s, i + 1)
  }

  /** The greedy run backing off one character at a time: the token is tried
      at `k`, `k - 1`, ..., `lo`, and the first place it occurs is taken. */
  function Backtrack(s: string, t: string, lo: nat, k: nat): (r: Option<nat>)
    requires lo <= k <= |s|
    ensures r.Some? ==> lo <= r.value - |t| <= k && OccursAtI(s, t, r.value - |t|)
    ensures r.Some? ==> forall k' :: r.value - |t| < k' <= k ==> !OccursAtI(s, t, k')
    ensures r.None? ==> forall k' :: lo <= k' <= k ==> !OccursAtI(s, t, k')
    decreases k - lo
  {
    if OccursAtI(s, t, k) then Some(k + |t|)
    else if k == lo then None
    else Backtrack(s, t, lo, k - 1)
  }

  /** The end of the match of `(^|\s)[^a-z]*t` at `p`, if there is one. */
  function AltMatchAt(s: string, t: string, p: nat): (r: Option<nat>)
    requires p <= |s|
    ensures r.Some? ==> AltSpan(s, t, p, r.value - |t|)
    ensures r.Some? ==> forall k :: AltSpan(s, t, p, k) ==> k <= r.value - |t|
    ensures r.None? ==> forall k :: !AltSpan(s, t, p, k)
  {
    var viaStart := if p == 0 then Backtrack(s, t, 0, RunEnd(s, 0)) else None;
    if viaStart.Some? then viaStart
    else if p < |s| && IsSpace(s[p]) then Backtrack(s, t, p + 1, RunEnd(s, p + 1))
    else None
  }

  /** The alternation from alternative `i` on: the first alternative that
      matches at `p` decides the match, whether or not a later one would
      match more. */
  function FirstAlternative(s: string, toks: seq<string>, i: nat, p: nat): (r: Option<nat>)
    requires i <= |toks| && p <= |s|
    ensures r.Some? ==> exists i' :: i <= i' < |toks| && AltMatchAt(s, toks[i'], p) == r
                                     && forall i'' :: i <= i'' < i' ==> AltMatchAt(s, toks[i''], p).None?
    ensures r.None? ==> forall i' :: i <= i' < |toks| ==> AltMatchAt(s, toks[i'], p).None?
    decreases |toks| - i
  {
    if i == |toks| then None
    else
      var m := AltMatchAt(s, toks[i], p);
      if m.Some? then m else FirstAlternative(s, toks, i + 1, p)
  }

  /** The end of the whole alternation's match at `p`, if there is one. */
  function MatchAt(s: string, toks: seq<string>, p: nat): (r: Option<nat>)
    requires p <= |s|
    ensures r.Some? ==> p <= r.value <= |s|
  {
    var r := FirstAlternative(s, toks, 0, p);
    if r.Some? then
      FoundAlternativeIsSpan(s, toks, p, r.value);
      r
    else
      r
  }

  /** The alternation matches at `p` exactly when some alternative can match
      there, and what it matches is the match of some alternative. */
  lemma MatchAtIsSpan(s: string, toks: seq<string>, p: nat)
    requires p <= |s|
    ensures MatchAt(s, toks, p).Some? ==> SpanAt(s, toks, p, MatchAt(s, toks, p).value)
    ensures MatchAt(s, toks, p).None? ==> forall e :: !SpanAt(s, toks, p, e)
  {
    var r := FirstAlternative(s, toks, 0, p);
    assert MatchAt(s, toks, p) == r;
    if r.Some? {
      FoundAlternativeIsSpan(s, toks, p, r.value);
    } else {
      NoAlternativeNoSpan(s, toks, p);
    }
  }

  lemma FoundAlternativeIsSpan(s: string, toks: seq<string>, p: nat, e: nat)
    requires p <= |s|
    requires FirstAlternative(s, toks, 0, p) == Some(e)
    ensures SpanAt(s, toks, p, e)
  {
    var i' :| 0 <= i' < |toks| && AltMatchAt(s, toks[i'], p) == Some(e);
    var k := e - |toks[i']|;
    assert AltSpan(s, toks[i'], p, k);
  }

  lemma NoAlternativeNoSpan(s: string, toks: seq<string>, p: nat)
    requires p <= |s|
    requires FirstAlternative(s, toks, 0, p).None?
    ensures forall e :: !SpanAt(s, toks, p, e)
  {
    forall i, k | 0 <= i < |toks| ensures !AltSpan(s, toks[i], p, k) {
      assert AltMatchAt(s, toks[i], p).None?;
    }
  }

  // ----- The global replace ---------------------------------------------------

  function Content(segs: seq<Segment>): string {
    if segs == [] then [] else segs[0].text + Content(segs[1..])
  }

  function Render(segs: seq<Segment>): string {
    if segs == [] then []
    else
      (match segs[0]
       case Plain(t) => t
       case Strong(t) => "<strong>" + t + "</strong>")
      + Render(segs[1..])
  }

  /** A plain segment for non-empty text. */
  function Emit(t: string): seq<Segment> {
    if t == [] then [] else [Plain(t)]
  }

  lemma {:induction false} ContentAppend(a: seq<Segment>, b: seq<Segment>)
    ensures Content(a + b) == Content(a) + Content(b)
    decreases |a|
  {
    if a == [] {
      assert a + b == b;
    } else {
      assert (a + b)[1..] == a[1..] + b;
      ContentAppend(a[1..], b);
    }
  }

  lemma ContentOfStep(s: string, seg: nat, p: nat, e: nat, rest: seq<Segment>)
    requires seg <= p <= e <= |s|
    requires Content(rest) == s[e..]
    ensures Content(Emit(s[seg..p]) + [Strong(s[p..e])] + rest) == s[seg..]
  {
    var head := Emit(s[seg..p]) + [Strong(s[p..e])];
    ContentAppend(head, rest);
    ContentOfHead(s[seg..p], s[p..e]);
    SlicesJoin(s, seg, p, e);
  }

  lemma ContentOfHead(t: string, u: string)
    ensures Content(Emit(t) + [Strong(u)]) == t + u
  {
    ContentAppend(Emit(t), [Strong(u)]);
    assert Content([Strong(u)]) == u;
  }

  lemma SlicesJoin(s: string, seg: nat, p: nat, e: nat)
    requires seg <= p <= e <= |s|
    ensures s[seg..p] + s[p..e] + s[e..] == s[seg..]
  {
  }

  /** The replace loop with `lastIndex == p`; the text from `seg` on has not
      been emitted yet. Every segment's text is a slice of the input, so the
      segments spell out exactly the unemitted rest. */
  function Scan(s: string, toks: seq<string>, p: nat, seg: nat): (r: seq<Segment>)
    requires seg <= p && seg <= |s| && p <= |s| + 1
    ensures Content(r) == s[seg..]
    decreases |s| + 1 - p
  {
    if p > |s| then
      Emit(s[seg..])
    else
      match MatchAt(s, toks, p)
      case None => Scan(s, toks, p + 1, seg)
      case Some(e) =>
        var rest := Scan(s, toks, if e == p then p + 1 else e, e);
        ContentOfStep(s, seg, p, e, rest);
        Emit(s[seg..p]) + [Strong(s[p..e])] + rest
  }

  /** `highlight(str, query)` as segments. */
  function Highlight(name: string, query: string): seq<Segment> {
    Scan(name, Split(query, ' '), 0, 0)
  }

  /** `highlight(str, query)` as the returned HTML string. */
  function HighlightHtml(name: string, query: string): string {
    Render(Highlight(name, query))
  }

  // ----- What the segments say about the name ---------------------------------

  /** No alternative can match at any position in `[from, to)`. */
  ghost predicate NoMatchIn(s: string, toks: seq<string>, from: int, to: int) {
    forall q, e :: from <= q < to ==> !SpanAt(s, toks, q, e)
  }

  /** `segs` lay out `s[o..]` from left to right without overlap; every
      `Strong` segment is a match of some alternative at its own offset; and
      every position the scan searched inside a `Plain` segment, or at the
      end of the name, has no match. `afterEmpty` says the previous segment
      was an empty match, after which the scan skips one position. */
  ghost predicate Tiles(s: string, toks: seq<string>, segs: seq<Segment>, o: nat, afterEmpty: bool)
    requires o <= |s|
    decreases |segs|
  {
    if segs == [] then
      o == |s| && (!afterEmpty ==> NoMatchIn(s, toks, |s|, |s| + 1))
    else
      var t := segs[0].text;
      && o + |t| <= |s|
      && s[o..o + |t|] == t
      && match segs[0]
         case Strong(_) =>
           SpanAt(s, toks, o, o + |t|) && Tiles(s, toks, segs[1..], o + |t|, t == [])
         case Plain(_) =>
           && t != []
           && NoMatchIn(s, toks, if afterEmpty then o + 1 else o, o + |t|)
           && Tiles(s, toks, segs[1..], o + |t|, false)
  }

  lemma TilesAtEnd(s: string, toks: seq<string>, seg: nat, afterEmpty: bool)
    requires seg <= |s|
    requires afterEmpty ==> seg < |s| + 1
    requires NoMatchIn(s, toks, if afterEmpty then seg + 1 else seg, |s| + 1)
    ensures Tiles(s, toks, Emit(s[seg..]), seg, afterEmpty)
  {
    if seg < |s| {
      var r := Emit(s[seg..]);
      assert r == [Plain(s[seg..])];
      assert r[1..] == [];
      assert Tiles(s, toks, [], |s|, false);
    }
  }

  lemma TilesAtMatch(s: string, toks: seq<string>, seg: nat, p: nat, e: nat, afterEmpty: bool, rest: seq<Segment>)
    requires seg <= p <= e <= |s|
    requires afterEmpty ==> seg < p
    requires NoMatchIn(s, toks, if afterEmpty then seg + 1 else seg, p)
    requires SpanAt(s, toks, p, e)
    requires Tiles(s, toks, rest, e, e == p)
    ensures Tiles(s, toks, Emit(s[seg..p]) + [Strong(s[p..e])] + rest, seg, afterEmpty)
  {
    var strong := [Strong(s[p..e])] + rest;
    assert strong[1..] == rest;
    assert Tiles(s, toks, strong, p, false);
    var r := Emit(s[seg..p]) + [Strong(s[p..e])] + rest;
    if seg < p {
      assert r == [Plain(s[seg..p])] + strong;
      assert r[1..] == strong;
    } else {
      assert r == strong;
    }
  }

  lemma NoMatchGrows(s: string, toks: seq<string>, from: int, p: int)
    requires NoMatchIn(s, toks, from, p)
    requires forall e :: !SpanAt(s, toks, p, e)
    ensures NoMatchIn(s, toks, from, p + 1)
  {
  }

  lemma {:induction false} ScanTiles(s: string, toks: seq<string>, p: nat, seg: nat, afterEmpty: bool)
    requires seg <= p && seg <= |s| && p <= |s| + 1
    requires afterEmpty ==> seg < p
    requires NoMatchIn(s, toks, if afterEmpty then seg + 1 else seg, p)
    ensures Tiles(s, toks, Scan(s, toks, p, seg), seg, afterEmpty)
    decreases |s| + 1 - p
  {
    if p > |s| {
      TilesAtEnd(s, toks, seg, afterEmpty);
    } else {
      var m := MatchAt(s, toks, p);
      MatchAtIsSpan(s, toks, p);
      if m.None? {
        NoMatchGrows(s, toks, if afterEmpty then seg + 1 else seg, p);
        ScanTiles(s, toks, p + 1, seg, afterEmpty);
        ScanSkips(s, toks, p, seg);
      } else {
        var e := m.value;
        var next := if e == p then p + 1 else e;
        assert NoMatchIn(s, toks, if e == p then e + 1 else e, next);
        ScanTiles(s, toks, next, e, e == p);
        assert Scan(s, toks, p, seg) == Emit(s[seg..p]) + [Strong(s[p..e])] + Scan(s, toks, next, e);
        TilesAtMatch(s, toks, seg, p, e, afterEmpty, Scan(s, toks, next, e));
      }
    }
  }

  /** The segments of `highlight` tile the name, each highlighted span is a
      match of one token's alternative at its offset (it starts at the start
      of the name or at a white-space character, continues with non-letters
      and ends with the token, ignoring case), and no match was skipped: the
      leftmost match is always the one taken. */
  lemma HighlightTiles(name: string, query: string)
    ensures Tiles(name, Split(query, ' '), Highlight(name, query), 0, false)
  {
    ScanTiles(name, Split(query, ' '), 0, 0, false);
  }

  /** Highlighting only inserts markers: the segments spell out the name. */
  lemma HighlightKeepsText(name: string, query: string)
    ensures Content(Highlight(name, query)) == name
  {
  }

  predicate AllPlain(segs: seq<Segment>) {
    forall i :: 0 <= i < |segs| ==> segs[i].Plain?
  }

  lemma {:induction false} RenderAllPlain(segs: seq<Segment>)
    ensures Render(segs) == Content(segs) <==> AllPlain(segs)
    decreases |segs|
  {
    if segs != [] {
      RenderAllPlain(segs[1..]);
      RenderLength(segs[1..]);
      if segs[0].Strong? {
        assert |Render(segs)| > |Content(segs)|;
      } else {
        var t := segs[0].text;
        assert Render(segs) == t + Render(segs[1..]);
        assert Content(segs) == t + Content(segs[1..]);
        if Render(segs) == Content(segs) {
          assert Render(segs[1..]) == Render(segs)[|t|..] == Content(segs)[|t|..] == Content(segs[1..]);
        }
        assert AllPlain(segs) <==> AllPlain(segs[1..]) by {
          if AllPlain(segs[1..]) {
            forall i | 0 <= i < |segs| ensures segs[i].Plain? {
              if i > 0 {
                assert segs[i] == segs[1..][i - 1];
              }
            }
          }
        }
      }
    }
  }

  lemma {:induction false} RenderLength(segs: seq<Segment>)
    ensures |Render(segs)| >= |Content(segs)|
    decreases |segs|
  {
    if segs != [] {
      RenderLength(segs[1..]);
    }
  }

  lemma {:induction false} TilesWithoutStrong(s: string, toks: seq<string>, segs: seq<Segment>, o: nat)
    requires o <= |s|
    requires Tiles(s, toks, segs, o, false)
    requires AllPlain(segs)
    ensures NoMatchIn(s, toks, o, |s| + 1)
    decreases |segs|
  {
    if segs != [] {
      var t := segs[0].text;
      assert AllPlain(segs[1..]) by {
        forall i | 0 <= i < |segs[1..]| ensures segs[1..][i].Plain? {
          assert segs[1..][i] == segs[i + 1];
        }
      }
      TilesWithoutStrong(s, toks, segs[1..], o + |t|);
    }
  }

  lemma {:induction false} TilesWithoutMatch(s: string, toks: seq<string>, segs: seq<Segment>, o: nat, afterEmpty: bool)
    requires o <= |s|
    requires Tiles(s, toks, segs, o, afterEmpty)
    requires NoMatchIn(s, toks, 0, |s| + 1)
    ensures AllPlain(segs)
    decreases |segs|
  {
    if segs != [] {
      var t := segs[0].text;
      TilesWithoutMatch(s, toks, segs[1..], o + |t|, segs[0].Strong? && t == []);
      forall i | 0 <= i < |segs| ensures segs[i].Plain? {
        if i > 0 {
          assert segs[i] == segs[1..][i - 1];
        }
      }
    }
  }

  /** The output equals the input exactly when no token can match anywhere in
      the name; otherwise at least one pair of markers is inserted. */
  lemma HighlightUnchangedIffNoMatch(name: string, query: string)
    ensures HighlightHtml(name, query) == name <==> NoMatchIn(name, Split(query, ' '), 0, |name| + 1)
  {
    var toks := Split(query, ' ');
    var segs := Highlight(name, query);
    HighlightTiles(name, query);
    RenderAllPlain(segs);
    if AllPlain(segs) {
      TilesWithoutStrong(name, toks, segs, 0);
    }
    if NoMatchIn(name, toks, 0, |name| + 1) {
      TilesWithoutMatch(name, toks, segs, 0, false);
    }
  }

  // ----- An example ------------------------------------------------------------

  lemma HistMatchesInAPHistory(s: string, toks: seq<string>)
    requires s == "AP History" && toks == ["Hist"]
    ensures forall p :: 0 <= p < 2 ==> MatchAt(s, toks, p) == None
    ensures MatchAt(s, toks, 2) == Some(7)
    ensures forall p :: 7 <= p <= |s| ==> MatchAt(s, toks, p) == None
  {
    NoHistBeforeTwo(s, toks);
    HistAtTwo(s, toks);
    NoHistAfterSeven(s, toks);
  }

  lemma NoHistBeforeTwo(s: string, toks: seq<string>)
    requires s == "AP History" && toks == ["Hist"]
    ensures forall p :: 0 <= p < 2 ==> MatchAt(s, toks, p) == None
  {
    var t := toks[0];
    assert !EqI(s[0], t[0]);
    assert RunEnd(s, 0) == 0;
  }

  lemma HistAtTwo(s: string, toks: seq<string>)
    requires s == "AP History" && toks == ["Hist"]
    ensures MatchAt(s, toks, 2) == Some(7)
  {
    var t := toks[0];
    assert OccursAtI(s, t, 3);
    assert RunEnd(s, 3) == 3;
    assert AltMatchAt(s, t, 2) == Some(7);
  }

  lemma NoHistAfterSeven(s: string, toks: seq<string>)
    requires s == "AP History" && toks == ["Hist"]
    ensures forall p :: 7 <= p <= |s| ==> MatchAt(s, toks, p) == None
  {
    forall p | 7 <= p <= 10 ensures MatchAt(s, toks, p) == None {
      if p < 10 {
        assert s[p] in "istory";
      }
    }
  }

  lemma ScanSkips(s: string, toks: seq<string>, p: nat, seg: nat)
    requires seg <= p <= |s|
    requires MatchAt(s, toks, p) == None
    ensures Scan(s, toks, p, seg) == Scan(s, toks, p + 1, seg)
  {
  }

  lemma ScanTakes(s: string, toks: seq<string>, p: nat, seg: nat, e: nat)
    requires seg <= p < e <= |s|
    requires MatchAt(s, toks, p) == Some(e)
    ensures Scan(s, toks, p, seg) == Emit(s[seg..p]) + [Strong(s[p..e])] + Scan(s, toks, e, e)
  {
  }

  /** Positions with no match leave the scan's output unchanged. */
  lemma {:induction false} ScanSkipsRun(s: string, toks: seq<string>, p: nat, q: nat, seg: nat)
    requires seg <= p <= q <= |s| + 1 && seg <= |s|
    requires forall r :: p <= r < q ==> MatchAt(s, toks, r) == None
    ensures Scan(s, toks, p, seg) == Scan(s, toks, q, seg)
    decreases q - p
  {
    if p < q {
      ScanSkips(s, toks, p, seg);
      ScanSkipsRun(s, toks, p + 1, q, seg);
    }
  }

  /** The scan of a name in which exactly one position, `p`, starts a match,
      one that ends at `e > p`. */
  lemma ScanOneMatch(s: string, toks: seq<string>, p: nat, e: nat)
    requires p < e <= |s|
    requires forall r :: 0 <= r < p ==> MatchAt(s, toks, r) == None
    requires MatchAt(s, toks, p) == Some(e)
    requires forall r :: e <= r <= |s| ==> MatchAt(s, toks, r) == None
    ensures Scan(s, toks, 0, 0) == Emit(s[..p]) + [Strong(s[p..e])] + Emit(s[e..])
  {
    ScanSkipsRun(s, toks, e, |s| + 1, e);
    ScanTakes(s, toks, p, 0, e);
    ScanSkipsRun(s, toks, 0, p, 0);
  }

  /** The markup of a plain-strong-plain sequence. */
  lemma RenderThree(a: string, b: string, c: string)
    ensures Render([Plain(a), Strong(b), Plain(c)]) == a + "<strong>" + b + "</strong>" + c
  {
    var segs := [Plain(a), Strong(b), Plain(c)];
    assert segs[1..] == [Strong(b), Plain(c)];
    assert segs[1..][1..] == [Plain(c)];
    assert Render([Plain(c)]) == c by {
      assert [Plain(c)][1..] == [];
    }
  }

  /** The HTML for a name with one match strictly inside it. */
  lemma OneMatchHtml(s: string, toks: seq<string>, p: nat, e: nat)
    requires 0 < p < e < |s|
    requires forall r :: 0 <= r < p ==> MatchAt(s, toks, r) == None
    requires MatchAt(s, toks, p) == Some(e)
    requires forall r :: e <= r <= |s| ==> MatchAt(s, toks, r) == None
    ensures Render(Scan(s, toks, 0, 0)) == s[..p] + "<strong>" + s[p..e] + "</strong>" + s[e..]
  {
    ScanOneMatch(s, toks, p, e);
    EmitThree(s[..p], s[p..e], s[e..]);
    RenderThree(s[..p], s[p..e], s[e..]);
  }

  lemma EmitThree(a: string, b: string, c: string)
    requires a != [] && c != []
    ensures Emit(a) + [Strong(b)] + Emit(c) == [Plain(a), Strong(b), Plain(c)]
  {
  }

  lemma ExampleMarkup()
    ensures "AP" + "<strong>" + " Hist" + "</strong>" + "ory" == "AP<strong> Hist</strong>ory"
  {
  }

  lemma APHistorySlices(s: string)
    requires s == "AP History"
    ensures s[..2] == "AP" && s[2..7] == " Hist" && s[7..] == "ory"
  {
  }

  /** Highlighting 'AP History' for the query 'Hist' marks the second word
      together with the white space in front of it. */
  lemma HighlightExample(name: string, query: string)
    requires name == "AP History" && query == "Hist"
    ensures HighlightHtml(name, query) == "AP<strong> Hist</strong>ory"
  {
    var toks := Split(query, ' ');
    assert toks == ["Hist"];
    HistMatchesInAPHistory(name, toks);
    OneMatchHtml(name, toks, 2, 7);
    assert HighlightHtml(name, query) == Render(Scan(name, toks, 0, 0));
    APHistorySlices(name);
    ExampleMarkup();
  }
}
