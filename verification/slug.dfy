/** The `slug` pre-save hook of model/plugin.js: a document saved without an
    `_id` gets one made from its name. The slugified name is cut back, word by
    word, to the configured maximum length; then `name`, `name-1`, `name-2`,
    ... are looked up in turn and the first one no document uses becomes the
    `_id`.

    `_s.slugify`, the configured maximum and the database's count lookup are
    parameters. The lookup is a fixed function from ids to replies, so the
    model describes one snapshot of the collection. */
module Slug {
  import opened Wrappers
  import opened Text

  /** `initialSlug.replace(/-([^-]*)$/, '')`: the pattern matches from the
      last hyphen to the end, so the last hyphen and the word after it go. A
      slug without a hyphen does not match and comes back unchanged. */
  function DropLastWord(s: string): (r: string)
    ensures '-' !in s ==> r == s
    ensures '-' in s ==> |r| < |s| && r == s[..|r|] && s[|r|] == '-' && '-' !in s[|r| + 1..]
    decreases |s|
  {
    if '-' !in s then s
    else if s[|s| - 1] == '-' then s[..|s| - 1]
    else
      var r := DropLastWord(s[..|s| - 1]);
      assert s[|r| + 1..] == s[..|s| - 1][|r| + 1..] + [s[|s| - 1]];
      r
  }

  /** The replaced span is the only place the pattern can match: a hyphen
      with no hyphen after it. */
  lemma LastWordPatternMatchesOnce(s: string, i: int)
    requires 0 <= i < |s|
    ensures s[i] == '-' && '-' !in s[i + 1..] <==> '-' in s && i == |DropLastWord(s)|
  {
    if s[i] == '-' && '-' !in s[i + 1..] {
      assert s[i] in s;
    }
  }

  /** Position `k` is where a word of `s` ends: before a hyphen or at the end.
      The prefixes the truncation loop can produce are the `s[..k]` of these. */
  predicate IsCut(s: string, k: int) {
    0 <= k <= |s| && (k == |s| || s[k] == '-')
  }

  lemma CutsOfDropped(s: string, k: int)
    requires '-' in s
    ensures IsCut(DropLastWord(s), k) <==> IsCut(s, k) && k <= |DropLastWord(s)|
  {
  }

  /** What the loop `while (initialSlug.length > maxSlugLength)` leaves: the
      longest word-boundary prefix that fits. `None` means the loop never
      ends, which happens exactly when even the first word is too long: once
      no hyphen is left, the replace changes nothing and the length stays
      over the limit. */
  function FitSlug(s: string, maxLen: nat): (r: Option<string>)
    ensures r.None? <==> forall k :: IsCut(s, k) ==> k > maxLen
    ensures r.Some? ==> |r.value| <= maxLen && IsCut(s, |r.value|) && r.value == s[..|r.value|]
    ensures r.Some? ==> forall k :: IsCut(s, k) && k <= maxLen ==> k <= |r.value|
    decreases |s|
  {
    if |s| <= maxLen then
      assert IsCut(s, |s|);
      Some(s)
    else if '-' !in s then
      None
    else
      var d := DropLastWord(s);
      forall k ensures IsCut(d, k) <==> IsCut(s, k) && k <= |d| {
        CutsOfDropped(s, k);
      }
      var r := FitSlug(d, maxLen);
      if r.Some? then
        assert r.value == s[..|r.value|] by {
          assert s[..|r.value|] == s[..|d|][..|r.value|];
        }
        assert IsCut(s, |r.value|) by {
          assert IsCut(d, |r.value|);
        }
        r
      else r
  }

  /** The state of `initialSlug` after `n` turns of the truncation loop. */
  function LoopState(s: string, maxLen: nat, n: nat): string {
    if n == 0 || |s| <= maxLen then s else LoopState(DropLastWord(s), maxLen, n - 1)
  }

  /** `FitSlug` is what the loop computes: when it is `Some`, the loop stops
      there after finitely many turns; when it is `None`, the loop condition
      holds after every number of turns. */
  lemma {:induction false} FitSlugIsLoopResult(s: string, maxLen: nat)
    ensures FitSlug(s, maxLen).Some? ==> exists n: nat :: LoopState(s, maxLen, n) == FitSlug(s, maxLen).value
    ensures FitSlug(s, maxLen).None? ==> forall n: nat :: |LoopState(s, maxLen, n)| > maxLen
    decreases |s|
  {
    if |s| <= maxLen {
      assert LoopState(s, maxLen, 0) == s;
    } else if '-' !in s {
      forall n: nat ensures |LoopState(s, maxLen, n)| > maxLen {
        HyphenlessLoopIsStuck(s, maxLen, n);
      }
    } else {
      var d := DropLastWord(s);
      FitSlugIsLoopResult(d, maxLen);
      if FitSlug(s, maxLen).Some? {
        var n: nat :| LoopState(d, maxLen, n) == FitSlug(d, maxLen).value;
        assert LoopState(s, maxLen, n + 1) == LoopState(d, maxLen, n);
      } else {
        forall n: nat ensures |LoopState(s, maxLen, n)| > maxLen {
          if n > 0 {
            assert LoopState(s, maxLen, n) == LoopState(d, maxLen, n - 1);
          }
        }
      }
    }
  }

  /** A slug longer than the limit with no hyphen keeps the loop spinning. */
  lemma {:induction false} HyphenlessLoopIsStuck(s: string, maxLen: nat, n: nat)
    requires '-' !in s && |s| > maxLen
    ensures LoopState(s, maxLen, n) == s
    decreases n
  {
    if n > 0 {
      HyphenlessLoopIsStuck(s, maxLen, n - 1);
    }
  }

  /** `potentialSlug` on try `num`: the slug itself first, then with `-1`,
      `-2`, ... appended. */
  function PotentialSlug(initial: string, num: nat): (r: string)
    ensures num == 0 ==> r == initial
    ensures num > 0 ==> |r| > |initial| + 1 && r[..|initial| + 1] == initial + "-"
  {
    if num == 0 then initial else initial + "-" + DecimalString(num)
  }

  /** After the hyphen, a numbered try carries only digits, and they read
      back as the try number. */
  lemma PotentialSlugSuffix(initial: string, num: nat)
    requires num > 0
    ensures var r := PotentialSlug(initial, num);
            && (forall k :: |initial| + 1 <= k < |r| ==> IsDigit(r[k]))
            && DecimalValue(r[|initial| + 1..]) == num
  {
    var r := PotentialSlug(initial, num);
    assert r[|initial| + 1..] == DecimalString(num);
    DecimalRoundTrip(num);
  }

  /** Different tries ask for different ids, so a search never repeats a
      lookup. */
  lemma PotentialSlugInjective(initial: string, m: nat, n: nat)
    requires PotentialSlug(initial, m) == PotentialSlug(initial, n)
    ensures m == n
  {
    if m > 0 && n > 0 {
      var p := |initial| + 1;
      assert DecimalString(m) == PotentialSlug(initial, m)[p..];
      assert DecimalString(n) == PotentialSlug(initial, n)[p..];
      DecimalInjective(m, n);
    }
  }

  /** The ids asked for in the first `num` tries. */
  ghost function Tried(initial: string, num: nat): set<string> {
    if num == 0 then {} else Tried(initial, num - 1) + {PotentialSlug(initial, num - 1)}
  }

  lemma {:induction false} TriedMembers(initial: string, num: nat, id: string)
    ensures id in Tried(initial, num) <==> exists k :: 0 <= k < num && id == PotentialSlug(initial, k)
    decreases num
  {
    if num > 0 {
      TriedMembers(initial, num - 1, id);
    }
  }

  lemma {:induction false} TriedSize(initial: string, num: nat)
    ensures |Tried(initial, num)| == num
    decreases num
  {
    if num > 0 {
      TriedSize(initial, num - 1);
      var last := PotentialSlug(initial, num - 1);
      TriedMembers(initial, num - 1, last);
      if last in Tried(initial, num - 1) {
        var k :| 0 <= k < num - 1 && last == PotentialSlug(initial, k);
        PotentialSlugInjective(initial, k, num - 1);
      }
    }
  }

  /** Answer of `Model.count({ _id: id }, cb)`. */
  datatype CountReply = Count(n: nat) | LookupError(err: string)

  /** The collection snapshot: every id the lookup reports as used is one of
      the finitely many `taken` ids. */
  ghost predicate CountsWithin(count: string -> CountReply, taken: set<string>) {
    forall id :: count(id).Count? && count(id).n > 0 ==> id in taken
  }

  /** How the `async.whilst` loop ends, with the ids it asked for in order. */
  datatype SearchOutcome =
    | Assigned(id: string, asked: seq<string>)
    | Failed(err: string, asked: seq<string>)

  /** The ids a search asks for are the candidates in order, each but the
      last already in use, and the last one decides the outcome. */
  ghost predicate SearchTrace(initial: string, count: string -> CountReply, r: SearchOutcome) {
    && |r.asked| >= 1
    && (forall k :: 0 <= k < |r.asked| ==> r.asked[k] == PotentialSlug(initial, k))
    && (forall k :: 0 <= k < |r.asked| - 1 ==> count(r.asked[k]).Count? && count(r.asked[k]).n > 0)
    && (r.Assigned? ==> r.id == r.asked[|r.asked| - 1] && count(r.id) == Count(0))
    && (r.Failed? ==> count(r.asked[|r.asked| - 1]) == LookupError(r.err))
  }

  /** The `whilst` loop from try `num` on, after tries `0 .. num - 1` found
      their ids in use. Each try that finds its id in use names another
      member of `taken`, which bounds the number of tries. */
  function SearchFrom(initial: string, count: string -> CountReply, taken: set<string>, num: nat, asked: seq<string>): (r: SearchOutcome)
    requires CountsWithin(count, taken)
    requires |asked| == num
    requires forall k :: 0 <= k < num ==> asked[k] == PotentialSlug(initial, k)
    requires forall k :: 0 <= k < num ==> count(asked[k]).Count? && count(asked[k]).n > 0
    ensures num < |r.asked| <= |taken| + 1
    ensures r.asked[..num] == asked
    ensures SearchTrace(initial, count, r)
    decreases |taken| - num
  {
    AllTriedTaken(initial, count, taken, num, asked);
    var potential := PotentialSlug(initial, num);
    var now := asked + [potential];
    match count(potential)
    case LookupError(e) =>
      LastTry(initial, count, asked, Failed(e, now));
      Failed(e, now)
    case Count(n) =>
      if n == 0 then
        LastTry(initial, count, asked, Assigned(potential, now));
        Assigned(potential, now)
      else
        TakenExtends(initial, count, asked, now);
        AllTriedTaken(initial, count, taken, num + 1, now);
        var r := SearchFrom(initial, count, taken, num + 1, now);
        PrefixOfPrefix(r.asked, asked, now);
        r
  }

  /** A search that stops on the try after `asked`. */
  lemma PrefixOfPrefix(xs: seq<string>, asked: seq<string>, now: seq<string>)
    requires |now| == |asked| + 1 && now[..|asked|] == asked
    requires |now| <= |xs| && xs[..|now|] == now
    ensures xs[..|asked|] == asked
  {
    assert xs[..|asked|] == xs[..|now|][..|asked|];
  }

  /** A candidate found taken joins the list of candidates asked about. */
  lemma TakenExtends(initial: string, count: string -> CountReply, asked: seq<string>, now: seq<string>)
    requires forall k :: 0 <= k < |asked| ==> asked[k] == PotentialSlug(initial, k)
    requires forall k :: 0 <= k < |asked| ==> count(asked[k]).Count? && count(asked[k]).n > 0
    requires now == asked + [PotentialSlug(initial, |asked|)]
    requires count(now[|asked|]).Count? && count(now[|asked|]).n > 0
    ensures forall k :: 0 <= k < |now| ==> now[k] == PotentialSlug(initial, k)
    ensures forall k :: 0 <= k < |now| ==> count(now[k]).Count? && count(now[k]).n > 0
  {
    forall k | 0 <= k < |now| ensures now[k] == PotentialSlug(initial, k) && count(now[k]).Count? && count(now[k]).n > 0 {
      if k < |asked| {
        assert now[k] == asked[k];
      }
    }
  }

  lemma LastTry(initial: string, count: string -> CountReply, asked: seq<string>, r: SearchOutcome)
    requires forall k :: 0 <= k < |asked| ==> asked[k] == PotentialSlug(initial, k)
    requires forall k :: 0 <= k < |asked| ==> count(asked[k]).Count? && count(asked[k]).n > 0
    requires r.asked == asked + [PotentialSlug(initial, |asked|)]
    requires r.Assigned? ==> r.id == PotentialSlug(initial, |asked|) && count(r.id) == Count(0)
    requires r.Failed? ==> count(PotentialSlug(initial, |asked|)) == LookupError(r.err)
    ensures SearchTrace(initial, count, r)
  {
    var n := |asked|;
    assert |r.asked| == n + 1 && r.asked[n] == PotentialSlug(initial, n);
    forall k | 0 <= k < n + 1 ensures r.asked[k] == PotentialSlug(initial, k) {
      if k < n {
        assert r.asked[k] == asked[k];
      }
    }
    forall k | 0 <= k < n ensures count(r.asked[k]).Count? && count(r.asked[k]).n > 0 {
      assert r.asked[k] == asked[k];
    }
  }

  /** The ids found in use so far are distinct members of `taken`. */
  lemma AllTriedTaken(initial: string, count: string -> CountReply, taken: set<string>, num: nat, asked: seq<string>)
    requires CountsWithin(count, taken)
    requires |asked| == num
    requires forall k :: 0 <= k < num ==> asked[k] == PotentialSlug(initial, k)
    requires forall k :: 0 <= k < num ==> count(asked[k]).Count? && count(asked[k]).n > 0
    ensures num <= |taken|
  {
    forall id | id in Tried(initial, num) ensures id in taken {
      TriedMembers(initial, num, id);
      var k :| 0 <= k < num && id == PotentialSlug(initial, k);
      assert count(asked[k]).n > 0;
    }
    TriedSize(initial, num);
    var t := Tried(initial, num);
    assert taken == t + (taken - t);
  }

  /** The document as the hook sees it. An `_id` counts as set when it is
      present and not the empty string, as `if (doc._id)` reads it. */
  datatype Doc = Doc(id: Option<string>, name: string)

  predicate HasId(doc: Doc) {
    doc.id.Some? && doc.id.value != ""
  }

  /** How a save through the hook ends: `next()` with the document (and the
      lookups made), `next(err)` with the document untouched, or never. */
  datatype HookOutcome =
    | Saved(doc: Doc, asked: seq<string>)
    | Aborted(err: string, doc: Doc, asked: seq<string>)
    | Loops

  /** The pre-save hook. */
  function SlugHook(doc: Doc, slugify: string -> string, maxLen: nat,
                    count: string -> CountReply, taken: set<string>): (r: HookOutcome)
    requires CountsWithin(count, taken)
    ensures HasId(doc) ==> r == Saved(doc, [])
    ensures !HasId(doc) ==> (r.Loops? <==> FitSlug(slugify(doc.name), maxLen).None?)
    ensures r.Aborted? ==> r.doc == doc && 1 <= |r.asked| <= |taken| + 1
    ensures r.Aborted? ==> count(r.asked[|r.asked| - 1]) == LookupError(r.err)
    ensures !HasId(doc) && !r.Loops? ==>
              forall k :: 0 <= k < |r.asked| - 1 ==> count(r.asked[k]).Count? && count(r.asked[k]).n > 0
    ensures r.Saved? && !HasId(doc) ==>
              && 1 <= |r.asked| <= |taken| + 1
              && r.doc == doc.(id := Some(r.asked[|r.asked| - 1]))
              && count(r.asked[|r.asked| - 1]) == Count(0)
  {
    if HasId(doc) then Saved(doc, [])
    else
      match FitSlug(slugify(doc.name), maxLen)
      case None => Loops
      case Some(initial) =>
        var o := SearchFrom(initial, count, taken, 0, []);
        match o
        case Assigned(id, asked) => Saved(doc.(id := Some(id)), asked)
        case Failed(err, asked) => Aborted(err, doc, asked)
  }

  /** The search the hook runs is the candidate sequence cut at the first id
      not in use (or at the first lookup error): every id before the one
      assigned is already taken, and the one assigned is not. */
  lemma HookTriesInOrder(doc: Doc, slugify: string -> string, maxLen: nat,
                         count: string -> CountReply, taken: set<string>)
    requires CountsWithin(count, taken)
    requires !HasId(doc) && FitSlug(slugify(doc.name), maxLen).Some?
    ensures var r := SlugHook(doc, slugify, maxLen, count, taken);
            var initial := FitSlug(slugify(doc.name), maxLen).value;
            && !r.Loops?
            && |r.asked| >= 1
            && (forall k :: 0 <= k < |r.asked| ==> r.asked[k] == PotentialSlug(initial, k))
            && (forall k :: 0 <= k < |r.asked| - 1 ==> count(r.asked[k]).Count? && count(r.asked[k]).n > 0)
            && (forall k :: 0 <= k < |r.asked| - 1 ==> r.asked[k] in taken)
            && (r.Saved? ==> r.doc.id == Some(PotentialSlug(initial, |r.asked| - 1)))
            && (r.Saved? ==> count(PotentialSlug(initial, |r.asked| - 1)) == Count(0))
            && (r.Aborted? ==> count(PotentialSlug(initial, |r.asked| - 1)) == LookupError(r.err))
  {
    var initial := FitSlug(slugify(doc.name), maxLen).value;
    var o := SearchFrom(initial, count, taken, 0, []);
    assert SearchTrace(initial, count, o);
    forall k | 0 <= k < |o.asked| - 1 ensures o.asked[k] in taken {
      assert count(o.asked[k]).n > 0;
    }
  }

  /** A failed first lookup aborts the save at once with that lookup's
      error: nothing further is looked up and no `_id` is assigned. */
  lemma FirstLookupErrorAborts(doc: Doc, slugify: string -> string, maxLen: nat,
                               count: string -> CountReply, taken: set<string>, e: string)
    requires CountsWithin(count, taken)
    requires !HasId(doc) && FitSlug(slugify(doc.name), maxLen).Some?
    requires count(FitSlug(slugify(doc.name), maxLen).value) == LookupError(e)
    ensures SlugHook(doc, slugify, maxLen, count, taken) == Aborted(e, doc, [FitSlug(slugify(doc.name), maxLen).value])
  {
    var initial := FitSlug(slugify(doc.name), maxLen).value;
    assert PotentialSlug(initial, 0) == initial;
  }

  /** With nothing in use, the slug itself is taken as the id on the first
      try. */
  lemma EmptyCollectionTakesSlug(doc: Doc, slugify: string -> string, maxLen: nat, count: string -> CountReply)
    requires !HasId(doc) && FitSlug(slugify(doc.name), maxLen).Some?
    requires forall id :: count(id) == Count(0)
    ensures SlugHook(doc, slugify, maxLen, count, {}) == Saved(doc.(id := FitSlug(slugify(doc.name), maxLen)), [FitSlug(slugify(doc.name), maxLen).value])
  {
  }

  /** When the slug and its first `m` numbered variants are in use and the
      next is free, that next one is assigned after `m + 1` lookups. */
  lemma FirstFreeVariantAssigned(initial: string, count: string -> CountReply, taken: set<string>, m: nat)
    requires CountsWithin(count, taken)
    requires forall k :: 0 <= k < m ==> count(PotentialSlug(initial, k)) == Count(1)
    requires count(PotentialSlug(initial, m)) == Count(0)
    ensures SearchFrom(initial, count, taken, 0, []).id == PotentialSlug(initial, m)
    ensures |SearchFrom(initial, count, taken, 0, []).asked| == m + 1
  {
  }

  /** The twelfth numbered variant of `calculus`. */
  lemma TwelfthVariant()
    ensures PotentialSlug("calculus", 12) == "calculus-12"
  {
    assert DecimalString(12) == "12";
  }

  /** `intro-to-calculus` cut to ten characters loses its last word; a
      single word longer than the limit has no cut that fits. */
  lemma FitSlugExamples(s: string, t: string)
    requires s == "intro-to-calculus" && t == "supercalifragilistic"
    ensures FitSlug(s, 10) == Some("intro-to")
    ensures FitSlug(t, 10) == None
  {
    assert IsCut(s, 8);
    assert s[..8] == "intro-to";
    forall k | IsCut(t, k) ensures k > 10 {
      if k < |t| {
        assert t[k] in t;
      }
    }
  }
}
