/** Character classes and string helpers shared by the search and slug code.

    JavaScript strings are modelled as `seq<char>`. Case folding is ASCII only:
    `toLowerCase` and the regex `i` flag are modelled on the letters A-Z. */
module Text {

  /** The ECMAScript `\s` class, which is also exactly what `String.prototype.trim`
      removes: the WhiteSpace code points plus the LineTerminator code points. */
  predicate IsSpace(c: char) {
    || c == '\t' || c == '\n' || c == '\U{B}' || c == '\U{C}' || c == '\r' || c == ' '
    || c == '\U{A0}' || c == '\U{1680}' || ('\U{2000}' <= c <= '\U{200A}')
    || c == '\U{2028}' || c == '\U{2029}' || c == '\U{202F}' || c == '\U{205F}'
    || c == '\U{3000}' || c == '\U{FEFF}'
  }

  /** The ECMAScript LineTerminator code points: what the regex `.` refuses. */
  predicate IsLineTerminator(c: char) {
    c == '\n' || c == '\r' || c == '\U{2028}' || c == '\U{2029}'
  }

  /** What `[a-z]` accepts under the `i` flag: an ASCII letter of either case. */
  predicate IsLetter(c: char) {
    ('a' <= c <= 'z') || ('A' <= c <= 'Z')
  }

  function LowerChar(c: char): char {
    if 'A' <= c <= 'Z' then (c as int + 32) as char else c
  }

  /** `s.toLowerCase()`, on ASCII letters. */
  function Lower(s: string): (r: string)
    ensures |r| == |s|
    ensures forall k :: 0 <= k < |s| ==> r[k] == LowerChar(s[k])
  {
    seq(|s|, k requires 0 <= k < |s| => LowerChar(s[k]))
  }

  /** Two characters are equal under the regex `i` flag. */
  predicate EqI(a: char, b: char) {
    LowerChar(a) == LowerChar(b)
  }

  /** The literal `t` occurs in `s` at position `j`, ignoring case. */
  predicate OccursAtI(s: string, t: string, j: int) {
    0 <= j && j + |t| <= |s| && forall k :: 0 <= k < |t| ==> EqI(s[j + k], t[k])
  }

  /** `s[from..to]` is a run of `[^a-z]` under the `i` flag. */
  predicate NonLetters(s: string, from: int, to: int)
    requires 0 <= from <= to <= |s|
  {
    forall k :: from <= k < to ==> !IsLetter(s[k])
  }

  /** `s[from..to]` can be consumed by the regex `.*`. */
  predicate NoLineBreak(s: string, from: int, to: int)
    requires 0 <= from <= to <= |s|
  {
    forall k :: from <= k < to ==> !IsLineTerminator(s[k])
  }

  /** Lower-casing leaves every character class the regexes use unchanged. */
  lemma LowerCharKeepsClasses(c: char)
    ensures IsSpace(LowerChar(c)) == IsSpace(c)
    ensures IsLineTerminator(LowerChar(c)) == IsLineTerminator(c)
    ensures IsLetter(LowerChar(c)) == IsLetter(c)
    ensures LowerChar(LowerChar(c)) == LowerChar(c)
    ensures LowerChar(c) == ' ' <==> c == ' '
  {
  }

  // ----- String.prototype.split and its inverse ------------------------------

  /** The first index of `c` in `s`. */
  function IndexOf(s: string, c: char): (i: nat)
    requires c in s
    ensures i < |s| && s[i] == c && c !in s[..i]
  {
    if s[0] == c then 0
    else
      var i := 1 + IndexOf(s[1..], c);
      assert s[..i] == [s[0]] + s[1..][..i - 1];
      i
  }

  /** `toks.join(sep)`. */
  function Join(toks: seq<string>, sep: char): string
    requires |toks| >= 1
  {
    if |toks| == 1 then toks[0] else toks[0] + [sep] + Join(toks[1..], sep)
  }

  /** `s.split(sep)` for a one-character separator: every occurrence of `sep`
      cuts, so two separators in a row give an empty piece, and the empty string
      gives one empty piece. */
  function Split(s: string, sep: char): (r: seq<string>)
    ensures |r| >= 1
    ensures forall i :: 0 <= i < |r| ==> sep !in r[i]
    ensures Join(r, sep) == s
    decreases |s|
  {
    if sep !in s then [s]
    else
      var i := IndexOf(s, sep);
      var rest := Split(s[i + 1..], sep);
      assert ([s[..i]] + rest)[1..] == rest;
      assert s == s[..i] + [sep] + s[i + 1..];
      [s[..i]] + rest
  }

  /** Splitting undoes joining, when no piece holds the separator. */
  lemma {:induction false} SplitJoin(toks: seq<string>, sep: char)
    requires |toks| >= 1
    requires forall i :: 0 <= i < |toks| ==> sep !in toks[i]
    ensures Split(Join(toks, sep), sep) == toks
    decreases |toks|
  {
    if |toks| > 1 {
      var rest := Join(toks[1..], sep);
      SplitFirstPiece(toks[0], rest, sep);
      SplitJoin(toks[1..], sep);
      assert toks == [toks[0]] + toks[1..];
    }
  }

  /** The first piece of a split ends at the first separator. */
  lemma SplitFirstPiece(a: string, b: string, sep: char)
    requires sep !in a
    ensures Split(a + [sep] + b, sep) == [a] + Split(b, sep)
  {
    var s := a + [sep] + b;
    FirstSeparator(a, b, sep);
    assert s[..|a|] == a;
    assert s[|a| + 1..] == b;
  }

  lemma FirstSeparator(a: string, b: string, sep: char)
    requires sep !in a
    ensures sep in a + [sep] + b && IndexOf(a + [sep] + b, sep) == |a|
  {
    var s := a + [sep] + b;
    assert s[|a|] == sep;
    assert s[..|a|] == a;
  }

  lemma {:induction false} JoinAppend(a: seq<string>, b: seq<string>, sep: char)
    requires |a| >= 1 && |b| >= 1
    ensures Join(a + b, sep) == Join(a, sep) + [sep] + Join(b, sep)
    decreases |a|
  {
    if |a| == 1 {
      assert (a + b)[1..] == b;
    } else {
      assert (a + b)[1..] == a[1..] + b;
      JoinAppend(a[1..], b, sep);
    }
  }

  /** Every piece of a join sits in the joined string between separators (or
      the ends). */
  lemma {:induction false} PieceOfJoin(toks: seq<string>, sep: char, i: nat) returns (o: nat)
    requires 0 <= i < |toks|
    ensures o + |toks[i]| <= |Join(toks, sep)|
    ensures Join(toks, sep)[o..o + |toks[i]|] == toks[i]
    ensures o == 0 || Join(toks, sep)[o - 1] == sep
    ensures o + |toks[i]| == |Join(toks, sep)| || Join(toks, sep)[o + |toks[i]|] == sep
    decreases i
  {
    var s := Join(toks, sep);
    if i == 0 {
      o := 0;
      if |toks| > 1 {
        assert s == toks[0] + [sep] + Join(toks[1..], sep);
      }
    } else {
      var rest := Join(toks[1..], sep);
      assert s == toks[0] + [sep] + rest;
      var o' := PieceOfJoin(toks[1..], sep, i - 1);
      o := |toks[0]| + 1 + o';
      assert s[o..o + |toks[i]|] == rest[o'..o' + |toks[i]|];
    }
  }

  /** Splitting at a separator splits the pieces: the query `q1 + " " + q2`
      has the tokens of `q1` followed by the tokens of `q2`. */
  lemma SplitAppend(a: string, b: string, sep: char)
    ensures Split(a + [sep] + b, sep) == Split(a, sep) + Split(b, sep)
  {
    var ta, tb := Split(a, sep), Split(b, sep);
    JoinAppend(ta, tb, sep);
    SplitJoin(ta + tb, sep);
  }

  // ----- String.prototype.trim ----------------------------------------------

  /** `s[from..to]` is all white space. */
  predicate SpacesIn(s: string, from: int, to: int)
    requires 0 <= from <= to <= |s|
  {
    forall k :: from <= k < to ==> IsSpace(s[k])
  }

  /** The end of the run of white space that starts at `i`. */
  function SpaceRunEnd(s: string, i: nat): (k: nat)
    requires i <= |s|
    ensures i <= k <= |s| && SpacesIn(s, i, k)
    ensures k == |s| || !IsSpace(s[k])
    decreases |s| - i
  {
    if i < |s| && IsSpace(s[i]) then SpaceRunEnd(s, i + 1) else i
  }

  /** The start of the run of white space that ends at `j`, not going below
      `lo`. */
  function SpaceRunStart(s: string, lo: nat, j: nat): (k: nat)
    requires lo <= j <= |s|
    ensures lo <= k <= j && SpacesIn(s, k, j)
    ensures k == lo || !IsSpace(s[k - 1])
    decreases j - lo
  {
    if lo < j && IsSpace(s[j - 1]) then SpaceRunStart(s, lo, j - 1) else j
  }

  /** `s` is `r` with only white space before (the first `i` characters) and
      after it. */
  predicate SpaceAround(s: string, r: string, i: int) {
    0 <= i <= |s| - |r| && r == s[i..i + |r|] && SpacesIn(s, 0, i) && SpacesIn(s, i + |r|, |s|)
  }

  /** `s.trim()`: the result is the slice of `s` left after removing white space
      from both ends, and it neither starts nor ends with white space. */
  function Trim(s: string): (r: string)
    ensures exists i :: SpaceAround(s, r, i)
    ensures r == [] || (!IsSpace(r[0]) && !IsSpace(r[|r| - 1]))
  {
    var i := SpaceRunEnd(s, 0);
    var j := SpaceRunStart(s, i, |s|);
    assert SpaceAround(s, s[i..j], i);
    s[i..j]
  }

  // ----- Number to decimal string -------------------------------------------

  predicate IsDigit(c: char) {
    '0' <= c <= '9'
  }

  function DigitChar(d: nat): (c: char)
    requires d < 10
    ensures IsDigit(c) && c as int - '0' as int == d
  {
    ('0' as int + d) as char
  }

  /** `String(n)` for a non-negative integer: its decimal digits. */
  function DecimalString(n: nat): (r: string)
    ensures |r| >= 1
    ensures forall k :: 0 <= k < |r| ==> IsDigit(r[k])
    ensures r[0] == '0' ==> n == 0
    decreases n
  {
    if n < 10 then [DigitChar(n)] else DecimalString(n / 10) + [DigitChar(n % 10)]
  }

  /** The value of a string of decimal digits. */
  function DecimalValue(s: string): nat
    requires forall k :: 0 <= k < |s| ==> IsDigit(s[k])
  {
    if s == [] then 0
    else
      assert IsDigit(s[|s| - 1]);
      DecimalValue(s[..|s| - 1]) * 10 + (s[|s| - 1] as int - '0' as int)
  }

  lemma {:induction false} DecimalRoundTrip(n: nat)
    ensures DecimalValue(DecimalString(n)) == n
    decreases n
  {
    if n >= 10 {
      var r := DecimalString(n);
      assert r[..|r| - 1] == DecimalString(n / 10);
      DecimalRoundTrip(n / 10);
    }
  }

  /** Distinct numbers have distinct decimal strings. */
  lemma DecimalInjective(m: nat, n: nat)
    requires DecimalString(m) == DecimalString(n)
    ensures m == n
  {
    DecimalRoundTrip(m);
    DecimalRoundTrip(n);
  }
}
