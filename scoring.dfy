/**
 * Answer matching and scoring (src/utils/scoring.js).
 *
 * A typed answer is compared with each accepted answer after both are
 * normalised (lower-cased, trimmed, stripped to letters, digits and white
 * space, white-space runs collapsed).  A pair matches exactly, by an edit
 * distance of at most 2 when the accepted answer is longer than 4, or as a
 * prefix of at least 5 characters of an accepted answer longer than 8.
 */
module Scoring {

  // ---------------------------------------------------------------------
  // Characters
  // ---------------------------------------------------------------------

  /** The characters that JavaScript's `trim` removes and `\s` matches:
      the WhiteSpace and LineTerminator code points of ECMAScript. */
  predicate IsSpace(c: char) {
    c == ' ' || ('\t' <= c <= '\r') || ('\U{A0}' <= c && IsWideSpace(c))
  }

  /** The white-space code points outside ASCII. */
  predicate IsWideSpace(c: char) {
    || c == '\U{A0}' || c == '\U{1680}' || ('\U{2000}' <= c <= '\U{200A}')
    || c == '\U{2028}' || c == '\U{2029}' || c == '\U{202F}' || c == '\U{205F}'
    || c == '\U{3000}' || c == '\U{FEFF}'
  }

  predicate IsUpper(c: char) { 'A' <= c <= 'Z' }

  predicate IsLowerOrDigit(c: char) { 'a' <= c <= 'z' || '0' <= c <= '9' }

  /** A character matched by `[a-z0-9]` under the case-insensitive flag. */
  predicate IsAlnum(c: char) { IsLowerOrDigit(c) || IsUpper(c) }

  /** What `[^a-z0-9\s]/gi` leaves in place. */
  predicate IsKept(c: char) { IsAlnum(c) || IsSpace(c) }

  /** A character that may appear in a normalised string. */
  predicate IsNormalChar(c: char) { IsLowerOrDigit(c) || c == ' ' }

  function LowerChar(c: char): (d: char)
    ensures !IsUpper(d)
    ensures IsAlnum(c) <==> IsAlnum(d)
    ensures IsSpace(c) <==> IsSpace(d)
  {
    if IsUpper(c) then (c as int + 32) as char else c
  }

  // ---------------------------------------------------------------------
  // normalize
  // ---------------------------------------------------------------------

  /** `toLowerCase`, restricted to ASCII letters. */
  function Lower(s: string): (r: string)
    ensures |r| == |s|
  {
    seq(|s|, i requires 0 <= i < |s| => LowerChar(s[i]))
  }

  /** Drops the leading white space. */
  function TrimStart(s: string): (r: string)
    ensures |r| <= |s|
  {
    if s != [] && IsSpace(s[0]) then TrimStart(s[1..]) else s
  }

  /** What `TrimStart` removes is a prefix of white space, and what it keeps
      does not start with white space. */
  lemma {:induction false} TrimStartSpec(s: string)
    ensures TrimStart(s) == s[|s| - |TrimStart(s)|..]
    ensures forall i :: 0 <= i < |s| - |TrimStart(s)| ==> IsSpace(s[i])
    ensures TrimStart(s) == [] || !IsSpace(TrimStart(s)[0])
  {
    if s != [] && IsSpace(s[0]) {
      TrimStartSpec(s[1..]);
    }
  }

  /** Drops the trailing white space. */
  function TrimEnd(s: string): (r: string)
    ensures |r| <= |s|
  {
    if s != [] && IsSpace(s[|s| - 1]) then TrimEnd(s[..|s| - 1]) else s
  }

  /** What `TrimEnd` removes is a suffix of white space, and what it keeps
      does not end with white space. */
  lemma {:induction false} TrimEndSpec(s: string)
    ensures TrimEnd(s) == s[..|TrimEnd(s)|]
    ensures forall i :: |TrimEnd(s)| <= i < |s| ==> IsSpace(s[i])
    ensures TrimEnd(s) == [] || !IsSpace(TrimEnd(s)[|TrimEnd(s)| - 1])
  {
    if s != [] && IsSpace(s[|s| - 1]) {
      TrimEndSpec(s[..|s| - 1]);
    }
  }

  /** `trim`. */
  function Trim(s: string): string {
    TrimEnd(TrimStart(s))
  }

  /** `replace(/[^a-z0-9\s]/gi, '')`: keeps exactly the kept characters, in order. */
  function Strip(s: string): (r: string)
    ensures |r| <= |s|
  {
    if s == [] then []
    else if IsKept(s[0]) then [s[0]] + Strip(s[1..])
    else Strip(s[1..])
  }

  /** Only kept characters survive `Strip`, and it adds none. */
  lemma {:induction false} StripSpec(s: string)
    ensures forall i :: 0 <= i < |Strip(s)| ==> IsKept(Strip(s)[i])
    ensures forall c :: c in Strip(s) ==> c in s
  {
    if s != [] {
      StripSpec(s[1..]);
    }
  }

  /** No two spaces stand next to each other. */
  ghost predicate SingleSpaced(s: string) {
    forall i, j :: 0 <= i < j < |s| && j == i + 1 ==> !(s[i] == ' ' && s[j] == ' ')
  }

  /** `replace(/\s+/g, ' ')`: every maximal run of white space becomes one space. */
  function Collapse(s: string): (r: string)
    ensures |r| <= |s|
    decreases |s|
  {
    if s == [] then []
    else if IsSpace(s[0]) then [' '] + Collapse(TrimStart(s[1..]))
    else [s[0]] + Collapse(s[1..])
  }

  /** `Collapse` keeps emptiness and whether the string starts with white
      space, and leaves no two spaces side by side. */
  lemma {:induction false} CollapseSpec(s: string)
    ensures |Collapse(s)| == 0 <==> |s| == 0
    ensures |s| > 0 ==> (Collapse(s)[0] == ' ' <==> IsSpace(s[0]))
    ensures SingleSpaced(Collapse(s))
    decreases |s|
  {
    if s != [] {
      var t := if IsSpace(s[0]) then TrimStart(s[1..]) else s[1..];
      CollapseSpec(t);
      if IsSpace(s[0]) {
        TrimStartSpec(s[1..]);
      }
      var r := Collapse(s);
      assert r[1..] == Collapse(t);
      forall i, j | 0 <= i < j < |r| && j == i + 1
        ensures !(r[i] == ' ' && r[j] == ' ')
      {
        if i > 0 {
          assert r[i] == Collapse(t)[i - 1] && r[j] == Collapse(t)[j - 1];
        }
      }
    }
  }

  /** Collapsing a string of kept, non-upper-case characters leaves only
      normal characters. */
  lemma {:induction false} CollapseNormalChars(s: string)
    requires forall i :: 0 <= i < |s| ==> IsKept(s[i]) && !IsUpper(s[i])
    ensures forall i :: 0 <= i < |Collapse(s)| ==> IsNormalChar(Collapse(s)[i])
    decreases |s|
  {
    if s != [] {
      if IsSpace(s[0]) {
        var t := TrimStart(s[1..]);
        TrimStartSpec(s[1..]);
        assert forall i :: 0 <= i < |t| ==> t[i] == s[1..][|s| - 1 - |t| + i];
        CollapseNormalChars(t);
      } else {
        CollapseNormalChars(s[1..]);
        assert IsLowerOrDigit(s[0]);
      }
    }
  }

  /** `normalize`: lower-case, trim, strip, collapse, in the source's order. */
  function Normalize(s: string): string {
    Collapse(Strip(Trim(Lower(s))))
  }

  /** Only `a`-`z`, `0`-`9` and single spaces survive normalisation. */
  lemma NormalizeShape(s: string)
    ensures forall i :: 0 <= i < |Normalize(s)| ==> IsNormalChar(Normalize(s)[i])
    ensures SingleSpaced(Normalize(s))
  {
    var l := Lower(s);
    var t0 := TrimStart(l);
    var t := TrimEnd(t0);
    TrimStartSpec(l);
    TrimEndSpec(t0);
    assert forall i :: 0 <= i < |t| ==> t[i] == t0[i] == l[|l| - |t0| + i];
    forall c | c in t ensures !IsUpper(c) {
      var j :| 0 <= j < |t| && t[j] == c;
    }
    var u := Strip(t);
    StripSpec(t);
    forall i | 0 <= i < |u| ensures IsKept(u[i]) && !IsUpper(u[i]) {
      assert u[i] in u;
    }
    CollapseNormalChars(u);
    CollapseSpec(u);
  }

  /** The letters and digits of a string, in order. */
  function Alnums(s: string): (r: string)
    ensures |r| <= |s|
  {
    if s == [] then [] else (if IsAlnum(s[0]) then [s[0]] else []) + Alnums(s[1..])
  }

  lemma {:induction false} AlnumsAppend(a: string, b: string)
    ensures Alnums(a + b) == Alnums(a) + Alnums(b)
  {
    if a == [] {
      assert a + b == b;
    } else {
      var h := if IsAlnum(a[0]) then [a[0]] else [];
      assert (a + b)[0] == a[0];
      assert (a + b)[1..] == a[1..] + b;
      calc {
        Alnums(a + b);
        h + Alnums(a[1..] + b);
        { AlnumsAppend(a[1..], b); }
        h + (Alnums(a[1..]) + Alnums(b));
        (h + Alnums(a[1..])) + Alnums(b);
      }
    }
  }

  lemma {:induction false} AlnumsOfSpaces(s: string)
    requires forall i :: 0 <= i < |s| ==> IsSpace(s[i])
    ensures Alnums(s) == []
  {
    if s != [] {
      AlnumsOfSpaces(s[1..]);
    }
  }

  lemma AlnumsTrim(s: string)
    ensures Alnums(Trim(s)) == Alnums(s)
  {
    var t := TrimStart(s);
    TrimStartSpec(s);
    assert s == s[..|s| - |t|] + t;
    AlnumsOfSpaces(s[..|s| - |t|]);
    AlnumsAppend(s[..|s| - |t|], t);
    var e := TrimEnd(t);
    TrimEndSpec(t);
    assert t == e + t[|e|..];
    AlnumsOfSpaces(t[|e|..]);
    AlnumsAppend(e, t[|e|..]);
  }

  lemma {:induction false} AlnumsStrip(s: string)
    ensures Alnums(Strip(s)) == Alnums(s)
  {
    if s != [] {
      AlnumsStrip(s[1..]);
      if IsKept(s[0]) {
        assert ([s[0]] + Strip(s[1..]))[1..] == Strip(s[1..]);
      }
    }
  }

  lemma {:induction false} AlnumsCollapse(s: string)
    ensures Alnums(Collapse(s)) == Alnums(s)
    decreases |s|
  {
    if s != [] {
      if IsSpace(s[0]) {
        var t := TrimStart(s[1..]);
        TrimStartSpec(s[1..]);
        AlnumsCollapse(t);
        assert ([' '] + Collapse(t))[1..] == Collapse(t);
        assert s[1..] == s[1..][..|s| - 1 - |t|] + t;
        AlnumsOfSpaces(s[1..][..|s| - 1 - |t|]);
        AlnumsAppend(s[1..][..|s| - 1 - |t|], t);
      } else {
        AlnumsCollapse(s[1..]);
        assert ([s[0]] + Collapse(s[1..]))[1..] == Collapse(s[1..]);
      }
    }
  }

  /** Normalisation keeps every letter and digit of the lower-cased input, in
      order, and nothing else but spaces. */
  lemma NormalizeKeepsAlnums(s: string)
    ensures Alnums(Normalize(s)) == Alnums(Lower(s))
  {
    AlnumsTrim(Lower(s));
    AlnumsStrip(Trim(Lower(s)));
    AlnumsCollapse(Strip(Trim(Lower(s))));
  }

  /** Normalisation is not idempotent: trimming runs before stripping, so a
      space can survive at the edge. */
  lemma NormalizeNotIdempotent()
    ensures Normalize("! a") == " a" && Normalize(" a") == "a"
  {
    assert Lower("! a") == "! a";
    assert TrimEnd(TrimStart("! a")) == "! a";
    assert Strip("! a") == " a";
    assert Collapse(" a") == " a" by {
      assert TrimStart("a") == "a";
      assert Collapse("a") == "a";
    }
    assert Lower(" a") == " a";
    assert TrimStart(" a") == "a";
    assert Trim(" a") == "a";
    assert Strip("a") == "a";
  }

  // ---------------------------------------------------------------------
  // levenshtein
  // ---------------------------------------------------------------------

  function Min3(x: int, y: int, z: int): (m: int)
    ensures m <= x && m <= y && m <= z
    ensures m == x || m == y || m == z
  {
    if x <= y && x <= z then x else if y <= z then y else z
  }

  /** The Levenshtein distance: fewest single-character insertions, deletions
      and substitutions, each of cost 1, turning `a` into `b`. */
  function EditDistance(a: string, b: string): nat
    decreases |a| + |b|
  {
    if |a| == 0 then |b|
    else if |b| == 0 then |a|
    else
      Min3(EditDistance(a[..|a| - 1], b) + 1,
           EditDistance(a, b[..|b| - 1]) + 1,
           EditDistance(a[..|a| - 1], b[..|b| - 1]) + if a[|a| - 1] == b[|b| - 1] then 0 else 1)
  }

  lemma {:induction false} EditDistanceSymmetric(a: string, b: string)
    ensures EditDistance(a, b) == EditDistance(b, a)
    decreases |a| + |b|
  {
    if |a| > 0 && |b| > 0 {
      EditDistanceSymmetric(a[..|a| - 1], b);
      EditDistanceSymmetric(a, b[..|b| - 1]);
      EditDistanceSymmetric(a[..|a| - 1], b[..|b| - 1]);
    }
  }

  /** Dropping the last character of the second string lowers the distance
      by at most one. */
  lemma {:induction false} EditDistanceDropLast(x: string, y: string, c: char)
    ensures EditDistance(x, y) <= EditDistance(x, y + [c]) + 1
    decreases |x|
  {
    var yc := y + [c];
    assert yc[..|yc| - 1] == y;
    if |x| > 0 {
      var x' := x[..|x| - 1];
      EditDistanceDropLast(x', y, c);
      assert EditDistance(x, y) <= EditDistance(x', y) + 1;
    }
  }

  lemma SplitLast(s: string)
    requires |s| > 0
    ensures s == s[..|s| - 1] + [s[|s| - 1]]
  {
  }

  /** With a common last character, neither deletion beats the diagonal. */
  lemma EditDistanceDiagonal(x: string, y: string, c: char)
    ensures EditDistance(x, y) <= EditDistance(x, y + [c]) + 1
    ensures EditDistance(x, y) <= EditDistance(x + [c], y) + 1
  {
    EditDistanceDropLast(x, y, c);
    EditDistanceDropLast(y, x, c);
    EditDistanceSymmetric(x, y);
    EditDistanceSymmetric(x + [c], y);
  }

  /** The rule the source's matrix applies at cell (i, j), true of the
      distance itself: on equal last characters the diagonal is taken. */
  lemma EditDistanceStep(a: string, b: string)
    requires |a| > 0 && |b| > 0
    ensures EditDistance(a, b) ==
      if a[|a| - 1] == b[|b| - 1] then EditDistance(a[..|a| - 1], b[..|b| - 1])
      else 1 + Min3(EditDistance(a[..|a| - 1], b), EditDistance(a, b[..|b| - 1]),
                    EditDistance(a[..|a| - 1], b[..|b| - 1]))
  {
    var a', b' := a[..|a| - 1], b[..|b| - 1];
    var x, y, z := EditDistance(a', b), EditDistance(a, b'), EditDistance(a', b');
    if a[|a| - 1] == b[|b| - 1] {
      assert EditDistance(a, b) == Min3(x + 1, y + 1, z);
      SplitLast(a);
      SplitLast(b);
      EditDistanceDiagonal(a', b', a[|a| - 1]);
    } else {
      assert EditDistance(a, b) == Min3(x + 1, y + 1, z + 1);
    }
  }

  lemma {:induction false} EditDistanceSelf(a: string)
    ensures EditDistance(a, a) == 0
    decreases |a|
  {
    if |a| > 0 {
      EditDistanceSelf(a[..|a| - 1]);
    }
  }

  lemma EditDistanceEmpty(a: string)
    ensures EditDistance(a, "") == |a| && EditDistance("", a) == |a|
  {
  }

  /** The distance is at least the difference of the lengths and at most the
      longer length. */
  lemma {:induction false} EditDistanceBounds(a: string, b: string)
    ensures |a| - |b| <= EditDistance(a, b) && |b| - |a| <= EditDistance(a, b)
    ensures EditDistance(a, b) <= if |a| >= |b| then |a| else |b|
    decreases |a| + |b|
  {
    if |a| > 0 && |b| > 0 {
      EditDistanceBounds(a[..|a| - 1], b);
      EditDistanceBounds(a, b[..|b| - 1]);
      EditDistanceBounds(a[..|a| - 1], b[..|b| - 1]);
    }
  }

  /** Distance zero means equal strings. */
  lemma {:induction false} EditDistanceZero(a: string, b: string)
    ensures EditDistance(a, b) == 0 <==> a == b
    decreases |a| + |b|
  {
    if |a| > 0 && |b| > 0 && EditDistance(a, b) == 0 {
      EditDistanceZero(a[..|a| - 1], b[..|b| - 1]);
      SplitLast(a);
      SplitLast(b);
    }
    if a == b {
      EditDistanceSelf(a);
    }
  }

  /** The matrix rule at cell (i, j), stated on prefixes. */
  lemma MatrixCell(a: string, b: string, i: nat, j: nat)
    requires 1 <= i <= |a| && 1 <= j <= |b|
    ensures EditDistance(a[..i], b[..j]) ==
      if a[i - 1] == b[j - 1] then EditDistance(a[..i - 1], b[..j - 1])
      else 1 + Min3(EditDistance(a[..i - 1], b[..j]), EditDistance(a[..i], b[..j - 1]),
                    EditDistance(a[..i - 1], b[..j - 1]))
  {
    assert a[..i][..i - 1] == a[..i - 1];
    assert b[..j][..j - 1] == b[..j - 1];
    EditDistanceStep(a[..i], b[..j]);
  }

  /** `levenshtein`: the dynamic program over an (|a|+1) x (|b|+1) matrix whose
      row 0 holds j and column 0 holds i. */
  method Levenshtein(a: string, b: string) returns (d: nat)
    ensures d == EditDistance(a, b)
  {
    var matrix := new nat[|a| + 1, |b| + 1]((i, j) => if i == 0 then j else if j == 0 then i else 0);
    for i := 1 to |a| + 1
      invariant forall r, c {:trigger matrix[r, c]} :: 0 <= r < i && 0 <= c <= |b| ==>
                  matrix[r, c] == EditDistance(a[..r], b[..c])
      invariant forall r :: i <= r <= |a| ==> matrix[r, 0] == r
    {
      for j := 1 to |b| + 1
        invariant forall r, c {:trigger matrix[r, c]} :: 0 <= r < i && 0 <= c <= |b| ==>
                    matrix[r, c] == EditDistance(a[..r], b[..c])
        invariant forall c {:trigger matrix[i, c]} :: 0 <= c < j ==> matrix[i, c] == EditDistance(a[..i], b[..c])
        invariant forall r :: i < r <= |a| ==> matrix[r, 0] == r
      {
        MatrixCell(a, b, i, j);
        var cost := if a[i - 1] == b[j - 1] then matrix[i - 1, j - 1]
                    else 1 + Min3(matrix[i - 1, j], matrix[i, j - 1], matrix[i - 1, j - 1]);
        assert cost == EditDistance(a[..i], b[..j]);
        matrix[i, j] := cost;
      }
    }
    d := matrix[|a|, |b|];
    assert a[..|a|] == a && b[..|b|] == b;
  }

  // ---------------------------------------------------------------------
  // checkAnswer
  // ---------------------------------------------------------------------

  /** The three rules, applied to a normalised input `n` and a normalised
      accepted answer `m`. */
  predicate Accepts(n: string, m: string) {
    || n == m
    || (|m| > 4 && EditDistance(n, m) <= 2)
    || (|m| > 8 && n <= m && |n| >= 5)
  }

  /** `acceptedAnswers.some(...)`, short-circuiting on the first match. */
  function AnyAccepts(n: string, acceptedAnswers: seq<string>): bool {
    acceptedAnswers != [] &&
    (Accepts(n, Normalize(acceptedAnswers[0])) || AnyAccepts(n, acceptedAnswers[1..]))
  }

  lemma {:induction false} AnyAcceptsSpec(n: string, acceptedAnswers: seq<string>)
    ensures AnyAccepts(n, acceptedAnswers) <==>
              exists k :: 0 <= k < |acceptedAnswers| && Accepts(n, Normalize(acceptedAnswers[k]))
  {
    if acceptedAnswers != [] {
      var rest := acceptedAnswers[1..];
      AnyAcceptsSpec(n, rest);
      if k :| 0 <= k < |acceptedAnswers| && Accepts(n, Normalize(acceptedAnswers[k])) {
        if k > 0 {
          assert rest[k - 1] == acceptedAnswers[k];
        }
      }
      if j :| 0 <= j < |rest| && Accepts(n, Normalize(rest[j])) {
        assert acceptedAnswers[j + 1] == rest[j];
      }
    }
  }

  /** `checkAnswer`. */
  function CheckAnswer(userInput: string, acceptedAnswers: seq<string>): bool {
    var normalized := Normalize(userInput);
    normalized != [] && AnyAccepts(normalized, acceptedAnswers)
  }

  /** An input is correct exactly when it does not normalise to nothing and
      some accepted answer, normalised, accepts it by one of the three rules;
      an empty list of accepted answers accepts nothing. */
  lemma CheckAnswerSpec(userInput: string, acceptedAnswers: seq<string>)
    ensures CheckAnswer(userInput, acceptedAnswers) <==>
              Normalize(userInput) != [] &&
              exists k :: 0 <= k < |acceptedAnswers| &&
                          Accepts(Normalize(userInput), Normalize(acceptedAnswers[k]))
  {
    AnyAcceptsSpec(Normalize(userInput), acceptedAnswers);
  }

  /** An accepted answer of at most 4 normalised characters matches only exactly. */
  lemma ShortAnswerExactOnly(n: string, m: string)
    requires |m| <= 4
    ensures Accepts(n, m) <==> n == m
  {
  }

  /** Every accepted answer that survives normalisation is accepted as typed. */
  lemma AcceptedAnswerMatchesItself(answer: string, acceptedAnswers: seq<string>)
    requires answer in acceptedAnswers
    requires Normalize(answer) != []
    ensures CheckAnswer(answer, acceptedAnswers)
  {
    var k :| 0 <= k < |acceptedAnswers| && acceptedAnswers[k] == answer;
    assert Accepts(Normalize(answer), Normalize(acceptedAnswers[k]));
    CheckAnswerSpec(answer, acceptedAnswers);
  }

  /** Adding accepted answers never turns a match into a mismatch. */
  lemma CheckAnswerMonotone(userInput: string, acceptedAnswers: seq<string>, more: seq<string>)
    requires CheckAnswer(userInput, acceptedAnswers)
    ensures CheckAnswer(userInput, acceptedAnswers + more)
  {
    CheckAnswerSpec(userInput, acceptedAnswers);
    var k :| 0 <= k < |acceptedAnswers| && Accepts(Normalize(userInput), Normalize(acceptedAnswers[k]));
    assert (acceptedAnswers + more)[k] == acceptedAnswers[k];
    CheckAnswerSpec(userInput, acceptedAnswers + more);
  }

  lemma {:induction false} StripKeepsKept(s: string)
    requires forall i :: 0 <= i < |s| ==> IsKept(s[i])
    ensures Strip(s) == s
  {
    if s != [] {
      StripKeepsKept(s[1..]);
    }
  }

  lemma {:induction false} StripAppend(a: string, b: string)
    ensures Strip(a + b) == Strip(a) + Strip(b)
  {
    if a == [] {
      assert a + b == b;
    } else {
      assert (a + b)[0] == a[0];
      assert (a + b)[1..] == a[1..] + b;
      StripAppend(a[1..], b);
    }
  }

  lemma {:induction false} CollapseWithoutSpaces(s: string)
    requires forall i :: 0 <= i < |s| ==> !IsSpace(s[i])
    ensures Collapse(s) == s
  {
    if s != [] {
      CollapseWithoutSpaces(s[1..]);
    }
  }

  /** Trimming the start of a run of white space followed by `y` leaves `y`
      when `y` does not start with white space. */
  lemma {:induction false} TrimStartRun(w: string, y: string)
    requires forall i :: 0 <= i < |w| ==> IsSpace(w[i])
    requires y == [] || !IsSpace(y[0])
    ensures TrimStart(w + y) == y
  {
    if w == [] {
      assert w + y == y;
    } else {
      assert (w + y)[1..] == w[1..] + y;
      TrimStartRun(w[1..], y);
    }
  }

  /** Trimming the start of `a + b` stops inside `a` when `a` ends with a
      character that is not white space. */
  lemma {:induction false} TrimStartAppend(a: string, b: string)
    requires a != [] && !IsSpace(a[|a| - 1])
    ensures TrimStart(a + b) == TrimStart(a) + b
  {
    assert (a + b)[0] == a[0];
    if IsSpace(a[0]) {
      assert (a + b)[1..] == a[1..] + b;
      TrimStartAppend(a[1..], b);
    }
  }

  /** A run of white space in front of a word collapses to exactly one
      space: `replace(/\s+/g, ' ')` on a single run. */
  lemma {:induction false} CollapseRun(w: string, y: string)
    requires w != [] && forall i :: 0 <= i < |w| ==> IsSpace(w[i])
    requires y == [] || !IsSpace(y[0])
    ensures Collapse(w + y) == [' '] + Collapse(y)
  {
    assert (w + y)[0] == w[0];
    assert (w + y)[1..] == w[1..] + y;
    TrimStartRun(w[1..], y);
  }

  /** Collapsing works run by run: a string cut after a character that is
      not white space collapses piece by piece. With `CollapseRun` and
      `CollapseWithoutSpaces` this determines `Collapse` on every input. */
  lemma {:induction false} CollapseAppend(x: string, y: string)
    requires x == [] || !IsSpace(x[|x| - 1])
    ensures Collapse(x + y) == Collapse(x) + Collapse(y)
    decreases |x|
  {
    if x == [] {
      assert x + y == y;
    } else if IsSpace(x[0]) {
      var t := TrimStart(x[1..]);
      assert (x + y)[0] == x[0];
      assert (x + y)[1..] == x[1..] + y;
      TrimStartAppend(x[1..], y);
      TrimStartSpec(x[1..]);
      assert t != [] && t[|t| - 1] == x[|x| - 1];
      CollapseAppend(t, y);
    } else {
      assert (x + y)[0] == x[0];
      assert (x + y)[1..] == x[1..] + y;
      CollapseAppend(x[1..], y);
    }
  }

  /** A single word of letters and digits normalises to its lower-case form. */
  lemma NormalizeWord(s: string)
    requires forall i :: 0 <= i < |s| ==> IsAlnum(s[i])
    ensures Normalize(s) == Lower(s)
  {
    var l := Lower(s);
    assert forall i :: 0 <= i < |l| ==> IsAlnum(l[i]) && !IsSpace(l[i]);
    assert TrimStart(l) == l;
    assert TrimEnd(l) == l;
    StripKeepsKept(l);
    CollapseWithoutSpaces(l);
  }

  lemma BlankInputsNeverMatch(acceptedAnswers: seq<string>)
    ensures !CheckAnswer("", acceptedAnswers)
    ensures !CheckAnswer("   ", acceptedAnswers)
    ensures !CheckAnswer("!!!", acceptedAnswers)
  {
    assert Lower("   ") == "   ";
    assert TrimStart("   ") == [];
    assert Lower("!!!") == "!!!";
    assert TrimStart("!!!") == "!!!" && TrimEnd("!!!") == "!!!";
    assert Strip("!!!") == [];
  }

  lemma StrippedParis()
    ensures Strip("paris!!") == "paris"
  {
    StripKeepsKept("paris");
    StripAppend("paris", "!!");
    assert "paris" + "!!" == "paris!!";
  }

  lemma NormalizedShoutedParis()
    ensures Normalize("  PARIS!!") == "paris"
  {
    assert Lower("  PARIS!!") == "  paris!!";
    assert TrimStart("  paris!!") == "paris!!";
    assert TrimEnd("paris!!") == "paris!!";
    StrippedParis();
    CollapseWithoutSpaces("paris");
  }

  lemma NormalizedParis()
    ensures Normalize("Paris") == "paris"
  {
    NormalizeWord("Paris");
    assert Lower("Paris") == "paris";
  }

  /** Two words with a run of white space between them come out with
      exactly one space between them. */
  lemma {:induction false} CollapseWords(u: string, w: string, v: string)
    requires u != [] && forall i :: 0 <= i < |u| ==> !IsSpace(u[i])
    requires w != [] && forall i :: 0 <= i < |w| ==> IsSpace(w[i])
    requires forall i :: 0 <= i < |v| ==> !IsSpace(v[i])
    ensures Collapse(u + w + v) == u + [' '] + v
  {
    var r := w + v;
    assert Collapse(u) == u by { CollapseWithoutSpaces(u); }
    assert Collapse(r) == [' '] + v by {
      CollapseRun(w, v);
      CollapseWithoutSpaces(v);
    }
    assert Collapse(u + r) == Collapse(u) + Collapse(r) by {
      CollapseAppend(u, r);
    }
    assert u + w + v == u + r;
    assert u + ([' '] + v) == u + [' '] + v;
  }

  /** A two-word answer keeps one space between its words, however many
      were typed: `"New  York"` normalises to `"new york"`. */
  lemma NormalizedNewYork()
    ensures Normalize("New  York") == "new york"
  {
    var l := "new  york";
    assert Lower("New  York") == l;
    assert TrimStart(l) == l;
    assert TrimEnd(l) == l;
    StripKeepsKept(l);
    CollapsedNewYork();
  }

  lemma CollapsedNewYork()
    ensures Collapse("new  york") == "new york"
  {
    CollapseWords("new", "  ", "york");
    assert "new" + "  " + "york" == "new  york";
    assert "new" + [' '] + "york" == "new york";
  }

  lemma NormalizedNile()
    ensures Normalize("Nil") == "nil" && Normalize("Nile") == "nile"
  {
    NormalizeWord("Nil");
    assert Lower("Nil") == "nil";
    NormalizeWord("Nile");
    assert Lower("Nile") == "nile";
  }

  lemma ExactMatchIgnoresCaseAndPunctuation(accepted: seq<string>)
    requires accepted == ["Paris"]
    ensures CheckAnswer("  PARIS!!", accepted)
  {
    NormalizedShoutedParis();
    NormalizedParis();
    assert Accepts(Normalize("  PARIS!!"), Normalize(accepted[0]));
    CheckAnswerSpec("  PARIS!!", accepted);
  }

  lemma ShortAnswerRejectsNearMiss(accepted: seq<string>)
    requires accepted == ["Nile"]
    ensures !CheckAnswer("Nil", accepted)
  {
    NormalizedNile();
    CheckAnswerSpec("Nil", accepted);
  }

  // ---------------------------------------------------------------------
  // calculateScore
  // ---------------------------------------------------------------------

  /** A quiz item; coordinates and hints are presentation and are left out. */
  datatype QuizItem = QuizItem(id: int, name: string, acceptedAnswers: seq<string>)

  datatype ItemResult = ItemResult(item: QuizItem, userAnswer: string, isCorrect: bool, isSkipped: bool)

  datatype ScoreResult = ScoreResult(correct: nat, incorrect: nat, skipped: nat, total: nat,
                                     results: seq<ItemResult>)

  /** `answers[item.id] || ''`. */
  function AnswerFor(answers: map<int, string>, id: int): string {
    if id in answers then answers[id] else ""
  }

  /** The result the source builds for one item. */
  function ScoreItem(answers: map<int, string>, item: QuizItem): ItemResult {
    var userAnswer := AnswerFor(answers, item.id);
    if Trim(userAnswer) == [] then ItemResult(item, "", false, true)
    else ItemResult(item, userAnswer, CheckAnswer(userAnswer, item.acceptedAnswers), false)
  }

  /** `quizData.map(...)`. */
  function ScoreItems(answers: map<int, string>, quizData: seq<QuizItem>): (rs: seq<ItemResult>)
    ensures |rs| == |quizData|
  {
    if quizData == [] then []
    else ScoreItems(answers, quizData[..|quizData| - 1]) + [ScoreItem(answers, quizData[|quizData| - 1])]
  }

  /** The map keeps order: result k is the score of item k. */
  lemma {:induction false} ScoreItemsAt(answers: map<int, string>, quizData: seq<QuizItem>, k: nat)
    requires k < |quizData|
    ensures ScoreItems(answers, quizData)[k] == ScoreItem(answers, quizData[k])
  {
    if k < |quizData| - 1 {
      ScoreItemsAt(answers, quizData[..|quizData| - 1], k);
    }
  }

  function NumCorrect(rs: seq<ItemResult>): nat {
    if rs == [] then 0 else NumCorrect(rs[..|rs| - 1]) + if rs[|rs| - 1].isCorrect then 1 else 0
  }

  function NumIncorrect(rs: seq<ItemResult>): nat {
    if rs == [] then 0
    else NumIncorrect(rs[..|rs| - 1]) + if !rs[|rs| - 1].isSkipped && !rs[|rs| - 1].isCorrect then 1 else 0
  }

  function NumSkipped(rs: seq<ItemResult>): nat {
    if rs == [] then 0 else NumSkipped(rs[..|rs| - 1]) + if rs[|rs| - 1].isSkipped then 1 else 0
  }

  /** A sequence holding the score of each item, in order, is the map's result. */
  lemma ScoreItemsEqual(answers: map<int, string>, quizData: seq<QuizItem>, rs: seq<ItemResult>)
    requires |rs| == |quizData|
    requires forall i :: 0 <= i < |rs| ==> rs[i] == ScoreItem(answers, quizData[i])
    ensures rs == ScoreItems(answers, quizData)
  {
    forall i | 0 <= i < |rs|
      ensures rs[i] == ScoreItems(answers, quizData)[i]
    {
      ScoreItemsAt(answers, quizData, i);
    }
  }

  lemma CountsSnoc(rs: seq<ItemResult>, r: ItemResult)
    ensures NumCorrect(rs + [r]) == NumCorrect(rs) + if r.isCorrect then 1 else 0
    ensures NumIncorrect(rs + [r]) == NumIncorrect(rs) + if !r.isSkipped && !r.isCorrect then 1 else 0
    ensures NumSkipped(rs + [r]) == NumSkipped(rs) + if r.isSkipped then 1 else 0
  {
    assert (rs + [r])[..|rs|] == rs;
  }

  /** What `calculateScore` returns, as a value. */
  function Score(answers: map<int, string>, quizData: seq<QuizItem>): ScoreResult {
    var rs := ScoreItems(answers, quizData);
    ScoreResult(NumCorrect(rs), NumIncorrect(rs), NumSkipped(rs), |quizData|, rs)
  }

  /** Each item is exactly one of correct, incorrect or skipped. */
  lemma {:induction false} CountsPartition(rs: seq<ItemResult>)
    requires forall k :: 0 <= k < |rs| ==> rs[k].isSkipped ==> !rs[k].isCorrect
    ensures NumCorrect(rs) + NumIncorrect(rs) + NumSkipped(rs) == |rs|
  {
    if rs != [] {
      CountsPartition(rs[..|rs| - 1]);
    }
  }

  /** The tally of `calculateScore` and the shape of its per-item results. */
  lemma ScoreTally(answers: map<int, string>, quizData: seq<QuizItem>)
    ensures var s := Score(answers, quizData);
      && s.correct + s.incorrect + s.skipped == s.total == |quizData|
      && s.correct <= s.total
      && |s.results| == |quizData|
      && forall k :: 0 <= k < |quizData| ==>
           && s.results[k].item == quizData[k]
           && (s.results[k].isSkipped <==> Trim(AnswerFor(answers, quizData[k].id)) == [])
           && (s.results[k].isSkipped ==> s.results[k].userAnswer == [] && !s.results[k].isCorrect)
           && (!s.results[k].isSkipped ==>
                 s.results[k].userAnswer == AnswerFor(answers, quizData[k].id) &&
                 s.results[k].isCorrect == CheckAnswer(s.results[k].userAnswer, quizData[k].acceptedAnswers))
  {
    forall k | 0 <= k < |quizData| {
      ScoreItemsAt(answers, quizData, k);
    }
    CountsPartition(ScoreItems(answers, quizData));
  }

  /** `calculateScore`: one pass over the items counting into three tallies. */
  method CalculateScore(answers: map<int, string>, quizData: seq<QuizItem>) returns (r: ScoreResult)
    ensures r == Score(answers, quizData)
  {
    var correct, incorrect, skipped := 0, 0, 0;
    var results: seq<ItemResult> := [];
    for k := 0 to |quizData|
      invariant |results| == k
      invariant forall i :: 0 <= i < k ==> results[i] == ScoreItem(answers, quizData[i])
      invariant correct == NumCorrect(results)
      invariant incorrect == NumIncorrect(results)
      invariant skipped == NumSkipped(results)
    {
      var item := quizData[k];
      var userAnswer := AnswerFor(answers, item.id);
      var result: ItemResult;
      if Trim(userAnswer) == [] {
        skipped := skipped + 1;
        result := ItemResult(item, "", false, true);
      } else {
        var isCorrect := CheckAnswer(userAnswer, item.acceptedAnswers);
        if isCorrect {
          correct := correct + 1;
        } else {
          incorrect := incorrect + 1;
        }
        result := ItemResult(item, userAnswer, isCorrect, false);
      }
      assert result == ScoreItem(answers, item);
      CountsSnoc(results, result);
      results := results + [result];
    }
    ScoreItemsEqual(answers, quizData, results);
    r := ScoreResult(correct, incorrect, skipped, |quizData|, results);
  }
}
