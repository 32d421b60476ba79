/** The preprocessing stage: `stripEnds`, which cuts the parameter list out of a
    function's source text, and `makeStub`, which wraps that list back into an
    empty function declaration (src/preprocess.ts). */
module Preprocess {
  import opened Wrappers

  /** The scanner's one failure (`PreprocessingError`): the brackets do not match. */
  datatype PreprocessError = UnbalancedBrackets

  // ---------------------------------------------------------------------------
  // RE_ANY_COMMENT, written out by hand
  // ---------------------------------------------------------------------------

  /** A line terminator: what the regex `.` refuses to match and `\s` accepts. */
  predicate IsLineTerminator(c: char) {
    c == '\n' || c == '\r' || c == '\U{2028}' || c == '\U{2029}'
  }

  // A block-comment terminator (star, slash) starts at position k of s.
  predicate ClosesBlock(s: string, k: int) {
    0 <= k && k + 1 < |s| && s[k] == '*' && s[k + 1] == '/'
  }

  // s[i..i+n] is a block comment: slash-star, then anything (newlines
  // included), ended by the first star-slash that follows.
  predicate IsBlockComment(s: string, i: nat, n: nat) {
    && 4 <= n && i + n <= |s|
    && s[i] == '/' && s[i + 1] == '*'
    && ClosesBlock(s, i + n - 2)
    && forall k :: i + 2 <= k < i + n - 2 ==> !ClosesBlock(s, k)
  }

  /** s[i..i+n] is a line comment: `//` and every character after it up to,
      but not including, the next line terminator (or the end of s). */
  predicate IsLineComment(s: string, i: nat, n: nat) {
    && 2 <= n && i + n <= |s|
    && s[i] == '/' && s[i + 1] == '/'
    && (forall k :: i + 2 <= k < i + n ==> !IsLineTerminator(s[k]))
    && (i + n == |s| || IsLineTerminator(s[i + n]))
  }

  // The first star-slash at or after j, if any: the lazy `(?:.|\s)*?` part.
  function BlockClose(s: string, j: nat): (r: Option<nat>)
    decreases |s| - j
    ensures r.Some? ==> j <= r.value && ClosesBlock(s, r.value)
    ensures r.Some? ==> forall k :: j <= k < r.value ==> !ClosesBlock(s, k)
    ensures r.None? ==> forall k :: j <= k ==> !ClosesBlock(s, k)
  {
    if j + 1 >= |s| then None
    else if s[j] == '*' && s[j + 1] == '/' then Some(j)
    else BlockClose(s, j + 1)
  }

  /** The first line terminator at or after j, or |s|: the greedy `.*`. */
  function LineEnd(s: string, j: nat): (r: nat)
    requires j <= |s|
    decreases |s| - j
    ensures j <= r <= |s|
    ensures forall k :: j <= k < r ==> !IsLineTerminator(s[k])
    ensures r == |s| || IsLineTerminator(s[r])
  {
    if j == |s| || IsLineTerminator(s[j]) then j else LineEnd(s, j + 1)
  }

  // The length of the comment that RE_ANY_COMMENT matches at the start of
  // s[i..], or None when it matches nothing there (a slash-star that is never
  // closed, a lone slash).
  function MatchComment(s: string, i: nat): (r: Option<nat>)
    ensures r.Some? ==> 2 <= r.value && i + r.value <= |s|
    ensures r.Some? ==> IsBlockComment(s, i, r.value) || IsLineComment(s, i, r.value)
    ensures r.None? ==> forall n :: !IsBlockComment(s, i, n) && !IsLineComment(s, i, n)
  {
    if i + 1 >= |s| || s[i] != '/' then None
    else if s[i + 1] == '*' then
      match BlockClose(s, i + 2)
      case Some(k) => Some(k + 2 - i)
      case None => None
    else if s[i + 1] == '/' then Some(LineEnd(s, i + 2) - i)
    else None
  }

  // ---------------------------------------------------------------------------
  // What the scanner sees: the structural brackets
  // ---------------------------------------------------------------------------

  /** The `/` at i directly follows a backslash (an escaped slash in a regex). */
  predicate Escaped(s: string, i: nat) {
    0 < i <= |s| && s[i - 1] == '\\'
  }

  /** Where the scan goes after looking at position i: past a whole comment
      when an unescaped `/` starts one, otherwise to the next character. */
  function Next(s: string, i: nat): (j: nat)
    requires i < |s|
    ensures i < j <= |s|
  {
    if s[i] == '/' && !Escaped(s, i) then
      match MatchComment(s, i)
      case Some(n) => i + n
      case None => i + 1
    else i + 1
  }

  /** The scan jumps over more than one character only across a whole comment
      that an unescaped `/` starts, and it always jumps across such a comment. */
  lemma NextSkipsComments(s: string, i: nat)
    requires i < |s|
    ensures Next(s, i) != i + 1 ==>
              s[i] == '/' && !Escaped(s, i) && (IsBlockComment(s, i, Next(s, i) - i) || IsLineComment(s, i, Next(s, i) - i))
    ensures forall n :: s[i] == '/' && !Escaped(s, i) && (IsBlockComment(s, i, n) || IsLineComment(s, i, n)) ==>
              Next(s, i) != i + 1
  {
  }

  /** A bracket the scanner counts: its position and whether it opens. */
  datatype Paren = Paren(pos: nat, open: bool)

  /** The brackets the scan meets from position i on, in order. Brackets
      inside comments are skipped together with the comment. */
  function Lex(s: string, i: nat): (brackets: seq<Paren>)
    decreases |s| - i
  {
    if i >= |s| then []
    else
      var rest := Lex(s, Next(s, i));
      if s[i] == '(' then [Paren(i, true)] + rest
      else if s[i] == ')' then [Paren(i, false)] + rest
      else rest
  }

  /** The structural brackets of the whole text. */
  function Tokens(s: string): (brackets: seq<Paren>) {
    Lex(s, 0)
  }

  /** Every bracket the scan records is a real `(` or `)` of the text, at or
      after where the scan started, and they come in text order. */
  lemma {:induction false} LexBounds(s: string, i: nat)
    decreases |s| - i
    ensures forall k :: 0 <= k < |Lex(s, i)| ==>
              i <= Lex(s, i)[k].pos < |s| && s[Lex(s, i)[k].pos] == (if Lex(s, i)[k].open then '(' else ')')
    ensures forall a, b :: 0 <= a < b < |Lex(s, i)| ==> Lex(s, i)[a].pos < Lex(s, i)[b].pos
  {
    if i < |s| {
      LexBounds(s, Next(s, i));
    }
  }

  /** The bracket depth (`canary`) after the brackets t: opens minus closes. */
  function Depth(t: seq<Paren>): (depth: int) {
    if t == [] then 0 else Depth(t[..|t| - 1]) + (if t[|t| - 1].open then 1 else -1)
  }

  /** Every nonempty prefix of t leaves the depth at 1 or more. */
  ghost predicate StaysOpen(t: seq<Paren>) {
    forall j :: 1 <= j <= |t| ==> Depth(t[..j]) >= 1
  }

  /** t[k] is the bracket at which the depth first comes back to 0. */
  ghost predicate ClosesAt(t: seq<Paren>, k: nat) {
    && k < |t|
    && Depth(t[..k + 1]) == 0
    && forall j :: 1 <= j <= k ==> Depth(t[..j]) >= 1
  }

  /** Some bracket of t brings the depth back to 0 with no dip below 1 before. */
  ghost predicate HasGroup(t: seq<Paren>) {
    exists k: nat :: ClosesAt(t, k)
  }

  lemma DepthStep(t: seq<Paren>, p: Paren)
    ensures Depth(t + [p]) == Depth(t) + (if p.open then 1 else -1)
  {
    assert (t + [p])[..|t|] == t;
  }

  /** The depth after one bracket. */
  lemma DepthOne(t: seq<Paren>)
    requires t != []
    ensures Depth(t[..1]) == if t[0].open then 1 else -1
  {
    assert t[..1][..0] == [];
  }

  /** An open prefix is at depth 1 or more, and at depth 0 only when empty. */
  lemma OpenDepth(t: seq<Paren>)
    requires StaysOpen(t)
    ensures t != [] ==> Depth(t) >= 1
  {
    assert t != [] ==> t[..|t|] == t;
  }

  /** Adding a bracket that leaves the depth at 1 or more keeps a prefix open. */
  lemma PushOpen(t: seq<Paren>, p: Paren)
    requires StaysOpen(t) && Depth(t) + (if p.open then 1 else -1) >= 1
    ensures StaysOpen(t + [p]) && Depth(t + [p]) == Depth(t) + (if p.open then 1 else -1)
  {
    DepthStep(t, p);
    assert (t + [p])[..|t| + 1] == t + [p];
    assert forall j :: 1 <= j <= |t| ==> (t + [p])[..j] == t[..j];
  }

  /** A bracket that takes an open, nonempty prefix back to depth 0 is the one
      where the first group closes, and no other bracket is. */
  lemma FirstReturn(t: seq<Paren>, before: seq<Paren>, p: Paren)
    requires StaysOpen(before) && before != [] && Depth(before) == 1 && !p.open
    requires |before| < |t| && t[..|before| + 1] == before + [p]
    ensures ClosesAt(t, |before|)
    ensures forall k: nat :: ClosesAt(t, k) ==> k == |before|
  {
    DepthStep(before, p);
    assert forall j :: 1 <= j <= |before| ==> t[..j] == before[..j] by {
      forall j | 1 <= j <= |before|
        ensures t[..j] == before[..j]
      {
        assert t[..j] == t[..|before| + 1][..j];
      }
    }
  }

  /** A leading `)` drives the depth negative: no group can close. */
  lemma {:induction false} LeadingCloseHasNoGroup(t: seq<Paren>)
    requires t != [] && !t[0].open
    ensures !HasGroup(t)
  {
    DepthOne(t);
  }

  /** If every prefix keeps the depth at 1 or more, no group closes. */
  lemma StaysOpenHasNoGroup(t: seq<Paren>)
    requires StaysOpen(t)
    ensures !HasGroup(t)
  {
  }

  /** A depth below 1 after the first j brackets, which opened with a `(`,
      means that some earlier bracket brought the depth back to exactly 0. */
  lemma {:induction false} FirstDip(t: seq<Paren>, j: nat)
    requires t != [] && t[0].open
    requires 1 <= j <= |t| && Depth(t[..j]) < 1
    decreases j
    ensures HasGroup(t)
  {
    if j' :| 1 <= j' < j && Depth(t[..j']) < 1 {
      FirstDip(t, j');
    } else {
      DepthOne(t);
      assert t[..j][..j - 1] == t[..j - 1];
      assert ClosesAt(t, j - 1);
    }
  }

  /** The two ways stripEnds fails are the only ways brackets have no
      group: a leading `)`, or a depth that never comes back to 0. */
  lemma NoGroupCases(t: seq<Paren>)
    requires t != []
    ensures !HasGroup(t) <==> !t[0].open || StaysOpen(t)
  {
    if !t[0].open {
      LeadingCloseHasNoGroup(t);
    } else if StaysOpen(t) {
      StaysOpenHasNoGroup(t);
    } else {
      var j :| 1 <= j <= |t| && Depth(t[..j]) < 1;
      FirstDip(t, j);
    }
  }

  /** At a `/` the scan moves one character on when the slash is escaped or
      starts no comment, and past the whole comment when it starts one. */
  lemma LexSlash(s: string, i: nat, m: Option<nat>)
    requires i < |s| && s[i] == '/'
    requires !Escaped(s, i) ==> m == MatchComment(s, i)
    ensures Escaped(s, i) ==> Lex(s, i) == Lex(s, i + 1)
    ensures !Escaped(s, i) ==> Lex(s, i) == Lex(s, i + if m.Some? then m.value else 1)
  {
  }

  /** Moving the bracket just met from the unseen to the seen part. Kept as
      a lemma rather than an assert inside StripEnds: with the regrouping
      stated inline, the loop body's proof no longer fits the solver's
      budget on every random seed. */
  lemma MoveToSeen(t: seq<Paren>, seen: seq<Paren>, p: Paren, rest: seq<Paren>)
    requires t == seen + ([p] + rest)
    ensures t == (seen + [p]) + rest
  {
  }

  /** The scan steps over a character that is not a bracket. */
  lemma LexSkips(s: string, i: nat)
    requires i < |s| && s[i] != '(' && s[i] != ')'
    ensures Lex(s, i) == Lex(s, Next(s, i))
  {
  }

  /** The scan records a bracket and moves to the next character. */
  lemma LexBracket(s: string, i: nat)
    requires i < |s| && (s[i] == '(' || s[i] == ')')
    ensures Lex(s, i) == [Paren(i, s[i] == '(')] + Lex(s, i + 1)
  {
  }

  /** A group opens at the first recorded bracket, a `(`, and closes at a
      later `)`. */
  lemma GroupEnds(s: string, k: nat)
    requires ClosesAt(Tokens(s), k)
    ensures 1 <= k && Tokens(s)[0].open && !Tokens(s)[k].open
    ensures Tokens(s)[0].pos < Tokens(s)[k].pos < |s|
    ensures s[Tokens(s)[0].pos] == '(' && s[Tokens(s)[k].pos] == ')'
  {
    var t := Tokens(s);
    LexBounds(s, 0);
    DepthOne(t);
    assert t[..k + 1][..k] == t[..k];
  }

  /** The text of the group whose closing bracket is Tokens(s)[k]: from the
      first structural `(` through that `)`, inclusive. */
  function GroupSpan(s: string, k: nat): (span: string)
    requires ClosesAt(Tokens(s), k)
    ensures 2 <= |span| && span[0] == '(' && span[|span| - 1] == ')'
  {
    GroupEnds(s, k);
    s[Tokens(s)[0].pos .. Tokens(s)[k].pos + 1]
  }

  function Min(a: int, b: int): (m: int) {
    if a <= b then a else b
  }

  /** stripEnds: the text from the first structural `(` through the `)` that
      brings the depth back to 0, inclusive. It fails when a `)` drives the
      depth negative or the text ends with the depth above 0; a text with no
      structural bracket at all comes back whole. */
  method StripEnds(s: string) returns (r: Result<string, PreprocessError>)
    ensures Tokens(s) == [] ==> r == Ok(s)
    ensures r.Err? <==> Tokens(s) != [] && !HasGroup(Tokens(s))
    ensures forall k: nat :: ClosesAt(Tokens(s), k) ==> r == Ok(GroupSpan(s, k))
  {
    ghost var t := Tokens(s);
    var canary := 0;
    var startIndex: Option<nat> := None;
    var index := 0;
    ghost var seen: seq<Paren> := [];
    ghost var rest: seq<Paren> := t;
    while index < |s|
      invariant index <= |s|
      invariant rest == Lex(s, index) && t == seen + rest
      invariant canary == Depth(seen)
      invariant StaysOpen(seen)
      invariant startIndex.None? <==> seen == []
      invariant seen != [] ==> startIndex == Some(seen[0].pos) && seen[0].pos < index
      decreases |s| - index
    {
      OpenDepth(seen);
      var c := s[index];
      if c == '/' {
        if Escaped(s, index) {
          // an escaped slash belongs to a regex literal: no comment starts here
          LexSlash(s, index, None);
          index := index + 1;
        } else {
          var m := MatchComment(s, index);
          LexSlash(s, index, m);
          // jump past the whole comment, or past a `/` that starts none
          index := index + if m.Some? then m.value else 1;
        }
        assert Lex(s, index) == rest;
        assert t == seen + rest;
      } else if c == '(' {
        LexBracket(s, index);
        if startIndex.None? {
          startIndex := Some(index);
        }
        canary := canary + 1;
        PushOpen(seen, Paren(index, true));
        MoveToSeen(t, seen, Paren(index, true), Lex(s, index + 1));
        seen := seen + [Paren(index, true)];
        index := index + 1;
        rest := Lex(s, index);
        assert t == seen + rest;
      } else if c == ')' {
        LexBracket(s, index);
        canary := canary - 1;
        if canary == 0 {
          // the group closes here
          assert t[..|seen| + 1] == seen + [Paren(index, false)];
          FirstReturn(t, seen, Paren(index, false));
          // `break`, then the final slice from startIndex through index
          return Ok(s[startIndex.value .. index + 1]);
        } else if canary < 0 {
          LeadingCloseHasNoGroup(t);
          return Err(UnbalancedBrackets);
        }
        PushOpen(seen, Paren(index, false));
        MoveToSeen(t, seen, Paren(index, false), Lex(s, index + 1));
        seen := seen + [Paren(index, false)];
        index := index + 1;
        rest := Lex(s, index);
        assert t == seen + rest;
      } else {
        LexSkips(s, index);
        index := index + 1;
        assert Lex(s, index) == rest;
        assert t == seen + rest;
      }
    }

    // catches more opens than closes: `(() end`
    if canary != 0 {
      assert Lex(s, index) == [] && t == seen != [];
      StaysOpenHasNoGroup(seen);
      return Err(UnbalancedBrackets);
    }
    // no structural bracket at all: startIndex is still undefined and the
    // slice from it through index + 1 (past the end) is the whole text
    OpenDepth(seen);
    assert Lex(s, index) == [] && t == seen == [];
    assert s[0..|s|] == s;
    r := Ok(s[0 .. Min(index + 1, |s|)]);
  }

  // ---------------------------------------------------------------------------
  // makeStub
  // ---------------------------------------------------------------------------

  /** makeStub: the span between `function fn` and ` { }`, checked for nothing. */
  function MakeStub(span: string): (stub: string)
    ensures |stub| == |span| + 15
    ensures stub[..11] == "function fn"
    ensures stub[11..11 + |span|] == span
    ensures stub[11 + |span|..] == " { }"
  {
    "function fn" + span + " { }"
  }

  /** Distinct spans give distinct stubs, so a stub used as a cache key still
      tells apart every difference inside the parameter list. */
  lemma MakeStubInjective(a: string, b: string)
    requires MakeStub(a) == MakeStub(b)
    ensures a == b
  {
  }
}
