/** What the scan of `stripEnds` guarantees about the text it returns: the
    group it cuts out, scanned again on its own, meets exactly the same
    brackets, so its depth stays at 1 or more until its last character and
    comes back to 0 there, and `stripEnds` returns it unchanged. And brackets
    inside a comment the scan meets never count. */
module SpanLemmas {
  import opened Wrappers
  import opened Preprocess

  /** Scanning s from i passes through position e. */
  ghost predicate Lands(s: string, i: nat, e: nat)
    decreases |s| - i
  {
    i == e || (i < e && i < |s| && Lands(s, Next(s, i), e))
  }

  /** u is t moved a characters to the left: the same brackets, each one a
      positions earlier. */
  ghost predicate ShiftedBy(u: seq<Paren>, t: seq<Paren>, a: nat) {
    && |u| == |t|
    && forall k :: 0 <= k < |u| ==> u[k].pos + a == t[k].pos && u[k].open == t[k].open
  }

  // ---------------------------------------------------------------------------
  // Where the scan passes
  // ---------------------------------------------------------------------------

  /** Every recorded bracket is a position the scan passes through, and the
      scan from there on records the remaining brackets. */
  lemma {:induction false} TokenLands(s: string, i: nat, j: nat)
    requires j < |Lex(s, i)|
    decreases |s| - i
    ensures Lands(s, i, Lex(s, i)[j].pos)
    ensures Lex(s, i) == Lex(s, i)[..j] + Lex(s, Lex(s, i)[j].pos)
  {
    var nx := Next(s, i);
    LexBounds(s, nx);
    if s[i] == '(' || s[i] == ')' {
      LexBracket(s, i);
      if j > 0 {
        TokenLands(s, i + 1, j - 1);
        assert Lex(s, i)[..j] == [Lex(s, i)[0]] + Lex(s, i + 1)[..j - 1];
      }
    } else {
      LexSkips(s, i);
      TokenLands(s, nx, j);
    }
  }

  /** The scan that passes through e < |s| also passes through where it goes next. */
  lemma {:induction false} LandsStep(s: string, i: nat, e: nat)
    requires Lands(s, i, e) && e < |s|
    decreases |s| - i
    ensures Lands(s, i, Next(s, e))
  {
    if i != e {
      LandsStep(s, Next(s, i), e);
    }
  }

  // ---------------------------------------------------------------------------
  // Cutting the text after a position the scan passes through
  // ---------------------------------------------------------------------------

  lemma {:induction false} BlockClosePrefix(s: string, j: nat, e: nat)
    requires e <= |s|
    decreases |s| - j
    ensures BlockClose(s, j).None? ==> BlockClose(s[..e], j).None?
    ensures BlockClose(s, j).Some? && BlockClose(s, j).value + 2 <= e ==> BlockClose(s[..e], j) == BlockClose(s, j)
  {
    if j + 1 < |s| && !(s[j] == '*' && s[j + 1] == '/') {
      BlockClosePrefix(s, j + 1, e);
    }
  }

  lemma LineEndPrefix(s: string, j: nat, e: nat)
    requires j <= e <= |s| && LineEnd(s, j) <= e
    ensures LineEnd(s[..e], j) == LineEnd(s, j)
  {
  }

  /** Cutting the text at e does not change where the scan goes from i,
      as long as it went no further than e. */
  lemma NextPrefix(s: string, i: nat, e: nat)
    requires i < e <= |s| && Next(s, i) <= e
    ensures Next(s[..e], i) == Next(s, i)
  {
    if s[i] == '/' && !Escaped(s, i) && i + 1 < |s| {
      if s[i + 1] == '*' {
        BlockClosePrefix(s, i + 2, e);
      } else if s[i + 1] == '/' {
        LineEndPrefix(s, i + 2, e);
      }
    }
  }

  /** The brackets met from i split at a position e that the scan passes:
      those of the text cut at e, then those met from e on. */
  lemma {:induction false} LexPrefix(s: string, i: nat, e: nat)
    requires Lands(s, i, e) && e <= |s|
    decreases |s| - i
    ensures Lex(s, i) == Lex(s[..e], i) + Lex(s, e)
  {
    if i != e {
      var nx := Next(s, i);
      NextPrefix(s, i, e);
      LexPrefix(s, nx, e);
    }
  }

  // ---------------------------------------------------------------------------
  // Cutting the text before a position
  // ---------------------------------------------------------------------------

  lemma {:induction false} BlockCloseShift(s: string, a: nat, j: nat)
    requires a <= j && a <= |s|
    decreases |s| - j
    ensures BlockClose(s[a..], j - a).None? <==> BlockClose(s, j).None?
    ensures BlockClose(s, j).Some? ==> BlockClose(s[a..], j - a).value + a == BlockClose(s, j).value
  {
    if j + 1 < |s| {
      assert s[a..][j - a] == s[j] && s[a..][j - a + 1] == s[j + 1];
      if !(s[j] == '*' && s[j + 1] == '/') {
        BlockCloseShift(s, a, j + 1);
      }
    }
  }

  lemma LineEndShift(s: string, a: nat, j: nat)
    requires a <= j <= |s|
    ensures LineEnd(s[a..], j - a) + a == LineEnd(s, j)
  {
  }

  /** Dropping the first a characters moves every step of the scan a
      positions to the left, except at a slash that only the dropped
      backslash escaped. */
  lemma NextShift(s: string, a: nat, i: nat)
    requires a <= i < |s|
    requires i == a ==> s[i] != '/' || !Escaped(s, i)
    ensures Next(s[a..], i - a) + a == Next(s, i)
  {
    if s[i] == '/' && !Escaped(s, i) && i + 1 < |s| {
      if s[i + 1] == '*' {
        BlockCloseShift(s, a, i + 2);
      } else if s[i + 1] == '/' {
        LineEndShift(s, a, i + 2);
      }
    }
  }

  /** After dropping the first a characters the scan meets the same
      brackets, each a positions to the left. */
  lemma {:induction false} LexShift(s: string, a: nat, i: nat)
    requires a <= i <= |s|
    requires i == a && i < |s| ==> s[i] != '/' || !Escaped(s, i)
    decreases |s| - i
    ensures ShiftedBy(Lex(s[a..], i - a), Lex(s, i), a)
  {
    if i < |s| {
      var nx := Next(s, i);
      NextShift(s, a, i);
      LexShift(s, a, nx);
      var u, t := Lex(s[a..], nx - a), Lex(s, nx);
      assert s[a..][i - a] == s[i];
      if s[i] == '(' || s[i] == ')' {
        var p := Paren(i, s[i] == '(');
        var q := Paren(i - a, s[i] == '(');
        assert Lex(s, i) == [p] + t;
        assert Lex(s[a..], i - a) == [q] + u;
        ShiftedCons(q, u, p, t, a);
      }
    }
  }

  /** Prepending one bracket moved by a to each side keeps the shift. */
  lemma ShiftedCons(q: Paren, u: seq<Paren>, p: Paren, t: seq<Paren>, a: nat)
    requires ShiftedBy(u, t, a) && q.pos + a == p.pos && q.open == p.open
    ensures ShiftedBy([q] + u, [p] + t, a)
  {
    forall k | 0 <= k < |u| + 1
      ensures ([q] + u)[k].pos + a == ([p] + t)[k].pos && ([q] + u)[k].open == ([p] + t)[k].open
    {
      if k > 0 {
        assert ([q] + u)[k] == u[k - 1] && ([p] + t)[k] == t[k - 1];
      }
    }
  }

  // ---------------------------------------------------------------------------
  // The returned group scanned on its own
  // ---------------------------------------------------------------------------

  /** Moving brackets does not change their depth. */
  lemma {:induction false} DepthShifted(u: seq<Paren>, t: seq<Paren>, a: nat)
    requires ShiftedBy(u, t, a)
    decreases |t|
    ensures Depth(u) == Depth(t)
  {
    if t != [] {
      var n := |t| - 1;
      DepthShifted(u[..n], t[..n], a);
    }
  }

  /** The scan of the text cut just after the group's closing bracket,
      started at the group's opening bracket, meets exactly the group's
      brackets. */
  lemma GroupLex(s: string, k: nat)
    requires ClosesAt(Tokens(s), k)
    ensures Tokens(s)[k].pos < |s|
    ensures Lex(s[..Tokens(s)[k].pos + 1], Tokens(s)[0].pos) == Tokens(s)[..k + 1]
  {
    var t := Tokens(s);
    GroupEnds(s, k);
    var a, b := t[0].pos, t[k].pos;
    TokenLands(s, 0, 0);
    assert Lex(s, a) == t;
    TokenLands(s, a, k);
    LexBracket(s, b);
    LandsStep(s, a, b);
    LexPrefix(s, a, b + 1);
    assert t == t[..k] + ([t[k]] + Lex(s, b + 1));
    assert t[..k + 1] == t[..k] + [t[k]];
  }

  /** Scanning the group that stripEnds returns meets exactly the group's
      brackets, moved to start at position 0. */
  lemma SpanTokens(s: string, k: nat)
    requires ClosesAt(Tokens(s), k)
    ensures ShiftedBy(Tokens(GroupSpan(s, k)), Tokens(s)[..k + 1], Tokens(s)[0].pos)
  {
    var t := Tokens(s);
    GroupLex(s, k);
    GroupEnds(s, k);
    var a, b := t[0].pos, t[k].pos;
    LexShift(s[..b + 1], a, a);
    assert s[..b + 1][a..] == GroupSpan(s, k);
  }

  /** Moved brackets close a group at the same index. */
  lemma ClosesAtShifted(u: seq<Paren>, t: seq<Paren>, a: nat, k: nat)
    requires ShiftedBy(u, t, a)
    ensures ClosesAt(u, k) <==> ClosesAt(t, k)
  {
    forall j | 0 <= j <= |t|
      ensures Depth(u[..j]) == Depth(t[..j])
    {
      DepthShifted(u[..j], t[..j], a);
    }
  }

  /** p is one balanced group on its own: its brackets start at its first
      character, the depth stays at 1 or more until the last bracket, which
      is its last character and brings the depth back to 0. */
  ghost predicate IsGroup(p: string) {
    var t := Tokens(p);
    && t != []
    && ClosesAt(t, |t| - 1)
    && t[0].pos == 0
    && t[|t| - 1].pos == |p| - 1
  }

  /** The brackets up to the one that closes the group close it too. */
  lemma ClosesAtPrefix(t: seq<Paren>, k: nat)
    requires ClosesAt(t, k)
    ensures ClosesAt(t[..k + 1], k)
  {
    var u := t[..k + 1];
    forall j | 1 <= j <= k + 1
      ensures u[..j] == t[..j]
    {
    }
  }

  /** The group that stripEnds returns is balanced on its own: scanned
      again, it meets the same k + 1 brackets, its depth stays at 1 or more
      until the last one, which is its last character and brings the depth
      back to 0; so stripEnds, given that group, returns it unchanged. */
  lemma SpanIsFixedPoint(s: string, k: nat)
    requires ClosesAt(Tokens(s), k)
    ensures |Tokens(GroupSpan(s, k))| == k + 1
    ensures IsGroup(GroupSpan(s, k))
    ensures GroupSpan(GroupSpan(s, k), k) == GroupSpan(s, k)
  {
    var t, p := Tokens(s), GroupSpan(s, k);
    SpanTokens(s, k);
    var u := Tokens(p);
    ClosesAtPrefix(t, k);
    ClosesAtShifted(u, t[..k + 1], t[0].pos, k);
    GroupEnds(s, k);
    assert u[0].pos == 0 && u[k].pos == |p| - 1;
  }

  /** stripEnds is idempotent: applied to its own result it returns that
      result unchanged. The contract alone does not show this (a body that
      never scans would meet it); the body's two calls of StripEnds do, and
      the fact that carries them is SpanIsFixedPoint. */
  method StripEndsIdempotent(s: string) returns (first: Result<string, PreprocessError>, second: Result<string, PreprocessError>)
    ensures first.Ok? ==> second == first
  {
    first := StripEnds(s);
    if first.Ok? {
      second := StripEnds(first.value);
      if Tokens(s) != [] {
        ghost var k: nat :| ClosesAt(Tokens(s), k);
        SpanIsFixedPoint(s, k);
      }
    } else {
      second := first;
    }
  }

  // ---------------------------------------------------------------------------
  // The stub built around a group
  // ---------------------------------------------------------------------------

  /** Text without brackets or slashes is passed one character at a time
      and records nothing. */
  lemma {:induction false} LexPlain(s: string, i: nat, e: nat)
    requires i <= e <= |s|
    requires forall j :: i <= j < e ==> s[j] != '(' && s[j] != ')' && s[j] != '/'
    decreases e - i
    ensures Lex(s, i) == Lex(s, e) && Lands(s, i, e)
  {
    if i < e {
      LexSkips(s, i);
      LexPlain(s, i + 1, e);
    }
  }

  /** Text with no `*` appended after a character other than `*` closes no
      block comment. */
  lemma {:induction false} BlockCloseExtend(p: string, x: string, j: nat)
    requires p != [] && p[|p| - 1] != '*'
    requires forall c :: c in x ==> c != '*'
    decreases |p + x| - j
    ensures BlockClose(p + x, j) == BlockClose(p, j)
  {
    var q := p + x;
    if j + 1 < |q| {
      if j + 1 < |p| {
        assert q[j] == p[j] && q[j + 1] == p[j + 1];
      } else {
        assert q[j] != '*' by {
          if j >= |p| {
            assert q[j] == x[j - |p|] && x[j - |p|] in x;
          } else {
            assert q[j] == p[|p| - 1];
          }
        }
      }
      if !(q[j] == '*' && q[j + 1] == '/') {
        BlockCloseExtend(p, x, j + 1);
      }
    }
  }

  /** A line comment that ends inside p ends at the same place whatever
      follows p. */
  lemma {:induction false} LineEndExtend(p: string, x: string, j: nat)
    requires j <= |p| && LineEnd(p, j) < |p|
    decreases |p| - j
    ensures LineEnd(p + x, j) == LineEnd(p, j)
  {
    assert (p + x)[j] == p[j];
    if !IsLineTerminator(p[j]) {
      LineEndExtend(p, x, j + 1);
    }
  }

  /** Appending text with no `*` after a closing `)` does not change a step
      of the scan that stays inside p. */
  lemma NextExtend(p: string, x: string, i: nat)
    requires i < |p| && Next(p, i) < |p| && p[|p| - 1] == ')'
    requires forall c :: c in x ==> c != '*'
    ensures Next(p + x, i) == Next(p, i)
  {
    var q := p + x;
    assert q[i] == p[i];
    assert i > 0 ==> q[i - 1] == p[i - 1];
    if p[i] == '/' && !Escaped(p, i) {
      assert q[i + 1] == p[i + 1];
      if p[i + 1] == '*' {
        BlockCloseExtend(p, x, i + 2);
      } else if p[i + 1] == '/' {
        LineEndExtend(p, x, i + 2);
      }
    }
  }

  /** Text with no `*` appended after a group's closing `)` leaves the
      brackets of the group as they were and is scanned on its own. */
  lemma {:induction false} LexExtend(p: string, x: string, i: nat)
    requires p != [] && p[|p| - 1] == ')' && Lands(p, i, |p| - 1)
    requires forall c :: c in x ==> c != '*'
    decreases |p| - i
    ensures Lex(p + x, i) == Lex(p, i) + Lex(p + x, |p|)
  {
    var q := p + x;
    assert q[i] == p[i];
    if i == |p| - 1 {
      LexBracket(q, i);
      LexBracket(p, i);
    } else {
      var nx := Next(p, i);
      NextExtend(p, x, i);
      LexExtend(p, x, nx);
    }
  }

  /** The stub built around a group scans back to that group: its
      brackets are the group's, moved past the `function fn` prefix, so the
      same bracket closes it and stripEnds cuts out exactly the group. */
  lemma StubScansBack(p: string)
    requires IsGroup(p)
    ensures ClosesAt(Tokens(MakeStub(p)), |Tokens(p)| - 1)
    ensures GroupSpan(MakeStub(p), |Tokens(p)| - 1) == p
  {
    var stub, x, t := MakeStub(p), " { }", Tokens(p);
    var n := |t|;
    assert stub[11..] == p + x;
    forall j | 0 <= j < 11
      ensures stub[j] != '(' && stub[j] != ')' && stub[j] != '/'
    {
      assert stub[j] == stub[..11][j];
    }
    LexPlain(stub, 0, 11);
    GroupEnds(p, n - 1);
    assert stub[11] == p[0];
    LexShift(stub, 11, 11);
    TokenLands(p, 0, n - 1);
    assert t == t[..n - 1] + Lex(p, |p| - 1);
    LexExtend(p, x, 0);
    forall j | |p| <= j < |p + x|
      ensures (p + x)[j] != '(' && (p + x)[j] != ')' && (p + x)[j] != '/'
    {
      assert (p + x)[j] == x[j - |p|];
    }
    LexPlain(p + x, |p|, |p + x|);
    assert Lex(p + x, 0) == t;
    ClosesAtShifted(t, Tokens(stub), 11, n - 1);
    assert stub[11 .. 11 + |p|] == p;
  }

  /** The stub built from what stripEnds cut out of a text with brackets
      scans back to the same group: stripEnds on the stub returns it. As
      with StripEndsIdempotent, the property lives in the body's calls of
      StripEnds and MakeStub; the facts that carry it are SpanIsFixedPoint
      and StubScansBack. */
  method StubOfSpan(s: string) returns (span: Result<string, PreprocessError>, again: Result<string, PreprocessError>)
    ensures span.Ok? && Tokens(s) != [] ==> again == span
    ensures span.Err? ==> again == span
  {
    span := StripEnds(s);
    if span.Err? {
      return span, span;
    }
    if Tokens(s) != [] {
      ghost var k: nat :| ClosesAt(Tokens(s), k);
      SpanIsFixedPoint(s, k);
      StubScansBack(span.value);
    }
    again := StripEnds(MakeStub(span.value));
  }

  // Inputs of the kinds the library meets.

  /** Only the first of several groups is cut out. */
  method FirstGroupOnly() returns (r: Result<string, PreprocessError>)
    ensures r == Ok("()")
  {
    r := StripEnds("f()()");
    assert Tokens("f()()") == [Paren(1, true), Paren(2, false), Paren(3, true), Paren(4, false)];
    DepthOne(Tokens("f()()"));
    assert ClosesAt(Tokens("f()()"), 1);
    assert GroupSpan("f()()", 1) == "f()()"[1..3] == "()";
  }

  /** A leading `)` fails. */
  method LeadingCloseFails() returns (r: Result<string, PreprocessError>)
    ensures r.Err?
  {
    r := StripEnds(") x");
    assert Tokens(") x") == [Paren(0, false)];
    NoGroupCases(Tokens(") x"));
  }

  /** A group left open fails. */
  method LeftOpenFails() returns (r: Result<string, PreprocessError>)
    ensures r.Err?
  {
    r := StripEnds("(()");
    var t := Tokens("(()");
    assert t == [Paren(0, true), Paren(1, true), Paren(2, false)];
    assert t[..1] == [t[0]] && t[..2] == [t[0], t[1]] && t[..3] == t;
    assert Depth(t[..1]) == 1 && Depth(t[..2]) == 2 && Depth(t[..3]) == 1;
    assert StaysOpen(t);
    NoGroupCases(t);
  }

  /** A `)` inside a block comment is not counted. */
  method CommentedCloseSkipped() returns (r: Result<string, PreprocessError>)
    ensures r == Ok("(/*)*/)")
  {
    r := StripEnds("(/*)*/)");
    assert MatchComment("(/*)*/)", 1) == Some(5);
    assert Tokens("(/*)*/)") == [Paren(0, true), Paren(6, false)];
    DepthOne(Tokens("(/*)*/)"));
    assert ClosesAt(Tokens("(/*)*/)"), 1);
    assert GroupSpan("(/*)*/)", 1) == "(/*)*/)"[0..7] == "(/*)*/)";
  }

  /** Comment markers inside a string literal are not special either: in
      `("//")`, a parameter list holding one string, the `//` starts a line
      comment that swallows the `)`, so the depth stays at 1 and a
      well-formed text fails. */
  method SlashesInStringFail() returns (r: Result<string, PreprocessError>)
    ensures r.Err?
  {
    var s := "(\"//\")";
    r := StripEnds(s);
    assert MatchComment(s, 2) == Some(4);
    assert Lex(s, 2) == [];
    assert Tokens(s) == [Paren(0, true)];
    DepthOne(Tokens(s));
    NoGroupCases(Tokens(s));
  }

  /** Brackets inside a comment that the scan meets never count: no recorded
      bracket lies within it, as in `(a, b, /* ) */ c)`. */
  lemma CommentIsSkipped(s: string, i: nat)
    requires Lands(s, 0, i) && i < |s| && s[i] == '/' && !Escaped(s, i)
    requires MatchComment(s, i).Some?
    ensures forall k :: 0 <= k < |Tokens(s)| ==>
              !(i <= Tokens(s)[k].pos < i + MatchComment(s, i).value)
  {
    var n := MatchComment(s, i).value;
    LexPrefix(s, 0, i);
    LexBounds(s[..i], 0);
    LexSkips(s, i);
    LexBounds(s, i + n);
  }
}
