/** How a rule pattern and a text meet in the tag engine: both are normalised, the pattern
    is escaped, wrapped in two boundary groups and handed to the regular-expression
    operator. The main result is that this finds exactly the literal whole-word
    occurrences. */
module TagPattern {
  import opened Regex

  const NBSP := '\U{00A0}'

  /** translate(x, chr(160), ' ') */
  function Nbsp(s: string): (r: string)
  {
    if s == "" then "" else [if s[0] == NBSP then ' ' else s[0]] + Nbsp(s[1..])
  }

  function DropSpaces(ab: Alphabet, s: string): (r: string)
    ensures |r| <= |s|
  {
    if s != "" && ab.space(s[0]) then DropSpaces(ab, s[1..]) else s
  }

  /** regexp_replace(x, '\s+', ' ', 'g') */
  function Collapse(ab: Alphabet, s: string): string
    decreases |s|
  {
    if s == "" then ""
    else if ab.space(s[0]) then " " + Collapse(ab, DropSpaces(ab, s[1..]))
    else [s[0]] + Collapse(ab, s[1..])
  }

  function Norm(ab: Alphabet, s: string): string { Collapse(ab, Nbsp(s)) }

  /** regexp_replace(pattern, '([\^$.|?*+()\[\]{}\\])', '\\\1', 'g') */
  function Escape(s: string): string {
    if s == "" then "" else EscapeChar(s[0]) + Escape(s[1..])
  }

  function EscapeChar(c: char): string { if IsMeta(c) then ['\\', c] else [c] }

  const BEFORE := "(^|[^[:alnum:]_])"
  const AFTER := "([^[:alnum:]_]|$)"

  /** The right operand of `~`: escaping comes first, then nbsp and whitespace. */
  function PatternText(ab: Alphabet, pattern: string): string {
    BEFORE + Collapse(ab, Nbsp(Escape(pattern))) + AFTER
  }

  /** `norm(text) ~ (…)`; a pattern text that does not parse is an error, never a match. */
  ghost predicate PgContains(ab: Alphabet, pattern: string, text: string) {
    var re := ParseAlt(ab, PatternText(ab, pattern));
    re.Done? && re.rest == "" && Found(ab, re.value, Norm(ab, text))
  }

  /** What the engine's documentation promises: a literal, case-sensitive, whole-word
      occurrence. */
  ghost predicate OccursAsWord(ab: Alphabet, q: string, t: string) {
    exists i: nat | i + |q| <= |t| :: WordAt(ab, q, t, i)
  }

  ghost predicate WordAt(ab: Alphabet, q: string, t: string, i: nat)
    requires i + |q| <= |t|
  {
    && t[i..i + |q|] == q
    && (i == 0 || !ab.Word(t[i - 1]))
    && (i + |q| == |t| || !ab.Word(t[i + |q|]))
  }

  // ------------------------------------------------ escaping commutes with normalising

  lemma EscapeCons(c: char, u: string)
    ensures Escape([c] + u) == EscapeChar(c) + Escape(u)
  {
    assert ([c] + u)[1..] == u;
  }

  lemma {:induction false} NbspConcat(a: string, b: string)
    ensures Nbsp(a + b) == Nbsp(a) + Nbsp(b)
  {
    if a == "" {
      assert a + b == b;
    } else {
      NbspConcat(a[1..], b);
      assert (a + b)[1..] == a[1..] + b;
    }
  }

  lemma {:induction false} EscapeNbsp(s: string)
    ensures Nbsp(Escape(s)) == Escape(Nbsp(s))
  {
    if s != "" {
      var c, u := s[0], s[1..];
      var d := if c == NBSP then ' ' else c;
      EscapeNbsp(u);
      NbspConcat(EscapeChar(c), Escape(u));
      assert Nbsp(EscapeChar(c)) == EscapeChar(d) by {
        if IsMeta(c) { assert ['\\', c][1..] == [c]; }
      }
      EscapeCons(d, Nbsp(u));
    }
  }

  lemma {:induction false} EscapeDropSpaces(ab: Alphabet, s: string)
    requires ab.Valid()
    ensures DropSpaces(ab, Escape(s)) == Escape(DropSpaces(ab, s))
  {
    if s != "" && ab.space(s[0]) {
      EscapeDropSpaces(ab, s[1..]);
      assert Escape(s)[1..] == Escape(s[1..]);
    }
  }

  lemma CollapseCons(ab: Alphabet, c: char, u: string)
    ensures !ab.space(c) ==> Collapse(ab, [c] + u) == [c] + Collapse(ab, u)
    ensures ab.space(c) ==> Collapse(ab, [c] + u) == " " + Collapse(ab, DropSpaces(ab, u))
  {
    assert ([c] + u)[1..] == u;
  }

  lemma CollapseEscapedChar(ab: Alphabet, c: char, u: string)
    requires ab.Valid() && !ab.space(c)
    ensures Collapse(ab, EscapeChar(c) + u) == EscapeChar(c) + Collapse(ab, u)
  {
    CollapseCons(ab, c, u);
    if IsMeta(c) {
      assert IsMeta('\\');
      CollapseCons(ab, '\\', [c] + u);
      assert EscapeChar(c) + u == ['\\'] + ([c] + u);
      assert EscapeChar(c) + Collapse(ab, u) == ['\\'] + ([c] + Collapse(ab, u));
    }
  }

  lemma {:induction false} EscapeCollapse(ab: Alphabet, s: string)
    requires ab.Valid()
    ensures Collapse(ab, Escape(s)) == Escape(Collapse(ab, s))
    decreases |s|
  {
    if s != "" {
      var c, u := s[0], s[1..];
      if ab.space(c) {
        var d := DropSpaces(ab, u);
        EscapeDropSpaces(ab, u);
        EscapeCollapse(ab, d);
        CollapseCons(ab, c, Escape(u));
        EscapeCons(' ', Collapse(ab, d));
        assert EscapeChar(c) == [c];
      } else {
        EscapeCollapse(ab, u);
        CollapseEscapedChar(ab, c, Escape(u));
        EscapeCons(c, Collapse(ab, u));
      }
    }
  }

  lemma EscapeNorm(ab: Alphabet, pattern: string)
    requires ab.Valid()
    ensures Collapse(ab, Nbsp(Escape(pattern))) == Escape(Norm(ab, pattern))
  {
    EscapeNbsp(pattern);
    EscapeCollapse(ab, Nbsp(pattern));
  }

  // ------------------------------------------------ what normalising is

  /** A run of blanks of either kind. */
  predicate IsRun(ab: Alphabet, w: string) { w != "" && forall c | c in w :: c == NBSP || ab.space(c) }

  lemma {:induction false} NbspRun(ab: Alphabet, w: string)
    requires ab.Valid() && forall c | c in w :: c == NBSP || ab.space(c)
    ensures |Nbsp(w)| == |w| && forall c | c in Nbsp(w) :: ab.space(c)
  {
    if w != "" {
      assert w[0] in w;
      NbspRun(ab, w[1..]);
    }
  }

  lemma {:induction false} DropRun(ab: Alphabet, w: string, b: string)
    requires forall c | c in w :: ab.space(c)
    ensures DropSpaces(ab, w + b) == DropSpaces(ab, b)
  {
    if w == "" {
      assert w + b == b;
    } else {
      assert w[0] in w;
      DropRun(ab, w[1..], b);
      assert (w + b)[1..] == w[1..] + b;
    }
  }

  lemma {:induction false} DropThenAppend(ab: Alphabet, a: string, b: string)
    ensures DropSpaces(ab, a + b) ==
      if DropSpaces(ab, a) == "" then DropSpaces(ab, b) else DropSpaces(ab, a) + b
  {
    if a == "" {
      assert a + b == b;
    } else if ab.space(a[0]) {
      DropThenAppend(ab, a[1..], b);
      assert (a + b)[1..] == a[1..] + b;
    }
  }

  lemma {:induction false} CollapseBehind(ab: Alphabet, a: string, t: string, t': string)
    requires DropSpaces(ab, t) == DropSpaces(ab, t') && Collapse(ab, t) == Collapse(ab, t')
    ensures Collapse(ab, a + t) == Collapse(ab, a + t')
    decreases |a|
  {
    if a == "" {
      assert a + t == t && a + t' == t';
    } else {
      var u := a[1..];
      assert (a + t)[1..] == u + t && (a + t')[1..] == u + t';
      if ab.space(a[0]) {
        DropThenAppend(ab, u, t);
        DropThenAppend(ab, u, t');
        CollapseBehind(ab, DropSpaces(ab, u), t, t');
      } else {
        CollapseBehind(ab, u, t, t');
      }
    }
  }

  lemma CollapseRun(ab: Alphabet, a: string, w: string, b: string)
    requires ab.Valid() && w != "" && forall c | c in w :: ab.space(c)
    ensures Collapse(ab, a + w + b) == Collapse(ab, a + " " + b)
  {
    DropRun(ab, w, b);
    DropRun(ab, " ", b);
    assert w[0] in w && (w + b)[1..] == w[1..] + b && (" " + b)[1..] == b;
    DropRun(ab, w[1..], b);
    CollapseBehind(ab, a, w + b, " " + b);
    assert a + w + b == a + (w + b) && a + " " + b == a + (" " + b);
  }

  /** What normalising does to a text with runs of blanks: each counts as one blank. */
  lemma RunIsOneBlank(ab: Alphabet, a: string, w: string, b: string)
    requires ab.Valid() && IsRun(ab, w)
    ensures Norm(ab, a + w + b) == Norm(ab, a + " " + b)
  {
    NbspConcat(a + w, b);
    NbspConcat(a, w);
    NbspConcat(a + " ", b);
    NbspConcat(a, " ");
    NbspRun(ab, w);
    assert Nbsp(" ") == " ";
    CollapseRun(ab, Nbsp(a), Nbsp(w), Nbsp(b));
  }

  /** No blank but ' ', and never two together. */
  predicate IsPlain(ab: Alphabet, s: string) {
    && (forall k | 0 <= k < |s| :: s[k] != NBSP && (ab.space(s[k]) ==> s[k] == ' '))
    && (forall i, j | 0 <= i < |s| && 0 <= j < |s| && j == i + 1 :: !(s[i] == ' ' && s[j] == ' '))
  }

  /** And it does nothing to a text without such runs; so it is fixed for every text. */
  lemma {:induction false} PlainStays(ab: Alphabet, s: string)
    requires ab.Valid() && IsPlain(ab, s)
    ensures Nbsp(s) == s && Norm(ab, s) == s
  {
    if s != "" {
      var u := s[1..];
      assert forall k | 0 <= k < |u| :: u[k] == s[k + 1];
      assert IsPlain(ab, u) by {
        forall i, j | 0 <= i < |u| && 0 <= j < |u| && j == i + 1 ensures !(u[i] == ' ' && u[j] == ' ') {
          assert u[i] == s[i + 1] && u[j] == s[j + 1];
        }
      }
      PlainStays(ab, u);
      if ab.space(s[0]) && u != "" { assert s[1] == u[0]; }
    }
  }

  // ------------------------------------------------ what the built text parses to

  const NOT_WORD := Class(true, [Alnum, One('_')])
  const BEFORE_RE := Alt(Seq(Bol, Empty), Seq(NOT_WORD, Empty))
  const AFTER_RE := Alt(Seq(NOT_WORD, Empty), Seq(Eol, Empty))

  function Literal(q: string, tail: Regex): Regex {
    if q == "" then tail else Seq(Lit(q[0]), Literal(q[1..], tail))
  }

  lemma ParseNotWord(ab: Alphabet, u: string)
    requires ab.Valid()
    ensures ParseAtom(ab, "[^[:alnum:]_]" + u) == Done(NOT_WORD, u)
  {
    var s := "[^[:alnum:]_]" + u;
    var s2 := "[:alnum:]_]" + u;
    assert s[1..][1..] == s2;
    assert s2[..9] == "[:alnum:]";
    assert s2[9..] == "_]" + u;
    var s3 := "_]" + u;
    assert s3[1..] == "]" + u;
    assert ("]" + u)[1..] == u;
    assert ParseItems(ab, "]" + u, false) == Done([], u);
    assert [One('_')] + [] == [One('_')] && [Alnum] + [One('_')] == [Alnum, One('_')];
    assert ParseItems(ab, s3, false) == Done([One('_')], u);
    assert ParseItems(ab, s2, true) == Done([Alnum, One('_')], u);
  }

  /** A branch that is one atom long, up to the `|` or `)` that closes it. */
  lemma OneAtomBranch(ab: Alphabet, s: string, a: Regex, rest: string)
    requires s != "" && s[0] != '|' && s[0] != ')'
    requires ParseAtom(ab, s) == Done(a, rest)
    requires rest != "" && (rest[0] == '|' || rest[0] == ')')
    ensures ParseBranch(ab, s) == Done(Seq(a, Empty), rest)
  {
    assert ParsePiece(ab, s) == Done(a, rest);
    assert ParseBranch(ab, rest) == Done(Empty, rest);
  }

  /** A group of two one-atom branches. */
  lemma GroupOfTwo(ab: Alphabet, s: string, left: string, right: string, a: Regex, b: Regex, u: string)
    requires s != "" && s[0] == '(' && s[1..] == left
    requires ParseBranch(ab, left) == Done(a, "|" + right)
    requires ParseBranch(ab, right) == Done(b, ")" + u)
    ensures ParseAtom(ab, s) == Done(Alt(a, b), u)
  {
    assert ("|" + right)[1..] == right;
    assert (")" + u)[1..] == u;
    assert ParseAlt(ab, right) == Done(b, ")" + u);
    assert ParseAlt(ab, left) == Done(Alt(a, b), ")" + u);
  }

  lemma ParseBefore(ab: Alphabet, u: string)
    requires ab.Valid()
    ensures ParseAtom(ab, BEFORE + u) == Done(BEFORE_RE, u)
  {
    var s := BEFORE + u;
    var left, right, close := "^|[^[:alnum:]_])" + u, "[^[:alnum:]_])" + u, ")" + u;
    assert s[1..] == left;
    assert left[1..] == "|" + right;
    OneAtomBranch(ab, left, Bol, "|" + right);
    assert right == "[^[:alnum:]_]" + close;
    ParseNotWord(ab, close);
    OneAtomBranch(ab, right, NOT_WORD, close);
    GroupOfTwo(ab, s, left, right, Seq(Bol, Empty), Seq(NOT_WORD, Empty), u);
  }

  lemma ParseAfter(ab: Alphabet, u: string)
    requires ab.Valid()
    ensures ParseAtom(ab, AFTER + u) == Done(AFTER_RE, u)
  {
    var s := AFTER + u;
    var left, right, close := "[^[:alnum:]_]|$)" + u, "$)" + u, ")" + u;
    assert s[1..] == left;
    assert left == "[^[:alnum:]_]" + ("|" + right);
    ParseNotWord(ab, "|" + right);
    OneAtomBranch(ab, left, NOT_WORD, "|" + right);
    assert right[1..] == close;
    OneAtomBranch(ab, right, Eol, close);
    GroupOfTwo(ab, s, left, right, Seq(NOT_WORD, Empty), Seq(Eol, Empty), u);
  }

  /** No quantifier starts here, so an atom that ends here stands alone. */
  predicate NoQuantifier(s: string) {
    s == "" || (s[0] != '*' && s[0] != '+' && s[0] != '?' && s[0] != '{')
  }

  ghost predicate Reads(ab: Alphabet, s: string, re: Regex, rest: string) {
    NoQuantifier(s) && ParseBranch(ab, s) == Done(re, rest)
  }

  lemma ParseEscapedChar(ab: Alphabet, c: char, v: string, s: string, re: Regex, rest: string)
    requires ab.Valid() && Reads(ab, v, re, rest)
    requires s == EscapeChar(c) + v
    ensures Reads(ab, s, Seq(Lit(c), re), rest)
  {
    if IsMeta(c) {
      assert s[2..] == v && s[0] == '\\' && s[1] == c;
    } else {
      assert s[1..] == v && s[0] == c;
    }
    assert ParseAtom(ab, s) == Done(Lit(c), v);
    assert ParsePiece(ab, s) == Done(Lit(c), v);
  }

  lemma EscapeStep(q: string, u: string)
    requires q != ""
    ensures Escape(q) + u == EscapeChar(q[0]) + (Escape(q[1..]) + u)
  {
  }

  /** Parsing an escaped pattern gives back its literal. */
  lemma {:induction false} ParseEscaped(ab: Alphabet, q: string, u: string, s: string, re: Regex, rest: string)
    requires ab.Valid() && Reads(ab, u, re, rest)
    requires s == Escape(q) + u
    ensures Reads(ab, s, Literal(q, re), rest)
  {
    if q == "" {
      assert s == u;
    } else {
      var v := Escape(q[1..]) + u;
      ParseEscaped(ab, q[1..], u, v, re, rest);
      EscapeStep(q, u);
      ParseEscapedChar(ab, q[0], v, s, Literal(q[1..], re), rest);
    }
  }

  lemma ParsePattern(ab: Alphabet, pattern: string)
    requires ab.Valid()
    ensures ParseAlt(ab, PatternText(ab, pattern))
         == Done(Seq(BEFORE_RE, Literal(Norm(ab, pattern), Seq(AFTER_RE, Empty))), "")
  {
    EscapeNorm(ab, pattern);
    var q := Norm(ab, pattern);
    ParseAfter(ab, "");
    assert AFTER + "" == AFTER;
    assert ParsePiece(ab, AFTER) == Done(AFTER_RE, "");
    assert ParseBranch(ab, "") == Done(Empty, "");
    assert ParseBranch(ab, AFTER) == Done(Seq(AFTER_RE, Empty), "");
    var body := Escape(q) + AFTER;
    ParseEscaped(ab, q, AFTER, body, Seq(AFTER_RE, Empty), "");
    ParseBefore(ab, body);
    assert PatternText(ab, pattern) == BEFORE + body;
    assert ParsePiece(ab, BEFORE + body) == Done(BEFORE_RE, body);
  }

  // ------------------------------------------------ what the parsed pattern matches

  lemma {:induction false} MatchesLiteral(ab: Alphabet, q: string, tail: Regex, t: string, i: nat, j: nat)
    requires i <= j <= |t|
    ensures Matches(ab, Literal(q, tail), t, i, j)
       <==> (i + |q| <= j && t[i..i + |q|] == q && Matches(ab, tail, t, i + |q|, j))
  {
    if q == "" {
      assert t[i..i] == "";
    } else {
      if i < j {
        MatchesLiteral(ab, q[1..], tail, t, i + 1, j);
        if i + |q| <= j {
          assert t[i..i + |q|] == [t[i]] + t[i + 1..i + 1 + |q[1..]|];
          assert q == [q[0]] + q[1..];
        }
        if t[i] == q[0] && Matches(ab, Literal(q[1..], tail), t, i + 1, j) {
          assert Matches(ab, Lit(q[0]), t, i, i + 1);
        }
      }
    }
  }

  lemma SplitSeq(ab: Alphabet, a: Regex, b: Regex, t: string, i: nat, j: nat) returns (k: nat)
    requires i <= j <= |t| && Matches(ab, Seq(a, b), t, i, j)
    ensures i <= k <= j && Matches(ab, a, t, i, k) && Matches(ab, b, t, k, j)
  {
    k :| i <= k <= j && Matches(ab, a, t, i, k) && Matches(ab, b, t, k, j);
  }

  lemma JoinSeq(ab: Alphabet, a: Regex, b: Regex, t: string, i: nat, k: nat, j: nat)
    requires i <= k <= j <= |t| && Matches(ab, a, t, i, k) && Matches(ab, b, t, k, j)
    ensures Matches(ab, Seq(a, b), t, i, j)
  {
  }

  lemma MatchesBefore(ab: Alphabet, t: string, i: nat, j: nat)
    requires i <= j <= |t|
    ensures Matches(ab, BEFORE_RE, t, i, j)
       <==> (i == j == 0 || (j == i + 1 && !ab.Word(t[i])))
  {
    MatchesThenEmpty(ab, Bol, t, i, j);
    MatchesThenEmpty(ab, NOT_WORD, t, i, j);
    NotWordClass(ab, t, i, j);
  }

  lemma MatchesAfter(ab: Alphabet, t: string, i: nat, j: nat)
    requires i <= j <= |t|
    ensures Matches(ab, Seq(AFTER_RE, Empty), t, i, j)
       <==> (i == j == |t| || (j == i + 1 && !ab.Word(t[i])))
  {
    MatchesThenEmpty(ab, AFTER_RE, t, i, j);
    MatchesThenEmpty(ab, Eol, t, i, j);
    MatchesThenEmpty(ab, NOT_WORD, t, i, j);
    NotWordClass(ab, t, i, j);
  }

  lemma MatchesThenEmpty(ab: Alphabet, re: Regex, t: string, i: nat, j: nat)
    requires i <= j <= |t|
    ensures Matches(ab, Seq(re, Empty), t, i, j) <==> Matches(ab, re, t, i, j)
  {
    assert Matches(ab, Empty, t, j, j);
  }

  lemma NotWordClass(ab: Alphabet, t: string, i: nat, j: nat)
    requires i <= j <= |t|
    ensures Matches(ab, NOT_WORD, t, i, j) <==> (j == i + 1 && !ab.Word(t[i]))
  {
    var items := [Alnum, One('_')];
    if j == i + 1 {
      if ab.alnum(t[i]) { assert InClass(ab, items, t[i]) by { assert items[0] == Alnum; } }
      if t[i] == '_' { assert InClass(ab, items, t[i]) by { assert items[1] == One('_'); } }
    }
  }

  // ------------------------------------------------ main result

  ghost predicate BoundaryBefore(ab: Alphabet, re: Regex, t: string) {
    forall i, j | 0 <= i <= j <= |t| ::
      Matches(ab, re, t, i, j) <==> (i == j == 0 || (j == i + 1 && !ab.Word(t[i])))
  }

  ghost predicate BoundaryAfter(ab: Alphabet, re: Regex, t: string) {
    forall i, j | 0 <= i <= j <= |t| ::
      Matches(ab, re, t, i, j) <==> (i == j == |t| || (j == i + 1 && !ab.Word(t[i])))
  }

  lemma FoundThenWord(ab: Alphabet, before: Regex, after: Regex, q: string, t: string)
    requires BoundaryBefore(ab, before, t) && BoundaryAfter(ab, after, t)
    requires Found(ab, Seq(before, Literal(q, after)), t)
    ensures OccursAsWord(ab, q, t)
  {
    var body := Literal(q, after);
    var i, j :| 0 <= i <= j <= |t| && Matches(ab, Seq(before, body), t, i, j);
    var k := SplitSeq(ab, before, body, t, i, j);
    MatchesLiteral(ab, q, after, t, k, j);
    assert WordAt(ab, q, t, k);
  }

  lemma WordThenFound(ab: Alphabet, before: Regex, after: Regex, q: string, t: string)
    requires BoundaryBefore(ab, before, t) && BoundaryAfter(ab, after, t)
    requires OccursAsWord(ab, q, t)
    ensures Found(ab, Seq(before, Literal(q, after)), t)
  {
    var k: nat :| k + |q| <= |t| && WordAt(ab, q, t, k);
    var i := if k == 0 then 0 else k - 1;
    var e := k + |q|;
    var j := if e == |t| then e else e + 1;
    assert Matches(ab, before, t, i, k) && Matches(ab, after, t, e, j);
    MatchesLiteral(ab, q, after, t, k, j);
    JoinSeq(ab, before, Literal(q, after), t, i, k, j);
  }

  lemma Boundaries(ab: Alphabet, t: string)
    ensures BoundaryBefore(ab, BEFORE_RE, t) && BoundaryAfter(ab, Seq(AFTER_RE, Empty), t)
  {
    forall i, j | 0 <= i <= j <= |t|
      ensures Matches(ab, BEFORE_RE, t, i, j) <==> (i == j == 0 || (j == i + 1 && !ab.Word(t[i])))
    {
      MatchesBefore(ab, t, i, j);
    }
    forall i, j | 0 <= i <= j <= |t|
      ensures Matches(ab, Seq(AFTER_RE, Empty), t, i, j) <==> (i == j == |t| || (j == i + 1 && !ab.Word(t[i])))
    {
      MatchesAfter(ab, t, i, j);
    }
  }

  /** For every pattern and every text: the statement's regular expression is well formed
      and finds exactly the whole-word occurrences of the normalised pattern in the
      normalised text. */
  lemma PgContainsIsWholeWord(ab: Alphabet, pattern: string, text: string)
    requires ab.Valid()
    ensures PgContains(ab, pattern, text) <==> OccursAsWord(ab, Norm(ab, pattern), Norm(ab, text))
    ensures ParseAlt(ab, PatternText(ab, pattern)).Done?
  {
    ParsePattern(ab, pattern);
    var q, t := Norm(ab, pattern), Norm(ab, text);
    Boundaries(ab, t);
    if OccursAsWord(ab, q, t) { WordThenFound(ab, BEFORE_RE, Seq(AFTER_RE, Empty), q, t); }
    if PgContains(ab, pattern, text) { FoundThenWord(ab, BEFORE_RE, Seq(AFTER_RE, Empty), q, t); }
  }

  /** An empty text contains the empty pattern as a word and no other; so no pattern that
      the interface accepts, which asks for at least one character. */
  lemma EmptyTextContains(ab: Alphabet, pattern: string)
    requires ab.Valid()
    ensures PgContains(ab, pattern, "") <==> pattern == ""
  {
    PgContainsIsWholeWord(ab, pattern, "");
    var q := Norm(ab, pattern);
    if OccursAsWord(ab, q, "") {
      var i: nat :| i + |q| <= 0 && WordAt(ab, q, "", i);
    }
    if q == "" { assert WordAt(ab, q, "", 0); }
  }

  // ------------------------------------------------ HTML bodies

  function IndexOf(s: string, c: char): (k: nat)
    ensures k <= |s| && c !in s[..k] && (k < |s| ==> s[k] == c)
  {
    if s == "" || s[0] == c then 0
    else
      var k := IndexOf(s[1..], c);
      assert s[..1 + k] == [s[0]] + s[1..][..k];
      1 + k
  }

  /** regexp_replace(html, '<[^>]+>', ' ', 'g'): a `<` opens a tag if a `>` follows with
      something in between. */
  predicate TagAt(s: string) {
    s != "" && s[0] == '<' && 0 < IndexOf(s[1..], '>') < |s[1..]|
  }

  function StripTags(s: string): string
    decreases |s|
  {
    if s == "" then ""
    else if TagAt(s) then " " + StripTags(s[IndexOf(s[1..], '>') + 2..])
    else [s[0]] + StripTags(s[1..])
  }

  lemma {:induction false} StripTagsKeepsClose(s: string)
    ensures '>' in StripTags(s) ==> '>' in s
    ensures s != "" && s[0] == '>' ==> StripTags(s) != "" && StripTags(s)[0] == '>'
    decreases |s|
  {
    if s != "" {
      if TagAt(s) {
        StripTagsKeepsClose(s[IndexOf(s[1..], '>') + 2..]);
      } else {
        StripTagsKeepsClose(s[1..]);
      }
    }
  }

  /** No tag is left anywhere, so stripping twice is stripping once. */
  lemma {:induction false} StripTagsLeavesNone(s: string)
    ensures forall k | 0 <= k < |StripTags(s)| :: !TagAt(StripTags(s)[k..])
    ensures StripTags(StripTags(s)) == StripTags(s)
    decreases |s|
  {
    var r := StripTags(s);
    if s != "" {
      var u := if TagAt(s) then s[IndexOf(s[1..], '>') + 2..] else s[1..];
      StripTagsLeavesNone(u);
      var v := StripTags(u);
      assert r[1..] == v;
      forall k | 0 <= k < |r| ensures !TagAt(r[k..]) {
        if k > 0 { assert r[k..] == v[k - 1..]; }
        else if r[0] == '<' { StripTagsKeepsClose(u); assert r[0..] == r; }
      }
      assert r[0..] == r;
    }
  }

  // ------------------------------------------------ what stripping is

  /** Every `<` is followed by `>` at once, so that no tag opens. */
  predicate OpensNoTag(s: string) { forall k | 0 <= k < |s| && s[k] == '<' :: k + 1 < |s| && s[k + 1] == '>' }

  lemma {:induction false} IndexOfFirst(a: string, c: char, b: string)
    requires c !in a
    ensures IndexOf(a + [c] + b, c) == |a|
  {
    if a != "" {
      assert a[0] in a && (a + [c] + b)[1..] == a[1..] + [c] + b;
      IndexOfFirst(a[1..], c, b);
    }
  }

  lemma OneTag(inner: string, b: string)
    requires inner != "" && '>' !in inner
    ensures StripTags("<" + inner + ">" + b) == " " + StripTags(b)
  {
    var s := "<" + inner + ">" + b;
    assert s[1..] == inner + ['>'] + b;
    IndexOfFirst(inner, '>', b);
    assert s[|inner| + 2..] == b;
  }

  lemma {:induction false} StripsBehind(a: string, t: string)
    requires OpensNoTag(a)
    ensures StripTags(a + t) == a + StripTags(t)
  {
    if a == "" {
      assert a + t == t;
    } else {
      var u := a[1..];
      assert (a + t)[1..] == u + t;
      forall k | 0 <= k < |u| && u[k] == '<' ensures k + 1 < |u| && u[k + 1] == '>' { assert a[k + 1] == '<'; }
      StripsBehind(u, t);
      if a[0] == '<' { assert (u + t)[0] == a[1] == '>' && !TagAt(a + t); }
      assert a + StripTags(t) == [a[0]] + (u + StripTags(t));
    }
  }

  /** What stripping does: the first tag gives way to one blank, and so on behind it. */
  lemma FirstTagGoes(a: string, inner: string, b: string)
    requires OpensNoTag(a) && inner != "" && '>' !in inner
    ensures StripTags(a + "<" + inner + ">" + b) == a + " " + StripTags(b)
  {
    OneTag(inner, b);
    StripsBehind(a, "<" + inner + ">" + b);
    TagBehind(a, inner, b, StripTags(b));
  }

  lemma TagBehind(a: string, inner: string, b: string, r: string)
    ensures a + "<" + inner + ">" + b == a + ("<" + inner + ">" + b)
    ensures a + " " + r == a + (" " + r)
  {
  }

  /** And without a tag the text stays: behind every `<` comes `>` at once or not at all. */
  lemma {:induction false} NoTagStays(s: string)
    requires forall k | 0 <= k < |s| - 1 && s[k] == '<' && s[k + 1] != '>' :: '>' !in s[k + 1..]
    ensures StripTags(s) == s
  {
    if s != "" {
      forall k | 0 <= k < |s[1..]| - 1 && s[1..][k] == '<' && s[1..][k + 1] != '>'
        ensures '>' !in s[1..][k + 1..]
      {
        assert s[k + 1] == '<' && s[1..][k + 1..] == s[k + 2..];
      }
      NoTagStays(s[1..]);
      if s[0] == '<' && s[1..] != "" && s[1] != '>' { assert '>' !in s[0 + 1..]; }
    }
  }
}
