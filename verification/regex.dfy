/** The fragment of PostgreSQL's regular-expression language (section 9.7.3 of its
    manual) that the tag engine's statements rely on: concrete syntax, a parser and a
    denotation. Every character that the engine has to escape keeps its special meaning
    here, so a pattern that is not escaped properly parses to something else. */
module Regex {
  import opened Prelude

  /** The database's character tables, which nothing below fixes. */
  datatype Alphabet = Alphabet(alnum: char -> bool, space: char -> bool, lower: string -> string) {
    predicate Word(c: char) { alnum(c) || c == '_' }

    /** What the engine needs of them: a blank is a space, and the characters with a
        special meaning are neither spaces nor alphanumeric. */
    ghost predicate Valid() {
      && space(' ')
      && (forall c | IsMeta(c) :: !space(c) && !alnum(c))
    }
  }

  datatype ClassItem = Alnum | One(c: char)

  datatype Regex =
    | Empty
    | Lit(c: char)
    | Any
    | Class(negated: bool, items: seq<ClassItem>)
    | Bol
    | Eol
    | Seq(first: Regex, second: Regex)
    | Alt(left: Regex, right: Regex)
    | Repeat(body: Regex, lo: nat, hi: Option<nat>)

  predicate IsMeta(c: char) {
    || c == '^' || c == '$' || c == '.' || c == '|' || c == '?' || c == '*' || c == '+'
    || c == '(' || c == ')' || c == '[' || c == ']' || c == '{' || c == '}' || c == '\\'
  }

  predicate IsDigit(c: char) { '0' <= c <= '9' }

  // ---------------------------------------------------------------- denotation

  predicate InClass(ab: Alphabet, items: seq<ClassItem>, c: char) {
    exists k | 0 <= k < |items| ::
      match items[k]
      case Alnum => ab.alnum(c)
      case One(d) => c == d
  }

  /** `re` matches the piece `t[i..j]`; anchors look at the whole of `t`. */
  ghost predicate Matches(ab: Alphabet, re: Regex, t: string, i: nat, j: nat)
    requires i <= j <= |t|
    decreases re, 0
  {
    match re
    case Empty => i == j
    case Lit(c) => j == i + 1 && t[i] == c
    case Any => j == i + 1
    case Class(negated, items) => j == i + 1 && InClass(ab, items, t[i]) != negated
    case Bol => i == j == 0
    case Eol => i == j == |t|
    case Seq(a, b) => exists k | i <= k <= j :: Matches(ab, a, t, i, k) && Matches(ab, b, t, k, j)
    case Alt(a, b) => Matches(ab, a, t, i, j) || Matches(ab, b, t, i, j)
    case Repeat(a, lo, hi) =>
      exists n: nat | lo <= n && (hi.Some? ==> n <= hi.value) :: MatchesTimes(ab, a, n, t, i, j)
  }

  ghost predicate MatchesTimes(ab: Alphabet, re: Regex, n: nat, t: string, i: nat, j: nat)
    requires i <= j <= |t|
    decreases re, n + 1
  {
    if n == 0 then i == j
    else exists k | i <= k <= j :: Matches(ab, re, t, i, k) && MatchesTimes(ab, re, n - 1, t, k, j)
  }

  /** The operator `~`: some piece of the text matches. A text the parser refuses is an
      error in the database. */
  ghost predicate Found(ab: Alphabet, re: Regex, t: string) {
    exists i, j | 0 <= i <= j <= |t| :: Matches(ab, re, t, i, j)
  }

  // ---------------------------------------------------------------- parser

  datatype Parsed<+T> = Fail | Done(value: T, rest: string)

  /** branch ('|' branch)* */
  function ParseAlt(ab: Alphabet, s: string): (r: Parsed<Regex>)
    ensures r.Done? ==> |r.rest| <= |s|
    decreases |s|, 3
  {
    match ParseBranch(ab, s)
    case Fail => Fail
    case Done(b, rest) =>
      if rest == "" || rest[0] != '|' then Done(b, rest)
      else
        match ParseAlt(ab, rest[1..])
        case Fail => Fail
        case Done(a, tail) => Done(Alt(b, a), tail)
  }

  /** A possibly empty run of quantified atoms. */
  function ParseBranch(ab: Alphabet, s: string): (r: Parsed<Regex>)
    ensures r.Done? ==> |r.rest| <= |s|
    decreases |s|, 2
  {
    if s == "" || s[0] == '|' || s[0] == ')' then Done(Empty, s)
    else
      match ParsePiece(ab, s)
      case Fail => Fail
      case Done(p, rest) =>
        match ParseBranch(ab, rest)
        case Fail => Fail
        case Done(q, tail) => Done(Seq(p, q), tail)
  }

  /** An atom and the quantifier that may follow it. */
  function ParsePiece(ab: Alphabet, s: string): (r: Parsed<Regex>)
    requires s != ""
    ensures r.Done? ==> |r.rest| < |s|
    decreases |s|, 1
  {
    match ParseAtom(ab, s)
    case Fail => Fail
    case Done(a, rest) =>
      if rest == "" then Done(a, rest)
      else if rest[0] == '*' then Done(Repeat(a, 0, None), rest[1..])
      else if rest[0] == '+' then Done(Repeat(a, 1, None), rest[1..])
      else if rest[0] == '?' then Done(Repeat(a, 0, Some(1)), rest[1..])
      else if OpensBound(rest) then ParseBound(a, rest[1..])
      else Done(a, rest)
  }

  function ParseAtom(ab: Alphabet, s: string): (r: Parsed<Regex>)
    requires s != ""
    ensures r.Done? ==> |r.rest| < |s|
    decreases |s|, 0
  {
    if s[0] == '(' then
      match ParseAlt(ab, s[1..])
      case Fail => Fail
      case Done(a, rest) => if rest != "" && rest[0] == ')' then Done(a, rest[1..]) else Fail
    else if s[0] == '[' then ParseBracket(ab, s[1..])
    else if s[0] == '.' then Done(Any, s[1..])
    else if s[0] == '^' then Done(Bol, s[1..])
    else if s[0] == '$' then Done(Eol, s[1..])
    else if s[0] == '\\' then
      // A backslash makes a non-alphanumeric character literal; `\d`, `\1` and the like
      // are not part of this fragment.
      if |s| > 1 && !ab.alnum(s[1]) then Done(Lit(s[1]), s[2..]) else Fail
    else if s[0] == '*' || s[0] == '+' || s[0] == '?' || s[0] == '|' || s[0] == ')' || OpensBound(s) then Fail
    else Done(Lit(s[0]), s[1..])
  }

  /** `{` starts a bound only before a digit; elsewhere it is a literal. */
  predicate OpensBound(s: string) { |s| > 1 && s[0] == '{' && IsDigit(s[1]) }

  function ParseNat(s: string, acc: nat): (r: (nat, string))
    ensures |r.1| <= |s|
  {
    if s != "" && IsDigit(s[0]) then ParseNat(s[1..], 10 * acc + (s[0] as int - '0' as int)) else (acc, s)
  }

  /** `m}`, `m,}` or `m,n}` after the opening brace. */
  function ParseBound(a: Regex, s: string): (r: Parsed<Regex>)
    ensures r.Done? ==> |r.rest| <= |s|
  {
    var (m, rest) := ParseNat(s, 0);
    if rest == "" then Fail
    else if rest[0] == '}' then Done(Repeat(a, m, Some(m)), rest[1..])
    else if rest[0] != ',' || |rest| == 1 then Fail
    else if rest[1] == '}' then Done(Repeat(a, m, None), rest[2..])
    else if !IsDigit(rest[1]) then Fail
    else
      var (n, tail) := ParseNat(rest[1..], 0);
      if tail != "" && tail[0] == '}' && m <= n then Done(Repeat(a, m, Some(n)), tail[1..]) else Fail
  }

  /** A bracket expression after its `[`. */
  function ParseBracket(ab: Alphabet, s: string): (r: Parsed<Regex>)
    ensures r.Done? ==> |r.rest| < |s|
  {
    var negated := s != "" && s[0] == '^';
    match ParseItems(ab, if negated then s[1..] else s, true)
    case Fail => Fail
    case Done(items, rest) => Done(Class(negated, items), rest)
  }

  /** A `]` is literal when it comes first. Ranges and the other named classes are not
      part of this fragment. */
  function ParseItems(ab: Alphabet, s: string, atStart: bool): (r: Parsed<seq<ClassItem>>)
    ensures r.Done? ==> |r.rest| < |s|
    decreases |s|
  {
    if s == "" then Fail
    else if s[0] == ']' && !atStart then Done([], s[1..])
    else if s[0] == '[' && |s| > 8 && s[..9] == "[:alnum:]" then Prepend(Alnum, ParseItems(ab, s[9..], false))
    else if s[0] == '[' && |s| > 1 && (s[1] == ':' || s[1] == '.' || s[1] == '=') then Fail
    else if s[0] == '\\' then
      if |s| > 1 && !ab.alnum(s[1]) then Prepend(One(s[1]), ParseItems(ab, s[2..], false)) else Fail
    else if |s| > 2 && s[1] == '-' && s[2] != ']' then Fail
    else Prepend(One(s[0]), ParseItems(ab, s[1..], false))
  }

  function Prepend(item: ClassItem, p: Parsed<seq<ClassItem>>): Parsed<seq<ClassItem>> {
    match p
    case Fail => Fail
    case Done(items, rest) => Done([item] + items, rest)
  }
}
