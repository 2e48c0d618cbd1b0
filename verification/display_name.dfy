/** The display name of a mailbox: a leading list of numbers and the rest of the text,
    taken apart and put together again. */
module DisplayName {
  import opened Prelude

  /** The character classes of the regular expression, which nothing below fixes. */
  datatype Chars = Chars(space: char -> bool, digit: char -> bool) {
    ghost predicate Valid() {
      space(' ') && !space(',') && !digit(',') && forall c :: !(space(c) && digit(c))
    }
  }

  // ---------------------------------------------------------------- string primitives

  function LStrip(ch: Chars, s: string): (r: string)
    ensures |r| <= |s| && (r != "" ==> !ch.space(r[0]))
  {
    if s != "" && ch.space(s[0]) then LStrip(ch, s[1..]) else s
  }

  function RStrip(ch: Chars, s: string): (r: string)
    ensures r <= s && (r != "" ==> !ch.space(r[|r| - 1]))
  {
    if s != "" && ch.space(s[|s| - 1]) then RStrip(ch, s[..|s| - 1]) else s
  }

  function Strip(ch: Chars, s: string): string { RStrip(ch, LStrip(ch, s)) }

  /** `s.split(",")` */
  function Split(s: string): (r: seq<string>)
    ensures r != []
  {
    if s == "" then [""]
    else if s[0] == ',' then [""] + Split(s[1..])
    else
      var t := Split(s[1..]);
      [[s[0]] + t[0]] + t[1..]
  }

  function StripAll(ch: Chars, parts: seq<string>): seq<string> {
    if parts == [] then [] else [Strip(ch, parts[0])] + StripAll(ch, parts[1..])
  }

  /** `", ".join(parts)` */
  function Join(parts: seq<string>): string {
    if parts == [] then "" else if |parts| == 1 then parts[0] else parts[0] + ", " + Join(parts[1..])
  }

  // ---------------------------------------------------------------- the regular expression

  predicate StartsWithDigit(ch: Chars, s: string) { s != "" && ch.digit(s[0]) }

  /** `\d+`, matched greedily, and the rest after it. */
  function Digits(ch: Chars, s: string): string {
    if StartsWithDigit(ch, s) then [s[0]] + Digits(ch, s[1..]) else ""
  }

  function DropDigits(ch: Chars, s: string): (r: string)
    ensures |r| <= |s| && !StartsWithDigit(ch, r) && (StartsWithDigit(ch, s) ==> |r| < |s|)
  {
    if StartsWithDigit(ch, s) then DropDigits(ch, s[1..]) else s
  }

  /** `\s*` */
  function Blanks(ch: Chars, s: string): string {
    if s != "" && ch.space(s[0]) then [s[0]] + Blanks(ch, s[1..]) else ""
  }

  /** `\s*,\s*` with a digit after it: the text from that digit on. */
  function AfterComma(ch: Chars, s: string): (r: Option<string>)
    ensures r.Some? ==> |r.value| < |s| && StartsWithDigit(ch, r.value)
  {
    var t := LStrip(ch, s);
    if t != "" && t[0] == ',' && StartsWithDigit(ch, LStrip(ch, t[1..])) then Some(LStrip(ch, t[1..])) else None
  }

  /** What `\s*,\s*` matched. */
  function Gap(ch: Chars, s: string): string
    requires AfterComma(ch, s).Some?
  {
    Blanks(ch, s) + "," + Blanks(ch, LStrip(ch, s)[1..])
  }

  /** `\d+(?:\s*,\s*\d+)*`, matched greedily, and the rest after it. */
  function Matched(ch: Chars, s: string): string
    requires StartsWithDigit(ch, s)
    decreases |s|
  {
    var rest := DropDigits(ch, s);
    match AfterComma(ch, rest)
    case Some(u) => Digits(ch, s) + (Gap(ch, rest) + Matched(ch, u))
    case None => Digits(ch, s)
  }

  function AfterList(ch: Chars, s: string): string
    requires StartsWithDigit(ch, s)
    decreases |s|
  {
    var rest := DropDigits(ch, s);
    match AfterComma(ch, rest)
    case Some(u) => AfterList(ch, u)
    case None => rest
  }

  datatype Name = Name(number: Option<string>, app: Option<string>)

  function NonEmpty(s: string): Option<string> { if s == "" then None else Some(s) }

  function Parse(ch: Chars, value: Option<string>): Name {
    match value
    case None => Name(None, None)
    case Some(v) =>
      var s := LStrip(ch, v);
      if !StartsWithDigit(ch, s) then Name(None, NonEmpty(Strip(ch, v)))
      else
        var rest := AfterList(ch, s);
        Name(Some(Join(StripAll(ch, Split(Matched(ch, s))))), NonEmpty(Strip(ch, rest)))
  }

  function Part(ch: Chars, part: Option<string>): seq<string> {
    if part.Some? && Strip(ch, part.value) != "" then [Strip(ch, part.value)] else []
  }

  function Build(ch: Chars, name: Name): Option<string> {
    var parts := Part(ch, name.number) + Part(ch, name.app);
    if parts == [] then None
    else if |parts| == 1 then Some(parts[0])
    else Some(parts[0] + " " + parts[1])
  }

  // ---------------------------------------------------------------- the numbers of a match

  /** The digit runs of the list. */
  function Tokens(ch: Chars, s: string): (ts: seq<string>)
    requires StartsWithDigit(ch, s)
    ensures ts != []
    decreases |s|
  {
    match AfterComma(ch, DropDigits(ch, s))
    case Some(u) => [Digits(ch, s)] + Tokens(ch, u)
    case None => [Digits(ch, s)]
  }

  ghost predicate AllDigits(ch: Chars, s: string) { s != "" && forall c | c in s :: ch.digit(c) }

  ghost predicate AllSpace(ch: Chars, s: string) { forall c | c in s :: ch.space(c) }

  lemma {:induction false} DigitsSplit(ch: Chars, s: string)
    ensures (forall c | c in Digits(ch, s) :: ch.digit(c)) && s == Digits(ch, s) + DropDigits(ch, s)
  {
    if StartsWithDigit(ch, s) { DigitsSplit(ch, s[1..]); }
  }

  lemma {:induction false} BlanksSplit(ch: Chars, s: string)
    ensures AllSpace(ch, Blanks(ch, s)) && s == Blanks(ch, s) + LStrip(ch, s)
  {
    if s != "" && ch.space(s[0]) { BlanksSplit(ch, s[1..]); }
  }

  /** The two parts of a greedy match are the text. */
  lemma {:induction false} MatchSplits(ch: Chars, s: string)
    requires StartsWithDigit(ch, s)
    ensures s == Matched(ch, s) + AfterList(ch, s)
    decreases |s|
  {
    var rest := DropDigits(ch, s);
    DigitsSplit(ch, s);
    match AfterComma(ch, rest)
    case Some(u) =>
      MatchSplits(ch, u);
      GapSplits(ch, rest, u);
    case None =>
  }

  lemma GapSplits(ch: Chars, s: string, u: string)
    requires AfterComma(ch, s) == Some(u)
    ensures s == Gap(ch, s) + u
  {
    var t := LStrip(ch, s);
    BlanksThenRest(ch, s);
    BlanksThenRest(ch, t[1..]);
    assert t == "," + t[1..];
    Regroup(Blanks(ch, s), Blanks(ch, t[1..]), u);
  }

  lemma BlanksThenRest(ch: Chars, s: string)
    ensures s == Blanks(ch, s) + LStrip(ch, s)
  {
    BlanksSplit(ch, s);
  }

  lemma Regroup(w: string, v: string, u: string)
    ensures w + ("," + (v + u)) == (w + "," + v) + u
  {
  }

  lemma {:induction false} LStripSpaces(ch: Chars, w: string, s: string)
    requires AllSpace(ch, w)
    ensures LStrip(ch, w + s) == LStrip(ch, s)
  {
    if w == "" {
      assert w + s == s;
    } else {
      assert w[0] in w;
      LStripSpaces(ch, w[1..], s);
      assert (w + s)[1..] == w[1..] + s;
    }
  }

  lemma {:induction false} RStripSpaces(ch: Chars, s: string, w: string)
    requires AllSpace(ch, w)
    ensures RStrip(ch, s + w) == RStrip(ch, s)
  {
    if w == "" {
      assert s + w == s;
    } else {
      assert w[|w| - 1] in w;
      RStripSpaces(ch, s, w[..|w| - 1]);
      assert (s + w)[..|s + w| - 1] == s + w[..|w| - 1];
    }
  }

  lemma StripSolid(ch: Chars, s: string)
    requires s == "" || (!ch.space(s[0]) && !ch.space(s[|s| - 1]))
    ensures Strip(ch, s) == s
  {
  }

  lemma StripIsSolid(ch: Chars, s: string)
    ensures var r := Strip(ch, s); r == "" || (!ch.space(r[0]) && !ch.space(r[|r| - 1]))
    ensures Strip(ch, Strip(ch, s)) == Strip(ch, s)
  {
  }

  lemma StripDigits(ch: Chars, d: string)
    requires ch.Valid() && AllDigits(ch, d)
    ensures Strip(ch, d) == d
  {
    assert d[0] in d && d[|d| - 1] in d;
  }

  lemma {:induction false} SplitAfter(w: string, x: string)
    requires ',' !in w
    ensures Split(w + x) == [w + Split(x)[0]] + Split(x)[1..]
  {
    if w == "" {
      assert w + x == x && w + Split(x)[0] == Split(x)[0];
      assert [Split(x)[0]] + Split(x)[1..] == Split(x);
    } else {
      SplitAfter(w[1..], x);
      assert (w + x)[1..] == w[1..] + x;
      assert [w[0]] + (w[1..] + Split(x)[0]) == w + Split(x)[0];
    }
  }

  lemma CommaAssoc(d: string, w: string, v: string, g: string)
    ensures d + (w + "," + v + g) == (d + w) + "," + (v + g)
  {
  }

  /** One more number in front of a list: digits, blanks, a comma, blanks. */
  lemma SplitList(ch: Chars, d: string, w: string, v: string, g: string)
    requires ch.Valid() && AllDigits(ch, d) && AllSpace(ch, w) && AllSpace(ch, v)
    ensures StripAll(ch, Split(d + (w + "," + v + g))) == [d] + StripAll(ch, Split(g))
  {
    var head := Split(g)[0];
    SplitAtComma(d + w, v + g);
    CommaAssoc(d, w, v, g);
    SplitAfter(v, g);
    StripPadded(ch, d, w);
    LStripSpaces(ch, v, head);
    StripAllCons(ch, d + w, Split(v + g));
    StripAllCons(ch, v + head, Split(g)[1..]);
    StripAllCons(ch, head, Split(g)[1..]);
    assert Split(g) == [head] + Split(g)[1..];
  }

  lemma SplitAtComma(a: string, b: string)
    requires ',' !in a
    ensures Split(a + "," + b) == [a] + Split(b)
  {
    var tail := "," + b;
    assert tail[1..] == b;
    SplitAfter(a, tail);
    assert a + "," + b == a + tail && a + "" == a;
    assert Split(tail) == [""] + Split(b);
  }

  lemma StripAllCons(ch: Chars, a: string, parts: seq<string>)
    ensures StripAll(ch, [a] + parts) == [Strip(ch, a)] + StripAll(ch, parts)
  {
    assert ([a] + parts)[1..] == parts;
  }

  lemma StripPadded(ch: Chars, d: string, w: string)
    requires ch.Valid() && AllDigits(ch, d) && AllSpace(ch, w)
    ensures Strip(ch, d + w) == d
    ensures ',' !in d + w
  {
    assert d[0] in d;
    assert LStrip(ch, d + w) == d + w;
    RStripSpaces(ch, d, w);
    StripDigits(ch, d);
  }

  /** Splitting the matched text at commas and stripping gives the digit runs. */
  lemma {:induction false} SplitGivesTokens(ch: Chars, s: string)
    requires ch.Valid() && StartsWithDigit(ch, s)
    ensures StripAll(ch, Split(Matched(ch, s))) == Tokens(ch, s)
    decreases |s|
  {
    var d, rest := Digits(ch, s), DropDigits(ch, s);
    DigitsSplit(ch, s);
    match AfterComma(ch, rest)
    case Some(u) =>
      SplitGivesTokens(ch, u);
      var w, v := Blanks(ch, rest), Blanks(ch, LStrip(ch, rest)[1..]);
      BlanksSplit(ch, rest);
      BlanksSplit(ch, LStrip(ch, rest)[1..]);
      SplitList(ch, d, w, v, Matched(ch, u));
      assert Gap(ch, rest) + Matched(ch, u) == w + "," + v + Matched(ch, u);
    case None =>
      SplitAfter(d, "");
      StripDigits(ch, d);
      assert d + "" == d && Split("") == [""] && Split(d) == [d];
      StripAllCons(ch, d, []);
      assert [d] + [] == [d];
  }

  ghost predicate Numbers(ch: Chars, ts: seq<string>) { ts != [] && forall t | t in ts :: AllDigits(ch, t) }

  lemma {:induction false} TokensAreNumbers(ch: Chars, s: string)
    requires StartsWithDigit(ch, s)
    ensures Numbers(ch, Tokens(ch, s))
    decreases |s|
  {
    DigitsSplit(ch, s);
    match AfterComma(ch, DropDigits(ch, s))
    case Some(u) => TokensAreNumbers(ch, u);
    case None =>
  }

  // ---------------------------------------------------------------- reading a list back

  /** Nothing here would prolong a list of numbers. */
  predicate EndsList(ch: Chars, u: string) { !StartsWithDigit(ch, u) && AfterComma(ch, u).None? }

  lemma {:induction false} AfterListEnds(ch: Chars, s: string)
    requires StartsWithDigit(ch, s)
    ensures EndsList(ch, AfterList(ch, s))
    decreases |s|
  {
    match AfterComma(ch, DropDigits(ch, s))
    case Some(u) => AfterListEnds(ch, u);
    case None =>
  }

  lemma {:induction false} DigitsOf(ch: Chars, d: string, u: string)
    requires (forall c | c in d :: ch.digit(c)) && !StartsWithDigit(ch, u)
    ensures DropDigits(ch, d + u) == u && Digits(ch, d + u) == d
  {
    if d == "" {
      assert d + u == u;
    } else {
      assert d[0] in d;
      DigitsOf(ch, d[1..], u);
      assert (d + u)[1..] == d[1..] + u;
    }
  }

  lemma CommaBeforeList(ch: Chars, t: string)
    requires ch.Valid() && StartsWithDigit(ch, t)
    ensures !StartsWithDigit(ch, ", " + t) && AfterComma(ch, ", " + t) == Some(t)
  {
    var sep := ", " + t;
    assert sep[1..] == " " + t && (" " + t)[1..] == t;
    assert LStrip(ch, sep) == sep;
    assert LStrip(ch, " " + t) == LStrip(ch, t) == t;
  }

  lemma LastNumber(ch: Chars, d: string, u: string, s: string)
    requires AllDigits(ch, d) && EndsList(ch, u) && s == d + u
    ensures StartsWithDigit(ch, s) && Tokens(ch, s) == [d] && AfterList(ch, s) == u
  {
    assert d[0] in d;
    DigitsOf(ch, d, u);
  }

  lemma OneMoreNumber(ch: Chars, d: string, t: string, s: string)
    requires ch.Valid() && AllDigits(ch, d) && StartsWithDigit(ch, t) && s == d + (", " + t)
    ensures StartsWithDigit(ch, s) && Tokens(ch, s) == [d] + Tokens(ch, t) && AfterList(ch, s) == AfterList(ch, t)
  {
    assert d[0] in d;
    CommaBeforeList(ch, t);
    DigitsOf(ch, d, ", " + t);
  }

  lemma JoinStep(ch: Chars, ts: seq<string>, u: string) returns (t: string)
    requires Numbers(ch, ts) && |ts| > 1
    ensures t == Join(ts[1..]) + u && Join(ts) + u == ts[0] + (", " + t)
    ensures Numbers(ch, ts[1..]) && ts == [ts[0]] + ts[1..]
  {
    t := Join(ts[1..]) + u;
  }

  lemma {:induction false} JoinIsList(ch: Chars, ts: seq<string>, u: string, s: string)
    requires ch.Valid() && Numbers(ch, ts) && EndsList(ch, u) && s == Join(ts) + u
    ensures StartsWithDigit(ch, s) && Tokens(ch, s) == ts && AfterList(ch, s) == u
  {
    var d := ts[0];
    assert d in ts;
    if |ts| == 1 {
      LastNumber(ch, d, u, s);
      assert ts == [d];
    } else {
      var t := JoinStep(ch, ts, u);
      JoinIsList(ch, ts[1..], u, t);
      OneMoreNumber(ch, d, t, s);
    }
  }

  lemma {:induction false} JoinIsSolid(ch: Chars, ts: seq<string>)
    requires ch.Valid() && Numbers(ch, ts)
    ensures var n := Join(ts); n != "" && ch.digit(n[0]) && ch.digit(n[|n| - 1])
  {
    var d := ts[0];
    assert d in ts && d[0] in d && d[|d| - 1] in d;
    if |ts| > 1 { JoinIsSolid(ch, ts[1..]); }
  }

  /** A prefix that begins a list's continuation does so in the longer text too. */
  lemma {:induction false} LStripPrefix(ch: Chars, a: string, b: string)
    requires a <= b && LStrip(ch, a) != ""
    ensures LStrip(ch, b) != "" && LStrip(ch, b)[0] == LStrip(ch, a)[0]
  {
    if ch.space(a[0]) {
      LStripPrefix(ch, a[1..], b[1..]);
    }
  }

  lemma StrippedEndsList(ch: Chars, rest: string)
    requires ch.Valid() && EndsList(ch, rest) && Strip(ch, rest) != ""
    ensures EndsList(ch, " " + Strip(ch, rest))
  {
    var t, a := LStrip(ch, rest), Strip(ch, rest);
    assert (" " + a)[1..] == a;
    assert LStrip(ch, " " + a) == a;
    if a[0] == ',' && StartsWithDigit(ch, LStrip(ch, a[1..])) { LStripPrefix(ch, a[1..], t[1..]); }
  }

  // ---------------------------------------------------------------- main result

  /** Taking the built name of a parsed name apart again gives the same parts, for every
      text; so building after parsing is idempotent. */
  lemma ParseBuildParse(ch: Chars, value: Option<string>)
    requires ch.Valid()
    ensures Parse(ch, Build(ch, Parse(ch, value))) == Parse(ch, value)
  {
    if value.Some? {
      var s := LStrip(ch, value.value);
      if StartsWithDigit(ch, s) { NumberedRoundTrip(ch, s, AfterList(ch, s)); }
      else { PlainRoundTrip(ch, value.value); }
    }
  }

  lemma PlainRoundTrip(ch: Chars, v: string)
    requires ch.Valid() && !StartsWithDigit(ch, LStrip(ch, v))
    ensures var name := Name(None, NonEmpty(Strip(ch, v))); Parse(ch, Build(ch, name)) == name
  {
    StripIsSolid(ch, v);
  }

  lemma NumberedRoundTrip(ch: Chars, s: string, rest: string)
    requires ch.Valid() && StartsWithDigit(ch, s) && rest == AfterList(ch, s)
    ensures var name := Name(Some(Join(StripAll(ch, Split(Matched(ch, s))))), NonEmpty(Strip(ch, rest)));
      Parse(ch, Build(ch, name)) == name
  {
    var ts, a := Tokens(ch, s), Strip(ch, rest);
    SplitGivesTokens(ch, s);
    TokensAreNumbers(ch, s);
    JoinIsSolid(ch, ts);
    StripSolid(ch, Join(ts));
    StripIsSolid(ch, rest);
    BuildNumbered(ch, Join(ts), a);
    AfterListEnds(ch, s);
    if a != "" {
      StrippedEndsList(ch, rest);
      ReadBack(ch, ts, a, " " + a);
    } else {
      ReadBack(ch, ts, a, "");
    }
  }

  lemma BuildNumbered(ch: Chars, n: string, a: string)
    requires Strip(ch, n) == n != "" && Strip(ch, a) == a
    ensures Build(ch, Name(Some(n), NonEmpty(a))) == Some(n + (if a == "" then "" else " " + a))
  {
    assert n + "" == n;
    if a != "" {
      assert Part(ch, Some(n)) + Part(ch, NonEmpty(a)) == [n, a];
      assert n + " " + a == n + (" " + a);
    }
  }

  /** Reading a list of numbers and what follows it. */
  lemma ReadBack(ch: Chars, ts: seq<string>, a: string, u: string)
    requires ch.Valid() && Numbers(ch, ts) && EndsList(ch, u)
    requires u == if a == "" then "" else " " + a
    requires Strip(ch, a) == a
    ensures Parse(ch, Some(Join(ts) + u)) == Name(Some(Join(ts)), NonEmpty(a))
  {
    var built := Join(ts) + u;
    JoinIsList(ch, ts, u, built);
    SplitGivesTokens(ch, built);
    assert LStrip(ch, built) == built;
    assert a != "" ==> u[1..] == a;
    assert Strip(ch, u) == a;
  }

  lemma BuildAfterParseIsIdempotent(ch: Chars, value: Option<string>)
    requires ch.Valid()
    ensures var once := Build(ch, Parse(ch, value)); Build(ch, Parse(ch, once)) == once
  {
    ParseBuildParse(ch, value);
  }

  // ---------------------------------------------------------------- what the parts are

  ghost predicate Solid(ch: Chars, t: string) { t == "" || (!ch.space(t[0]) && !ch.space(t[|t| - 1])) }

  /** Stripping takes the spaces at both ends and nothing else. */
  lemma StripIs(ch: Chars, w: string, t: string, v: string)
    requires AllSpace(ch, w) && AllSpace(ch, v) && Solid(ch, t)
    ensures Strip(ch, w + t + v) == t
  {
    assert w + t + v == w + (t + v);
    LStripSpaces(ch, w, t + v);
    if t == "" {
      assert t + v == v && v + "" == v;
      LStripSpaces(ch, v, "");
    } else {
      assert LStrip(ch, t + v) == t + v;
      RStripSpaces(ch, t, v);
    }
  }

  /** `text` is a list of these numbers, with a comma and any spaces between two of them. */
  ghost predicate IsList(ch: Chars, ds: seq<string>, text: string)
    decreases |ds|
  {
    && ds != [] && AllDigits(ch, ds[0])
    && if |ds| == 1 then text == ds[0]
       else exists w, v, u :: AllSpace(ch, w) && AllSpace(ch, v) && GoesOn(ch, ds, text, w, v, u)
  }

  ghost predicate GoesOn(ch: Chars, ds: seq<string>, text: string, w: string, v: string, u: string)
    requires |ds| > 1
    decreases |ds|, 0
  {
    text == ds[0] + (w + "," + v + u) && IsList(ch, ds[1..], u)
  }

  /** The same with exactly a comma and a blank between two numbers. */
  ghost predicate IsNormalList(ds: seq<string>, text: string)
    decreases |ds|
  {
    && ds != []
    && if |ds| == 1 then text == ds[0]
       else
         && |text| >= |ds[0]| + 2 && text == ds[0] + (", " + text[|ds[0]| + 2..])
         && IsNormalList(ds[1..], text[|ds[0]| + 2..])
  }

  lemma {:induction false} JoinIsNormal(ds: seq<string>)
    requires ds != []
    ensures IsNormalList(ds, Join(ds))
  {
    if |ds| > 1 {
      JoinIsNormal(ds[1..]);
      assert Join(ds) == ds[0] + (", " + Join(ds[1..]));
      assert Join(ds)[|ds[0]| + 2..] == Join(ds[1..]);
    }
  }

  /** The text behind a list goes on as one: a comma among spaces, then a digit. */
  ghost predicate Prolongs(ch: Chars, tail: string) {
    exists w, v, u :: AllSpace(ch, w) && AllSpace(ch, v) && StartsWithDigit(ch, u) && tail == w + "," + v + u
  }

  lemma CommaFound(ch: Chars, w: string, v: string, u: string)
    requires ch.Valid() && AllSpace(ch, w) && AllSpace(ch, v) && StartsWithDigit(ch, u)
    ensures AfterComma(ch, w + "," + v + u) == Some(u) && !StartsWithDigit(ch, w + "," + v + u)
  {
    var s := w + "," + v + u;
    assert s == w + ("," + (v + u));
    LStripSpaces(ch, w, "," + (v + u));
    assert ("," + (v + u))[1..] == v + u;
    LStripSpaces(ch, v, u);
    assert LStrip(ch, u) == u;
    if w != "" { assert w[0] in w && s[0] == w[0]; }
  }

  lemma EndsListIff(ch: Chars, tail: string)
    requires ch.Valid()
    ensures EndsList(ch, tail) <==> !StartsWithDigit(ch, tail) && !Prolongs(ch, tail)
  {
    if Prolongs(ch, tail) {
      var w, v, u :| AllSpace(ch, w) && AllSpace(ch, v) && StartsWithDigit(ch, u) && tail == w + "," + v + u;
      CommaFound(ch, w, v, u);
    }
    if AfterComma(ch, tail).Some? {
      var u := AfterComma(ch, tail).value;
      GapSplits(ch, tail, u);
      BlanksSplit(ch, tail);
      BlanksSplit(ch, LStrip(ch, tail)[1..]);
      var w, v := Blanks(ch, tail), Blanks(ch, LStrip(ch, tail)[1..]);
      assert tail == w + "," + v + u;
    }
  }

  lemma {:induction false} ListIsMatched(ch: Chars, ds: seq<string>, text: string, tail: string)
    requires ch.Valid() && IsList(ch, ds, text) && EndsList(ch, tail)
    ensures StartsWithDigit(ch, text + tail) && Tokens(ch, text + tail) == ds && AfterList(ch, text + tail) == tail
    decreases |ds|
  {
    var d, s := ds[0], text + tail;
    assert d[0] in d;
    if |ds| == 1 {
      LastNumber(ch, d, tail, s);
      assert ds == [d];
    } else {
      var w, v, u :| AllSpace(ch, w) && AllSpace(ch, v) && GoesOn(ch, ds, text, w, v, u);
      ListIsMatched(ch, ds[1..], u, tail);
      var t := u + tail;
      assert s == d + (w + "," + v + t) by { CommaAssoc(d, w, v, u); CommaAssoc(d, w, v, t); }
      CommaFound(ch, w, v, t);
      DigitsOf(ch, d, w + "," + v + t);
      assert ds == [d] + ds[1..];
    }
  }

  /** What parsing gives for a text with a leading list of numbers that does not go on: the
      numbers, a comma and a blank between them, and the rest without outer spaces. */
  lemma ParseOfList(ch: Chars, w: string, ds: seq<string>, text: string, tail: string)
    requires ch.Valid() && AllSpace(ch, w) && IsList(ch, ds, text)
    requires !StartsWithDigit(ch, tail) && !Prolongs(ch, tail)
    ensures var name := Parse(ch, Some(w + text + tail));
      && name.number.Some? && IsNormalList(ds, name.number.value)
      && name.app == NonEmpty(Strip(ch, tail))
  {
    EndsListIff(ch, tail);
    ListIsMatched(ch, ds, text, tail);
    assert w + text + tail == w + (text + tail);
    LStripSpaces(ch, w, text + tail);
    assert LStrip(ch, text + tail) == text + tail;
    SplitGivesTokens(ch, text + tail);
    JoinIsNormal(ds);
  }

  /** And for any other text: no number, and the text without outer spaces. */
  lemma ParseOfPlain(ch: Chars, w: string, t: string, v: string)
    requires AllSpace(ch, w) && AllSpace(ch, v) && Solid(ch, t) && !StartsWithDigit(ch, t)
    requires ch.Valid()
    ensures Parse(ch, Some(w + t + v)) == Name(None, if t == "" then None else Some(t))
    ensures Parse(ch, None) == Name(None, None)
  {
    StripIs(ch, w, t, v);
    assert w + t + v == w + (t + v);
    LStripSpaces(ch, w, t + v);
    if t == "" {
      assert t + v == v && v + "" == v;
      LStripSpaces(ch, v, "");
    }
  }

  lemma {:induction false} MatchedIsList(ch: Chars, s: string)
    requires ch.Valid() && StartsWithDigit(ch, s)
    ensures IsList(ch, Tokens(ch, s), Matched(ch, s))
    decreases |s|
  {
    var rest := DropDigits(ch, s);
    DigitsSplit(ch, s);
    assert AllDigits(ch, Digits(ch, s)) by { assert Digits(ch, s) != ""; }
    match AfterComma(ch, rest)
    case Some(u) =>
      MatchedIsList(ch, u);
      var w, v := Blanks(ch, rest), Blanks(ch, LStrip(ch, rest)[1..]);
      BlanksSplit(ch, rest);
      BlanksSplit(ch, LStrip(ch, rest)[1..]);
      var ds := Tokens(ch, s);
      assert ds[1..] == Tokens(ch, u);
      assert Gap(ch, rest) + Matched(ch, u) == w + "," + v + Matched(ch, u);
      assert GoesOn(ch, ds, Matched(ch, s), w, v, Matched(ch, u));
    case None =>
  }

  /** Every text whose first visible character is a digit has such a list. */
  lemma EveryTextIsOne(ch: Chars, s: string) returns (ds: seq<string>, text: string, tail: string)
    requires ch.Valid() && StartsWithDigit(ch, s)
    ensures IsList(ch, ds, text) && s == text + tail && !StartsWithDigit(ch, tail) && !Prolongs(ch, tail)
  {
    ds, text, tail := Tokens(ch, s), Matched(ch, s), AfterList(ch, s);
    MatchedIsList(ch, s);
    MatchSplits(ch, s);
    AfterListEnds(ch, s);
    EndsListIff(ch, tail);
  }

  /** A part of a name that is `t` between spaces, or absent if `t` is empty. */
  ghost predicate Holds(ch: Chars, part: Option<string>, t: string) {
    && Solid(ch, t)
    && match part
       case None => t == ""
       case Some(s) => exists w, v :: AllSpace(ch, w) && AllSpace(ch, v) && s == w + t + v
  }

  lemma PartIs(ch: Chars, part: Option<string>, t: string)
    requires Holds(ch, part, t)
    ensures Part(ch, part) == if t == "" then [] else [t]
  {
    if part.Some? {
      var w, v :| AllSpace(ch, w) && AllSpace(ch, v) && part.value == w + t + v;
      StripIs(ch, w, t, v);
    }
  }

  /** What building gives: the two parts without outer spaces, a blank between them if both
      are there. */
  lemma BuildIs(ch: Chars, name: Name, n: string, a: string)
    requires Holds(ch, name.number, n) && Holds(ch, name.app, a)
    ensures Build(ch, name) ==
      if n == "" && a == "" then None
      else if a == "" then Some(n)
      else if n == "" then Some(a)
      else Some(n + " " + a)
  {
    PartIs(ch, name.number, n);
    PartIs(ch, name.app, a);
  }
}
