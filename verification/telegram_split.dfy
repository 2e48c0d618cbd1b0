/** Splitting a long text into Telegram messages: at line breaks where possible, in at most
    four parts, the last of which is marked when the text was cut off. */
module TelegramSplit {
  const MAX_LEN := 3800
  const MAX_CHUNKS := 4
  const MARKER := "\n…"

  // ---------------------------------------------------------------- string primitives

  /** `s.lstrip("\n")` */
  function LStripBreaks(s: string): (r: string)
    ensures |r| <= |s|
  {
    if s != "" && s[0] == '\n' then LStripBreaks(s[1..]) else s
  }

  /** `s.rstrip()` */
  function RStrip(space: char -> bool, s: string): (r: string)
    ensures r <= s && (r != "" ==> !space(r[|r| - 1]))
    ensures forall k | |r| <= k < |s| :: space(s[k])
  {
    if s != "" && space(s[|s| - 1]) then RStrip(space, s[..|s| - 1]) else s
  }

  /** `s.rfind("\n", 0, n)`, or -1. */
  function LastBreak(s: string, n: nat): (k: int)
    requires n <= |s|
    ensures -1 <= k < n && (k >= 0 ==> s[k] == '\n')
    ensures forall j | k < j < n :: s[j] != '\n'
  {
    if n == 0 then -1 else if s[n - 1] == '\n' then n - 1 else LastBreak(s, n - 1)
  }

  function Kept(c: char): string {
    if c == '\n' then "" else [c]
  }

  function NoBreaks(s: string): string {
    if s == "" then "" else Kept(s[0]) + NoBreaks(s[1..])
  }

  function Concat(chunks: seq<string>): string {
    if chunks == [] then "" else chunks[0] + Concat(chunks[1..])
  }

  // ---------------------------------------------------------------- what a splitting is

  /** Where the text is cut: before its last line break in the first 3800 characters unless
      there is none past the first character, and then after 3800. */
  ghost predicate CutAt(s: string, cut: nat) {
    && 0 < cut <= MAX_LEN < |s|
    && (forall j | cut < j < MAX_LEN :: s[j] != '\n')
    && (s[cut] == '\n' || cut == MAX_LEN)
    && (cut == MAX_LEN ==> forall j | 0 < j < MAX_LEN :: s[j] != '\n')
  }

  /** The chunks cover the text up to `rest`: each is a piece of it, cut as above, and only
      the line breaks behind it are dropped. */
  ghost predicate Covers(s: string, chunks: seq<string>, rest: string)
    decreases |chunks|
  {
    if chunks == [] then s == rest
    else if s == "" then false
    else if |s| <= MAX_LEN then chunks == [s] && rest == ""
    else
      var cut := |chunks[0]|;
      CutAt(s, cut) && chunks[0] == s[..cut] && Covers(LStripBreaks(s[cut..]), chunks[1..], rest)
  }

  lemma {:induction false} CoversSnoc(s: string, chunks: seq<string>, rest: string, chunk: string, rest': string)
    requires Covers(s, chunks, rest) && Covers(rest, [chunk], rest')
    ensures Covers(s, chunks + [chunk], rest')
    decreases |chunks|
  {
    if chunks == [] {
      assert chunks + [chunk] == [chunk];
    } else {
      assert (chunks + [chunk])[1..] == chunks[1..] + [chunk];
      if |s| > MAX_LEN { CoversSnoc(LStripBreaks(s[|chunks[0]|..]), chunks[1..], rest, chunk, rest'); }
    }
  }

  /** The final list: the chunks, of which the last is marked if something is left over. */
  function Marked(space: char -> bool, chunks: seq<string>, rest: string): seq<string>
    requires chunks != []
  {
    if rest == "" then chunks
    else chunks[..|chunks| - 1] + [RStrip(space, chunks[|chunks| - 1]) + MARKER]
  }

  /** What the result is: the chunks of the text, as many as are needed and at most four. */
  ghost predicate SplitsInto(space: char -> bool, text: string, plain: seq<string>, rest: string, chunks: seq<string>) {
    && 1 <= |plain| <= MAX_CHUNKS
    && (if text == "" then plain == [""] && rest == "" else Covers(text, plain, rest))
    && (rest != "" ==> |plain| == MAX_CHUNKS)
    && chunks == Marked(space, plain, rest)
  }

  method Split(space: char -> bool, text: string) returns (chunks: seq<string>)
    ensures exists plain, rest :: SplitsInto(space, text, plain, rest, chunks)
  {
    if |text| <= MAX_LEN {
      assert SplitsInto(space, text, [text], "", [text]);
      return [text];
    }
    chunks := [];
    var remaining := text;
    while remaining != "" && |chunks| < MAX_CHUNKS
      invariant |chunks| <= MAX_CHUNKS && Covers(text, chunks, remaining)
      invariant chunks == [] ==> remaining == text
      decreases |remaining|
    {
      if |remaining| <= MAX_LEN {
        CoversSnoc(text, chunks, remaining, remaining, "");
        chunks := chunks + [remaining];
        remaining := "";
        break;
      }
      var cut := LastBreak(remaining, MAX_LEN);
      if cut <= 0 { cut := MAX_LEN; }
      var next := LStripBreaks(remaining[cut..]);
      OneCut(remaining, cut, next);
      CoversSnoc(text, chunks, remaining, remaining[..cut], next);
      chunks := chunks + [remaining[..cut]];
      remaining := next;
    }
    ghost var plain := chunks;
    if remaining != "" {
      chunks := chunks[|chunks| - 1 := RStrip(space, chunks[|chunks| - 1]) + MARKER];
    }
    assert SplitsInto(space, text, plain, remaining, chunks);
  }

  lemma OneCut(s: string, cut: nat, next: string)
    requires CutAt(s, cut) && next == LStripBreaks(s[cut..])
    ensures Covers(s, [s[..cut]], next)
  {
    assert [s[..cut]][1..] == [];
  }

  // ---------------------------------------------------------------- consequences

  lemma CutIsUnique(s: string, cut: nat, cut': nat)
    requires CutAt(s, cut) && CutAt(s, cut')
    ensures cut == cut'
  {
  }

  lemma {:induction false} CoversAgree(s: string, a: seq<string>, rest: string, b: seq<string>, rest': string)
    requires Covers(s, a, rest) && Covers(s, b, rest') && (|a| == |b| || (|a| < |b| && rest == ""))
    ensures a == b && rest == rest'
    decreases |a|
  {
    if a != [] && |s| > MAX_LEN {
      CutIsUnique(s, |a[0]|, |b[0]|);
      CoversAgree(LStripBreaks(s[|a[0]|..]), a[1..], rest, b[1..], rest');
      assert a == [a[0]] + a[1..] && b == [b[0]] + b[1..];
    }
  }

  /** The description leaves no choice: a text has one splitting. */
  lemma SplittingIsUnique(space: char -> bool, text: string, plain: seq<string>, rest: string, chunks: seq<string>,
                          plain': seq<string>, rest': string, chunks': seq<string>)
    requires SplitsInto(space, text, plain, rest, chunks) && SplitsInto(space, text, plain', rest', chunks')
    ensures plain == plain' && rest == rest' && chunks == chunks'
  {
    if text != "" {
      if |plain| <= |plain'| { CoversAgree(text, plain, rest, plain', rest'); }
      else { CoversAgree(text, plain', rest', plain, rest); }
    }
  }

  /** Every part fits: 3800 characters, and two more for the mark. */
  lemma {:induction false} ChunksFit(s: string, chunks: seq<string>, rest: string)
    requires Covers(s, chunks, rest)
    ensures forall i | 0 <= i < |chunks| :: 0 < |chunks[i]| <= MAX_LEN
    decreases |chunks|
  {
    if chunks != [] && |s| > MAX_LEN { ChunksFit(LStripBreaks(s[|chunks[0]|..]), chunks[1..], rest); }
  }

  lemma MarkedFits(space: char -> bool, s: string, chunks: seq<string>, rest: string)
    requires Covers(s, chunks, rest) && chunks != []
    ensures var marked := Marked(space, chunks, rest);
      && (forall i | 0 <= i < |marked| - 1 :: marked[i] == chunks[i] && |marked[i]| <= 3800)
      && |marked[|marked| - 1]| <= if rest == "" then 3800 else 3802
  {
    ChunksFit(s, chunks, rest);
    assert |MARKER| == 2;
  }

  lemma NoBreaksCons(c: char, s: string)
    ensures NoBreaks([c] + s) == Kept(c) + NoBreaks(s)
  {
    assert ([c] + s)[1..] == s;
  }

  lemma {:induction false} NoBreaksConcat(a: string, b: string)
    ensures NoBreaks(a + b) == NoBreaks(a) + NoBreaks(b)
  {
    if a == "" {
      assert a + b == b && NoBreaks(a) + NoBreaks(b) == NoBreaks(b);
    } else {
      var c, u := a[0], a[1..];
      NoBreaksConcat(u, b);
      NoBreaksCons(c, u + b);
      assert a + b == [c] + (u + b);
      Reassociate(Kept(c), NoBreaks(u), NoBreaks(b));
    }
  }

  /** Line breaks are dropped, and nothing else. */
  lemma NoBreaksIs(a: string, c: char, b: string)
    ensures NoBreaks(a + [c] + b) == NoBreaks(a) + (if c == '\n' then "" else [c]) + NoBreaks(b)
  {
    NoBreaksConcat(a, [c] + b);
    NoBreaksCons(c, b);
    Reassociate(a, [c], b);
    Reassociate(NoBreaks(a), Kept(c), NoBreaks(b));
  }

  lemma Reassociate(a: string, b: string, c: string)
    ensures a + (b + c) == (a + b) + c
  {
  }

  lemma {:induction false} NoBreaksLStrip(s: string)
    ensures NoBreaks(LStripBreaks(s)) == NoBreaks(s)
  {
    if s != "" && s[0] == '\n' { NoBreaksLStrip(s[1..]); }
  }

  /** A cut and the stripping behind it lose line breaks only. */
  lemma CutLosesBreaksOnly(chunk: string, behind: string)
    ensures NoBreaks(chunk) + NoBreaks(LStripBreaks(behind)) == NoBreaks(chunk + behind)
  {
    NoBreaksLStrip(behind);
    NoBreaksConcat(chunk, behind);
  }

  /** Line breaks apart, the chunks followed by what was left over are the text. */
  lemma {:induction false} NothingIsLost(s: string, chunks: seq<string>, rest: string)
    requires Covers(s, chunks, rest)
    ensures NoBreaks(Concat(chunks) + rest) == NoBreaks(s)
    decreases |chunks|
  {
    if chunks == [] {
      assert "" + rest == rest;
    } else if |s| <= MAX_LEN {
      assert chunks == [s] + [] && Concat([]) == "" && s + "" + "" == s;
      ConcatCons(s, []);
    } else {
      var first, more := chunks[0], chunks[1..];
      var behind := s[|first|..];
      assert s == first + behind;
      NothingIsLost(LStripBreaks(behind), more, rest);
      CutLosesBreaksOnly(first, behind);
      ConcatCons(first, more);
      assert chunks == [first] + more;
      Reassociate(first, Concat(more), rest);
      NoBreaksConcat(first, Concat(more) + rest);
    }
  }

  lemma ConcatCons(first: string, more: seq<string>)
    ensures Concat([first] + more) == first + Concat(more)
  {
    assert ([first] + more)[1..] == more;
  }

  lemma {:induction false} ConcatSnoc(chunks: seq<string>, last: string)
    ensures Concat(chunks + [last]) == Concat(chunks) + last
  {
    if chunks == [] {
      assert chunks + [last] == [last];
      assert Concat([last]) == last + "";
    } else {
      ConcatSnoc(chunks[1..], last);
      assert (chunks + [last])[1..] == chunks[1..] + [last];
    }
  }

  /** When the text was cut off, the parts without the mark are, line breaks apart, a prefix
      of the text. */
  lemma CutOffIsPrefix(space: char -> bool, s: string, chunks: seq<string>, rest: string)
    requires Covers(s, chunks, rest) && chunks != []
    ensures var n := |chunks| - 1;
      NoBreaks(Concat(chunks[..n] + [RStrip(space, chunks[n])])) <= NoBreaks(s)
  {
    var n := |chunks| - 1;
    var before, last, kept := chunks[..n], chunks[n], RStrip(space, chunks[n]);
    assert chunks == before + [last];
    NothingIsLost(s, chunks, rest);
    ShorterLastIsPrefix(before, last, kept, rest);
  }

  lemma ShorterLastIsPrefix(before: seq<string>, last: string, kept: string, rest: string)
    requires kept <= last
    ensures NoBreaks(Concat(before + [kept])) <= NoBreaks(Concat(before + [last]) + rest)
  {
    var dropped := last[|kept|..];
    ConcatSnoc(before, last);
    ConcatSnoc(before, kept);
    var kepts := Concat(before) + kept;
    assert Concat(before) + last + rest == kepts + (dropped + rest) by {
      assert last == kept + dropped;
      Reassociate(Concat(before), kept, dropped);
      Reassociate(kepts, dropped, rest);
    }
    NoBreaksConcat(kepts, dropped + rest);
  }

  /** What a reader of the messages gets: one to four of them, each within the limit, and
      line breaks apart either the whole text or, with the mark at the end, a prefix of it. */
  lemma MessagesTellTheText(space: char -> bool, text: string, plain: seq<string>, rest: string, chunks: seq<string>)
    requires SplitsInto(space, text, plain, rest, chunks)
    ensures 1 <= |chunks| <= 4 && |plain| == |chunks|
    ensures forall i | 0 <= i < |chunks| - 1 :: |chunks[i]| <= 3800
    ensures if rest == "" then
        |chunks[|chunks| - 1]| <= 3800 && NoBreaks(Concat(chunks)) == NoBreaks(text)
      else
        var last, kept := plain[|plain| - 1], RStrip(space, plain[|plain| - 1]);
        && |chunks| == 4 && |kept| <= 3800
        && chunks == plain[..3] + [kept + "\n…"]
        && kept <= last && (forall k | |kept| <= k < |last| :: space(last[k]))
        && NoBreaks(Concat(plain[..3] + [kept])) <= NoBreaks(text)
  {
    if text == "" {
      assert Concat([""]) == "" by { assert [""][1..] == []; }
    } else {
      MarkedFits(space, text, plain, rest);
      ChunksFit(text, plain, rest);
      NothingIsLost(text, plain, rest);
      CutOffIsPrefix(space, text, plain, rest);
      assert Concat(plain) + "" == Concat(plain);
    }
  }

  // ---------------------------------------------------------------- what is cut in two

  /** The length of the chunk and of the line breaks dropped behind it. */
  function Step(s: string, cut: nat): (n: nat)
    requires cut <= |s|
    ensures cut <= n <= |s|
  {
    |s| - |LStripBreaks(s[cut..])|
  }

  /** Some chunk ends strictly inside `s[i..j]`. */
  ghost predicate Severed(s: string, chunks: seq<string>, i: int, j: int)
    decreases |chunks|
  {
    && chunks != []
    && var cut := |chunks[0]|;
       && cut <= |s|
       && (i < cut < j || Severed(LStripBreaks(s[cut..]), chunks[1..], i - Step(s, cut), j - Step(s, cut)))
  }

  /** The position after the last line break before `i`; one at the very start of the text
      is no place to cut at and does not count. */
  function LineStart(s: string, i: nat): (k: nat)
    requires i <= |s|
    ensures k <= i
  {
    if i <= 1 then 0 else if s[i - 1] == '\n' then i else LineStart(s, i - 1)
  }

  predicate OnGrid(start: int, p: int) { (p - start) % MAX_LEN == 0 }

  /** `s[i..j]` straddles a multiple of 3800 counted from the start of its line. */
  ghost predicate Straddles(s: string, i: nat, j: nat)
    requires i <= |s|
  {
    exists p | i < p < j :: OnGrid(LineStart(s, i), p)
  }

  predicate OneLine(s: string, i: nat, j: nat)
    requires j <= |s|
  {
    forall k | i <= k < j :: s[k] != '\n'
  }

  lemma {:induction false} LStripSkips(s: string, n: nat)
    requires n == |s| - |LStripBreaks(s)|
    ensures LStripBreaks(s) == s[n..] && (forall k | 0 <= k < n :: s[k] == '\n')
    ensures n < |s| ==> s[n] != '\n'
  {
    if s != "" && s[0] == '\n' {
      LStripSkips(s[1..], n - 1);
      assert s[1..][n - 1..] == s[n..];
      forall k | 0 <= k < n ensures s[k] == '\n' { assert k > 0 ==> s[k] == s[1..][k - 1]; }
      assert n < |s| ==> s[n] == s[1..][n - 1];
    } else {
      assert s[0..] == s;
    }
  }

  lemma StepSkips(s: string, cut: nat)
    requires cut <= |s|
    ensures var n := Step(s, cut);
      && LStripBreaks(s[cut..]) == s[n..]
      && (forall k | cut <= k < n :: s[k] == '\n')
      && (n < |s| ==> s[n] != '\n')
      && (cut < |s| && s[cut] == '\n' ==> cut < n)
  {
    var n, behind := Step(s, cut), s[cut..];
    LStripSkips(behind, n - cut);
    assert behind[n - cut..] == s[n..];
    forall k | cut <= k < n ensures s[k] == '\n' { assert s[k] == behind[k - cut]; }
    assert n < |s| ==> s[n] == behind[n - cut];
  }

  lemma {:induction false} LineStartIsLast(s: string, i: nat, k: nat)
    requires k <= i <= |s| && (k == 0 || (k > 1 && s[k - 1] == '\n')) && forall m | k <= m < i && m > 0 :: s[m] != '\n'
    ensures LineStart(s, i) == k
  {
    if k < i && i > 1 { LineStartIsLast(s, i - 1, k); }
  }

  /** Behind a line break lines start where they start in the rest of the text. */
  lemma {:induction false} LineStartBehindBreak(s: string, n: nat, i: nat)
    requires 1 < n <= i <= |s| && s[n - 1] == '\n' && (n < |s| ==> s[n] != '\n')
    ensures LineStart(s, i) == n + LineStart(s[n..], i - n)
  {
    if i > n + 1 { LineStartBehindBreak(s, n, i - 1); }
  }

  /** Behind a hard cut they do too, except that the line that was cut starts 3800 earlier. */
  lemma {:induction false} LineStartBehindCut(s: string, i: nat)
    requires MAX_LEN <= i <= |s| && (MAX_LEN < |s| ==> s[MAX_LEN] != '\n')
    requires forall k | 0 < k < MAX_LEN :: s[k] != '\n'
    ensures var k := LineStart(s[MAX_LEN..], i - MAX_LEN);
      LineStart(s, i) == if k == 0 then 0 else MAX_LEN + k
  {
    if i > MAX_LEN + 1 {
      LineStartBehindCut(s, i - 1);
    } else {
      LineStartIsLast(s, i, 0);
    }
  }

  lemma GridBehindCut(s: string, cut: nat, i: nat, p: int)
    requires CutAt(s, cut) && cut <= i <= |s| && (i < |s| ==> s[i] != '\n') && Step(s, cut) <= i
    ensures var n := Step(s, cut); OnGrid(LineStart(s, i), p) <==> OnGrid(LineStart(s[n..], i - n), p - n)
  {
    var n := Step(s, cut);
    StepSkips(s, cut);
    if n > cut {
      LineStartBehindBreak(s, n, i);
    } else {
      assert cut == MAX_LEN;
      LineStartBehindCut(s, i);
    }
  }

  lemma {:induction false} SeveredLies(s: string, chunks: seq<string>, rest: string, i: int, j: int)
    requires Covers(s, chunks, rest) && Severed(s, chunks, i, j)
    ensures j > 0
    decreases |chunks|
  {
    if |s| > MAX_LEN && !(i < |chunks[0]| < j) {
      var cut := |chunks[0]|;
      SeveredLies(LStripBreaks(s[cut..]), chunks[1..], rest, i - Step(s, cut), j - Step(s, cut));
    }
  }

  /** The piece begins in the first chunk. */
  lemma SeveredAtFirstCut(s: string, chunks: seq<string>, rest: string, i: nat, j: nat)
    requires Covers(s, chunks, rest) && |s| > MAX_LEN && chunks != []
    requires i < j <= |s| && OneLine(s, i, j) && i < |chunks[0]|
    ensures Severed(s, chunks, i, j) <==> |chunks[0]| < j
  {
    var cut, n := |chunks[0]|, Step(s, |chunks[0]|);
    if Severed(LStripBreaks(s[cut..]), chunks[1..], i - n, j - n) {
      SeveredLies(LStripBreaks(s[cut..]), chunks[1..], rest, i - n, j - n);
    }
  }

  lemma StraddlesFirstCut(s: string, cut: nat, i: nat, j: nat)
    requires CutAt(s, cut) && i < cut && i < j <= |s| && OneLine(s, i, j)
    ensures Straddles(s, i, j) <==> cut < j
  {
    if s[cut] == '\n' {
      forall p | i < p < j ensures !OnGrid(LineStart(s, i), p) { ShortOfGrid(LineStart(s, i), p); }
    } else {
      LineStartIsLast(s, i, 0);
      forall p | i < p < j && p < MAX_LEN ensures !OnGrid(0, p) { ShortOfGrid(0, p); }
      if cut < j { assert OnGrid(0, MAX_LEN); }
    }
  }

  lemma ShortOfGrid(start: nat, p: nat)
    requires start < p < start + MAX_LEN
    ensures !OnGrid(start, p)
  {
  }

  lemma StraddlesBehindCut(s: string, cut: nat, i: nat, j: nat)
    requires CutAt(s, cut) && Step(s, cut) <= i < j <= |s| && OneLine(s, i, j)
    ensures var n := Step(s, cut); Straddles(s, i, j) <==> Straddles(s[n..], i - n, j - n)
  {
    var n := Step(s, cut);
    forall p: int ensures OnGrid(LineStart(s, i), p) <==> OnGrid(LineStart(s[n..], i - n), p - n) {
      GridBehindCut(s, cut, i, p);
    }
    if Straddles(s, i, j) {
      var p :| i < p < j && OnGrid(LineStart(s, i), p);
      assert OnGrid(LineStart(s[n..], i - n), p - n);
    }
    if Straddles(s[n..], i - n, j - n) {
      var p :| i - n < p < j - n && OnGrid(LineStart(s[n..], i - n), p);
      assert OnGrid(LineStart(s, i), p + n);
    }
  }

  lemma PieceBehindCut(s: string, cut: nat, i: nat, j: nat)
    requires cut <= i < j <= |s| && OneLine(s, i, j)
    ensures var n := Step(s, cut);
      n <= i && LStripBreaks(s[cut..]) == s[n..] && OneLine(s[n..], i - n, j - n)
  {
    var n := Step(s, cut);
    StepSkips(s, cut);
    assert s[i] != '\n';
    forall k | i - n <= k < j - n ensures s[n..][k] != '\n' { assert s[n..][k] == s[k + n]; }
  }

  /** Exactly what is torn: a piece of a line, say a tag or an entity, that begins in what
      is sent is cut in two if and only if it straddles a multiple of 3800 characters
      counted from the start of its own line. */
  lemma {:induction false} SeveredIff(s: string, chunks: seq<string>, rest: string, i: nat, j: nat)
    requires Covers(s, chunks, rest)
    requires i < j <= |s| && OneLine(s, i, j) && i + |rest| < |s|
    ensures Severed(s, chunks, i, j) <==> Straddles(s, i, j)
    decreases |chunks|
  {
    if |s| <= MAX_LEN {
      assert chunks[1..] == [];
      forall p | i < p < j ensures !OnGrid(LineStart(s, i), p) { WithinLine(s, i, p); }
    } else {
      var cut, n := |chunks[0]|, Step(s, |chunks[0]|);
      if i < cut {
        SeveredAtFirstCut(s, chunks, rest, i, j);
        StraddlesFirstCut(s, cut, i, j);
      } else {
        PieceBehindCut(s, cut, i, j);
        SeveredIff(s[n..], chunks[1..], rest, i - n, j - n);
        StraddlesBehindCut(s, cut, i, j);
      }
    }
  }

  lemma WithinLine(s: string, i: nat, p: nat)
    requires i < p < |s| <= MAX_LEN
    ensures !OnGrid(LineStart(s, i), p)
  {
    ShortOfGrid(LineStart(s, i), p);
  }

  /** So lines of at most 3800 characters lose nothing to a cut. */
  lemma ShortLinesStayWhole(s: string, chunks: seq<string>, rest: string, i: nat, j: nat)
    requires Covers(s, chunks, rest)
    requires i < j <= |s| && OneLine(s, i, j) && i + |rest| < |s| && j <= LineStart(s, i) + MAX_LEN
    ensures !Severed(s, chunks, i, j)
  {
    SeveredIff(s, chunks, rest, i, j);
    forall p | i < p < j ensures !OnGrid(LineStart(s, i), p) { ShortOfGrid(LineStart(s, i), p); }
  }

  /** The text of a message, from parts that are escaped already. */
  function FormatMessageBody(subject: string, from: string, body: string): string {
    "<b>Тема:</b> " + subject + "\n<b>От:</b> " + from + "\n\n" + body
  }

  /** A header that ends in a line break, and a body of one line longer than 3800. */
  lemma OneLongLine(space: char -> bool, header: string, line: string,
                    plain: seq<string>, rest: string, chunks: seq<string>)
    requires 1 < |header| <= MAX_LEN && header[|header| - 1] == '\n'
    requires MAX_LEN < |line| <= 2 * MAX_LEN && OneLine(line, 0, |line|)
    requires SplitsInto(space, header + line, plain, rest, chunks)
    ensures chunks == [header[..|header| - 1], line[..MAX_LEN], line[MAX_LEN..]]
  {
    var text, cut := header + line, |header| - 1;
    var a, b, c := header[..cut], line[..MAX_LEN], line[MAX_LEN..];
    StepSkips(text, cut);
    assert text[Step(text, cut)..] == line by {
      assert forall k | 0 <= k < |line| :: text[|header| + k] == line[k];
      assert text[|header|..] == line;
    }
    StepSkips(line, MAX_LEN);
    assert line[Step(line, MAX_LEN)..] == c;
    assert text[..cut] == a;
    assert Covers(c, [c], "") && [b, c][1..] == [c];
    assert Covers(line, [b, c], "") && [a, b, c][1..] == [b, c];
    assert Covers(text, [a, b, c], "");
    SplittingIsUnique(space, text, plain, rest, chunks, [a, b, c], "", [a, b, c]);
  }

  /** A message of one long line with an ampersand as its 3799th character: one part ends in
      the middle of the entity and the next begins there. */
  lemma AmpersandIsTorn(space: char -> bool, plain: seq<string>, rest: string, chunks: seq<string>)
    requires SplitsInto(space, FormatMessageBody("s", "f", seq(3798, _ => 'a') + "&amp;"), plain, rest, chunks)
    ensures |chunks| == 3 && chunks[0] == "<b>Тема:</b> s\n<b>От:</b> f\n"
    ensures chunks[1] == seq(3798, _ => 'a') + "&a" && chunks[2] == "mp;"
  {
    var body := seq(3798, _ => 'a') + "&amp;";
    var header := FormatMessageBody("s", "f", "");
    assert header + body == FormatMessageBody("s", "f", body);
    OneLongLine(space, header, body, plain, rest, chunks);
    assert header[..|header| - 1] == "<b>Тема:</b> s\n<b>От:</b> f\n";
    assert body[..MAX_LEN] == seq(3798, _ => 'a') + "&a";
    assert body[MAX_LEN..] == "mp;";
  }
}
