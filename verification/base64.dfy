/** URL-safe base64 without padding (sections 5 and 3.2 of RFC 4648), with the decoder the
    cursors rely on: a lenient one that skips foreign characters and fails only on a
    truncated quantum. */
module Base64 {
  import opened Prelude

  type Byte = n: nat | n < 256
  type Sextet = n: nat | n < 64

  // ---------------------------------------------------------------- alphabet

  /** Table 2 of RFC 4648. */
  function SextetChar(v: Sextet): (c: char)
    ensures c != '=' && c < 128 as char
  {
    if v < 26 then ('A' as int + v) as char
    else if v < 52 then ('a' as int + (v - 26)) as char
    else if v < 62 then ('0' as int + (v - 52)) as char
    else if v == 62 then '-' else '_'
  }

  /** Decoding maps `-` and `_` to `+` and `/` first, so both spellings are accepted. */
  function CharSextet(c: char): Option<Sextet> {
    if 'A' <= c <= 'Z' then Some(c as int - 'A' as int)
    else if 'a' <= c <= 'z' then Some(c as int - 'a' as int + 26)
    else if '0' <= c <= '9' then Some(c as int - '0' as int + 52)
    else if c == '-' || c == '+' then Some(62)
    else if c == '_' || c == '/' then Some(63)
    else None
  }

  lemma SextetRoundTrip(v: Sextet)
    ensures CharSextet(SextetChar(v)) == Some(v)
  {
  }

  // ---------------------------------------------------------------- encoder

  function Quad(a: Byte, b: Byte, c: Byte): (s: string)
    ensures |s| == 4
  {
    [SextetChar(a / 4), SextetChar(a % 4 * 16 + b / 16), SextetChar(b % 16 * 4 + c / 64), SextetChar(c % 64)]
  }

  function Encode(b: seq<Byte>): string {
    if |b| == 0 then ""
    else if |b| == 1 then Quad(b[0], 0, 0)[..2] + "=="
    else if |b| == 2 then Quad(b[0], b[1], 0)[..3] + "="
    else Quad(b[0], b[1], b[2]) + Encode(b[3..])
  }

  /** `.rstrip(b"=")` */
  function StripPadding(s: string): (r: string)
    ensures r <= s
    ensures r == "" || r[|r| - 1] != '='
  {
    if s != "" && s[|s| - 1] == '=' then StripPadding(s[..|s| - 1]) else s
  }

  function EncodeUnpadded(b: seq<Byte>): string { StripPadding(Encode(b)) }

  // ---------------------------------------------------------------- decoder

  /** `"=" * (-len(s) % 4)`: the remainder is the mathematical, non-negative one. */
  function Padding(n: nat): string { seq((-(n as int)) % 4, _ => '=') }

  /** One pass over the characters: `quad` sextets of the current quantum are in, `left`
      holds their unused bits and `pads` counts the padding seen since the last sextet. */
  function Scan(s: string, quad: nat, left: nat, pads: nat): (r: Option<seq<Byte>>)
    requires quad < 4 && (quad == 1 ==> left < 64) && (quad == 2 ==> left < 16) && (quad == 3 ==> left < 4)
  {
    if s == "" then (if quad == 0 then Some([]) else None)
    else if s[0] == '=' then
      if quad >= 2 && quad + pads + 1 >= 4 then Some([])
      else Scan(s[1..], quad, left, if quad >= 2 then pads + 1 else pads)
    else
      match CharSextet(s[0])
      case None => Scan(s[1..], quad, left, pads)
      case Some(v) =>
        if quad == 0 then Scan(s[1..], 1, v, 0)
        else if quad == 1 then Emit(left * 4 + v / 16, Scan(s[1..], 2, v % 16, 0))
        else if quad == 2 then Emit(left * 16 + v / 4, Scan(s[1..], 3, v % 4, 0))
        else Emit(left * 64 + v, Scan(s[1..], 0, 0, 0))
  }

  function Emit(x: Byte, rest: Option<seq<Byte>>): Option<seq<Byte>> {
    match rest
    case None => None
    case Some(t) => Some([x] + t)
  }

  /** `base64.urlsafe_b64decode(s + padding)`: a non-ASCII character is refused. */
  function DecodeUnpadded(s: string): Option<seq<Byte>> {
    if exists k | 0 <= k < |s| :: s[k] >= 128 as char then None
    else Scan(s + Padding(|s|), 0, 0, 0)
  }

  // ---------------------------------------------------------------- round trip

  lemma ScanSextet(s: string, v: Sextet, quad: nat, left: nat, pads: nat)
    requires s != "" && s[0] == SextetChar(v)
    requires quad < 4 && (quad == 1 ==> left < 64) && (quad == 2 ==> left < 16) && (quad == 3 ==> left < 4)
    ensures Scan(s, quad, left, pads) ==
        if quad == 0 then Scan(s[1..], 1, v, 0)
        else if quad == 1 then Emit(left * 4 + v / 16, Scan(s[1..], 2, v % 16, 0))
        else if quad == 2 then Emit(left * 16 + v / 4, Scan(s[1..], 3, v % 4, 0))
        else Emit(left * 64 + v, Scan(s[1..], 0, 0, 0))
  {
    SextetRoundTrip(v);
  }

  lemma ScanQuad(s: string, v0: Sextet, v1: Sextet, v2: Sextet, v3: Sextet, u: string, rest: seq<Byte>)
    requires s == [SextetChar(v0), SextetChar(v1), SextetChar(v2), SextetChar(v3)] + u
    requires Scan(u, 0, 0, 0) == Some(rest)
    ensures Scan(s, 0, 0, 0) == Some([v0 * 4 + v1 / 16, v1 % 16 * 16 + v2 / 4, v2 % 4 * 64 + v3] + rest)
  {
    ScanSextet(s, v0, 0, 0, 0);
    ScanSextet(s[1..], v1, 1, v0, 0);
    ScanSextet(s[1..][1..], v2, 2, v1 % 16, 0);
    ScanSextet(s[1..][1..][1..], v3, 3, v2 % 4, 0);
    assert s[1..][1..][1..][1..] == u;
    var x, y, z := v0 * 4 + v1 / 16, v1 % 16 * 16 + v2 / 4, v2 % 4 * 64 + v3;
    assert [x] + ([y] + ([z] + rest)) == [x, y, z] + rest;
  }

  /** The three octets of a quantum, cut into sextets and put together again. */
  lemma QuantumBits(a: Byte, b: Byte, c: Byte)
    ensures var v0, v1, v2, v3 := a / 4, a % 4 * 16 + b / 16, b % 16 * 4 + c / 64, c % 64;
      v0 < 64 && v1 < 64 && v2 < 64 && v3 < 64
      && v0 * 4 + v1 / 16 == a && v1 % 16 * 16 + v2 / 4 == b && v2 % 4 * 64 + v3 == c
  {
  }

  lemma ScanFull(a: Byte, b: Byte, c: Byte, u: string, rest: seq<Byte>)
    requires Scan(u, 0, 0, 0) == Some(rest)
    ensures Scan(Quad(a, b, c) + u, 0, 0, 0) == Some([a, b, c] + rest)
  {
    QuantumBits(a, b, c);
    ScanQuad(Quad(a, b, c) + u, a / 4, a % 4 * 16 + b / 16, b % 16 * 4 + c / 64, c % 64, u, rest);
  }

  lemma ScanOne(a: Byte, s: string)
    requires s == Quad(a, 0, 0)[..2] + "=="
    ensures Scan(s, 0, 0, 0) == Some([a])
  {
    QuantumBits(a, 0, 0);
    var v0, v1 := a / 4, a % 4 * 16;
    ScanSextet(s, v0, 0, 0, 0);
    ScanSextet(s[1..], v1, 1, v0, 0);
    assert s[1..][1..] == "==" && "=="[1..] == "=";
    assert Scan("=", 2, 0, 1) == Some([]);
    assert Scan("==", 2, 0, 0) == Some([]);
    assert [a] + [] == [a];
  }

  lemma ScanTwo(a: Byte, b: Byte, s: string)
    requires s == Quad(a, b, 0)[..3] + "="
    ensures Scan(s, 0, 0, 0) == Some([a, b])
  {
    QuantumBits(a, b, 0);
    var v0, v1, v2 := a / 4, a % 4 * 16 + b / 16, b % 16 * 4;
    ScanSextet(s, v0, 0, 0, 0);
    ScanSextet(s[1..], v1, 1, v0, 0);
    ScanSextet(s[1..][1..], v2, 2, v1 % 16, 0);
    assert s[1..][1..][1..] == "=";
    assert Scan("=", 3, 0, 0) == Some([]);
    assert [a] + ([b] + []) == [a, b];
  }

  lemma {:induction false} ScanEncode(b: seq<Byte>)
    ensures Scan(Encode(b), 0, 0, 0) == Some(b)
  {
    if |b| == 1 {
      ScanOne(b[0], Encode(b));
      assert b == [b[0]];
    } else if |b| == 2 {
      ScanTwo(b[0], b[1], Encode(b));
      assert b == [b[0], b[1]];
    } else if |b| >= 3 {
      ScanEncode(b[3..]);
      ScanFull(b[0], b[1], b[2], Encode(b[3..]), b[3..]);
      assert b == [b[0], b[1], b[2]] + b[3..];
    }
  }

  /** Characters that survive stripping and decoding. */
  ghost predicate Bare(s: string) {
    && (forall k | 0 <= k < |s| :: s[k] < 128 as char)
    && (s != "" ==> s[|s| - 1] != '=')
  }

  lemma QuadIsBare(a: Byte, b: Byte, c: Byte)
    ensures Bare(Quad(a, b, c)) && Bare(Quad(a, b, c)[..2]) && Bare(Quad(a, b, c)[..3])
  {
  }

  /** The part of an encoding before its padding. */
  ghost function Core(b: seq<Byte>): string {
    if |b| == 0 then ""
    else if |b| == 1 then Quad(b[0], 0, 0)[..2]
    else if |b| == 2 then Quad(b[0], b[1], 0)[..3]
    else Quad(b[0], b[1], b[2]) + Core(b[3..])
  }

  lemma {:induction false} EncodeSplits(b: seq<Byte>)
    ensures Bare(Core(b)) && (b != [] ==> Core(b) != "")
    ensures Encode(b) == Core(b) + Padding(|Core(b)|)
  {
    if |b| == 0 {
    } else if |b| < 3 {
      QuadIsBare(b[0], if |b| == 2 then b[1] else 0, 0);
    } else {
      EncodeSplits(b[3..]);
      QuadIsBare(b[0], b[1], b[2]);
      PrependQuad(Quad(b[0], b[1], b[2]), Core(b[3..]), Encode(b[3..]));
    }
  }

  lemma PrependQuad(q: string, core: string, s: string)
    requires |q| == 4 && s == core + Padding(|core|)
    ensures q + s == (q + core) + Padding(|q + core|)
  {
    assert |q + core| == |core| + 4;
    assert Padding(|core| + 4) == Padding(|core|);
  }

  lemma {:induction false} StripsTo(core: string, n: nat)
    requires Bare(core)
    ensures StripPadding(core + seq(n, _ => '=')) == core
  {
    var s := core + seq(n, _ => '=');
    if n == 0 {
      assert s == core;
    } else {
      StripsTo(core, n - 1);
      assert s[..|s| - 1] == core + seq(n - 1, _ => '=');
    }
  }

  /** Stripping removes exactly the padding that decoding puts back. */
  lemma PaddingRestored(b: seq<Byte>)
    ensures EncodeUnpadded(b) + Padding(|EncodeUnpadded(b)|) == Encode(b)
    ensures Bare(EncodeUnpadded(b)) && (b != [] ==> EncodeUnpadded(b) != "")
  {
    EncodeSplits(b);
    StripsTo(Core(b), (-(|Core(b)| as int)) % 4);
  }

  /** Decoding an unpadded encoding gives the bytes back, for every length modulo 3. */
  lemma RoundTrip(b: seq<Byte>)
    ensures DecodeUnpadded(EncodeUnpadded(b)) == Some(b)
  {
    PaddingRestored(b);
    ScanEncode(b);
  }

  // ---------------------------------------------------------------- the code itself

  /** Table 2 of RFC 4648: letter `c` has value `v`. */
  predicate IsLetter(c: char, v: int) {
    || ('A' <= c <= 'Z' && v == c as int - 'A' as int)
    || ('a' <= c <= 'z' && v == c as int - 'a' as int + 26)
    || ('0' <= c <= '9' && v == c as int - '0' as int + 52)
    || (c == '-' && v == 62)
    || (c == '_' && v == 63)
  }

  /** The letters of `q` are the digits of `n` to the base 64. */
  predicate Spells(q: string, n: nat) {
    if q == "" then n == 0
    else IsLetter(q[|q| - 1], n % 64) && Spells(q[..|q| - 1], n / 64)
  }

  lemma UnpaddedIsCore(b: seq<Byte>)
    ensures EncodeUnpadded(b) == Core(b)
  {
    EncodeSplits(b);
    StripsTo(Core(b), (-(|Core(b)| as int)) % 4);
  }

  lemma SpellsOne(s: string, k: nat, n: nat, v: Sextet, m: nat)
    requires k < |s| && Spells(s[..k], n) && s[k] == SextetChar(v) && m == n * 64 + v
    ensures Spells(s[..k + 1], m)
  {
    assert s[..k + 1][..k] == s[..k];
    assert m / 64 == n && m % 64 == v;
  }

  lemma LettersSpell(q: string, v0: Sextet, v1: Sextet, v2: Sextet, v3: Sextet, n1: nat, n2: nat, n3: nat)
    requires q == [SextetChar(v0), SextetChar(v1), SextetChar(v2), SextetChar(v3)]
    requires n1 == v0 * 64 + v1 && n2 == n1 * 64 + v2 && n3 == n2 * 64 + v3
    ensures Spells(q[..2], n1) && Spells(q[..3], n2) && Spells(q, n3)
  {
    SpellsOne(q, 0, 0, v0, v0);
    SpellsOne(q, 1, v0, v1, n1);
    SpellsOne(q, 2, n1, v2, n2);
    SpellsOne(q, 3, n2, v3, n3);
    assert q[..4] == q;
  }

  lemma QuadSpells(a: Byte, b: Byte, c: Byte)
    ensures Spells(Quad(a, b, c)[..2], a * 16 + b / 16)
    ensures Spells(Quad(a, b, c)[..3], a * 1024 + b * 4 + c / 64)
    ensures Spells(Quad(a, b, c), a * 65536 + b * 256 + c)
  {
    LettersSpell(Quad(a, b, c), a / 4, a % 4 * 16 + b / 16, b % 16 * 4 + c / 64, c % 64,
      a * 16 + b / 16, a * 1024 + b * 4 + c / 64, a * 65536 + b * 256 + c);
  }

  /** Three octets are four letters for the same 24 bits, high bits first. */
  lemma EncodingIs(a: Byte, b: Byte, c: Byte, t: seq<Byte>)
    ensures EncodeUnpadded([]) == ""
    ensures var s := EncodeUnpadded([a, b, c] + t);
      |s| >= 4 && s[4..] == EncodeUnpadded(t) && Spells(s[..4], (a * 256 + b) * 256 + c)
  {
    UnpaddedIsCore([]);
    UnpaddedIsCore([a, b, c] + t);
    UnpaddedIsCore(t);
    assert ([a, b, c] + t)[3..] == t;
    var q, s := Quad(a, b, c), EncodeUnpadded([a, b, c] + t);
    assert s == q + Core(t) && s[..4] == q;
    QuadSpells(a, b, c);
  }

  /** One and two octets at the end are two and three letters, the missing bits zero. */
  lemma EncodedEnds(a: Byte, b: Byte)
    ensures var s := EncodeUnpadded([a]); |s| == 2 && Spells(s, a * 16)
    ensures var s := EncodeUnpadded([a, b]); |s| == 3 && Spells(s, (a * 256 + b) * 4)
  {
    EncodedOne(a);
    EncodedTwo(a, b);
  }

  lemma EncodedOne(a: Byte)
    ensures var s := EncodeUnpadded([a]); |s| == 2 && Spells(s, a * 16)
  {
    UnpaddedIsCore([a]);
    assert Core([a]) == Quad(a, 0, 0)[..2];
    QuadSpells(a, 0, 0);
  }

  lemma EncodedTwo(a: Byte, b: Byte)
    ensures var s := EncodeUnpadded([a, b]); |s| == 3 && Spells(s, (a * 256 + b) * 4)
  {
    UnpaddedIsCore([a, b]);
    assert Core([a, b]) == Quad(a, b, 0)[..3];
    QuadSpells(a, b, 0);
  }

  // ---------------------------------------------------------------- what is read leniently

  /** Not in the alphabet, in neither spelling, and no padding. */
  predicate IsForeign(c: char) {
    !('A' <= c <= 'Z') && !('a' <= c <= 'z') && !('0' <= c <= '9') && c !in "-_+/="
  }

  /** The decoder makes the same of both texts, wherever in a quantum it is. */
  ghost predicate Alike(s: string, t: string) {
    forall quad: nat, left: nat, pads: nat
      | quad < 4 && (quad == 1 ==> left < 64) && (quad == 2 ==> left < 16) && (quad == 3 ==> left < 4) ::
      Scan(s, quad, left, pads) == Scan(t, quad, left, pads)
  }

  lemma AlikeCons(c: char, s: string, t: string)
    requires Alike(s, t)
    ensures Alike([c] + s, [c] + t)
  {
    assert ([c] + s)[1..] == s && ([c] + t)[1..] == t;
  }

  lemma {:induction false} AlikeBehind(a: string, s: string, t: string)
    requires Alike(s, t)
    ensures Alike(a + s, a + t)
  {
    if a == "" {
      assert a + s == s && a + t == t;
    } else {
      AlikeBehind(a[1..], s, t);
      AlikeCons(a[0], a[1..] + s, a[1..] + t);
      assert a + s == [a[0]] + (a[1..] + s) && a + t == [a[0]] + (a[1..] + t);
    }
  }

  /** A foreign character anywhere makes no difference. */
  lemma ForeignIsSkipped(a: string, c: char, b: string)
    requires IsForeign(c)
    ensures Alike(a + [c] + b, a + b)
  {
    assert CharSextet(c) == None;
    assert ([c] + b)[1..] == b;
    assert Alike([c] + b, b);
    AlikeBehind(a, [c] + b, b);
    assert a + [c] + b == a + ([c] + b);
  }

  /** The two spellings of the last two letters are one. */
  lemma SpellingsAreOne(a: string, b: string)
    ensures Alike(a + "+" + b, a + "-" + b) && Alike(a + "/" + b, a + "_" + b)
  {
    OtherSpelling(a, '+', '-', b);
    OtherSpelling(a, '/', '_', b);
  }

  lemma OtherSpelling(a: string, c: char, d: char, b: string)
    requires (c == '+' && d == '-') || (c == '/' && d == '_')
    ensures Alike(a + [c] + b, a + [d] + b)
  {
    assert ([c] + b)[1..] == b == ([d] + b)[1..];
    assert CharSextet(c) == CharSextet(d);
    assert Alike([c] + b, [d] + b);
    AlikeBehind(a, [c] + b, [d] + b);
    assert a + [c] + b == a + ([c] + b) && a + [d] + b == a + ([d] + b);
  }

  /** Padding counts only where it completes a quantum: there the rest of the text is not
      read, and anywhere else it is skipped. */
  lemma PaddingIs(left: nat, c: char, t: string)
    requires !IsForeign(c) && c != '='
    ensures left < 16 ==> Scan("==" + t, 2, left, 0) == Some([])
    ensures left < 4 ==> Scan("=" + t, 3, left, 0) == Some([])
    ensures left < 16 ==> Scan(['=', c] + t, 2, left, 0) == Scan([c] + t, 2, left, 0)
    ensures left < 64 ==> Scan("=" + t, 1, left, 0) == Scan(t, 1, left, 0)
    ensures Scan("=" + t, 0, left, 0) == Scan(t, 0, left, 0)
  {
    assert ("==" + t)[1..] == "=" + t && ("=" + t)[1..] == t;
    assert (['=', c] + t)[1..] == [c] + t && ([c] + t)[1..] == t;
  }

  // ---------------------------------------------------------------- what is refused

  ghost predicate IsToken(s: string) {
    forall c | c in s :: 'A' <= c <= 'Z' || 'a' <= c <= 'z' || '0' <= c <= '9' || c == '-' || c == '_'
  }

  /** What the padding makes of a text whose last quantum has `quad` letters. */
  lemma PaddingCloses(quad: nat, left: nat)
    requires 0 < quad < 4 && (quad == 1 ==> left < 64) && (quad == 2 ==> left < 16) && (quad == 3 ==> left < 4)
    ensures Scan(seq(4 - quad, _ => '='), quad, left, 0).None? <==> quad == 1
  {
    if quad == 3 {
      assert seq(4 - quad, _ => '=') == "=";
      assert Scan("=", 3, left, 0) == Some([]);
    } else if quad == 2 {
      assert seq(4 - quad, _ => '=') == "==" && "=="[1..] == "=";
      assert Scan("=", 2, left, 1) == Some([]);
    } else {
      assert seq(4 - quad, _ => '=') == "===" && "==="[1..] == "==" && "=="[1..] == "=" && "="[1..] == "";
      assert Scan("", 1, left, 0) == None;
      assert Scan("=", 1, left, 0) == None;
      assert Scan("==", 1, left, 0) == None;
    }
  }

  lemma LetterScan(s: string, quad: nat, left: nat) returns (left': nat)
    requires s != "" && s[0] != '=' && CharSextet(s[0]).Some?
    requires quad < 4 && (quad == 1 ==> left < 64) && (quad == 2 ==> left < 16) && (quad == 3 ==> left < 4)
    ensures (quad == 0 ==> left' < 64) && (quad == 1 ==> left' < 16) && (quad == 2 ==> left' < 4)
    ensures Scan(s, quad, left, 0).None? <==> Scan(s[1..], (quad + 1) % 4, left', 0).None?
  {
    var v := CharSextet(s[0]).value;
    left' := if quad == 0 then v else if quad == 1 then v % 16 else if quad == 2 then v % 4 else 0;
  }

  lemma {:induction false} TokenScan(s: string, n: nat, quad: nat, left: nat)
    requires IsToken(s)
    requires quad < 4 && (quad == 1 ==> left < 64) && (quad == 2 ==> left < 16) && (quad == 3 ==> left < 4)
    requires n < 4 && (quad + |s| + n) % 4 == 0
    ensures Scan(s + seq(n, _ => '='), quad, left, 0).None? <==> n == 3
    decreases |s|
  {
    var p := seq(n, _ => '=');
    if s == "" {
      assert s + p == p;
      if quad == 0 { assert p == ""; } else { PaddingCloses(quad, left); }
    } else {
      assert s[0] in s;
      assert (s + p)[1..] == s[1..] + p;
      assert forall c | c in s[1..] :: c in s;
      var left' := LetterScan(s + p, quad, left);
      TokenScan(s[1..], n, (quad + 1) % 4, left');
    }
  }

  /** Of the texts in the alphabet exactly those are refused whose length no octets have. */
  lemma RefusedIff(s: string)
    requires IsToken(s)
    ensures DecodeUnpadded(s).None? <==> |s| % 4 == 1
  {
    forall k | 0 <= k < |s| ensures s[k] < 128 as char { assert s[k] in s; }
    TokenScan(s, (-(|s| as int)) % 4, 0, 0);
  }

  lemma NonAsciiIsRefused(s: string, k: nat)
    requires k < |s| && s[k] >= 128 as char
    ensures DecodeUnpadded(s).None?
  {
  }
}
