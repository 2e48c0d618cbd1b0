/** Opaque keyset cursors: `base64url(iso|id)` without padding. Mail, sent mail, documents
    and SMS share this code and differ in the kind of id. */
module Cursor {
  import opened Prelude
  import opened Base64

  /** Library functions taken as given: the ISO form of a timestamp and UTF-8. */
  datatype Library<!T> = Library(iso: T -> string, fromIso: string -> Option<T>, aware: T -> bool,
                                 utf8: string -> seq<Byte>, fromUtf8: seq<Byte> -> Option<string>)

  ghost predicate Inverse<T(!new)>(lib: Library<T>) {
    && (forall t | lib.aware(t) :: lib.fromIso(lib.iso(t)) == Some(t))
    && (forall s :: lib.fromUtf8(lib.utf8(s)) == Some(s) && |s| <= |lib.utf8(s)|)
  }

  datatype IdText<!I> = IdText(show: I -> string, read: string -> Option<I>)

  const SEP := '|'

  ghost predicate Readable<I(!new)>(ids: IdText<I>) {
    forall i: I :: ids.read(ids.show(i)) == Some(i) && SEP !in ids.show(i)
  }

  datatype CursorError = Blank | Broken | Naive

  function Encode<T, I>(lib: Library<T>, ids: IdText<I>, at: T, id: I): string {
    EncodeUnpadded(lib.utf8(lib.iso(at) + [SEP] + ids.show(id)))
  }

  function Decode<T, I>(lib: Library<T>, ids: IdText<I>, cursor: string): Result<(T, I), CursorError> {
    if cursor == "" then Err(Blank)
    else
      match DecodeUnpadded(cursor)
      case None => Err(Broken)
      case Some(bytes) =>
        match lib.fromUtf8(bytes)
        case None => Err(Broken)
        case Some(raw) => DecodeRaw(lib, ids, raw)
  }

  /** `raw.rsplit("|", 1)`: everything before the last separator is the timestamp. */
  function DecodeRaw<T, I>(lib: Library<T>, ids: IdText<I>, raw: string): Result<(T, I), CursorError> {
    match LastIndex(raw, SEP)
    case None => Err(Broken)
    case Some(k) =>
      match (lib.fromIso(raw[..k]), ids.read(raw[k + 1..]))
      case (Some(at), Some(id)) => if lib.aware(at) then Ok((at, id)) else Err(Naive)
      case _ => Err(Broken)
  }

  function LastIndex(s: string, c: char): (r: Option<nat>)
    ensures r.None? ==> c !in s
    ensures r.Some? ==> r.value < |s| && s[r.value] == c && c !in s[r.value + 1..]
  {
    if s == "" then None
    else if s[|s| - 1] == c then Some(|s| - 1)
    else
      var r := LastIndex(s[..|s| - 1], c);
      assert r.Some? ==> s[r.value + 1..] == s[..|s| - 1][r.value + 1..] + [s[|s| - 1]];
      r
  }

  lemma {:induction false} LastIndexSplits(a: string, b: string, c: char)
    requires c !in b
    ensures LastIndex(a + [c] + b, c) == Some(|a|)
  {
    if b != "" {
      var s := a + [c] + b;
      assert s[..|s| - 1] == a + [c] + b[..|b| - 1];
      LastIndexSplits(a, b[..|b| - 1], c);
    }
  }

  /** Decoding an encoded position gives it back, for every aware timestamp and every id. */
  lemma RoundTrip<T(!new), I(!new)>(lib: Library<T>, ids: IdText<I>, at: T, id: I)
    requires Inverse(lib) && Readable(ids) && lib.aware(at)
    ensures Encode(lib, ids, at, id) != ""
    ensures Decode(lib, ids, Encode(lib, ids, at, id)) == Ok((at, id))
  {
    var iso, text := lib.iso(at), ids.show(id);
    var raw := iso + [SEP] + text;
    var bytes := lib.utf8(raw);
    Base64.RoundTrip(bytes);
    PaddingRestored(bytes);
    assert lib.fromUtf8(bytes) == Some(raw);
    LastIndexSplits(iso, text, SEP);
    assert raw[..|iso|] == iso && raw[|iso| + 1..] == text;
  }

  /** The bytes of a cursor are those of the two texts with a bar between them. */
  lemma EncodedIs<T, I>(lib: Library<T>, ids: IdText<I>, at: T, id: I)
    ensures DecodeUnpadded(Encode(lib, ids, at, id)) == Some(lib.utf8(lib.iso(at) + "|" + ids.show(id)))
  {
    Base64.RoundTrip(lib.utf8(lib.iso(at) + "|" + ids.show(id)));
  }

  /** What is read from a text whose last bar stands between `a` and `b`. */
  lemma DecodedIs<T(!new), I(!new)>(lib: Library<T>, ids: IdText<I>, cursor: string, bytes: seq<Byte>, a: string,
                                    b: string)
    requires cursor != "" && DecodeUnpadded(cursor) == Some(bytes)
    requires lib.fromUtf8(bytes) == Some(a + "|" + b) && '|' !in b
    ensures forall t, i ::
      Decode(lib, ids, cursor) == Ok((t, i)) <==> lib.fromIso(a) == Some(t) && lib.aware(t) && ids.read(b) == Some(i)
    ensures Decode(lib, ids, cursor) == Err(Broken) <==> lib.fromIso(a).None? || ids.read(b).None?
    ensures Decode(lib, ids, cursor) == Err(Naive)
      <==> lib.fromIso(a).Some? && !lib.aware(lib.fromIso(a).value) && ids.read(b).Some?
  {
    var raw := a + "|" + b;
    LastIndexSplits(a, b, '|');
    assert raw[..|a|] == a && raw[|a| + 1..] == b;
  }

  /** The other texts: only the empty one is blank, and none of the rest is accepted. */
  lemma UnreadableIsBroken<T, I>(lib: Library<T>, ids: IdText<I>, cursor: string)
    ensures Decode(lib, ids, cursor) == Err(Blank) <==> cursor == ""
    ensures cursor != "" && DecodeUnpadded(cursor) == None ==> Decode(lib, ids, cursor) == Err(Broken)
    ensures forall bytes | cursor != "" && DecodeUnpadded(cursor) == Some(bytes) ::
      lib.fromUtf8(bytes) == None || '|' !in lib.fromUtf8(bytes).value ==> Decode(lib, ids, cursor) == Err(Broken)
  {
  }

  /** Different positions have different cursors. */
  lemma Injective<T(!new), I(!new)>(lib: Library<T>, ids: IdText<I>, at: T, id: I, at': T, id': I)
    requires Inverse(lib) && Readable(ids) && lib.aware(at) && lib.aware(at')
    requires Encode(lib, ids, at, id) == Encode(lib, ids, at', id')
    ensures at == at' && id == id'
  {
    RoundTrip(lib, ids, at, id);
    RoundTrip(lib, ids, at', id');
  }

  /** Many texts decode to one position, but each accepted one is as good as the cursor
      of that position, and no accepted position is without a time zone. */
  lemma AcceptedIsCanonical<T(!new), I(!new)>(lib: Library<T>, ids: IdText<I>, cursor: string)
    requires Inverse(lib) && Readable(ids)
    ensures match Decode(lib, ids, cursor)
      case Ok(p) => lib.aware(p.0) && Decode(lib, ids, Encode(lib, ids, p.0, p.1)) == Ok(p)
      case Err(_) => true
  {
    match Decode(lib, ids, cursor)
    case Ok(p) => RoundTrip(lib, ids, p.0, p.1);
    case Err(_) =>
  }
}

/** Integer ids: `str(n)` and `int(text)`. */
module IntIds {
  import opened Prelude
  import opened Cursor

  predicate IsDigit(c: char) { '0' <= c <= '9' }

  function DigitChar(d: nat): (c: char)
    requires d < 10
    ensures IsDigit(c) && DigitValue(c) == d
  {
    ('0' as int + d) as char
  }

  function DigitValue(c: char): (d: nat)
    requires IsDigit(c)
    ensures d < 10
  {
    c as int - '0' as int
  }

  function ShowNat(n: nat): (s: string)
    ensures s != "" && forall c | c in s :: IsDigit(c)
  {
    if n < 10 then [DigitChar(n)] else ShowNat(n / 10) + [DigitChar(n % 10)]
  }

  function Show(n: int): string { if n < 0 then "-" + ShowNat(-n) else ShowNat(n) }

  /** Digits with single underscores allowed between them. */
  function ReadDigits(s: string, acc: nat): Option<nat> {
    if s == "" || !IsDigit(s[0]) then None
    else
      var v := 10 * acc + DigitValue(s[0]);
      if |s| == 1 then Some(v)
      else if s[1] == '_' then ReadDigits(s[2..], v)
      else ReadDigits(s[1..], v)
  }

  predicate IsBlank(c: char) { c == ' ' || '\t' <= c <= '\r' }

  function Trim(s: string): string
    decreases |s|
  {
    if s != "" && IsBlank(s[0]) then Trim(s[1..])
    else if s != "" && IsBlank(s[|s| - 1]) then Trim(s[..|s| - 1])
    else s
  }

  function Read(s: string): Option<int> {
    var t := Trim(s);
    if t != "" && t[0] == '-' then
      match ReadDigits(t[1..], 0)
      case None => None
      case Some(v) => Some(0 - v)
    else if t != "" && t[0] == '+' then ReadDigits(t[1..], 0)
    else ReadDigits(t, 0)
  }

  lemma {:induction false} ReadSnoc(a: string, c: char, acc: nat)
    requires a != "" && (forall d | d in a :: IsDigit(d)) && IsDigit(c)
    ensures ReadDigits(a, acc).Some?
    ensures ReadDigits(a + [c], acc) == Some(10 * ReadDigits(a, acc).value + DigitValue(c))
  {
    assert a[0] in a;
    var v := 10 * acc + DigitValue(a[0]);
    if |a| == 1 {
      assert (a + [c])[1..] == [c];
      assert ReadDigits([c], v) == Some(10 * v + DigitValue(c));
    } else {
      assert a[1] in a;
      ReadSnoc(a[1..], c, v);
      assert (a + [c])[1..] == a[1..] + [c];
    }
  }

  lemma {:induction false} ReadShowNat(n: nat)
    ensures ReadDigits(ShowNat(n), 0) == Some(n)
  {
    if n >= 10 {
      ReadShowNat(n / 10);
      ReadSnoc(ShowNat(n / 10), DigitChar(n % 10), 0);
    }
  }

  lemma ReadShow(n: int)
    ensures Read(Show(n)) == Some(n) && SEP !in Show(n)
  {
    var s := ShowNat(if n < 0 then -n else n);
    ReadShowNat(if n < 0 then -n else n);
    TrimShow(n, s);
    assert n < 0 ==> Show(n)[1..] == s;
  }

  lemma TrimShow(n: int, s: string)
    requires s == ShowNat(if n < 0 then -n else n)
    ensures Trim(Show(n)) == Show(n) && IsDigit(s[0])
  {
    assert s[0] in s && s[|s| - 1] in s;
    assert Show(n)[|Show(n)| - 1] == s[|s| - 1];
  }

  /** Decimal notation: no sign but a minus, no digit in front that is zero. */
  lemma ShowIs(n: nat, d: nat)
    requires d < 10
    ensures Show(d) == [('0' as int + d) as char]
    ensures n > 0 ==> Show(10 * n + d) == Show(n) + [('0' as int + d) as char] 
    ensures n > 0 ==> Show(0 - n) == "-" + Show(n)
  {
  }

  lemma {:induction false} BlanksGo(s: string, c: char)
    requires c == ' ' || '\t' <= c <= '\r'
    ensures Read([c] + s) == Read(s) == Read(s + [c])
  {
    assert Trim([c] + s) == Trim(([c] + s)[1..]) == Trim(s);
    TrimsBehind(s, c);
  }

  lemma {:induction false} TrimsBehind(s: string, c: char)
    requires IsBlank(c)
    ensures Trim(s + [c]) == Trim(s)
  {
    var t := s + [c];
    assert t[..|t| - 1] == s;
    if s == "" {
      assert t[1..] == "";
    } else if IsBlank(s[0]) {
      assert t[1..] == s[1..] + [c];
      TrimsBehind(s[1..], c);
    }
  }

  /** Digits, single underscores between them, and nothing else. */
  predicate IsNumeral(s: string) {
    && s != "" && '0' <= s[0] <= '9' && '0' <= s[|s| - 1] <= '9'
    && (forall k | 0 <= k < |s| :: '0' <= s[k] <= '9' || s[k] == '_')
    && (forall j, k | 0 <= j < |s| && 0 <= k < |s| && k == j + 1 :: s[j] != '_' || s[k] != '_')
  }

  lemma {:induction false} ReadIffNumeral(s: string, acc: nat)
    ensures ReadDigits(s, acc).Some? <==> IsNumeral(s)
    decreases |s|
  {
    if |s| >= 2 && IsDigit(s[0]) {
      var v := 10 * acc + DigitValue(s[0]);
      if s[1] == '_' {
        ReadIffNumeral(s[2..], v);
        NumeralBehindTwo(s);
      } else {
        ReadIffNumeral(s[1..], v);
        NumeralBehindOne(s);
      }
    }
  }

  lemma NumeralBehindOne(s: string)
    requires |s| >= 2 && IsDigit(s[0]) && s[1] != '_'
    ensures IsNumeral(s) <==> IsNumeral(s[1..])
  {
    var t := s[1..];
    if IsNumeral(t) {
      assert forall k | 1 <= k < |s| :: s[k] == t[k - 1];
    }
  }

  lemma NumeralBehindTwo(s: string)
    requires |s| >= 2 && IsDigit(s[0]) && s[1] == '_'
    ensures IsNumeral(s) <==> IsNumeral(s[2..])
  {
    var t := s[2..];
    if IsNumeral(t) {
      assert forall k | 2 <= k < |s| :: s[k] == t[k - 2];
    }
  }

  /** Underscores count for nothing, and each digit behind the first for its decimal place. */
  lemma {:induction false} NumeralIs(a: string, c: char, acc: nat)
    requires IsNumeral(a) && '0' <= c <= '9'
    ensures var v := 10 * ReadDigits(a, acc).GetOr(0) + (c as int - '0' as int);
      ReadDigits(a + [c], acc) == Some(v) && ReadDigits(a + ['_', c], acc) == Some(v)
    ensures ReadDigits([c], acc) == Some(10 * acc + (c as int - '0' as int))
    decreases |a|
  {
    ReadIffNumeral(a, acc);
    var v := 10 * acc + DigitValue(a[0]);
    if |a| == 1 {
      assert (a + [c])[1..] == [c] && (a + ['_', c])[2..] == [c];
    } else if a[1] == '_' {
      NumeralBehindTwo(a);
      assert (a + [c])[2..] == a[2..] + [c] && (a + ['_', c])[2..] == a[2..] + ['_', c];
      NumeralIs(a[2..], c, v);
    } else {
      NumeralBehindOne(a);
      assert (a + [c])[1..] == a[1..] + [c] && (a + ['_', c])[1..] == a[1..] + ['_', c];
      NumeralIs(a[1..], c, v);
    }
  }

  /** A numeral is read for its value, with or without a sign. */
  lemma SignsAre(a: string)
    requires IsNumeral(a)
    ensures var v := ReadDigits(a, 0).GetOr(0);
      ReadDigits(a, 0) == Some(v) && Read(a) == Read("+" + a) == Some(v) && Read("-" + a) == Some(0 - v)
  {
    ReadIffNumeral(a, 0);
    assert Trim(a) == a;
    assert Trim("+" + a) == "+" + a && Trim("-" + a) == "-" + a;
    assert ("+" + a)[1..] == a && ("-" + a)[1..] == a;
  }

  const IDS := IdText(Show, Read)

  lemma IntIdsReadable()
    ensures Readable<int>(IDS)
  {
    forall n: int ensures IDS.read(IDS.show(n)) == Some(n) && SEP !in IDS.show(n) {
      ReadShow(n);
    }
  }
}

/** UUID ids: `str(uuid)` and `uuid.UUID(text)`. */
module UuidIds {
  import opened Prelude
  import opened Cursor

  function Pow16(k: nat): (p: nat)
    ensures p > 0
  {
    if k == 0 then 1 else 16 * Pow16(k - 1)
  }

  const UUIDS := 0x1_0000_0000_0000_0000_0000_0000_0000_0000

  type Uuid = n: nat | n < UUIDS witness 0

  lemma UuidsAre32Digits()
    ensures UUIDS == Pow16(32)
  {
    assert Pow16(8) == 0x1_0000_0000;
    PowAdds(8, 8);
    PowAdds(16, 16);
  }

  lemma {:induction false} PowAdds(j: nat, k: nat)
    ensures Pow16(j + k) == Pow16(j) * Pow16(k)
  {
    if j > 0 { PowAdds(j - 1, k); }
  }

  function HexChar(d: nat): (c: char)
    requires d < 16
    ensures HexValue(c) == Some(d) && c != '-' && c != SEP && c != ':' && c != '{' && c != '}'
  {
    if d < 10 then ('0' as int + d) as char else ('a' as int + (d - 10)) as char
  }

  function HexValue(c: char): (r: Option<nat>)
    ensures r.Some? ==> r.value < 16
  {
    if '0' <= c <= '9' then Some(c as int - '0' as int)
    else if 'a' <= c <= 'f' then Some(c as int - 'a' as int + 10)
    else if 'A' <= c <= 'F' then Some(c as int - 'A' as int + 10)
    else None
  }

  ghost predicate PlainHex(s: string) {
    forall c | c in s :: HexValue(c).Some? && c != '-' && c != SEP && c != ':' && c != '{' && c != '}'
  }

  function Hex(n: nat, k: nat): (s: string)
    ensures |s| == k && PlainHex(s)
  {
    if k == 0 then "" else Hex(n / 16, k - 1) + [HexChar(n % 16)]
  }

  /** Groups of 8, 4, 4, 4 and 12 digits. */
  function Show(u: Uuid): string {
    var h := Hex(u, 32);
    h[..8] + "-" + h[8..12] + "-" + h[12..16] + "-" + h[16..20] + "-" + h[20..]
  }

  function ReadHex(s: string): Option<nat> {
    if s == "" then Some(0)
    else
      match (ReadHex(s[..|s| - 1]), HexValue(s[|s| - 1]))
      case (Some(n), Some(d)) => Some(16 * n + d)
      case _ => None
  }

  /** `text.replace(part, "")` */
  function Remove(s: string, part: string): string
    requires part != ""
  {
    if |s| < |part| then s
    else if s[..|part|] == part then Remove(s[|part|..], part)
    else [s[0]] + Remove(s[1..], part)
  }

  /** `text.strip("{}")` */
  function StripBraces(s: string): string
    decreases |s|
  {
    if s != "" && (s[0] == '{' || s[0] == '}') then StripBraces(s[1..])
    else if s != "" && (s[|s| - 1] == '{' || s[|s| - 1] == '}') then StripBraces(s[..|s| - 1])
    else s
  }

  function Read(s: string): Option<Uuid> {
    var h := Remove(StripBraces(Remove(Remove(s, "urn:"), "uuid:")), "-");
    if |h| != 32 then None
    else
      match ReadHex(h)
      case None => None
      case Some(n) => ReadHexBound(h); UuidsAre32Digits(); Some(n)
  }

  lemma {:induction false} ReadHexBound(s: string)
    ensures ReadHex(s).Some? ==> ReadHex(s).value < Pow16(|s|)
  {
    if s != "" { ReadHexBound(s[..|s| - 1]); }
  }

  lemma {:induction false} ReadHexOfHex(n: nat, k: nat)
    requires n < Pow16(k)
    ensures ReadHex(Hex(n, k)) == Some(n)
  {
    if k > 0 { ReadHexOfHex(n / 16, k - 1); }
  }

  lemma {:induction false} RemoveAbsent(s: string, part: string, c: char)
    requires part != "" && c in part && c !in s
    ensures Remove(s, part) == s
  {
    if |s| >= |part| {
      assert s[..|part|] != part;
      RemoveAbsent(s[1..], part, c);
      assert s == [s[0]] + s[1..];
    }
  }

  lemma RemoveOne(c: char, u: string)
    ensures Remove([c] + u, "-") == if c == '-' then Remove(u, "-") else [c] + Remove(u, "-")
  {
    assert ([c] + u)[..1] == [c] && ([c] + u)[1..] == u;
  }

  lemma {:induction false} RemoveDash(a: string, b: string)
    requires '-' !in a
    ensures Remove(a + "-" + b, "-") == a + Remove(b, "-")
  {
    if a == "" {
      RemoveOne('-', b);
      assert a + "-" + b == ['-'] + b;
    } else {
      RemoveDash(a[1..], b);
      RemoveBehindOne(a[0], a[1..], b, Remove(b, "-"));
      assert a == [a[0]] + a[1..];
    }
  }

  lemma RemoveBehindOne(c: char, a: string, b: string, w: string)
    requires c != '-' && Remove(a + "-" + b, "-") == a + w
    ensures Remove([c] + a + "-" + b, "-") == [c] + a + w
  {
    var u := a + "-" + b;
    RemoveOne(c, u);
    assert [c] + a + "-" + b == [c] + u && [c] + a + w == [c] + (a + w);
  }

  lemma PlainSlice(s: string, a: nat, b: nat)
    requires a <= b <= |s| && PlainHex(s)
    ensures PlainHex(s[a..b])
  {
    forall c | c in s[a..b] ensures c in s {
      var k :| a <= k < b && s[k] == c;
    }
  }

  lemma Groups(u: Uuid)
    ensures var h := Hex(u, 32);
      PlainHex(h[..8]) && PlainHex(h[8..12]) && PlainHex(h[12..16]) && PlainHex(h[16..20]) && PlainHex(h[20..])
  {
    var h := Hex(u, 32);
    PlainSlice(h, 0, 8);
    PlainSlice(h, 8, 12);
    PlainSlice(h, 12, 16);
    PlainSlice(h, 16, 20);
    PlainSlice(h, 20, 32);
    assert h[20..] == h[20..32];
  }

  lemma ShowPlain(u: Uuid)
    ensures SEP !in Show(u) && ':' !in Show(u) && StripBraces(Show(u)) == Show(u)
  {
    var h := Hex(u, 32);
    Groups(u);
    assert Show(u)[0] == h[0] && Show(u)[|Show(u)| - 1] == h[31];
    assert h[0] in h && h[31] in h;
  }

  lemma RemoveDashes(u: Uuid)
    ensures Remove(Show(u), "-") == Hex(u, 32)
  {
    Groups(u);
    var h := Hex(u, 32);
    var t3 := h[16..20] + "-" + h[20..];
    var t2 := h[12..16] + "-" + t3;
    var t1 := h[8..12] + "-" + t2;
    assert Show(u) == h[..8] + "-" + t1;
    RemoveDash(h[..8], t1);
    RemoveDash(h[8..12], t2);
    RemoveDash(h[12..16], t3);
    RemoveDash(h[16..20], h[20..]);
    RemoveAbsent(h[20..], "-", '-');
    assert h == h[..8] + (h[8..12] + (h[12..16] + (h[16..20] + h[20..])));
  }

  lemma ReadShow(u: Uuid)
    ensures Read(Show(u)) == Some(u) && SEP !in Show(u)
  {
    ShowPlain(u);
    RemoveAbsent(Show(u), "urn:", ':');
    RemoveAbsent(Show(u), "uuid:", ':');
    RemoveDashes(u);
    UuidsAre32Digits();
    ReadHexOfHex(u, 32);
  }

  /** The letters of `s` are the lower-case digits of `n` to the base 16. */
  predicate SpellsHex(s: string, n: nat) {
    if s == "" then n == 0
    else
      var c, d := s[|s| - 1], n % 16;
      (if d < 10 then c as int == '0' as int + d else c as int == 'a' as int + d - 10)
      && SpellsHex(s[..|s| - 1], n / 16)
  }

  lemma {:induction false} HexSpells(n: nat, k: nat)
    requires n < Pow16(k)
    ensures SpellsHex(Hex(n, k), n)
  {
    if k > 0 {
      HexSpells(n / 16, k - 1);
      assert Hex(n, k)[..k - 1] == Hex(n / 16, k - 1);
    }
  }

  /** Five groups of 8, 4, 4, 4 and 12 lower-case digits, most significant first. */
  lemma ShowIs(u: Uuid)
    ensures var s := Show(u);
      && |s| == 36 && s[8] == s[13] == s[18] == s[23] == '-'
      && SpellsHex(s[..8] + s[9..13] + s[14..18] + s[19..23] + s[24..], u)
  {
    UuidsAre32Digits();
    HexSpells(u, 32);
    GroupsAre(Hex(u, 32), Show(u));
  }

  lemma GroupsAre(h: string, s: string)
    requires |h| == 32
    requires s == h[..8] + "-" + h[8..12] + "-" + h[12..16] + "-" + h[16..20] + "-" + h[20..]
    ensures |s| == 36 && s[8] == s[13] == s[18] == s[23] == '-'
    ensures s[..8] + s[9..13] + s[14..18] + s[19..23] + s[24..] == h
  {
    assert s[..8] == h[..8] && s[9..13] == h[8..12] && s[14..18] == h[12..16];
    assert s[19..23] == h[16..20] && s[24..] == h[20..];
  }

  /** Capitals are read as small letters are; any other character is refused. */
  lemma LettersAre(a: string, c: char)
    ensures 'A' <= c <= 'F' ==> ReadHex(a + [c]) == ReadHex(a + [c + ('a' as int - 'A' as int) as char])
    ensures !('0' <= c <= '9') && !('a' <= c <= 'f') && !('A' <= c <= 'F') ==> ReadHex(a + [c]) == None
  {
    var d := if 'A' <= c <= 'F' then c + ('a' as int - 'A' as int) as char else c;
    assert (a + [c])[..|a|] == a == (a + [d])[..|a|];
  }

  /** Also read: the digits alone, braces, and the URN form of section 3 of RFC 4122. */
  lemma OtherFormsAreRead(u: Uuid)
    ensures Read(Hex(u, 32)) == Read("{" + Show(u) + "}") == Read("urn:uuid:" + Show(u)) == Some(u)
  {
    BareIsRead(u);
    BracesAreRead(u);
    UrnIsRead(u);
  }

  lemma BareIsRead(u: Uuid)
    ensures Read(Hex(u, 32)) == Some(u)
  {
    var h := Hex(u, 32);
    BareStaysWhole(h);
    UuidsAre32Digits();
    ReadHexOfHex(u, 32);
  }

  lemma BareStaysWhole(h: string)
    requires PlainHex(h) && h != ""
    ensures Remove(h, "urn:") == Remove(h, "uuid:") == Remove(h, "-") == StripBraces(h) == h
  {
    assert h[0] in h && h[|h| - 1] in h;
    assert ':' !in h && '-' !in h;
    RemoveAbsent(h, "urn:", ':');
    RemoveAbsent(h, "uuid:", ':');
    RemoveAbsent(h, "-", '-');
  }

  lemma BracesAreRead(u: Uuid)
    ensures Read("{" + Show(u) + "}") == Some(u)
  {
    var s := "{" + Show(u) + "}";
    ShowPlain(u);
    RemoveAbsent(s, "urn:", ':');
    RemoveAbsent(s, "uuid:", ':');
    assert s[1..] == Show(u) + "}";
    StripsBehind(u);
    RemoveDashes(u);
    UuidsAre32Digits();
    ReadHexOfHex(u, 32);
  }

  lemma StripsBehind(u: Uuid)
    ensures StripBraces(Show(u) + "}") == Show(u)
  {
    ShowPlain(u);
    var h, s := Hex(u, 32), Show(u) + "}";
    assert s[0] == h[0] && h[0] in h;
    assert s[..|s| - 1] == Show(u);
  }

  lemma UrnIsRead(u: Uuid)
    ensures Read("urn:uuid:" + Show(u)) == Some(u)
  {
    var s, t := "urn:uuid:" + Show(u), "uuid:" + Show(u);
    ShowPlain(u);
    assert s[..4] == "urn:" && s[4..] == t;
    assert t[..5] == "uuid:" && t[5..] == Show(u);
    RemoveAbsent(Show(u), "urn:", ':');
    UuidTagStays(Show(u));
    RemoveAbsent(Show(u), "uuid:", ':');
    RemoveDashes(u);
    UuidsAre32Digits();
    ReadHexOfHex(u, 32);
  }

  lemma UuidTagStays(s: string)
    requires s != "" && Remove(s, "urn:") == s
    ensures Remove("uuid:" + s, "urn:") == "uuid:" + s
  {
    var t := "uuid:" + s;
    assert t[5..] == s;
    StaysBehind(t, 4);
    StaysBehind(t, 3);
    StaysBehind(t, 2);
    StaysBehind(t, 1);
    StaysBehind(t, 0);
    assert t[0..] == t;
  }

  lemma StaysBehind(t: string, k: nat)
    requires k + 1 < |t| && (t[k] != 'u' || t[k + 1] != 'r') && Remove(t[k + 1..], "urn:") == t[k + 1..]
    ensures Remove(t[k..], "urn:") == t[k..]
  {
    var s := t[k..];
    assert s[1..] == t[k + 1..] && s[0] == t[k] && s[1] == t[k + 1];
    if |s| >= 4 {
      assert s[..4][0] == s[0] && s[..4][1] == s[1];
      assert s[..4] != "urn:";
    }
    assert s == [s[0]] + s[1..];
  }

  const IDS := IdText(Show, Read)

  lemma UuidIdsReadable()
    ensures Readable<Uuid>(IDS)
  {
    forall u: Uuid ensures IDS.read(IDS.show(u)) == Some(u) && SEP !in IDS.show(u) {
      ReadShow(u);
    }
  }
}
