/**
  The canonical bytes of a signed tree head, "fp.sth.v1|<size>|<hex root>|<ms>", and a
  parser that inverts them: no two tree heads share their signed bytes.
 */
module TreeHead {
  import opened Wrappers

  import opened ByteStrings

  // ---------- Hex ----------

  const HEX_DIGITS: string := "0123456789abcdef"

  function HexOf(b: Bytes): string {
    if b == [] then "" else [HEX_DIGITS[b[0] / 16], HEX_DIGITS[b[0] % 16]] + HexOf(b[1..])
  }

  function HexValue(c: char): Option<int> {
    if '0' <= c <= '9' then Some(c as int - '0' as int)
    else if 'a' <= c <= 'f' then Some(c as int - 'a' as int + 10)
    else None
  }

  function UnHex(s: string): Option<Bytes> {
    if s == "" then Some([])
    else if |s| == 1 then None
    else
      match (HexValue(s[0]), HexValue(s[1]), UnHex(s[2..]))
      case (Some(hi), Some(lo), Some(rest)) =>
        if 0 <= hi < 16 && 0 <= lo < 16 then Some([(hi * 16 + lo) as byte] + rest) else None
      case _ => None
  }

  lemma HexDigitValue(d: int)
    requires 0 <= d < 16
    ensures HexValue(HEX_DIGITS[d]) == Some(d)
  {
    var digits := "0123456789abcdef";
    assert if d < 10 then digits[d] == '0' + d as char else digits[d] == 'a' + (d - 10) as char;
  }

  // The hex text decodes to the bytes and holds no bar.
  predicate HexInverts(b: Bytes) {
    UnHex(HexOf(b)) == Some(b) && '|' !in HexOf(b)
  }

  // Two digits are read back as their byte.
  lemma HexByte(b: byte, rest: Bytes, text: string)
    requires UnHex(text) == Some(rest)
    ensures UnHex([HEX_DIGITS[b / 16], HEX_DIGITS[b % 16]] + text) == Some([b] + rest)
    ensures HEX_DIGITS[b / 16] != '|' && HEX_DIGITS[b % 16] != '|'
  {
    var digits := [HEX_DIGITS[b / 16], HEX_DIGITS[b % 16]];
    HexDigitValue((b / 16) as int);
    HexDigitValue((b % 16) as int);
    assert (digits + text)[2..] == text;
  }

  lemma {:induction false} HexRoundTrip(b: Bytes)
    ensures HexInverts(b)
  {
    if b != [] {
      HexRoundTrip(b[1..]);
      HexByte(b[0], b[1..], HexOf(b[1..]));
      assert b == [b[0]] + b[1..];
    }
  }

  lemma {:induction false} HexAt(b: Bytes, i: nat)
    requires i < |b|
    ensures |HexOf(b)| == 2 * |b|
    ensures HexOf(b)[2 * i] == HEX_DIGITS[b[i] / 16] && HexOf(b)[2 * i + 1] == HEX_DIGITS[b[i] % 16]
  {
    if |b| > 1 {
      HexAt(b[1..], if i == 0 then 0 else i - 1);
    }
  }

  // Fills a buffer of twice the length, two digits a byte.
  method Hex(b: Bytes) returns (s: string)
    ensures s == HexOf(b)
  {
    var out := new char[|b| * 2];
    var i := 0;
    while i < |b|
      invariant 0 <= i <= |b|
      invariant forall j :: 0 <= j < i ==>
        out[2 * j] == HEX_DIGITS[b[j] / 16] && out[2 * j + 1] == HEX_DIGITS[b[j] % 16]
    {
      out[i * 2] := HEX_DIGITS[b[i] / 16];
      out[i * 2 + 1] := HEX_DIGITS[b[i] % 16];
      i := i + 1;
    }
    if |b| > 0 {
      forall k | 0 <= k < 2 * |b|
        ensures |HexOf(b)| == 2 * |b| && out[k] == HexOf(b)[k]
      {
        HexAt(b, k / 2);
      }
    }
    s := out[..];
  }

  // ---------- Decimal ----------

  const DIGITS: string := "0123456789"

  function DigitsOf(n: nat): string {
    if n < 10 then [DIGITS[n]] else DigitsOf(n / 10) + [DIGITS[n % 10]]
  }

  function DecimalOf(n: int): string {
    if n < 0 then "-" + DigitsOf(-n) else DigitsOf(n)
  }

  function ParseDigits(s: string): int {
    if s == "" then 0 else 10 * ParseDigits(s[..|s| - 1]) + (s[|s| - 1] as int - '0' as int)
  }

  function ParseDecimal(s: string): int {
    if s != "" && s[0] == '-' then -ParseDigits(s[1..]) else ParseDigits(s)
  }

  // The digit string reads back as n and holds only digits.
  predicate DigitsInvert(n: nat) {
    var s := DigitsOf(n);
    ParseDigits(s) == n && |s| > 0 && forall i | 0 <= i < |s| :: '0' <= s[i] <= '9'
  }

  lemma DigitValue(d: int)
    requires 0 <= d < 10
    ensures DIGITS[d] as int - '0' as int == d && '0' <= DIGITS[d] <= '9'
  {
    var digits := "0123456789";
    assert digits[d] == '0' + d as char;
  }

  lemma {:induction false} DigitsRoundTrip(n: nat)
    ensures DigitsInvert(n)
  {
    DigitValue(n % 10);
    if n < 10 {
      assert ParseDigits("") == 0;
    } else {
      DigitsRoundTrip(n / 10);
      assert DigitsOf(n)[..|DigitsOf(n)| - 1] == DigitsOf(n / 10);
    }
  }

  lemma DecimalRoundTrip(n: int)
    ensures ParseDecimal(DecimalOf(n)) == n && '|' !in DecimalOf(n)
  {
    DigitsRoundTrip(if n < 0 then -n else n);
  }

  // ---------- The signed message ----------

  const STH_PREFIX: string := "fp.sth.v1|"

  function SignedSTHBytes(treeSize: int, root: Bytes, timestampMS: int): string {
    STH_PREFIX + DecimalOf(treeSize) + "|" + HexOf(root) + "|" + DecimalOf(timestampMS)
  }

  // The text before the first bar, and the text after it.
  function CutAtBar(s: string): (string, string) {
    if s == "" then ("", "")
    else if s[0] == '|' then ("", s[1..])
    else var (head, tail) := CutAtBar(s[1..]); ([s[0]] + head, tail)
  }

  lemma {:induction false} CutIsUnique(head: string, tail: string)
    requires '|' !in head
    ensures CutAtBar(head + "|" + tail) == (head, tail)
  {
    var s := head + "|" + tail;
    if head == "" {
      assert s[0] == '|' && s[1..] == tail;
    } else {
      CutIsUnique(head[1..], tail);
      assert s[0] == head[0] && s[1..] == head[1..] + "|" + tail;
      assert head == [head[0]] + head[1..] && head[0] in head;
    }
  }

  function ParseSTH(s: string): Option<(int, Bytes, int)> {
    if !(STH_PREFIX <= s) then None else
    var (size, rest) := CutAtBar(s[|STH_PREFIX|..]);
    var (root, ms) := CutAtBar(rest);
    match UnHex(root)
    case None => None
    case Some(bytes) => Some((ParseDecimal(size), bytes, ParseDecimal(ms)))
  }

  lemma PartsParse(size: string, hex: string, ms: string)
    requires '|' !in size && '|' !in hex && UnHex(hex).Some?
    ensures ParseSTH(STH_PREFIX + (size + "|" + (hex + "|" + ms)))
      == Some((ParseDecimal(size), UnHex(hex).value, ParseDecimal(ms)))
  {
    var parts := size + "|" + (hex + "|" + ms);
    assert (STH_PREFIX + parts)[|STH_PREFIX|..] == parts;
    CutIsUnique(size, hex + "|" + ms);
    CutIsUnique(hex, ms);
  }

  lemma SignedSTHRoundTrip(treeSize: int, root: Bytes, timestampMS: int)
    ensures ParseSTH(SignedSTHBytes(treeSize, root, timestampMS)) == Some((treeSize, root, timestampMS))
  {
    var size, hex, ms := DecimalOf(treeSize), HexOf(root), DecimalOf(timestampMS);
    DecimalRoundTrip(treeSize);
    DecimalRoundTrip(timestampMS);
    HexRoundTrip(root);
    assert SignedSTHBytes(treeSize, root, timestampMS) == STH_PREFIX + (size + "|" + (hex + "|" + ms));
    PartsParse(size, hex, ms);
  }

  // One signature covers one tree head: the signed bytes determine size, root and time.
  lemma SignedSTHInjective(size1: int, root1: Bytes, ms1: int, size2: int, root2: Bytes, ms2: int)
    ensures SignedSTHBytes(size1, root1, ms1) == SignedSTHBytes(size2, root2, ms2)
       <==> size1 == size2 && root1 == root2 && ms1 == ms2
  {
    SignedSTHRoundTrip(size1, root1, ms1);
    SignedSTHRoundTrip(size2, root2, ms2);
  }

  lemma HexLooksLike()
    ensures HexOf([0xab, 0x07]) == "ab07"
  {
    assert [0xab as byte, 0x07][1..] == [0x07];
    assert HexOf([0x07]) == "07";
  }

  // The format, on one head.
  lemma SignedSTHLooksLike()
    ensures SignedSTHBytes(12, [0xab, 0x07], -5) == "fp.sth.v1|12|ab07|-5"
  {
    HexLooksLike();
    assert DecimalOf(12) == "12" && DecimalOf(-5) == "-5";
  }

  // ---------- The message as bytes ----------

  predicate Ascii(s: string) {
    forall i :: 0 <= i < |s| ==> s[i] < 128 as char
  }

  function ToBytes(s: string): (b: Bytes)
    ensures |b| == |s|
  {
    seq(|s|, i requires 0 <= i < |s| => (s[i] as int % 256) as byte)
  }

  lemma ToBytesInjective(s: string, t: string)
    requires Ascii(s) && Ascii(t)
    ensures ToBytes(s) == ToBytes(t) <==> s == t
  {
    if ToBytes(s) == ToBytes(t) {
      forall i | 0 <= i < |s|
        ensures s[i] == t[i]
      {
        assert ToBytes(s)[i] == ToBytes(t)[i];
      }
    }
  }

  lemma {:induction false} HexAscii(b: Bytes)
    ensures Ascii(HexOf(b))
  {
    if b != [] {
      HexAscii(b[1..]);
      HexDigitAscii((b[0] / 16) as int);
      HexDigitAscii((b[0] % 16) as int);
    }
  }

  lemma HexDigitAscii(d: int)
    requires 0 <= d < 16
    ensures HEX_DIGITS[d] < 128 as char
  {
    HexDigitValue(d);
  }

  lemma {:induction false} DigitsAscii(n: nat)
    ensures Ascii(DigitsOf(n))
  {
    if n >= 10 {
      DigitsAscii(n / 10);
    }
  }

  lemma AsciiJoin(s: string, t: string)
    requires Ascii(s) && Ascii(t)
    ensures Ascii(s + t)
  {
  }

  lemma DecimalAscii(n: int)
    ensures Ascii(DecimalOf(n))
  {
    DigitsAscii(if n < 0 then -n else n);
  }

  lemma SignedSTHAscii(treeSize: int, root: Bytes, timestampMS: int)
    ensures Ascii(SignedSTHBytes(treeSize, root, timestampMS))
  {
    var (size, hex, ms) := (DecimalOf(treeSize), HexOf(root), DecimalOf(timestampMS));
    DecimalAscii(treeSize);
    HexAscii(root);
    DecimalAscii(timestampMS);
    AsciiJoin(STH_PREFIX, size);
    AsciiJoin(STH_PREFIX + size, "|");
    AsciiJoin(STH_PREFIX + size + "|", hex);
    AsciiJoin(STH_PREFIX + size + "|" + hex, "|");
    AsciiJoin(STH_PREFIX + size + "|" + hex + "|", ms);
  }

  // Of the bytes that are signed: equal exactly for equal heads.
  lemma SignedBytesInjective(size1: int, root1: Bytes, ms1: int, size2: int, root2: Bytes, ms2: int)
    ensures ToBytes(SignedSTHBytes(size1, root1, ms1)) == ToBytes(SignedSTHBytes(size2, root2, ms2))
       <==> size1 == size2 && root1 == root2 && ms1 == ms2
  {
    SignedSTHAscii(size1, root1, ms1);
    SignedSTHAscii(size2, root2, ms2);
    ToBytesInjective(SignedSTHBytes(size1, root1, ms1), SignedSTHBytes(size2, root2, ms2));
    SignedSTHInjective(size1, root1, ms1, size2, root2, ms2);
  }
}
