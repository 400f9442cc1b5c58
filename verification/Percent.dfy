/** Percent-encoding of UTF-8 bytes with no safe characters (`urllib.parse.quote(p, safe="")` and
    `unquote`), as in sections 2.1 and 2.3 of RFC 3986. */
module Percent {
  import opened Common

  const SLASH: Byte := 0x2F
  const PERCENT: Byte := 0x25

  /** Letters, digits, `-`, `.`, `_` and `~`. */
  predicate Unreserved(b: Byte) {
    0x41 <= b <= 0x5A || 0x61 <= b <= 0x7A || 0x30 <= b <= 0x39 || b == 0x2D || b == 0x2E || b == 0x5F || b == 0x7E
  }

  function HexDigit(n: int): Byte
    requires 0 <= n < 16
  {
    if n < 10 then 0x30 + n else 0x41 + (n - 10)
  }

  /** The value of a hexadecimal digit of either case, -1 for another byte. */
  function HexValue(b: Byte): (n: int)
    ensures -1 <= n < 16
  {
    if 0x30 <= b <= 0x39 then b - 0x30
    else if 0x41 <= b <= 0x46 then b - 0x41 + 10
    else if 0x61 <= b <= 0x66 then b - 0x61 + 10
    else -1
  }

  function QuoteByte(b: Byte): (r: seq<Byte>)
    ensures r != []
  {
    if Unreserved(b) then [b] else [PERCENT, HexDigit(b / 16), HexDigit(b % 16)]
  }

  function Quote(s: seq<Byte>): seq<Byte> {
    if s == [] then [] else QuoteByte(s[0]) + Quote(s[1..])
  }

  predicate EscapeAtFront(s: seq<Byte>) {
    |s| >= 3 && s[0] == PERCENT && HexValue(s[1]) >= 0 && HexValue(s[2]) >= 0
  }

  /** Replaces every escape by its byte and leaves everything else alone, also a stray `%`. */
  function Unquote(s: seq<Byte>): seq<Byte>
    decreases |s|
  {
    if s == [] then []
    else if EscapeAtFront(s) then [HexValue(s[1]) * 16 + HexValue(s[2])] + Unquote(s[3..])
    else [s[0]] + Unquote(s[1..])
  }

  lemma HexRoundTrip(n: int)
    requires 0 <= n < 16
    ensures HexValue(HexDigit(n)) == n
  {
  }

  lemma QuoteByteUnquotes(b: Byte, rest: seq<Byte>)
    ensures Unquote(QuoteByte(b) + rest) == [b] + Unquote(rest)
  {
    var s := QuoteByte(b) + rest;
    if Unreserved(b) {
      assert s[1..] == rest;
    } else {
      HexRoundTrip(b / 16);
      HexRoundTrip(b % 16);
      assert s[3..] == rest;
    }
  }

  /** Decoding inverts encoding on every byte string. */
  lemma {:induction false} UnquoteQuote(s: seq<Byte>)
    ensures Unquote(Quote(s)) == s
  {
    if s != [] {
      QuoteByteUnquotes(s[0], Quote(s[1..]));
      UnquoteQuote(s[1..]);
    }
  }

  /** Encoding is injective. */
  lemma QuoteInjective(a: seq<Byte>, b: seq<Byte>)
    requires Quote(a) == Quote(b)
    ensures a == b
  {
    UnquoteQuote(a);
    UnquoteQuote(b);
  }

  /** An encoded text has no slash and is empty only for the empty text. */
  lemma {:induction false} QuoteSlashFree(s: seq<Byte>)
    ensures SLASH !in Quote(s) && (Quote(s) == [] <==> s == [])
  {
    if s != [] { QuoteSlashFree(s[1..]); }
  }

  lemma {:induction false} UnquoteNonEmpty(s: seq<Byte>)
    ensures Unquote(s) == [] <==> s == []
  {
  }

  lemma {:induction false} QuoteConcat(a: seq<Byte>, b: seq<Byte>)
    ensures Quote(a + b) == Quote(a) + Quote(b)
  {
    if a == [] {
      assert a + b == b;
    } else {
      assert (a + b)[1..] == a[1..] + b;
      QuoteConcat(a[1..], b);
    }
  }

  /** The texts the encoder produces: unreserved bytes, and upper-case escapes of other bytes. */
  predicate Canonical(s: seq<Byte>)
    decreases |s|
  {
    s == []
    || (Unreserved(s[0]) && Canonical(s[1..]))
    || (EscapeAtFront(s)
        && !Unreserved(HexValue(s[1]) * 16 + HexValue(s[2]))
        && s[1] == HexDigit(HexValue(s[1])) && s[2] == HexDigit(HexValue(s[2]))
        && Canonical(s[3..]))
  }

  /** Encoding inverts decoding exactly on the canonical texts. */
  lemma {:induction false} QuoteUnquoteExactly(s: seq<Byte>)
    ensures Quote(Unquote(s)) == s <==> Canonical(s)
    decreases |s|
  {
    if s != [] {
      var n := if EscapeAtFront(s) then 3 else 1;
      var b: Byte := if EscapeAtFront(s) then HexValue(s[1]) * 16 + HexValue(s[2]) else s[0];
      assert Unquote(s) == [b] + Unquote(s[n..]);
      assert Quote(Unquote(s)) == QuoteByte(b) + Quote(Unquote(s[n..]));
      QuoteUnquoteExactly(s[n..]);
      assert s == s[..n] + s[n..];
      if EscapeAtFront(s) {
        var hi, lo := HexValue(s[1]), HexValue(s[2]);
        assert b / 16 == hi && b % 16 == lo;
        if Unreserved(b) {
          SameTail(QuoteByte(b), Unquote(s[n..]), s);
        }
      }
    }
  }

  lemma SameTail(front: seq<Byte>, decoded: seq<Byte>, s: seq<Byte>)
    requires s != [] && EscapeAtFront(s) && |front| == 1 && Unreserved(front[0])
    ensures front + Quote(decoded) != s
  {
    assert (front + Quote(decoded))[0] == front[0];
  }

  // ----- Byte by byte -----

  const HEX_DIGITS := "0123456789ABCDEF"
  const SMALL_HEX_DIGITS := "0123456789abcdef"

  predicate Kept(c: char) {
    || c in "ABCDEFGHIJKLMNOPQRSTUVWXYZ" || c in "abcdefghijklmnopqrstuvwxyz" || c in "0123456789" || c in "-._~"
  }

  lemma LettersAreKept(b: Byte)
    ensures (b as char) in "ABCDEFGHIJKLMNOPQRSTUVWXYZ" <==> 0x41 <= b <= 0x5A
    ensures (b as char) in "abcdefghijklmnopqrstuvwxyz" <==> 0x61 <= b <= 0x7A
  {
  }

  lemma SignsAreKept(b: Byte)
    ensures (b as char) in "0123456789" <==> 0x30 <= b <= 0x39
    ensures (b as char) in "-._~" <==> b == 0x2D || b == 0x2E || b == 0x5F || b == 0x7E
  {
  }

  /** Letters, digits and four signs stand for themselves; every other byte becomes a percent sign and
      two capital hexadecimal digits. */
  lemma EncodesByte(b: Byte)
    ensures Quote([b]) == if Kept(b as char) then [b]
                          else ['%' as int, HEX_DIGITS[b / 16] as int, HEX_DIGITS[b % 16] as int]
  {
    LettersAreKept(b);
    SignsAreKept(b);
    HexDigitExactly(b / 16);
    HexDigitExactly(b % 16);
    assert [b][1..] == [];
    assert Quote([b]) == QuoteByte(b) + [];
  }

  lemma HexDigitExactly(n: nat)
    requires n < 16
    ensures HexDigit(n) == HEX_DIGITS[n] as int
    ensures HexValue(HEX_DIGITS[n] as int) == n && HexValue(SMALL_HEX_DIGITS[n] as int) == n
  {
  }

  predicate IsHex(b: Byte) {
    (b as char) in HEX_DIGITS || (b as char) in SMALL_HEX_DIGITS
  }

  lemma HexValueExactly(b: Byte)
    ensures HexValue(b) >= 0 <==> IsHex(b)
  {
  }

  /** A percent sign with two hexadecimal digits of either case stands for a byte, anything else for
      itself. */
  lemma DecodesByte(hi: nat, lo: nat, x: Byte, y: Byte, rest: seq<Byte>)
    requires hi < 16 && lo < 16
    requires x == HEX_DIGITS[hi] as int || x == SMALL_HEX_DIGITS[hi] as int
    requires y == HEX_DIGITS[lo] as int || y == SMALL_HEX_DIGITS[lo] as int
    ensures Unquote(['%' as int, x, y] + rest) == [hi * 16 + lo] + Unquote(rest)
  {
    HexDigitExactly(hi);
    HexDigitExactly(lo);
    assert (['%' as int, x, y] + rest)[3..] == rest;
  }

  lemma DecodesOther(s: seq<Byte>)
    requires s != [] && !(|s| >= 3 && s[0] == '%' as int && IsHex(s[1]) && IsHex(s[2]))
    ensures Unquote(s) == [s[0]] + Unquote(s[1..])
  {
    if |s| >= 3 {
      HexValueExactly(s[1]);
      HexValueExactly(s[2]);
    }
  }
}
