/** base64url without padding over the browser's `btoa` and `atob` (apps/web/middleware.ts);
    section 5 of RFC 4648. */
module Base64Url {
  import opened Common

  type Sextet = n: int | 0 <= n < 64

  function SextetChar(n: Sextet): char {
    if n < 26 then 'A' + (n as char)
    else if n < 52 then 'a' + ((n - 26) as char)
    else if n < 62 then '0' + ((n - 52) as char)
    else if n == 62 then '+' else '/'
  }

  function CharSextet(c: char): Option<Sextet> {
    if 'A' <= c <= 'Z' then Some((c - 'A') as int)
    else if 'a' <= c <= 'z' then Some((c - 'a') as int + 26)
    else if '0' <= c <= '9' then Some((c - '0') as int + 52)
    else if c == '+' then Some(62)
    else if c == '/' then Some(63)
    else None
  }

  /** The sextets of the bytes, the last group filled with zero bits. */
  function Sextets(bytes: seq<Byte>): (s: seq<Sextet>)
    ensures |s| % 4 != 1
  {
    if |bytes| == 0 then []
    else if |bytes| == 1 then [bytes[0] / 4, bytes[0] % 4 * 16]
    else if |bytes| == 2 then [bytes[0] / 4, bytes[0] % 4 * 16 + bytes[1] / 16, bytes[1] % 16 * 4]
    else
      [bytes[0] / 4, bytes[0] % 4 * 16 + bytes[1] / 16, bytes[1] % 16 * 4 + bytes[2] / 64, bytes[2] % 64]
      + Sextets(bytes[3..])
  }

  function FirstByte(a: Sextet, b: Sextet): Byte { a as int * 4 + b as int / 16 }
  function SecondByte(b: Sextet, c: Sextet): Byte { b as int % 16 * 16 + c as int / 4 }
  function ThirdByte(c: Sextet, d: Sextet): Byte { c as int % 4 * 64 + d as int }

  /** The bytes of complete groups; bits left over in the last group are dropped. */
  function BytesOf(s: seq<Sextet>): seq<Byte>
    requires |s| % 4 != 1
  {
    if |s| == 0 then []
    else if |s| == 2 then [FirstByte(s[0], s[1])]
    else if |s| == 3 then [FirstByte(s[0], s[1]), SecondByte(s[1], s[2])]
    else [FirstByte(s[0], s[1]), SecondByte(s[1], s[2]), ThirdByte(s[2], s[3])] + BytesOf(s[4..])
  }

  function Chars(s: seq<Sextet>): (r: string)
    ensures |r| == |s| && forall i | 0 <= i < |s| :: r[i] == SextetChar(s[i])
  {
    seq(|s|, i requires 0 <= i < |s| => SextetChar(s[i]))
  }

  function Pads(n: nat): string {
    seq(n, _ => '=')
  }

  /** Characters up to the next multiple of four. */
  function PadCount(length: nat): (n: nat)
    ensures n < 4 && (length + n) % 4 == 0
  {
    (4 - length % 4) % 4
  }

  /** `btoa`. */
  function Btoa(bytes: seq<Byte>): string {
    Chars(Sextets(bytes)) + Pads(PadCount(|Sextets(bytes)|))
  }

  function AsciiSpace(c: char): bool {
    c == '\t' || c == '\n' || c == '\U{000C}' || c == '\r' || c == ' '
  }

  function RemoveSpaces(s: string): string {
    if s == "" then "" else (if AsciiSpace(s[0]) then "" else [s[0]]) + RemoveSpaces(s[1..])
  }

  /** Drops one or two trailing pad characters of a text whose length is a multiple of four. */
  function DropPads(s: string): string {
    if |s| % 4 != 0 || s == "" || s[|s| - 1] != '=' then s
    else if s[|s| - 2] == '=' then s[..|s| - 2]
    else s[..|s| - 1]
  }

  predicate AllSextets(s: string) {
    forall i | 0 <= i < |s| :: CharSextet(s[i]).Some?
  }

  function SextetsOf(s: string): (r: seq<Sextet>)
    requires AllSextets(s)
    ensures |r| == |s|
  {
    seq(|s|, i requires 0 <= i < |s| => CharSextet(s[i]).value)
  }

  /** `atob`: forgiving base64 decoding; None where it throws. */
  function Atob(s: string): Option<seq<Byte>> {
    var t := DropPads(RemoveSpaces(s));
    if |t| % 4 == 1 || !AllSextets(t) then None else Some(BytesOf(SextetsOf(t)))
  }

  function Replace(s: string, a: char, b: char): (r: string)
    ensures |r| == |s| && forall i | 0 <= i < |s| :: r[i] == if s[i] == a then b else s[i]
  {
    seq(|s|, i requires 0 <= i < |s| => if s[i] == a then b else s[i])
  }

  function StripPads(s: string): string {
    if s != "" && s[|s| - 1] == '=' then StripPads(s[..|s| - 1]) else s
  }

  function Base64UrlEncode(bytes: seq<Byte>): string {
    StripPads(Replace(Replace(Btoa(bytes), '+', '-'), '/', '_'))
  }

  function Base64UrlDecode(s: string): Option<seq<Byte>> {
    var standard := Replace(Replace(s, '-', '+'), '_', '/');
    Atob(standard + Pads(PadCount(|standard|)))
  }

  /** The loop that copies the bytes into a binary string before `btoa`. */
  method Base64UrlEncodeLoop(bytes: seq<Byte>) returns (r: string)
    ensures r == Base64UrlEncode(bytes)
  {
    var binary: seq<Byte> := [];
    for i := 0 to |bytes|
      invariant binary == bytes[..i]
    {
      binary := binary + [bytes[i]];
    }
    assert binary == bytes;
    r := StripPads(Replace(Replace(Btoa(binary), '+', '-'), '/', '_'));
  }

  // ----- Round trip -----

  predicate UrlChar(c: char) {
    'A' <= c <= 'Z' || 'a' <= c <= 'z' || '0' <= c <= '9' || c == '-' || c == '_'
  }

  function UrlSextetChar(n: Sextet): char {
    if n == 62 then '-' else if n == 63 then '_' else SextetChar(n)
  }

  function UrlChars(s: seq<Sextet>): (r: string)
    ensures |r| == |s| && forall i | 0 <= i < |s| :: r[i] == UrlSextetChar(s[i])
  {
    seq(|s|, i requires 0 <= i < |s| => UrlSextetChar(s[i]))
  }

  lemma SextetCharFacts(n: Sextet)
    ensures CharSextet(SextetChar(n)) == Some(n)
    ensures UrlChar(UrlSextetChar(n)) && SextetChar(n) != '=' && !AsciiSpace(SextetChar(n))
    ensures UrlSextetChar(n) == if SextetChar(n) == '+' then '-' else if SextetChar(n) == '/' then '_' else SextetChar(n)
  {
  }

  lemma {:induction false} StripPadsOf(s: string, n: nat)
    requires s == "" || s[|s| - 1] != '='
    ensures StripPads(s + Pads(n)) == s
  {
    if n == 0 {
      assert s + Pads(0) == s;
    } else {
      var t := s + Pads(n);
      assert t[|t| - 1] == '=' && t[..|t| - 1] == s + Pads(n - 1);
      StripPadsOf(s, n - 1);
    }
  }

  /** The encoded text is the URL alphabet form of the sextets, without padding. */
  lemma EncodeIsUrlChars(bytes: seq<Byte>)
    ensures Base64UrlEncode(bytes) == UrlChars(Sextets(bytes))
    ensures forall i | 0 <= i < |Base64UrlEncode(bytes)| :: UrlChar(Base64UrlEncode(bytes)[i])
  {
    var s := Sextets(bytes);
    forall n: Sextet ensures UrlChar(UrlSextetChar(n)) && SextetChar(n) != '=' { SextetCharFacts(n); }
    var url := Replace(Replace(Btoa(bytes), '+', '-'), '/', '_');
    assert url == UrlChars(s) + Pads(PadCount(|s|));
    StripPadsOf(UrlChars(s), PadCount(|s|));
  }

  lemma {:induction false} RemoveSpacesNone(s: string)
    requires forall i | 0 <= i < |s| :: !AsciiSpace(s[i])
    ensures RemoveSpaces(s) == s
  {
    if s != "" { RemoveSpacesNone(s[1..]); }
  }

  lemma DropRestoredPads(s: string)
    requires |s| % 4 != 1 && (s == "" || s[|s| - 1] != '=')
    ensures DropPads(s + Pads(PadCount(|s|))) == s
  {
    var n := PadCount(|s|);
    var t := s + Pads(n);
    assert n <= 2 && t[..|s|] == s;
  }

  lemma GroupBytes(a: Byte, b: Byte, c: Byte)
    ensures FirstByte(a / 4, a % 4 * 16 + b / 16) == a
    ensures SecondByte(a % 4 * 16 + b / 16, b % 16 * 4 + c / 64) == b
    ensures ThirdByte(b % 16 * 4 + c / 64, c % 64) == c
  {
  }

  lemma {:induction false} BytesOfSextets(bytes: seq<Byte>)
    ensures BytesOf(Sextets(bytes)) == bytes
  {
    hide FirstByte, SecondByte, ThirdByte;
    if |bytes| == 1 {
      GroupBytes(bytes[0], 0, 0);
    } else if |bytes| == 2 {
      GroupBytes(bytes[0], bytes[1], 0);
    } else if |bytes| >= 3 {
      GroupBytes(bytes[0], bytes[1], bytes[2]);
      BytesOfSextets(bytes[3..]);
      assert Sextets(bytes)[4..] == Sextets(bytes[3..]);
      assert bytes == [bytes[0], bytes[1], bytes[2]] + bytes[3..];
    }
  }

  /** Decoding inverts encoding on every byte string. */
  lemma DecodeEncode(bytes: seq<Byte>)
    ensures Base64UrlDecode(Base64UrlEncode(bytes)) == Some(bytes)
  {
    var s := Sextets(bytes);
    EncodeIsUrlChars(bytes);
    forall n: Sextet
      ensures CharSextet(SextetChar(n)) == Some(n) && SextetChar(n) != '=' && !AsciiSpace(SextetChar(n))
    {
      SextetCharFacts(n);
    }
    var standard := Replace(Replace(UrlChars(s), '-', '+'), '_', '/');
    assert standard == Chars(s);
    RemoveSpacesNone(standard + Pads(PadCount(|s|)));
    DropRestoredPads(standard);
    assert SextetsOf(standard) == s;
    BytesOfSextets(bytes);
  }

  /** The encoded alphabet has no dot, and only the empty text encodes to the empty text. */
  lemma EncodeHasNoDot(bytes: seq<Byte>)
    ensures '.' !in Base64UrlEncode(bytes) && (Base64UrlEncode(bytes) == "" <==> bytes == [])
  {
    EncodeIsUrlChars(bytes);
  }

  // ----- The code itself -----

  /** The URL and filename safe alphabet, table 2 of RFC 4648: its three ranges, each in order, and its
      two signs. */
  lemma AlphabetTable(n: Sextet)
    ensures UrlSextetChar(0) == 'A' && UrlSextetChar(25) == 'Z' && UrlSextetChar(26) == 'a' && UrlSextetChar(51) == 'z'
    ensures UrlSextetChar(52) == '0' && UrlSextetChar(61) == '9' && UrlSextetChar(62) == '-' && UrlSextetChar(63) == '_'
    ensures n < 61 && n != 25 && n != 51 ==> UrlSextetChar(n + 1) as int == UrlSextetChar(n) as int + 1
  {
  }

  /** A group of three bytes is written as the four base-64 digits of its 24-bit value. */
  lemma GroupDigits(bytes: seq<Byte>, a: Byte, b: Byte, c: Byte)
    ensures var v: nat := a * 65536 + b * 256 + c;
      Base64UrlEncode([a, b, c] + bytes)
      == [UrlSextetChar(v / 262144), UrlSextetChar(v / 4096 % 64), UrlSextetChar(v / 64 % 64), UrlSextetChar(v % 64)] + Base64UrlEncode(bytes)
  {
    var all := [a, b, c] + bytes;
    EncodeIsUrlChars(all);
    EncodeIsUrlChars(bytes);
    GroupArithmetic(a, b, c);
    hide Base64UrlEncode, UrlSextetChar;
    GroupSextets(bytes, a, b, c);
    var four := [a / 4, a % 4 * 16 + b / 16, b % 16 * 4 + c / 64, c % 64];
    UrlCharsConcat(four, Sextets(bytes));
  }

  lemma GroupSextets(bytes: seq<Byte>, a: Byte, b: Byte, c: Byte)
    ensures Sextets([a, b, c] + bytes) == [a / 4, a % 4 * 16 + b / 16, b % 16 * 4 + c / 64, c % 64] + Sextets(bytes)
  {
    assert ([a, b, c] + bytes)[3..] == bytes;
  }

  lemma UrlCharsConcat(s: seq<Sextet>, t: seq<Sextet>)
    ensures UrlChars(s + t) == UrlChars(s) + UrlChars(t)
  {
  }

  /** A last group of two or one bytes is written as its first three or two digits, with zero bits
      behind. */
  lemma LastGroupDigits(a: Byte, b: Byte)
    ensures var v: nat := a * 65536 + b * 256;
      Base64UrlEncode([a, b]) == [UrlSextetChar(v / 262144), UrlSextetChar(v / 4096 % 64), UrlSextetChar(v / 64 % 64)]
    ensures var v: nat := a * 65536;
      Base64UrlEncode([a]) == [UrlSextetChar(v / 262144), UrlSextetChar(v / 4096 % 64)]
    ensures Base64UrlEncode([]) == ""
  {
    hide *;
    LastArithmetic(a, b);
    LastArithmetic(a, 0);
    OneByte(a);
    TwoBytes(a, b);
    NoBytes();
  }

  lemma LastArithmetic(a: Byte, b: Byte)
    ensures var v: nat := a * 65536 + b * 256;
      && v / 262144 == a / 4 < 64 && v / 4096 % 64 == a % 4 * 16 + b / 16
      && v / 64 % 64 == b % 16 * 4 && (b == 0 ==> b / 16 == 0 && v == a * 65536)
  {
    GroupArithmetic(a, b, 0);
  }

  lemma NoBytes()
    ensures Base64UrlEncode([]) == ""
  {
    EncodeIsUrlChars([]);
  }

  lemma OneByte(a: Byte)
    ensures Base64UrlEncode([a]) == [UrlSextetChar(a / 4), UrlSextetChar(a % 4 * 16)]
  {
    EncodeIsUrlChars([a]);
    hide Base64UrlEncode, UrlSextetChar;
    assert Sextets([a]) == [a / 4, a % 4 * 16];
  }

  lemma TwoBytes(a: Byte, b: Byte)
    ensures Base64UrlEncode([a, b]) == [UrlSextetChar(a / 4), UrlSextetChar(a % 4 * 16 + b / 16), UrlSextetChar(b % 16 * 4)]
  {
    EncodeIsUrlChars([a, b]);
    hide Base64UrlEncode, UrlSextetChar;
    assert Sextets([a, b]) == [a / 4, a % 4 * 16 + b / 16, b % 16 * 4];
  }

  lemma GroupArithmetic(a: Byte, b: Byte, c: Byte)
    ensures var v: nat := a * 65536 + b * 256 + c;
      && v / 262144 == a / 4 && v / 4096 % 64 == a % 4 * 16 + b / 16
      && v / 64 % 64 == b % 16 * 4 + c / 64 && v % 64 == c % 64
  {
    var v: nat := a * 65536 + b * 256 + c;
    assert v / 4096 == a * 16 + b / 16;
    assert v / 64 == a * 1024 + b * 4 + c / 64;
  }
}
