/** The session cookie of the web middleware (apps/web/middleware.ts). */
module Session {
  import opened Common
  import opened Base64Url

  const MAX_AGE_SECONDS: nat := 60 * 60 * 12

  // ----- Constant-time comparison -----

  /** Bitwise exclusive or and inclusive or of non-negative integers. */
  function Xor(x: nat, y: nat): nat {
    if x == 0 && y == 0 then 0 else (if x % 2 == y % 2 then 0 else 1) + 2 * Xor(x / 2, y / 2)
  }

  function Or(x: nat, y: nat): nat {
    if x == 0 && y == 0 then 0 else (if x % 2 == 0 && y % 2 == 0 then 0 else 1) + 2 * Or(x / 2, y / 2)
  }

  lemma {:induction false} XorZero(x: nat, y: nat)
    ensures Xor(x, y) == 0 <==> x == y
  {
    if x != 0 || y != 0 { XorZero(x / 2, y / 2); }
  }

  lemma {:induction false} OrZero(x: nat, y: nat)
    ensures Or(x, y) == 0 <==> x == 0 && y == 0
  {
    if x != 0 || y != 0 { OrZero(x / 2, y / 2); }
  }

  /** A code unit as the loop reads it: past the end it counts as zero. */
  function Unit(s: string, i: nat): nat {
    if i < |s| then s[i] as int else 0
  }

  /** The accumulating loop compares two strings exactly. Lengths are below the range where 32-bit
      operators would change them. */
  method ConstantTimeEqual(a: string, b: string) returns (equal: bool)
    requires |a| < 0x8000_0000 && |b| < 0x8000_0000
    ensures equal <==> a == b
  {
    var max := if |a| > |b| then |a| else |b|;
    var diff := Xor(|a|, |b|);
    XorZero(|a|, |b|);
    for i := 0 to max
      invariant diff == 0 <==> |a| == |b| && forall k | 0 <= k < i :: k < |a| && a[k] == b[k]
    {
      XorZero(Unit(a, i), Unit(b, i));
      OrZero(diff, Xor(Unit(a, i), Unit(b, i)));
      diff := Or(diff, Xor(Unit(a, i), Unit(b, i)));
    }
    equal := diff == 0;
  }

  // ----- Issuing and checking -----

  /** The parsed payload; `exp` is present when it is a finite number. */
  datatype Body = Body(user: Option<string>, exp: Option<real>)

  /** The deployment: HMAC-SHA-256 of a message under a secret, the JSON codec on UTF-8 bytes, and
      the optional cookie secret of the environment. */
  datatype Deployment = Deployment(
    hmac: (string, string) -> seq<Byte>,
    stringify: (int, string) -> seq<Byte>,
    parse: seq<Byte> -> Option<Body>,
    cookieSecret: string)
  {
    /** A MAC is never empty, and a payload is non-empty JSON that parses back. */
    ghost predicate Valid() {
      && (forall m, k :: hmac(m, k) != [])
      && (forall exp, user :: stringify(exp, user) != [])
      && (forall exp, user :: parse(stringify(exp, user)) == Some(Body(Some(user), Some(exp as real))))
    }

    function SessionSecret(user: string, password: string): string {
      if cookieSecret != "" then cookieSecret else user + ":" + password
    }

    function Sign(payload: string, user: string, password: string): string {
      Base64UrlEncode(hmac(payload, SessionSecret(user, password)))
    }

    function IssueSessionCookie(user: string, password: string, nowMs: nat): string {
      var payload := Base64UrlEncode(stringify(nowMs / 1000 + MAX_AGE_SECONDS, user));
      payload + "." + Sign(payload, user, password)
    }

    function HasValidSessionCookie(cookie: Option<string>, user: string, password: string, nowMs: nat): bool {
      if cookie.None? || cookie.value == "" then false
      else
        var parts := SplitDots(cookie.value);
        if |parts| != 2 || parts[0] == "" || parts[1] == "" then false
        else if parts[1] != Sign(parts[0], user, password) then false
        else
          var decoded := Base64UrlDecode(parts[0]);
          if decoded.None? || decoded.value == [] then false
          else
            match parse(decoded.value)
            case None => false
            case Some(body) => body.user == Some(user) && body.exp.Some? && body.exp.value > (nowMs / 1000) as real
    }
  }

  function DotIndex(s: string): (n: nat)
    ensures n <= |s| && '.' !in s[..n] && (n < |s| ==> s[n] == '.')
  {
    if s == "" || s[0] == '.' then 0 else 1 + DotIndex(s[1..])
  }

  /** `split(".")`. */
  function SplitDots(s: string): (parts: seq<string>)
    ensures parts != []
    decreases |s|
  {
    var n := DotIndex(s);
    if n == |s| then [s] else [s[..n]] + SplitDots(s[n + 1..])
  }

  lemma {:induction false} DotIndexOf(a: string, rest: string)
    requires '.' !in a && (rest == "" || rest[0] == '.')
    ensures DotIndex(a + rest) == |a|
  {
    if a == "" {
      assert a + rest == rest;
    } else {
      assert (a + rest)[1..] == a[1..] + rest;
      DotIndexOf(a[1..], rest);
    }
  }

  lemma OnePart(s: string, a: string)
    requires SplitDots(s) == [a]
    ensures s == a && '.' !in a
  {
    assert s[..|s|] == s;
  }

  lemma PartsOfSplit(s: string, a: string, b: string)
    requires SplitDots(s) == [a, b]
    ensures s == a + "." + b && '.' !in a && '.' !in b
  {
    var n := DotIndex(s);
    var rest := s[n + 1..];
    assert SplitDots(s) == [s[..n]] + SplitDots(rest);
    assert [a, b][0] == s[..n] && [a, b][1..] == SplitDots(rest);
    OnePart(rest, b);
    assert s == s[..n] + "." + rest;
  }

  lemma SplitOfParts(a: string, b: string)
    requires '.' !in a && '.' !in b
    ensures SplitDots(a + "." + b) == [a, b]
  {
    var s := a + "." + b;
    assert s == a + ("." + b);
    DotIndexOf(a, "." + b);
    assert s[|a| + 1..] == b && s[..|a|] == a;
    DotIndexOf(b, "");
    assert b + "" == b;
  }

  /** A text splits into two parts exactly when it is those dot-free parts around one dot. */
  lemma TwoParts(s: string, a: string, b: string)
    ensures SplitDots(s) == [a, b] <==> s == a + "." + b && '.' !in a && '.' !in b
  {
    if SplitDots(s) == [a, b] { PartsOfSplit(s, a, b); }
    if '.' !in a && '.' !in b { SplitOfParts(a, b); }
  }

  /** The signature of a payload: its MAC under the configured secret, or under the credentials. */
  function Signature(d: Deployment, payload: string, user: string, password: string): string {
    Base64UrlEncode(d.hmac(payload, if d.cookieSecret == "" then user + ":" + password else d.cookieSecret))
  }

  lemma SignIsSignature(d: Deployment, payload: string, user: string, password: string)
    ensures d.Sign(payload, user, password) == Signature(d, payload, user, password)
  {
  }

  /** Exactly which cookies are accepted: one dot, the MAC of the payload behind it, and a payload that
      decodes to an unexpired body of this user. Anything else is refused. */
  lemma AcceptedExactly(d: Deployment, cookie: string, user: string, password: string, nowMs: nat)
    requires d.Valid()
    ensures d.HasValidSessionCookie(Some(cookie), user, password, nowMs) <==>
            exists payload, body ::
              && cookie == payload + "." + Signature(d, payload, user, password)
              && payload != "" && '.' !in payload
              && Base64UrlDecode(payload).Some? && Base64UrlDecode(payload).value != []
              && d.parse(Base64UrlDecode(payload).value) == Some(body)
              && body.user == Some(user) && body.exp.Some? && body.exp.value > (nowMs / 1000) as real
  {
    forall p ensures d.Sign(p, user, password) == Signature(d, p, user, password) { SignIsSignature(d, p, user, password); }
    if d.HasValidSessionCookie(Some(cookie), user, password, nowMs) {
      var parts := SplitDots(cookie);
      assert parts == [parts[0], parts[1]];
      TwoParts(cookie, parts[0], parts[1]);
      assert d.parse(Base64UrlDecode(parts[0]).value).Some?;
    }
    if payload, body :|
      && cookie == payload + "." + Signature(d, payload, user, password)
      && payload != "" && '.' !in payload
      && Base64UrlDecode(payload).Some? && Base64UrlDecode(payload).value != []
      && d.parse(Base64UrlDecode(payload).value) == Some(body)
      && body.user == Some(user) && body.exp.Some? && body.exp.value > (nowMs / 1000) as real
    {
      SignatureHasNoDot(d, payload, user, password);
      TwoParts(cookie, payload, Signature(d, payload, user, password));
    }
  }

  lemma SignatureHasNoDot(d: Deployment, payload: string, user: string, password: string)
    requires d.Valid()
    ensures Signature(d, payload, user, password) != "" && '.' !in Signature(d, payload, user, password)
  {
    EncodeHasNoDot(d.hmac(payload, if d.cookieSecret == "" then user + ":" + password else d.cookieSecret));
  }

  /** A cookie is not transferable: a payload joined to the signature of another payload is refused
      exactly where the MACs differ. */
  lemma ForgedPayloadIsRefused(d: Deployment, payload: string, signed: string, user: string, password: string, nowMs: nat)
    requires d.Valid() && '.' !in payload
    requires var key := if d.cookieSecret == "" then user + ":" + password else d.cookieSecret;
      d.hmac(payload, key) != d.hmac(signed, key)
    ensures !d.HasValidSessionCookie(Some(payload + "." + Signature(d, signed, user, password)), user, password, nowMs)
  {
    var key := if d.cookieSecret == "" then user + ":" + password else d.cookieSecret;
    SignatureHasNoDot(d, signed, user, password);
    SignIsSignature(d, payload, user, password);
    TwoParts(payload + "." + Signature(d, signed, user, password), payload, Signature(d, signed, user, password));
    DecodeEncode(d.hmac(payload, key));
    DecodeEncode(d.hmac(signed, key));
    hide Base64UrlEncode, Base64UrlDecode, SplitDots;
  }

  /** Without a configured secret the credentials sign: a cookie issued under other credentials whose MAC
      differs is refused. */
  lemma OtherCredentialsAreRefused(d: Deployment, user: string, password: string, other: string, secret: string, issuedMs: nat, nowMs: nat)
    requires d.Valid() && d.cookieSecret == ""
    requires var payload := Base64UrlEncode(d.stringify(issuedMs / 1000 + 43200, user));
      d.hmac(payload, user + ":" + password) != d.hmac(payload, other + ":" + secret)
    ensures !d.HasValidSessionCookie(Some(d.IssueSessionCookie(user, password, issuedMs)), other, secret, nowMs)
  {
    var payload := Base64UrlEncode(d.stringify(issuedMs / 1000 + 43200, user));
    EncodeHasNoDot(d.stringify(issuedMs / 1000 + 43200, user));
    SignIsSignature(d, payload, user, password);
    SignIsSignature(d, payload, other, secret);
    SignatureHasNoDot(d, payload, user, password);
    TwoParts(d.IssueSessionCookie(user, password, issuedMs), payload, Signature(d, payload, user, password));
    DecodeEncode(d.hmac(payload, user + ":" + password));
    DecodeEncode(d.hmac(payload, other + ":" + secret));
    hide Base64UrlEncode, Base64UrlDecode, SplitDots;
  }

  /** An issued cookie, checked with the same credentials, is accepted at exactly the instants before
      its expiry. */
  lemma IssuedCookieAcceptedExactly(d: Deployment, user: string, password: string, issuedMs: nat, nowMs: nat)
    requires d.Valid()
    ensures d.HasValidSessionCookie(Some(d.IssueSessionCookie(user, password, issuedMs)), user, password, nowMs)
            <==> nowMs / 1000 < issuedMs / 1000 + 43200
  {
    var exp := issuedMs / 1000 + MAX_AGE_SECONDS;
    var bytes := d.stringify(exp, user);
    var payload := Base64UrlEncode(bytes);
    DecodeEncode(bytes);
    EncodeHasNoDot(bytes);
    EncodeHasNoDot(d.hmac(payload, d.SessionSecret(user, password)));
    TwoParts(d.IssueSessionCookie(user, password, issuedMs), payload, d.Sign(payload, user, password));
    assert d.parse(bytes) == Some(Body(Some(user), Some(exp as real)));
  }
}
