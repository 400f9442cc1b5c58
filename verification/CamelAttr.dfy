/** The attribute-name codec of dc-runtime: camel-case names survive the lower-casing HTML parser as
    kebab-case ones (LP/assets/9367c065-0eb8-43d7-96aa-cd5bd931f686.js). */
module CamelAttr {

  predicate Upper(c: char) {
    'A' <= c <= 'Z'
  }

  predicate LowerLetter(c: char) {
    'a' <= c <= 'z'
  }

  function ToLower(c: char): (r: char)
    ensures Upper(c) ==> LowerLetter(r) && ToUpper(r) == c
    ensures !Upper(c) ==> r == c
  {
    if Upper(c) then c - 'A' + 'a' else c
  }

  function ToUpper(c: char): (r: char)
    ensures LowerLetter(c) ==> Upper(r)
  {
    if LowerLetter(c) then c - 'a' + 'A' else c
  }

  /** Every capital becomes a dash and its small letter. */
  function Encode(name: string): string {
    if name == "" then ""
    else (if Upper(name[0]) then ['-', ToLower(name[0])] else [name[0]]) + Encode(name[1..])
  }

  function KebabToCamel(s: string): string {
    if |s| >= 2 && s[0] == '-' && LowerLetter(s[1]) then [ToUpper(s[1])] + KebabToCamel(s[2..])
    else if s == "" then ""
    else [s[0]] + KebabToCamel(s[1..])
  }

  /** What the HTML parser does to attribute names. */
  function Lowered(s: string): string {
    seq(|s|, i requires 0 <= i < |s| => ToLower(s[i]))
  }

  /** A dash before a small letter, which decoding would take for an encoded capital. */
  predicate HasKebab(s: string) {
    exists i | 0 <= i < |s| - 1 :: s[i] == '-' && LowerLetter(s[i + 1])
  }

  predicate HasCapital(s: string) {
    exists i | 0 <= i < |s| :: Upper(s[i])
  }

  lemma HasKebabStep(s: string)
    requires s != ""
    ensures HasKebab(s) <==> (|s| >= 2 && s[0] == '-' && LowerLetter(s[1])) || HasKebab(s[1..])
  {
    if i :| 0 <= i < |s| - 1 && s[i] == '-' && LowerLetter(s[i + 1]) {
      if i > 0 { assert s[1..][i - 1] == '-' && LowerLetter(s[1..][i - 1 + 1]); }
    }
    if i :| 0 <= i < |s[1..]| - 1 && s[1..][i] == '-' && LowerLetter(s[1..][i + 1]) {
      assert s[i + 1] == '-' && LowerLetter(s[i + 1 + 1]);
    }
  }

  /** What decoding does to the front of an encoded name. */
  lemma DecodeFront(name: string)
    requires name != "" && !(|name| >= 2 && name[0] == '-' && LowerLetter(name[1]))
    ensures KebabToCamel(Encode(name)) == [name[0]] + KebabToCamel(Encode(name[1..]))
  {
    var rest := Encode(name[1..]);
    if Upper(name[0]) {
      var s := ['-', ToLower(name[0])] + rest;
      assert s[2..] == rest && s[0] == '-' && s[1] == ToLower(name[0]);
    } else {
      var s := [name[0]] + rest;
      assert s[1..] == rest;
      if rest != "" && |name| >= 2 { assert rest[0] == if Upper(name[1]) then '-' else name[1]; }
    }
  }

  lemma DecodeKebab(name: string)
    requires |name| >= 2 && name[0] == '-' && LowerLetter(name[1])
    ensures KebabToCamel(Encode(name)) != name
  {
    var s := Encode(name);
    assert Encode(name[1..])[0] == name[1];
    assert s[0] == '-' && s[1] == name[1];
  }

  /** Decoding inverts encoding exactly on the names without a dash before a small letter. */
  lemma {:induction false} DecodeEncodeExactly(name: string)
    ensures KebabToCamel(Encode(name)) == name <==> !HasKebab(name)
  {
    if name != "" {
      HasKebabStep(name);
      if |name| >= 2 && name[0] == '-' && LowerLetter(name[1]) {
        DecodeKebab(name);
      } else {
        DecodeFront(name);
        DecodeEncodeExactly(name[1..]);
        assert KebabToCamel(Encode(name))[1..] == KebabToCamel(Encode(name[1..]));
      }
    }
  }

  /** Encoding inverts decoding exactly on the texts without a capital. */
  lemma {:induction false} EncodeDecodeExactly(s: string)
    ensures Encode(KebabToCamel(s)) == s <==> !HasCapital(s)
    decreases |s|
  {
    if |s| >= 2 && s[0] == '-' && LowerLetter(s[1]) {
      var rest := KebabToCamel(s[2..]);
      EncodeDecodeExactly(s[2..]);
      assert KebabToCamel(s)[1..] == rest;
      CapitalBack(s[1]);
      assert Encode(KebabToCamel(s)) == ['-', s[1]] + Encode(rest);
      assert Encode(KebabToCamel(s))[2..] == Encode(rest);
      assert s == ['-', s[1]] + s[2..];
    } else if s != "" {
      var rest := KebabToCamel(s[1..]);
      EncodeDecodeExactly(s[1..]);
      assert KebabToCamel(s)[1..] == rest;
      if !Upper(s[0]) {
        assert Encode(KebabToCamel(s)) == [s[0]] + Encode(rest);
        assert Encode(KebabToCamel(s))[1..] == Encode(rest);
        assert s == [s[0]] + s[1..];
      }
    }
  }

  lemma CapitalBack(c: char)
    requires LowerLetter(c)
    ensures ToLower(ToUpper(c)) == c
  {
  }

  lemma {:induction false} EncodedIsLower(name: string)
    ensures Lowered(Encode(name)) == Encode(name)
  {
    if name != "" {
      EncodedIsLower(name[1..]);
      assert forall i | 0 <= i < |Encode(name[1..])| :: ToLower(Encode(name[1..])[i]) == Lowered(Encode(name[1..]))[i];
    }
  }

  /** A camel-case attribute name comes back from the lower-casing parser unchanged; two such names
      are never confused. */
  lemma NamesSurviveTheParser(a: string, b: string)
    requires '-' !in a && '-' !in b
    ensures KebabToCamel(Lowered(Encode(a))) == a
    ensures Lowered(Encode(a)) == Lowered(Encode(b)) ==> a == b
  {
    EncodedIsLower(a);
    EncodedIsLower(b);
    DecodeEncodeExactly(a);
    DecodeEncodeExactly(b);
  }

  // ----- Letter by letter -----

  const CAPITALS := "ABCDEFGHIJKLMNOPQRSTUVWXYZ"
  const SMALL := "abcdefghijklmnopqrstuvwxyz"

  /** Each of the 26 capitals stands for a dash and its small letter, and the parser lowers just these. */
  lemma LettersExactly(i: nat)
    requires i < 26
    ensures Encode([CAPITALS[i]]) == ['-', SMALL[i]] && KebabToCamel(['-', SMALL[i]]) == [CAPITALS[i]]
    ensures Lowered([CAPITALS[i]]) == [SMALL[i]]
  {
    Letter(i);
    assert [CAPITALS[i]][1..] == "" && ['-', SMALL[i]][2..] == "";
    assert Lowered([CAPITALS[i]])[0] == ToLower(CAPITALS[i]);
  }

  lemma Letter(i: nat)
    requires i < 26
    ensures CAPITALS[i] as int == 'A' as int + i && SMALL[i] as int == 'a' as int + i
  {
  }

  lemma CapitalsExactly(c: char)
    ensures Upper(c) <==> c in CAPITALS
  {
  }

  lemma OthersExactly(c: char)
    requires c !in CAPITALS
    ensures Encode([c]) == [c] && Lowered([c]) == [c]
  {
    CapitalsExactly(c);
    assert [c][1..] == "";
    assert Lowered([c])[0] == ToLower(c);
  }

  /** Encoding goes character by character. */
  lemma {:induction false} EncodeConcat(a: string, b: string)
    ensures Encode(a + b) == Encode(a) + Encode(b)
  {
    if a == "" {
      assert a + b == b;
    } else {
      assert (a + b)[1..] == a[1..] + b && (a + b)[0] == a[0];
      EncodeConcat(a[1..], b);
      var head := if Upper(a[0]) then ['-', ToLower(a[0])] else [a[0]];
      assert head + (Encode(a[1..]) + Encode(b)) == head + Encode(a[1..]) + Encode(b);
    }
  }

  /** A capital in an encoded text stays and separates what is decoded around it. */
  lemma {:induction false} CapitalsSplit(a: string, c: char, b: string)
    requires c in CAPITALS
    ensures KebabToCamel(a + [c] + b) == KebabToCamel(a) + [c] + KebabToCamel(b)
    decreases |a|
  {
    var s := a + [c] + b;
    CapitalIsNotSmall(c);
    if a == "" {
      assert s == [c] + b && s[1..] == b;
    } else if |a| >= 2 && a[0] == '-' && LowerLetter(a[1]) {
      assert s[2..] == a[2..] + [c] + b;
      CapitalsSplit(a[2..], c, b);
    } else {
      assert s[1..] == a[1..] + [c] + b && s[0] == a[0] && s[1] == if |a| >= 2 then a[1] else c;
      CapitalsSplit(a[1..], c, b);
    }
  }

  lemma CapitalIsNotSmall(c: char)
    requires c in CAPITALS
    ensures !LowerLetter(c) && c != '-'
  {
    var i: nat :| i < |CAPITALS| && CAPITALS[i] == c;
    Letter(i);
  }
}
