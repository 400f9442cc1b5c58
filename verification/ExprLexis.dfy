/** The lexical level of the expression evaluator told apart from its own scans: which texts are names
    and numbers, where an operator stands, which parentheses belong together, and what a path with a
    broken rest is worth (LP/assets/9367c065-0eb8-43d7-96aa-cd5bd931f686.js). */
module ExprLexis {
  import opened Common
  import opened ExprEval

  // ----- Names, numbers and blanks -----

  predicate NameStart(c: char) {
    c in "ABCDEFGHIJKLMNOPQRSTUVWXYZ" || c in "abcdefghijklmnopqrstuvwxyz" || c in "_$"
  }

  predicate Decimal(c: char) {
    c in "0123456789"
  }

  /** Tab, line feed, vertical tab, form feed, carriage return, space, and the space separators, line
      separators and byte-order mark of Unicode. */
  predicate White(c: char) {
    || c in "\t\n\U{000B}\U{000C}\r \U{00A0}\U{1680}"
    || c in "\U{2000}\U{2001}\U{2002}\U{2003}\U{2004}\U{2005}\U{2006}\U{2007}\U{2008}\U{2009}\U{200A}"
    || c in "\U{2028}\U{2029}\U{202F}\U{205F}\U{3000}\U{FEFF}"
  }

  lemma ClassesExactly(c: char)
    ensures IdentStart(c) <==> NameStart(c)
    ensures IdentPart(c) <==> NameStart(c) || Decimal(c)
    ensures IsDigit(c) <==> Decimal(c)
  {
    UpperExactly(c);
    LowerExactly(c);
  }

  lemma UpperExactly(c: char)
    ensures 'A' <= c <= 'Z' <==> c in "ABCDEFGHIJKLMNOPQRSTUVWXYZ"
  {
  }

  lemma LowerExactly(c: char)
    ensures 'a' <= c <= 'z' <==> c in "abcdefghijklmnopqrstuvwxyz"
  {
  }

  lemma WhiteExactly(c: char)
    ensures IsSpace(c) <==> White(c)
  {
  }

  /** The name at the front of a text is the longest one, and so are its digits. */
  lemma NameLengthExactly(s: string)
    ensures var n := IdentLength(s);
            && (n > 0 <==> s != "" && NameStart(s[0]))
            && (forall i | 0 <= i < n :: NameStart(s[i]) || Decimal(s[i]))
            && (0 < n < |s| ==> !NameStart(s[n]) && !Decimal(s[n]))
    ensures var n := DigitsLength(s); (forall i | 0 <= i < n :: Decimal(s[i])) && (n < |s| ==> !Decimal(s[n]))
  {
    hide NameStart, Decimal;
    forall c
      ensures IdentStart(c) <==> NameStart(c)
      ensures IdentPart(c) <==> NameStart(c) || Decimal(c)
      ensures IsDigit(c) <==> Decimal(c)
    {
      ClassesExactly(c);
    }
  }

  ghost predicate Digits(s: string) {
    s != "" && forall i | 0 <= i < |s| :: Decimal(s[i])
  }

  ghost predicate Unsigned(s: string) {
    Digits(s) || exists whole, fraction :: Digits(whole) && Digits(fraction) && s == whole + "." + fraction
  }

  /** A number is an optional minus, digits, and an optional point with more digits. */
  lemma NumberExactly(s: string)
    ensures IsNumber(s) <==> Unsigned(s) || exists t :: Unsigned(t) && s == "-" + t
  {
    hide Unsigned, Digits, Decimal;
    UnsignedExactly(s);
    if s != "" && s[0] == '-' {
      UnsignedExactly(s[1..]);
      NoSign(s);
      assert s == "-" + s[1..];
      forall t | s == "-" + t ensures t == s[1..] {}
    } else {
      forall t ensures s != "-" + t { assert ("-" + t)[0] == '-'; }
    }
  }

  lemma NoSign(s: string)
    requires s != "" && s[0] == '-'
    ensures !Unsigned(s)
  {
    assert !Decimal('-');
    forall whole, fraction | Digits(whole) && Digits(fraction) ensures s != whole + "." + fraction {
      assert (whole + "." + fraction)[0] == whole[0];
    }
  }

  ghost predicate UnsignedForm(t: string) {
    var n := DigitsLength(t);
    n > 0 && (n == |t| || (t[n] == '.' && n + 1 < |t| && DigitsLength(t[n + 1..]) == |t| - n - 1))
  }

  lemma UnsignedExactly(t: string)
    ensures UnsignedForm(t) <==> Unsigned(t)
    ensures IsNumber(t) <==> if t != "" && t[0] == '-' then UnsignedForm(t[1..]) else UnsignedForm(t)
  {
    hide Unsigned, DigitsLength;
    if UnsignedForm(t) { FormIsUnsigned(t); }
    if Unsigned(t) { UnsignedHasForm(t); }
  }

  lemma FormIsUnsigned(t: string)
    requires UnsignedForm(t)
    ensures Unsigned(t)
  {
    hide Decimal;
    var n := DigitsLength(t);
    NameLengthExactly(t);
    hide DigitsLength, IdentLength;
    if n < |t| {
      NameLengthExactly(t[n + 1..]);
      assert t == t[..n] + "." + t[n + 1..];
      assert Digits(t[..n]) && Digits(t[n + 1..]);
    }
  }

  lemma UnsignedHasForm(t: string)
    requires Unsigned(t)
    ensures UnsignedForm(t)
  {
    hide Digits, DigitsLength, IdentLength;
    if Digits(t) {
      FrontDigits(t, "");
      assert t + "" == t;
    } else {
      var whole, fraction :| Digits(whole) && Digits(fraction) && t == whole + "." + fraction;
      FrontDigits(whole, "." + fraction);
      FrontDigits(fraction, "");
      assert t == whole + ("." + fraction) && t[|whole| + 1..] == fraction && fraction + "" == fraction;
    }
  }

  lemma FrontDigits(a: string, b: string)
    requires Digits(a) && (b == "" || b[0] == '.')
    ensures DigitsLength(a + b) == |a| > 0
  {
    var s := a + b;
    NameLengthExactly(s);
    var n := DigitsLength(s);
    assert forall i | 0 <= i < |a| :: s[i] == a[i];
    if b != "" { assert s[|a|] == '.' && !Decimal('.'); }
    hide Decimal;
  }

  // ----- Brackets, counted -----

  function Count(s: string, c: char): nat {
    multiset(s)[c]
  }

  lemma {:induction false} DepthCounts(s: string)
    ensures Depth(Round, s) == Count(s, '(') - Count(s, ')')
    ensures Depth(Both, s) == Count(s, '(') + Count(s, '[') - Count(s, ')') - Count(s, ']')
  {
    if s != "" {
      DepthCounts(s[..|s| - 1]);
      assert s == s[..|s| - 1] + [s[|s| - 1]];
    }
  }

  /** The outer parentheses of a text wrap the whole exactly when no shorter front that ends in a closing
      parenthesis has as many opening ones. */
  lemma WrapExactly(t: string)
    ensures ParensWrapWhole(t) <==>
            forall a, b :: t == a + ")" + b && b != "" ==> Count(a + ")", '(') != Count(a + ")", ')')
  {
    hide Depth, Count;
    if ParensWrapWhole(t) {
      forall a, b | t == a + ")" + b && b != "" ensures Count(a + ")", '(') != Count(a + ")", ')') {
        CutAfter(t, a, b);
        DepthCounts(a + ")");
      }
    } else {
      var i :| 0 <= i < |t| - 1 && t[i] == ')' && Depth(Round, t[..i + 1]) == 0;
      CutAt(t, i);
      DepthCounts(t[..i + 1]);
    }
  }

  lemma CutAfter(t: string, a: string, b: string)
    requires t == a + ")" + b
    ensures |a| + |b| + 1 == |t| && t[|a|] == ')' && t[..|a| + 1] == a + ")"
  {
  }

  lemma CutAt(t: string, i: nat)
    requires i < |t| && t[i] == ')'
    ensures t[..i + 1] == t[..i] + ")" && t == t[..i] + ")" + t[i + 1..]
  {
  }

  /** An operator stands between two parts of a text exactly when the second starts with `==` or `!=`,
      and the first has something in it, closes as many brackets as it opens and does not end in `=` or
      `!`. */
  lemma OperatorExactly(left: string, right: string)
    requires right != ""
    ensures OperatorAt(left + right, |left|) <==>
            && ("==" <= right || "!=" <= right)
            && (exists c :: c in left && !White(c))
            && Count(left, '(') + Count(left, '[') == Count(left, ')') + Count(left, ']')
            && (left != "" ==> left[|left| - 1] != '=' && left[|left| - 1] != '!')
  {
    var t := left + right;
    DepthCounts(left);
    TrimBlank(left);
    forall c ensures IsSpace(c) <==> White(c) { WhiteExactly(c); }
    hide IsSpace, White;
    assert t[..|left|] == left && t[|left|] == right[0];
    hide Depth, Count, Trim;
    if |right| > 1 { assert t[|left| + 1] == right[1]; }
    assert left != "" ==> t[|left| - 1] == left[|left| - 1];
  }

  /** Which operator that is depends on its first character and on whether a second `=` follows. */
  lemma OperatorTextExactly(left: string, right: string)
    requires "==" <= right || "!=" <= right
    ensures OperatorText(left + right, |left|) ==
            if "===" <= right then StrictEq else if "!==" <= right then StrictNe
            else if "==" <= right then LooseEq else LooseNe
  {
    var t := left + right;
    assert |right| >= 2 && t[|left|] == right[0] && t[|left| + 1] == right[1];
    if |right| > 2 { assert t[|left| + 2] == right[2]; }
  }

  ghost predicate Quoted(t: string, body: string) {
    t == "\"" + body + "\"" || t == "'" + body + "'"
  }

  /** A text without an operator or a negation is a keyword, a number, the body between two equal quotes,
      or else a path. */
  lemma AtomExactly<V>(h: Host<V>, vals: V, t: string)
    requires t !in {"true", "false", "null", "undefined"} && !IsNumber(t)
    ensures forall body | Quoted(t, body) :: ResolveAtom(h, vals, t) == h.ofString(body)
    ensures (forall body :: !Quoted(t, body)) ==> ResolveAtom(h, vals, t) == ResolvePath(h, vals, t)
  {
    hide ResolvePath, IsNumber;
    forall body | Quoted(t, body) ensures |t| >= 2 && t[1..|t| - 1] == body {}
    if |t| >= 2 && (t[0] == '"' || t[0] == '\'') && t[|t| - 1] == t[0] {
      assert t == [t[0]] + t[1..|t| - 1] + [t[0]];
      assert Quoted(t, t[1..|t| - 1]);
    }
  }

  lemma TrimBlank(s: string)
    ensures Trim(s) == "" <==> forall c :: c in s ==> IsSpace(c)
  {
    TrimLeftBlank(s);
    TrimRightBlank(TrimLeft(s));
  }

  lemma {:induction false} TrimLeftBlank(s: string)
    ensures (forall c :: c in TrimLeft(s) ==> IsSpace(c)) <==> forall c :: c in s ==> IsSpace(c)
  {
    hide IsSpace;
    if s != "" && IsSpace(s[0]) {
      TrimLeftBlank(s[1..]);
      assert forall c :: c in s <==> c == s[0] || c in s[1..];
    }
  }

  lemma {:induction false} TrimRightBlank(s: string)
    ensures TrimRight(s) == "" <==> forall c :: c in s ==> IsSpace(c)
  {
    hide IsSpace;
    if s != "" {
      var front, last := s[..|s| - 1], s[|s| - 1];
      TrimRightBlank(front);
      assert s == front + [last];
    }
  }

  // ----- Broken paths -----

  /** What cannot go on a path: another character, a point without a name or digits, and a bracket
      that is never closed. */
  ghost predicate Broken(rest: string) {
    && rest != ""
    && (rest[0] == '.' ==> |rest| == 1 || !(NameStart(rest[1]) || Decimal(rest[1])))
    && (rest[0] == '[' ==> forall a, b :: rest == "[" + a + "]" + b ==> Count(a, '[') > Count(a, ']') || Early(a))
  }

  /** Some front closes more square brackets than it opens. */
  ghost predicate Early(a: string) {
    exists front, back :: a == front + back && Count(front, ']') > Count(front, '[')
  }

  /** No front of the text between two positions closes more square brackets than it opens. */
  ghost predicate NoneEarly(expr: string, start: nat, j: nat) {
    start <= j <= |expr| && forall k | start <= k <= j :: Count(expr[start..k], ']') <= Count(expr[start..k], '[')
  }

  lemma CountNext(expr: string, start: nat, j: nat, c: char)
    requires start <= j < |expr|
    ensures Count(expr[start..j + 1], c) == Count(expr[start..j], c) + if expr[j] == c then 1 else 0
  {
    assert expr[start..j + 1] == expr[start..j] + [expr[j]];
  }

  lemma {:induction false} CloseOnlyMatching(expr: string, start: nat, j: nat, depth: nat)
    requires NoneEarly(expr, start, j) && depth > 0
    requires depth == 1 + Count(expr[start..j], '[') - Count(expr[start..j], ']')
    ensures var r := CloseFrom(expr, j, depth);
            r.Some? ==>
              && NoneEarly(expr, start, r.value) && r.value < |expr| && expr[r.value] == ']'
              && Count(expr[start..r.value], '[') == Count(expr[start..r.value], ']')
    decreases |expr| - j
  {
    hide Count;
    if j < |expr| {
      CountNext(expr, start, j, '[');
      CountNext(expr, start, j, ']');
      if expr[j] == '[' {
        CloseOnlyMatching(expr, start, j + 1, depth + 1);
      } else if expr[j] != ']' {
        CloseOnlyMatching(expr, start, j + 1, depth);
      } else if depth > 1 {
        CloseOnlyMatching(expr, start, j + 1, depth - 1);
      }
    }
  }

  /** A path goes on only over names, digits and closed brackets: once the rest is broken its value is
      undefined, whatever was looked up before. */
  lemma BrokenPathIsUndefined<V>(h: Host<V>, vals: V, expr: string, i: nat, cur: V)
    requires 0 < i < |expr| && Broken(expr[i..])
    ensures PathFrom(h, vals, expr, i, cur) == h.undef
  {
    hide Count, Decimal, NameStart;
    var rest := expr[i..];
    assert rest[0] == expr[i];
    if expr[i] == '.' {
      var name := expr[i + 1..];
      NameLengthExactly(name);
      assert name != "" ==> name[0] == rest[1];
    } else if expr[i] == '[' {
      if CloseFrom(expr, i + 1, 1).Some? { ClosedIsNotBroken(expr, i); }
    }
  }

  lemma ClosedIsNotBroken(expr: string, i: nat)
    requires i < |expr| && expr[i] == '[' && CloseFrom(expr, i + 1, 1).Some?
    ensures !Broken(expr[i..])
  {
    hide *;
    var start := i + 1;
    var k := CloseFrom(expr, start, 1).value;
    ClosedPart(expr, start);
    var a, b := expr[start..k], expr[k + 1..];
    assert expr[i..] == "[" + a + "]" + b;
    ClosedText(a, b);
  }

  lemma ClosedText(a: string, b: string)
    requires Count(a, '[') == Count(a, ']') && !Early(a)
    ensures !Broken("[" + a + "]" + b)
  {
    hide Count, Decimal, NameStart, Early;
    assert ("[" + a + "]" + b)[0] == '[';
  }

  /** Between an opening bracket and the one found for it nothing is closed early. */
  lemma ClosedPart(expr: string, start: nat)
    requires start <= |expr| && CloseFrom(expr, start, 1).Some?
    ensures var k := CloseFrom(expr, start, 1).value;
            && start <= k < |expr| && expr[k] == ']'
            && Count(expr[start..k], '[') == Count(expr[start..k], ']') && !Early(expr[start..k])
  {
    var k := CloseFrom(expr, start, 1).value;
    assert expr[start..start] == "";
    CloseOnlyMatching(expr, start, start, 1);
    hide Count, CloseFrom;
    var a := expr[start..k];
    forall front, back | a == front + back ensures Count(front, ']') <= Count(front, '[') {
      assert a[..|front|] == front;
      assert expr[start..start + |front|] == a[..|front|];
    }
  }

  /** A text that starts with no name is no path. */
  lemma NamelessIsUndefined<V>(h: Host<V>, vals: V, expr: string)
    requires expr == "" || !NameStart(expr[0])
    ensures ResolvePath(h, vals, expr) == h.undef
  {
    hide NameStart;
    NameLengthExactly(expr);
  }
}
