/** A grammar, a printer and a meaning for template expressions, and the proof that the evaluator
    computes the meaning of every printed expression
    (LP/assets/9367c065-0eb8-43d7-96aa-cd5bd931f686.js). */
module ExprGrammar {
  import opened Common
  import opened ExprEval

  datatype Expr =
    | Keyword(word: string)
    | Number(text: string)
    | Literal(quote: char, body: string)
    | Path(head: string, segs: Segs)
    | Not(gap: string, operand: Expr)
    | Equality(left: Expr, before: string, op: EqOp, after: string, right: Expr)
    | Paren(before: string, inner: Expr, after: string)

  datatype Segs =
    | End
    | Field(name: string, rest: Segs)
    | Position(digits: string, rest: Segs)
    | Lookup(before: string, key: Expr, after: string, rest: Segs)

  predicate Blank(s: string) {
    forall i | 0 <= i < |s| :: IsSpace(s[i])
  }

  predicate IsIdent(s: string) {
    s != "" && IdentStart(s[0]) && forall i | 0 <= i < |s| :: IdentPart(s[i])
  }

  /** Well-formed trees. A left operand and a negated operand are not bare equalities: those need
      parentheses, because the scan splits at the first operator. */
  predicate WellFormed(e: Expr) {
    match e
    case Keyword(word) => IsKeyword(word)
    case Number(text) => IsNumber(text)
    case Literal(quote, body) => (quote == '"' || quote == '\'') && Inert(body)
    case Path(head, segs) => IsIdent(head) && (segs.End? ==> !IsKeyword(head)) && WellFormedSegs(segs)
    case Not(gap, operand) => Blank(gap) && WellFormed(operand) && !operand.Equality?
    case Equality(left, before, op, after, right) =>
      Blank(before) && Blank(after) && WellFormed(left) && WellFormed(right) && !left.Equality?
    case Paren(before, inner, after) => Blank(before) && Blank(after) && WellFormed(inner)
  }

  predicate WellFormedSegs(segs: Segs) {
    match segs
    case End => true
    case Field(name, rest) => IsIdent(name) && WellFormedSegs(rest)
    case Position(digits, rest) =>
      digits != "" && (forall i | 0 <= i < |digits| :: IsDigit(digits[i])) && WellFormedSegs(rest)
    case Lookup(before, key, after, rest) => Blank(before) && Blank(after) && WellFormed(key) && WellFormedSegs(rest)
  }

  function Print(e: Expr): string {
    match e
    case Keyword(word) => word
    case Number(text) => text
    case Literal(quote, body) => [quote] + body + [quote]
    case Path(head, segs) => head + PrintSegs(segs)
    case Not(gap, operand) => "!" + (gap + Print(operand))
    case Equality(left, before, op, after, right) =>
      (Print(left) + before) + op.Text() + (after + Print(right))
    case Paren(before, inner, after) => "(" + (before + Print(inner) + after) + ")"
  }

  function PrintSegs(segs: Segs): string {
    match segs
    case End => ""
    case Field(name, rest) => "." + name + PrintSegs(rest)
    case Position(digits, rest) => "." + digits + PrintSegs(rest)
    case Lookup(before, key, after, rest) => "[" + (before + Print(key) + after) + "]" + PrintSegs(rest)
  }

  function Meaning<V>(h: Host<V>, vals: V, e: Expr): V {
    match e
    case Keyword(word) =>
      if word == "true" then h.ofBool(true)
      else if word == "false" then h.ofBool(false)
      else if word == "null" then h.nul else h.undef
    case Number(text) => h.ofNumber(text)
    case Literal(_, body) => h.ofString(body)
    case Path(head, segs) => SegsMeaning(h, vals, Property(h, vals, h.ofString(head)), segs)
    case Not(_, operand) => h.ofBool(!h.truthy(Meaning(h, vals, operand)))
    case Equality(left, _, op, _, right) => Comparison(h, op, Meaning(h, vals, left), Meaning(h, vals, right))
    case Paren(_, inner, _) => Meaning(h, vals, inner)
  }

  function Comparison<V>(h: Host<V>, op: EqOp, l: V, r: V): V {
    match op
    case StrictEq => h.ofBool(h.strictEq(l, r))
    case StrictNe => h.ofBool(!h.strictEq(l, r))
    case LooseEq => h.ofBool(h.looseEq(l, r))
    case LooseNe => h.ofBool(!h.looseEq(l, r))
  }

  /** A property of nothing is undefined. */
  function Property<V>(h: Host<V>, cur: V, key: V): V {
    if h.nullish(cur) then h.undef else h.get(cur, key)
  }

  function SegsMeaning<V>(h: Host<V>, vals: V, cur: V, segs: Segs): V {
    match segs
    case End => cur
    case Field(name, rest) => SegsMeaning(h, vals, Property(h, cur, h.ofString(name)), rest)
    case Position(digits, rest) => SegsMeaning(h, vals, Property(h, cur, h.ofString(digits)), rest)
    case Lookup(_, key, _, rest) => SegsMeaning(h, vals, Property(h, cur, Meaning(h, vals, key)), rest)
  }

  // ----- Balanced and inert texts -----

  predicate BalancedIn(f: Family, s: string) {
    Depth(f, s) == 0 && forall i | 0 <= i <= |s| :: Depth(f, s[..i]) >= 0
  }

  predicate Balanced(s: string) {
    BalancedIn(Round, s) && BalancedIn(Square, s) && BalancedIn(Both, s)
  }

  /** Balanced, and every `=` sits inside brackets. */
  predicate Inert(s: string) {
    Balanced(s) && forall i | 0 <= i < |s| && s[i] == '=' :: Depth(Both, s[..i]) > 0
  }

  lemma {:induction false} DepthConcat(f: Family, a: string, b: string)
    ensures Depth(f, a + b) == Depth(f, a) + Depth(f, b)
  {
    if b == "" {
      assert a + b == a;
    } else {
      DepthConcat(f, a, b[..|b| - 1]);
      assert (a + b)[..|a + b| - 1] == a + b[..|b| - 1];
    }
  }

  lemma DepthPrefix(f: Family, a: string, b: string, i: nat)
    requires i <= |a + b|
    ensures Depth(f, (a + b)[..i]) == if i <= |a| then Depth(f, a[..i]) else Depth(f, a) + Depth(f, b[..i - |a|])
  {
    if i <= |a| {
      assert (a + b)[..i] == a[..i];
    } else {
      assert (a + b)[..i] == a + b[..i - |a|];
      DepthConcat(f, a, b[..i - |a|]);
    }
  }

  lemma BalancedInConcat(f: Family, a: string, b: string)
    requires BalancedIn(f, a) && BalancedIn(f, b)
    ensures BalancedIn(f, a + b)
  {
    DepthConcat(f, a, b);
    forall i | 0 <= i <= |a + b| ensures Depth(f, (a + b)[..i]) >= 0 {
      DepthPrefix(f, a, b, i);
    }
  }

  lemma BalancedConcat(a: string, b: string)
    requires Balanced(a) && Balanced(b)
    ensures Balanced(a + b)
  {
    BalancedInConcat(Round, a, b);
    BalancedInConcat(Square, a, b);
    BalancedInConcat(Both, a, b);
  }

  lemma InertConcat(a: string, b: string)
    requires Inert(a) && Inert(b)
    ensures Inert(a + b)
  {
    BalancedConcat(a, b);
    forall i | 0 <= i < |a + b| && (a + b)[i] == '=' ensures Depth(Both, (a + b)[..i]) > 0 {
      DepthPrefix(Both, a, b, i);
      assert i >= |a| ==> b[i - |a|] == '=';
      assert b[..0] == "";
    }
  }

  lemma {:induction false} PlainDepth(f: Family, s: string)
    requires forall i | 0 <= i < |s| :: Delta(Both, s[i]) == 0
    ensures Depth(f, s) == 0
  {
    if s != "" {
      PlainDepth(f, s[..|s| - 1]);
    }
  }

  /** A text without brackets is balanced; without `=` too it is inert. */
  lemma PlainBalanced(s: string)
    requires forall i | 0 <= i < |s| :: Delta(Both, s[i]) == 0
    ensures Balanced(s)
    ensures (forall i | 0 <= i < |s| :: s[i] != '=') ==> Inert(s)
  {
    forall f: Family ensures BalancedIn(f, s) {
      PlainDepth(f, s);
      forall i | 0 <= i <= |s| ensures Depth(f, s[..i]) >= 0 {
        PlainDepth(f, s[..i]);
      }
    }
  }

  /** A balanced text in brackets is inert. */
  lemma WrapInert(open: char, s: string, close: char)
    requires Balanced(s) && ((open == '(' && close == ')') || (open == '[' && close == ']'))
    ensures Inert([open] + s + [close])
  {
    var t := [open] + s + [close];
    forall f: Family ensures BalancedIn(f, s) ==> BalancedIn(f, t) {
      if BalancedIn(f, s) {
        forall i | 0 <= i <= |t| ensures Depth(f, t[..i]) >= 0 {
          WrapDepth(f, open, s, close, i);
        }
        WrapDepth(f, open, s, close, |t|);
        assert t[..|t|] == t;
      }
    }
    forall i | 0 <= i < |t| && t[i] == '=' ensures Depth(Both, t[..i]) > 0 {
      WrapDepth(Both, open, s, close, i);
    }
  }

  lemma WrapDepth(f: Family, open: char, s: string, close: char, i: nat)
    requires i <= |s| + 2 && Depth(f, s) == 0 && Delta(f, close) == -Delta(f, open)
    ensures Depth(f, ([open] + s + [close])[..i])
         == if i == 0 || i == |s| + 2 then 0 else Delta(f, open) + Depth(f, s[..i - 1])
  {
    var t := [open] + s + [close];
    assert Depth(f, [open]) == Delta(f, open) && Depth(f, [close]) == Delta(f, close);
    if 0 < i <= |s| + 1 {
      assert t[..i] == [open] + s[..i - 1];
      DepthConcat(f, [open], s[..i - 1]);
    } else if i == |s| + 2 {
      assert t[..i] == [open] + s + [close];
      DepthConcat(f, [open] + s, [close]);
      DepthConcat(f, [open], s);
    }
  }

  // ----- The shape of printed expressions -----

  /** A text that can stand as an operand: balanced, and no blank or operator character at an end
      where it could merge with its surroundings. */
  predicate Operand(s: string) {
    && s != "" && Balanced(s)
    && !IsSpace(s[0]) && s[0] != '='
    && !IsSpace(s[|s| - 1]) && s[|s| - 1] != '=' && s[|s| - 1] != '!'
  }

  lemma BlankInert(s: string)
    requires Blank(s)
    ensures Inert(s)
  {
    PlainBalanced(s);
  }

  lemma SpanAll(p: char -> bool, s: string)
    requires Span(p, s) == |s|
    ensures forall i | 0 <= i < |s| :: p(s[i])
  {
  }

  predicate NumberChar(c: char) {
    IsDigit(c) || c == '-' || c == '.'
  }

  lemma UnsignedChars(t: string)
    requires IsNumber(t) && t[0] != '-'
    ensures forall i | 0 <= i < |t| :: NumberChar(t[i])
    ensures IsDigit(t[0]) && IsDigit(t[|t| - 1])
  {
    var n := DigitsLength(t);
    if n < |t| {
      var fraction := t[n + 1..];
      SpanAll(c => IsDigit(c), fraction);
      assert forall i {:trigger t[i]} | n + 1 <= i < |t| :: t[i] == fraction[i - n - 1];
    }
  }

  lemma NumberChars(s: string)
    requires IsNumber(s)
    ensures s != "" && (forall i | 0 <= i < |s| :: NumberChar(s[i]))
    ensures (s[0] == '-' || IsDigit(s[0])) && IsDigit(s[|s| - 1])
  {
    if s[0] == '-' {
      var t := s[1..];
      UnsignedChars(t);
      assert forall i {:trigger s[i]} | 1 <= i < |s| :: s[i] == t[i - 1];
    } else {
      UnsignedChars(s);
    }
  }

  lemma NumberInert(s: string)
    requires IsNumber(s)
    ensures Balanced(s) && Inert(s)
  {
    NumberChars(s);
    hide IsNumber;
    PlainBalanced(s);
  }

  lemma NumberShape(s: string)
    requires IsNumber(s)
    ensures Operand(s) && Inert(s) && (s[0] == '-' || IsDigit(s[0]))
  {
    hide IsNumber, Inert, Balanced;
    NumberChars(s);
    NumberInert(s);
  }

  lemma IdentInert(s: string)
    requires forall i | 0 <= i < |s| :: IdentPart(s[i])
    ensures Inert(s)
  {
    PlainBalanced(s);
  }

  lemma KeywordShape(s: string)
    requires IsKeyword(s)
    ensures Operand(s) && Inert(s) && IsIdent(s)
  {
    KeywordIsIdent(s);
    IdentInert(s);
  }

  lemma KeywordIsIdent(s: string)
    requires IsKeyword(s)
    ensures IsIdent(s)
  {
    if s == "true" {
      assert s == ['t', 'r', 'u', 'e'];
    } else if s == "false" {
      assert s == ['f', 'a', 'l', 's', 'e'];
    } else if s == "null" {
      assert s == ['n', 'u', 'l', 'l'];
    } else {
      assert s == ['u', 'n', 'd', 'e', 'f', 'i', 'n', 'e', 'd'];
    }
  }

  lemma OperatorBalanced(op: EqOp)
    ensures Balanced(op.Text())
  {
    PlainBalanced(op.Text());
  }

  lemma LiteralInert(quote: char, body: string)
    requires (quote == '"' || quote == '\'') && Inert(body)
    ensures Inert([quote] + body + [quote])
  {
    PlainBalanced([quote]);
    InertConcat([quote], body);
    InertConcat([quote] + body, [quote]);
  }

  lemma SpacedBalanced(before: string, s: string, after: string)
    requires Blank(before) && Blank(after) && Balanced(s)
    ensures Balanced(before + s + after)
  {
    BlankInert(before);
    BlankInert(after);
    BalancedConcat(before, s);
    BalancedConcat(before + s, after);
  }

  /** A text that can end a path. */
  predicate SegsText(s: string) {
    && Inert(s)
    && (s != "" ==> s[0] == '.' || s[0] == '[')
    && (s != "" ==> !IsSpace(s[|s| - 1]) && s[|s| - 1] != '=' && s[|s| - 1] != '!')
  }

  lemma PathShape(head: string, segs: string)
    requires IsIdent(head) && SegsText(segs)
    ensures Operand(head + segs) && Inert(head + segs)
  {
    hide Inert, Balanced;
    IdentInert(head);
    InertConcat(head, segs);
    InertIsBalanced(head + segs);
    assert IdentPart(head[|head| - 1]) && (head + segs)[0] == head[0];
    assert (head + segs)[|head + segs| - 1] == if segs == "" then head[|head| - 1] else segs[|segs| - 1];
  }

  lemma InertIsBalanced(s: string)
    requires Inert(s)
    ensures Balanced(s)
  {
  }

  lemma NotShape(gap: string, operand: string)
    requires Blank(gap) && Operand(operand) && Inert(operand)
    ensures Operand("!" + (gap + operand)) && Inert("!" + (gap + operand))
  {
    hide BalancedIn;
    BlankInert(gap);
    InertConcat(gap, operand);
    PlainBalanced("!");
    InertConcat("!", gap + operand);
  }

  lemma EqualityShape(left: string, before: string, op: EqOp, after: string, right: string)
    requires Blank(before) && Blank(after) && Operand(left) && Operand(right)
    ensures Operand((left + before) + op.Text() + (after + right))
  {
    BlankInert(before);
    BlankInert(after);
    OperatorBalanced(op);
    BalancedConcat(left, before);
    BalancedConcat(left + before, op.Text());
    BalancedConcat(after, right);
    BalancedConcat((left + before) + op.Text(), after + right);
  }

  lemma WrapShape(open: char, before: string, inner: string, after: string, close: char)
    requires Blank(before) && Blank(after) && Operand(inner)
    requires (open == '(' && close == ')') || (open == '[' && close == ']')
    ensures Inert([open] + (before + inner + after) + [close])
  {
    SpacedBalanced(before, inner, after);
    WrapInert(open, before + inner + after, close);
  }

  lemma DottedShape(name: string, rest: string)
    requires name != "" && (forall i | 0 <= i < |name| :: IdentPart(name[i])) && SegsText(rest)
    ensures SegsText("." + name + rest)
  {
    DotInert(name);
    var s := "." + name;
    assert s[|s| - 1] == name[|name| - 1] && IdentPart(name[|name| - 1]);
    AppendSegs(s, rest);
  }

  lemma DotInert(name: string)
    requires forall i | 0 <= i < |name| :: IdentPart(name[i])
    ensures Inert("." + name)
  {
    PlainBalanced(".");
    IdentInert(name);
    InertConcat(".", name);
  }

  lemma AppendSegs(front: string, rest: string)
    requires Inert(front) && SegsText(rest)
    requires front != "" && (front[0] == '.' || front[0] == '[')
    requires !IsSpace(front[|front| - 1]) && front[|front| - 1] != '=' && front[|front| - 1] != '!'
    ensures SegsText(front + rest)
  {
    InertConcat(front, rest);
  }

  /** Every printed expression is an operand, and inert unless it is a bare equality. */
  lemma {:induction false} PrintShape(e: Expr)
    requires WellFormed(e)
    ensures Operand(Print(e)) && (!e.Equality? ==> Inert(Print(e)))
  {
    hide Operand, Inert;
    match e
    case Keyword(word) => KeywordShape(word);
    case Number(text) => NumberShape(text);
    case Literal(quote, body) => LiteralShape(quote, body);
    case Path(head, segs) => SegsShape(segs); PathShape(head, PrintSegs(segs));
    case Not(gap, operand) => PrintShape(operand); NotShape(gap, Print(operand));
    case Equality(left, before, op, after, right) =>
      PrintShape(left);
      PrintShape(right);
      EqualityShape(Print(left), before, op, after, Print(right));
    case Paren(before, inner, after) =>
      PrintShape(inner);
      WrapShape('(', before, Print(inner), after, ')');
      ParenOperand(before + Print(inner) + after);
  }

  lemma LiteralShape(quote: char, body: string)
    requires (quote == '"' || quote == '\'') && Inert(body)
    ensures Operand([quote] + body + [quote]) && Inert([quote] + body + [quote])
  {
    LiteralInert(quote, body);
  }

  lemma ParenOperand(s: string)
    requires Inert("(" + s + ")")
    ensures Operand("(" + s + ")")
  {
  }

  lemma {:induction false} SegsShape(segs: Segs)
    requires WellFormedSegs(segs)
    ensures SegsText(PrintSegs(segs))
  {
    hide SegsText, Operand, Inert;
    match segs
    case End => EmptySegs();
    case Field(name, rest) => SegsShape(rest); DottedShape(name, PrintSegs(rest));
    case Position(digits, rest) => SegsShape(rest); DottedShape(digits, PrintSegs(rest));
    case Lookup(before, key, after, rest) =>
      SegsShape(rest);
      PrintShape(key);
      WrapShape('[', before, Print(key), after, ']');
      AppendSegs("[" + (before + Print(key) + after) + "]", PrintSegs(rest));
  }

  lemma EmptySegs()
    ensures SegsText("")
  {
    PlainBalanced("");
  }

  // ----- Trimming -----

  lemma {:induction false} TrimLeftOf(before: string, s: string)
    requires Blank(before) && (s == "" || !IsSpace(s[0]))
    ensures TrimLeft(before + s) == s
  {
    if before == "" {
      assert before + s == s;
    } else {
      assert (before + s)[1..] == before[1..] + s;
      TrimLeftOf(before[1..], s);
    }
  }

  lemma {:induction false} TrimRightOf(s: string, after: string)
    requires Blank(after) && (s == "" || !IsSpace(s[|s| - 1]))
    ensures TrimRight(s + after) == s
  {
    if after == "" {
      assert s + after == s;
    } else {
      assert (s + after)[..|s + after| - 1] == s + after[..|after| - 1];
      TrimRightOf(s, after[..|after| - 1]);
    }
  }

  lemma TrimOf(before: string, s: string, after: string)
    requires Blank(before) && Blank(after) && s != "" && !IsSpace(s[0]) && !IsSpace(s[|s| - 1])
    ensures Trim(before + s + after) == s
  {
    assert before + s + after == before + (s + after);
    TrimLeftOf(before, s + after);
    TrimRightOf(s, after);
  }

  // ----- Each branch of the evaluator -----

  lemma NoOperator(s: string)
    requires Inert(s)
    ensures FirstOperator(s, 0) == None
  {
    forall j | 0 <= j < |s| ensures !OperatorAt(s, j) {
      DepthStep(Both, s, j);
    }
  }

  /** A parenthesised balanced text evaluates as its inside. */
  lemma ResolveParen<V>(h: Host<V>, vals: V, before: string, s: string, after: string)
    requires Blank(before) && Blank(after) && Balanced(s)
    ensures Resolve(h, vals, before + ("(" + s + ")") + after) == Resolve(h, vals, s)
  {
    var t := "(" + s + ")";
    TrimOf(before, t, after);
    forall i {:trigger t[i]} | 0 <= i < |t| - 1 ensures Depth(Round, t[..i + 1]) != 0 {
      WrapDepth(Round, '(', s, ')', i + 1);
    }
    assert t[1..|t| - 1] == s;
  }

  /** The first position where a balanced text that opens with a parenthesis closes it. */
  lemma FirstClose(s: string) returns (i: nat)
    requires BalancedIn(Round, s) && s != "" && s[0] == '('
    ensures i < |s| && s[i] == ')' && Depth(Round, s[..i + 1]) == 0
  {
    i := 0;
    DepthStep(Round, s, 0);
    assert s[..|s|] == s;
    while Depth(Round, s[..i + 1]) != 0
      invariant i < |s| && (i == 0 || Depth(Round, s[..i]) > 0)
      decreases |s| - i
    {
      i := i + 1;
    }
    DepthStep(Round, s, i);
  }

  /** A left operand text, possibly followed by blanks. */
  predicate LeftText(s: string) {
    Inert(s) && s != "" && !IsSpace(s[0]) && s[|s| - 1] != '=' && s[|s| - 1] != '!'
  }

  lemma OperatorHere(left: string, op: EqOp, right: string)
    requires LeftText(left) && right != "" && right[0] != '='
    ensures var t := left + op.Text() + right;
      && OperatorAt(t, |left|) && OperatorText(t, |left|) == op
      && t[..|left|] == left && t[|left| + |op.Text()|..] == right
  {
    var t := left + op.Text() + right;
    var mark := op.Text();
    assert t[..|left|] == left;
    assert t[|left|] == mark[0] && t[|left| + 1] == mark[1] == '=';
    assert t[|left| + 2] == if |mark| == 3 then mark[2] else right[0];
    TrimOfOperand(left);
  }

  lemma SplitPosition(left: string, op: EqOp, right: string)
    requires LeftText(left) && right != "" && right[0] != '='
    ensures var t := left + op.Text() + right;
      && FirstOperator(t, 0) == Some(|left|) && OperatorText(t, |left|) == op
      && t[..|left|] == left && t[|left| + |op.Text()|..] == right
  {
    hide LeftText, OperatorAt, OperatorText;
    OperatorHere(left, op, right);
    var t := left + op.Text() + right;
    assert t == left + (op.Text() + right);
    forall j | 0 <= j < |left| ensures !OperatorAt(t, j) {
      NoEarlierOperator(left, op.Text() + right, j);
    }
    var r := FirstOperator(t, 0);
    assert r.Some? && r.value == |left|;
  }

  lemma TrimOfOperand(s: string)
    requires s != "" && !IsSpace(s[0])
    ensures Trim(s) != ""
  {
    assert TrimLeft(s) == s;
    TrimRightKeeps(s);
  }

  lemma {:induction false} TrimRightKeeps(s: string)
    requires s != "" && !IsSpace(s[0])
    ensures TrimRight(s) != ""
  {
    if |s| > 1 && IsSpace(s[|s| - 1]) {
      TrimRightKeeps(s[..|s| - 1]);
    }
  }

  lemma NoEarlierOperator(left: string, rest: string, j: nat)
    requires LeftText(left) && j < |left|
    ensures !OperatorAt(left + rest, j)
  {
    var t := left + rest;
    assert t[..j] == left[..j];
    if j + 1 < |left| && left[j + 1] == '=' {
      DepthStep(Both, left, j);
    }
  }

  /** A text `left op right` evaluates as the comparison of its two sides. */
  lemma ResolveSplit<V>(h: Host<V>, vals: V, before: string, left: string, op: EqOp, right: string, after: string)
    requires Blank(before) && Blank(after)
    requires LeftText(left) && right != "" && right[0] != '=' && !IsSpace(right[|right| - 1])
    ensures Resolve(h, vals, before + (left + op.Text() + right) + after)
         == h.Compare(op, Resolve(h, vals, left), Resolve(h, vals, right))
  {
    var t := left + op.Text() + right;
    TrimOf(before, t, after);
    SplitPosition(left, op, right);
    if t[0] == '(' {
      var i := FirstClose(left);
      assert t[..i + 1] == left[..i + 1] && t[i] == ')';
      assert !ParensWrapWhole(t);
    }
  }

  /** An inert text behind `!` evaluates as the negation of the rest. */
  lemma ResolveNot<V>(h: Host<V>, vals: V, before: string, rest: string, after: string)
    requires Blank(before) && Blank(after) && Operand("!" + rest) && Inert("!" + rest)
    ensures Resolve(h, vals, before + ("!" + rest) + after) == h.ofBool(!h.truthy(Resolve(h, vals, rest)))
  {
    var t := "!" + rest;
    TrimOf(before, t, after);
    NoOperator(t);
    assert t[1..] == rest;
  }

  lemma ResolveInertAtom<V>(h: Host<V>, vals: V, before: string, t: string, after: string)
    requires Blank(before) && Blank(after) && Operand(t) && Inert(t) && t[0] != '(' && t[0] != '!'
    ensures Resolve(h, vals, before + t + after) == ResolveAtom(h, vals, t)
  {
    TrimOf(before, t, after);
    NoOperator(t);
  }

  // ----- Paths -----

  lemma {:induction false} SpanOf(p: char -> bool, a: string, b: string)
    requires (forall i | 0 <= i < |a| :: p(a[i])) && (b != "" ==> !p(b[0]))
    ensures Span(p, a + b) == |a|
  {
    if a == "" {
      assert a + b == b;
    } else {
      assert (a + b)[1..] == a[1..] + b;
      SpanOf(p, a[1..], b);
    }
  }

  lemma IdentLengthOf(ident: string, rest: string)
    requires IsIdent(ident) && (rest != "" ==> rest[0] == '.' || rest[0] == '[')
    ensures IdentLength(ident + rest) == |ident|
  {
    SpanOf(c => IdentPart(c), ident, rest);
  }

  lemma DigitsLengthOf(digits: string, rest: string)
    requires digits != "" && (forall i | 0 <= i < |digits| :: IsDigit(digits[i]))
    requires rest != "" ==> rest[0] == '.' || rest[0] == '['
    ensures IdentLength(digits + rest) == 0 && DigitsLength(digits + rest) == |digits|
  {
    assert (digits + rest)[0] == digits[0];
    SpanOf(c => IsDigit(c), digits, rest);
  }

  /** The bracket scan stops at the bracket behind a balanced text. */
  lemma {:induction false} CloseOfBalanced(expr: string, start: nat, s: string, k: nat)
    requires BalancedIn(Square, s) && k <= |s| && start + |s| < |expr|
    requires expr[start..start + |s|] == s && expr[start + |s|] == ']'
    ensures CloseFrom(expr, start + k, 1 + Depth(Square, s[..k])) == Some(start + |s|)
    decreases |s| - k
  {
    if k < |s| {
      DepthStep(Square, s, k);
      CloseOfBalanced(expr, start, s, k + 1);
      assert expr[start + k] == expr[start..start + |s|][k];
    } else {
      assert s[..k] == s;
    }
  }

  // ----- Evaluation computes the meaning -----

  lemma AtomLiteral<V>(h: Host<V>, vals: V, quote: char, body: string)
    requires quote == '"' || quote == '\''
    ensures ResolveAtom(h, vals, [quote] + body + [quote]) == h.ofString(body)
  {
    var t := [quote] + body + [quote];
    assert t[0] == quote && t[1..|t| - 1] == body;
    assert !IsNumber(t);
  }

  lemma AtomPath<V>(h: Host<V>, vals: V, head: string, segs: string)
    requires IsIdent(head) && SegsText(segs) && (segs == "" ==> !IsKeyword(head))
    ensures ResolveAtom(h, vals, head + segs)
         == PathFrom(h, vals, head + segs, |head|, h.Get(vals, h.ofString(head)))
  {
    var t := head + segs;
    IdentLengthOf(head, segs);
    assert t[0] == head[0] && t[..|head|] == head;
    if segs != "" {
      assert t[|head|] == segs[0];
      KeywordChars(t);
    } else {
      assert t == head;
    }
    NotNumber(t);
    PathAtom(h, vals, t);
  }

  lemma NotNumber(t: string)
    requires t != "" && IdentStart(t[0])
    ensures !IsNumber(t)
  {
  }

  lemma PathAtom<V>(h: Host<V>, vals: V, t: string)
    requires t != "" && IdentStart(t[0]) && !IsNumber(t) && !IsKeyword(t)
    ensures ResolveAtom(h, vals, t) == ResolvePath(h, vals, t)
  {
  }

  lemma KeywordChars(s: string)
    requires exists i | 0 <= i < |s| :: s[i] == '.' || s[i] == '['
    ensures !IsKeyword(s)
  {
  }

  /** Main result: every printed expression, with any blanks around it, evaluates to its meaning. */
  lemma {:induction false} ResolvePrinted<V>(h: Host<V>, vals: V, before: string, e: Expr, after: string)
    requires WellFormed(e) && Blank(before) && Blank(after)
    ensures Resolve(h, vals, before + Print(e) + after) == Meaning(h, vals, e)
    decreases e
  {
    hide Resolve, ResolveAtom, Operand, Inert, Balanced, IsNumber, IsKeyword, Blank;
    PrintShape(e);
    match e
    case Keyword(word) =>
      AtomKeyword(h, vals, before, word, after);
    case Number(text) =>
      AtomNumber(h, vals, before, text, after);
    case Literal(quote, body) =>
      AtomLiteral(h, vals, quote, body);
      ResolveInertAtom(h, vals, before, [quote] + body + [quote], after);
    case Path(head, segs) => ResolvePathPrinted(h, vals, before, head, segs, after);
    case Not(gap, operand) =>
      BlankEmpty();
      ResolvePrinted(h, vals, gap, operand, "");
      assert gap + Print(operand) == gap + Print(operand) + "";
      ResolveNot(h, vals, before, gap + Print(operand), after);
    case Equality(left, b, op, a, right) =>
      BlankEmpty();
      PrintShape(left);
      PrintShape(right);
      ResolvePrinted(h, vals, "", left, b);
      ResolvePrinted(h, vals, a, right, "");
      assert Print(left) + b == "" + Print(left) + b && a + Print(right) == a + Print(right) + "";
      ResolveSides(h, vals, before, Print(left), b, op, a, Print(right), after);
    case Paren(b, inner, a) =>
      PrintShape(inner);
      ResolvePrinted(h, vals, b, inner, a);
      ResolveParenthesised(h, vals, before, b, Print(inner), a, after);
  }

  lemma BlankEmpty()
    ensures Blank("")
  {
  }

  lemma AtomKeyword<V>(h: Host<V>, vals: V, before: string, word: string, after: string)
    requires IsKeyword(word) && Blank(before) && Blank(after)
    ensures Resolve(h, vals, before + word + after) == Meaning(h, vals, Keyword(word))
  {
    KeywordShape(word);
    ResolveInertAtom(h, vals, before, word, after);
  }

  lemma AtomNumber<V>(h: Host<V>, vals: V, before: string, text: string, after: string)
    requires IsNumber(text) && Blank(before) && Blank(after)
    ensures Resolve(h, vals, before + text + after) == h.ofNumber(text)
  {
    NumberShape(text);
    ResolveInertAtom(h, vals, before, text, after);
  }

  lemma ResolveSides<V>(h: Host<V>, vals: V, before: string, left: string, b: string, op: EqOp, a: string, right: string, after: string)
    requires Blank(before) && Blank(after) && Blank(a) && Blank(b)
    requires Operand(left) && Inert(left) && Operand(right)
    ensures Resolve(h, vals, before + ((left + b) + op.Text() + (a + right)) + after)
         == h.Compare(op, Resolve(h, vals, left + b), Resolve(h, vals, a + right))
  {
    SplitTexts(left, b, a, right);
    ResolveSplit(h, vals, before, left + b, op, a + right, after);
  }

  lemma ResolveParenthesised<V>(h: Host<V>, vals: V, before: string, b: string, inner: string, a: string, after: string)
    requires Blank(before) && Blank(after) && Blank(a) && Blank(b) && Operand(inner)
    ensures Resolve(h, vals, before + ("(" + (b + inner + a) + ")") + after) == Resolve(h, vals, b + inner + a)
  {
    SpacedBalanced(b, inner, a);
    ResolveParen(h, vals, before, b + inner + a, after);
  }

  lemma SplitTexts(left: string, b: string, a: string, right: string)
    requires Operand(left) && Inert(left) && Operand(right) && Blank(a) && Blank(b)
    ensures LeftText(left + b)
    ensures a + right != "" && (a + right)[0] != '=' && !IsSpace((a + right)[|a + right| - 1])
  {
    BlankInert(b);
    InertConcat(left, b);
  }

  lemma ResolvePathPrinted<V>(h: Host<V>, vals: V, before: string, head: string, segs: Segs, after: string)
    requires WellFormed(Path(head, segs)) && Blank(before) && Blank(after)
    ensures Resolve(h, vals, before + Print(Path(head, segs)) + after) == Meaning(h, vals, Path(head, segs))
    decreases segs, 1
  {
    var t := head + PrintSegs(segs);
    SegsShape(segs);
    PathShape(head, PrintSegs(segs));
    EmptySegsOnly(segs);
    AtomPath(h, vals, head, PrintSegs(segs));
    assert t[0] == head[0];
    ResolveInertAtom(h, vals, before, t, after);
    assert t[|head|..] == PrintSegs(segs);
    ResolveSegs(h, vals, t, |head|, h.Get(vals, h.ofString(head)), segs);
  }

  lemma EmptySegsOnly(segs: Segs)
    ensures PrintSegs(segs) == "" <==> segs.End?
  {
  }

  lemma {:induction false} ResolveSegs<V>(h: Host<V>, vals: V, expr: string, i: nat, cur: V, segs: Segs)
    requires WellFormedSegs(segs) && 0 < i <= |expr| && expr[i..] == PrintSegs(segs)
    ensures PathFrom(h, vals, expr, i, cur) == SegsMeaning(h, vals, cur, segs)
    decreases segs, 0
  {
    hide Resolve, PathFrom, SegsText, Operand, Blank, IsIdent;
    match segs
    case End => PathEnd(h, vals, expr, i, cur);
    case Field(name, rest) =>
      SegsShape(rest);
      DottedStep(h, vals, expr, i, cur, name, PrintSegs(rest));
      ResolveSegs(h, vals, expr, i + 1 + |name|, h.Get(cur, h.ofString(name)), rest);
    case Position(digits, rest) =>
      SegsShape(rest);
      DottedStep(h, vals, expr, i, cur, digits, PrintSegs(rest));
      ResolveSegs(h, vals, expr, i + 1 + |digits|, h.Get(cur, h.ofString(digits)), rest);
    case Lookup(before, key, after, rest) =>
      PrintShape(key);
      ResolvePrinted(h, vals, before, key, after);
      var inner := before + Print(key) + after;
      LookupSpaced(before, Print(key), after);
      LookupStep(h, vals, expr, i, cur, inner, PrintSegs(rest));
      ResolveSegs(h, vals, expr, i + |inner| + 2, h.Get(cur, Meaning(h, vals, key)), rest);
  }

  lemma PathEnd<V>(h: Host<V>, vals: V, expr: string, i: nat, cur: V)
    requires 0 < i <= |expr| && expr[i..] == ""
    ensures PathFrom(h, vals, expr, i, cur) == cur
  {
  }

  lemma LookupSpaced(before: string, key: string, after: string)
    requires Blank(before) && Blank(after) && Operand(key)
    ensures Balanced(before + key + after)
  {
    SpacedBalanced(before, key, after);
  }

  /** Where the front part `a` of a suffix sits in the whole. */
  lemma TailParts(expr: string, i: nat, a: string, b: string)
    requires i <= |expr| && expr[i..] == a + b
    ensures i + |a| <= |expr| && expr[i..i + |a|] == a && expr[i + |a|..] == b
    ensures forall k {:trigger a[k]} | 0 <= k < |a| :: expr[i + k] == a[k]
  {
    var tail := expr[i..];
    assert expr[i..i + |a|] == tail[..|a|] && expr[i + |a|..] == tail[|a|..];
    assert forall k {:trigger a[k]} | 0 <= k < |a| :: expr[i + k] == tail[k];
  }

  lemma DottedStep<V>(h: Host<V>, vals: V, expr: string, i: nat, cur: V, name: string, rest: string)
    requires 0 < i < |expr| && expr[i..] == "." + name + rest && SegsText(rest)
    requires IsIdent(name) || (name != "" && forall k | 0 <= k < |name| :: IsDigit(name[k]))
    ensures i + 1 + |name| <= |expr| && expr[i + 1 + |name|..] == rest
    ensures PathFrom(h, vals, expr, i, cur)
         == PathFrom(h, vals, expr, i + 1 + |name|, h.Get(cur, h.ofString(name)))
  {
    hide PathFrom, Resolve, IdentLength, DigitsLength, SegsText, IsIdent;
    assert "." + name + rest == "." + (name + rest);
    TailParts(expr, i, ".", name + rest);
    assert expr[i] == "."[0];
    TailParts(expr, i + 1, name, rest);
    DottedLength(name, rest);
    DottedUnfold(h, vals, expr, i, cur, |name|);
    assert expr[i + 1..][..|name|] == name;
  }

  lemma DottedLength(name: string, rest: string)
    requires SegsText(rest)
    requires IsIdent(name) || (name != "" && forall k | 0 <= k < |name| :: IsDigit(name[k]))
    ensures |name| > 0
    ensures IdentLength(name + rest) == |name| || (IdentLength(name + rest) == 0 && DigitsLength(name + rest) == |name|)
  {
    if IsIdent(name) {
      IdentLengthOf(name, rest);
    } else {
      DigitsLengthOf(name, rest);
    }
  }

  lemma DottedUnfold<V>(h: Host<V>, vals: V, expr: string, i: nat, cur: V, n: nat)
    requires 0 < i < |expr| && expr[i] == '.' && n > 0
    requires var rest := expr[i + 1..];
      IdentLength(rest) == n || (IdentLength(rest) == 0 && DigitsLength(rest) == n)
    ensures i + 1 + n <= |expr|
    ensures PathFrom(h, vals, expr, i, cur)
         == PathFrom(h, vals, expr, i + 1 + n, h.Get(cur, h.ofString(expr[i + 1..][..n])))
  {
  }

  lemma LookupStep<V>(h: Host<V>, vals: V, expr: string, i: nat, cur: V, key: string, rest: string)
    requires 0 < i < |expr| && expr[i..] == "[" + key + "]" + rest && Balanced(key)
    ensures i + |key| + 2 <= |expr| && expr[i + |key| + 2..] == rest
    ensures PathFrom(h, vals, expr, i, cur)
         == PathFrom(h, vals, expr, i + |key| + 2, h.Get(cur, Resolve(h, vals, key)))
  {
    hide PathFrom, Resolve, CloseFrom;
    LookupPlace(expr, i, key, rest);
    assert key[..0] == "";
    CloseOfBalanced(expr, i + 1, key, 0);
    LookupUnfold(h, vals, expr, i, cur, i + 1 + |key|);
  }

  lemma LookupPlace(expr: string, i: nat, key: string, rest: string)
    requires i < |expr| && expr[i..] == "[" + key + "]" + rest
    ensures i + |key| + 2 <= |expr| && expr[i + |key| + 2..] == rest
    ensures expr[i] == '[' && expr[i + 1..i + 1 + |key|] == key && expr[i + 1 + |key|] == ']'
  {
    assert "[" + key + "]" + rest == "[" + (key + ("]" + rest));
    TailParts(expr, i, "[", key + ("]" + rest));
    assert expr[i] == "["[0];
    TailParts(expr, i + 1, key, "]" + rest);
    var j := i + 1 + |key|;
    TailParts(expr, j, "]", rest);
    assert expr[j] == "]"[0];
  }

  lemma LookupUnfold<V>(h: Host<V>, vals: V, expr: string, i: nat, cur: V, j: nat)
    requires 0 < i < j < |expr| && expr[i] == '[' && CloseFrom(expr, i + 1, 1) == Some(j)
    ensures PathFrom(h, vals, expr, i, cur)
         == PathFrom(h, vals, expr, j + 1, h.Get(cur, Resolve(h, vals, expr[i + 1..j])))
  {
  }

  // ----- Which literals read back -----

  /** A quoted text reads back as its body exactly when the scan finds no operator in it: quotes do
      not protect `==` or `!=`. Needs a host whose booleans are never strings. */
  lemma LiteralReadsBackExactly<V>(h: Host<V>, vals: V, quote: char, body: string)
    requires quote == '"' || quote == '\''
    requires forall b: bool, s: string :: h.ofBool(b) != h.ofString(s)
    ensures var t := [quote] + body + [quote];
      Resolve(h, vals, t) == h.ofString(body) <==> FirstOperator(t, 0) == None
  {
    var t := [quote] + body + [quote];
    AtomLiteral(h, vals, quote, body);
    assert t == "" + t + "";
    TrimOf("", t, "");
    if FirstOperator(t, 0).Some? {
      CompareIsBool(h, vals, t);
    }
  }

  lemma CompareIsBool<V>(h: Host<V>, vals: V, t: string)
    requires t != "" && FirstOperator(t, 0).Some?
    ensures exists b :: ResolveBare(h, vals, t) == h.ofBool(b)
  {
    var i := FirstOperator(t, 0).value;
    var op := OperatorText(t, i);
    var l, r := Resolve(h, vals, t[..i]), Resolve(h, vals, t[i + |op.Text()|..]);
    var b := match op
      case StrictEq => h.strictEq(l, r)
      case StrictNe => !h.strictEq(l, r)
      case LooseEq => h.looseEq(l, r)
      case LooseNe => !h.looseEq(l, r);
    assert ResolveBare(h, vals, t) == h.ofBool(b);
  }

  /** The literal "a==b" does not read back: it evaluates as a comparison. */
  lemma LiteralWithOperatorIsSplit<V>(h: Host<V>, vals: V)
    requires forall b: bool, s: string :: h.ofBool(b) != h.ofString(s)
    ensures Resolve(h, vals, "\"a==b\"") != h.ofString("a==b")
  {
    var left, right := "\"a", "b\"";
    PlainBalanced(left);
    hide Resolve, FirstOperator, Inert;
    SplitPosition(left, LooseEq, right);
    assert ['"'] + "a==b" + ['"'] == left + LooseEq.Text() + right == "\"a==b\"";
    LiteralReadsBackExactly(h, vals, '"', "a==b");
  }

  /** Equality chains to the right: without parentheses the first operator splits the text. */
  lemma ChainsToTheRight<V>(h: Host<V>, vals: V, a: Expr, op1: EqOp, b: Expr, op2: EqOp, c: Expr)
    requires WellFormed(a) && WellFormed(b) && WellFormed(c) && !a.Equality? && !b.Equality?
    ensures Resolve(h, vals, Print(a) + op1.Text() + (Print(b) + op2.Text() + Print(c)))
         == Comparison(h, op1, Meaning(h, vals, a), Comparison(h, op2, Meaning(h, vals, b), Meaning(h, vals, c)))
  {
    hide Resolve;
    var inner := Equality(b, "", op2, "", c);
    var e := Equality(a, "", op1, "", inner);
    ChainText(Print(a), op1.Text(), Print(b), op2.Text(), Print(c));
    BlankEmpty();
    ResolvePrinted(h, vals, "", e, "");
  }

  lemma ChainText(a: string, op1: string, b: string, op2: string, c: string)
    ensures a + op1 + (b + op2 + c) == "" + ((a + "") + op1 + ("" + ((b + "") + op2 + ("" + c)))) + ""
  {
    assert a + "" == a && b + "" == b && "" + c == c;
    assert "" + (b + op2 + c) == b + op2 + c;
  }

  // ----- The four operators and the lookups, spelled out -----

  /** What each operator computes from the meanings of its operands. */
  lemma FourEqualities<V>(h: Host<V>, vals: V, a: Expr, b: Expr)
    requires WellFormed(a) && WellFormed(b) && !a.Equality?
    ensures var x, y := Meaning(h, vals, a), Meaning(h, vals, b);
      && Resolve(h, vals, Print(a) + "===" + Print(b)) == h.ofBool(h.strictEq(x, y))
      && Resolve(h, vals, Print(a) + "!==" + Print(b)) == h.ofBool(!h.strictEq(x, y))
      && Resolve(h, vals, Print(a) + "==" + Print(b)) == h.ofBool(h.looseEq(x, y))
      && Resolve(h, vals, Print(a) + "!=" + Print(b)) == h.ofBool(!h.looseEq(x, y))
  {
    hide Resolve;
    OneEquality(h, vals, a, StrictEq, b);
    OneEquality(h, vals, a, StrictNe, b);
    OneEquality(h, vals, a, LooseEq, b);
    OneEquality(h, vals, a, LooseNe, b);
  }

  lemma OneEquality<V>(h: Host<V>, vals: V, a: Expr, op: EqOp, b: Expr)
    requires WellFormed(a) && WellFormed(b) && !a.Equality?
    ensures Resolve(h, vals, Print(a) + op.Text() + Print(b)) == Comparison(h, op, Meaning(h, vals, a), Meaning(h, vals, b))
  {
    hide Resolve;
    BlankEmpty();
    ResolvePrinted(h, vals, "", Equality(a, "", op, "", b), "");
    var l, t, r := Print(a), op.Text(), Print(b);
    assert "" + ((l + "") + t + ("" + r)) + "" == l + t + r;
  }

  /** What a name, a field, a position and a bracketed key look up: the property of the value so far,
      and undefined once there is none. */
  lemma LookupsSpelledOut<V>(h: Host<V>, vals: V, head: string, name: string, digits: string, key: Expr)
    requires IsIdent(head) && !IsKeyword(head) && IsIdent(name) && WellFormed(key)
    requires digits != "" && forall i | 0 <= i < |digits| :: IsDigit(digits[i])
    ensures var x := if h.nullish(vals) then h.undef else h.get(vals, h.ofString(head));
      && Resolve(h, vals, head) == x
      && Resolve(h, vals, head + "." + name) == (if h.nullish(x) then h.undef else h.get(x, h.ofString(name)))
      && Resolve(h, vals, head + "." + digits) == (if h.nullish(x) then h.undef else h.get(x, h.ofString(digits)))
      && Resolve(h, vals, head + "[" + Print(key) + "]") == (if h.nullish(x) then h.undef else h.get(x, Meaning(h, vals, key)))
  {
    LookupsAreWellFormed(head, name, digits, key);
    LookupMeanings(h, vals, head, name, digits, key);
    hide *;
    OnePath(h, vals, head, End);
    OnePath(h, vals, head, Field(name, End));
    OnePath(h, vals, head, Position(digits, End));
    OnePath(h, vals, head, Lookup("", key, "", End));
    LookupTexts(head, name, digits, Print(key), key);
  }

  lemma LookupsAreWellFormed(head: string, name: string, digits: string, key: Expr)
    requires IsIdent(head) && !IsKeyword(head) && IsIdent(name) && WellFormed(key)
    requires digits != "" && forall i | 0 <= i < |digits| :: IsDigit(digits[i])
    ensures WellFormed(Path(head, End)) && WellFormed(Path(head, Field(name, End)))
    ensures WellFormed(Path(head, Position(digits, End))) && WellFormed(Path(head, Lookup("", key, "", End)))
  {
    hide IsIdent, IsKeyword;
    assert Blank("");
  }

  lemma LookupMeanings<V>(h: Host<V>, vals: V, head: string, name: string, digits: string, key: Expr)
    ensures var x := if h.nullish(vals) then h.undef else h.get(vals, h.ofString(head));
      && Meaning(h, vals, Path(head, End)) == x
      && Meaning(h, vals, Path(head, Field(name, End))) == (if h.nullish(x) then h.undef else h.get(x, h.ofString(name)))
      && Meaning(h, vals, Path(head, Position(digits, End))) == (if h.nullish(x) then h.undef else h.get(x, h.ofString(digits)))
      && Meaning(h, vals, Path(head, Lookup("", key, "", End))) == (if h.nullish(x) then h.undef else h.get(x, Meaning(h, vals, key)))
  {
    var x := Property(h, vals, h.ofString(head));
    OneSegment(h, vals, x, name, digits, key);
  }

  lemma OneSegment<V>(h: Host<V>, vals: V, cur: V, name: string, digits: string, key: Expr)
    ensures SegsMeaning(h, vals, cur, Field(name, End)) == Property(h, cur, h.ofString(name))
    ensures SegsMeaning(h, vals, cur, Position(digits, End)) == Property(h, cur, h.ofString(digits))
    ensures SegsMeaning(h, vals, cur, Lookup("", key, "", End)) == Property(h, cur, Meaning(h, vals, key))
  {
  }

  lemma OnePath<V>(h: Host<V>, vals: V, head: string, segs: Segs)
    requires WellFormed(Path(head, segs))
    ensures Resolve(h, vals, head + PrintSegs(segs)) == Meaning(h, vals, Path(head, segs))
  {
    hide Resolve;
    BlankEmpty();
    ResolvePrinted(h, vals, "", Path(head, segs), "");
    assert "" + (head + PrintSegs(segs)) + "" == head + PrintSegs(segs);
  }

  lemma LookupTexts(head: string, name: string, digits: string, text: string, key: Expr)
    requires Print(key) == text
    ensures head + PrintSegs(End) == head
    ensures head + PrintSegs(Field(name, End)) == head + "." + name
    ensures head + PrintSegs(Position(digits, End)) == head + "." + digits
    ensures head + PrintSegs(Lookup("", key, "", End)) == head + "[" + text + "]"
  {
    hide Print;
    assert "." + name + "" == "." + name && head + ("." + name) == head + "." + name;
    assert "." + digits + "" == "." + digits && head + ("." + digits) == head + "." + digits;
    assert "" + text + "" == text;
    assert head + ("[" + text + "]" + "") == head + "[" + text + "]";
  }

  /** The four keywords, and texts in either quotes. */
  lemma AtomsSpelledOut<V>(h: Host<V>, vals: V, body: string)
    requires Inert(body)
    ensures Resolve(h, vals, "true") == h.ofBool(true) && Resolve(h, vals, "false") == h.ofBool(false)
    ensures Resolve(h, vals, "null") == h.nul && Resolve(h, vals, "undefined") == h.undef
    ensures Resolve(h, vals, "\"" + body + "\"") == Resolve(h, vals, "'" + body + "'") == h.ofString(body)
  {
    hide Resolve, Inert;
    OneAtom(h, vals, Keyword("true"));
    OneAtom(h, vals, Keyword("false"));
    OneAtom(h, vals, Keyword("null"));
    OneAtom(h, vals, Keyword("undefined"));
    OneAtom(h, vals, Literal('"', body));
    OneAtom(h, vals, Literal('\'', body));
  }

  lemma OneAtom<V>(h: Host<V>, vals: V, e: Expr)
    requires WellFormed(e)
    ensures Resolve(h, vals, Print(e)) == Meaning(h, vals, e)
  {
    hide *;
    BlankEmpty();
    ResolvePrinted(h, vals, "", e, "");
    assert "" + Print(e) + "" == Print(e);
  }
}
