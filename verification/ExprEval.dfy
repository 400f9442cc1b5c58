/** The template expression evaluator of the component runtime
    (LP/assets/9367c065-0eb8-43d7-96aa-cd5bd931f686.js). */
module ExprEval {
  import opened Common

  /** What the evaluator takes from JavaScript itself: the values, the conversions of literals, the
      two equalities, truthiness and property lookup. */
  datatype Host<!V> = Host(
    undef: V, nul: V, ofBool: bool -> V, ofNumber: string -> V, ofString: string -> V,
    nullish: V -> bool, truthy: V -> bool,
    strictEq: (V, V) -> bool, looseEq: (V, V) -> bool, get: (V, V) -> V)
  {
    function Get(cur: V, key: V): V {
      if nullish(cur) then undef else get(cur, key)
    }

    function Compare(op: EqOp, l: V, r: V): V {
      match op
      case StrictEq => ofBool(strictEq(l, r))
      case StrictNe => ofBool(!strictEq(l, r))
      case LooseEq => ofBool(looseEq(l, r))
      case LooseNe => ofBool(!looseEq(l, r))
    }
  }

  datatype EqOp = StrictEq | StrictNe | LooseEq | LooseNe {
    function Text(): string {
      match this
      case StrictEq => "==="
      case StrictNe => "!=="
      case LooseEq => "=="
      case LooseNe => "!="
    }
  }

  // ----- Lexical classes -----

  predicate IsSpace(c: char) {
    || c == ' ' || '\t' <= c <= '\r' || c == '\U{00A0}' || c == '\U{1680}' || '\U{2000}' <= c <= '\U{200A}'
    || c == '\U{2028}' || c == '\U{2029}' || c == '\U{202F}' || c == '\U{205F}' || c == '\U{3000}' || c == '\U{FEFF}'
  }

  predicate IdentStart(c: char) {
    'A' <= c <= 'Z' || 'a' <= c <= 'z' || c == '_' || c == '$'
  }

  predicate IsDigit(c: char) {
    '0' <= c <= '9'
  }

  predicate IdentPart(c: char) {
    IdentStart(c) || IsDigit(c)
  }

  function TrimLeft(s: string): string {
    if s != "" && IsSpace(s[0]) then TrimLeft(s[1..]) else s
  }

  function TrimRight(s: string): string {
    if s != "" && IsSpace(s[|s| - 1]) then TrimRight(s[..|s| - 1]) else s
  }

  function Trim(s: string): (r: string)
    ensures |r| <= |s|
  {
    TrimLeftLength(s);
    TrimRightLength(TrimLeft(s));
    TrimRight(TrimLeft(s))
  }

  lemma TrimLeftLength(s: string)
    ensures |TrimLeft(s)| <= |s|
  {
  }

  lemma TrimRightLength(s: string)
    ensures |TrimRight(s)| <= |s|
  {
  }

  /** Length of the longest prefix whose characters satisfy `p`. */
  function Span(p: char -> bool, s: string): (n: nat)
    ensures n <= |s| && (forall i | 0 <= i < n :: p(s[i])) && (n < |s| ==> !p(s[n]))
  {
    if s != "" && p(s[0]) then 1 + Span(p, s[1..]) else 0
  }

  /** Length of the identifier at the front of `s`, 0 when there is none. */
  function IdentLength(s: string): (n: nat)
    ensures n <= |s|
  {
    if s != "" && IdentStart(s[0]) then Span(c => IdentPart(c), s) else 0
  }

  function DigitsLength(s: string): (n: nat)
    ensures n <= |s|
  {
    Span(c => IsDigit(c), s)
  }

  /** The whole string is an optionally signed decimal number. */
  predicate IsNumber(s: string) {
    var t := if s != "" && s[0] == '-' then s[1..] else s;
    var n := DigitsLength(t);
    n > 0 && (n == |t| || (t[n] == '.' && n + 1 < |t| && DigitsLength(t[n + 1..]) == |t| - n - 1))
  }

  predicate IsKeyword(s: string) {
    s == "true" || s == "false" || s == "null" || s == "undefined"
  }

  // ----- Bracket depth -----

  datatype Family = Round | Square | Both

  function Delta(f: Family, c: char): int {
    if (c == '(' && f != Square) || (c == '[' && f != Round) then 1
    else if (c == ')' && f != Square) || (c == ']' && f != Round) then -1
    else 0
  }

  /** Opening minus closing brackets of a family. */
  function Depth(f: Family, s: string): int {
    if s == "" then 0 else Depth(f, s[..|s| - 1]) + Delta(f, s[|s| - 1])
  }

  // ----- The three scans, declaratively -----

  /** No closing parenthesis before the last character brings the depth to zero. */
  predicate ParensWrapWhole(expr: string) {
    forall i | 0 <= i < |expr| - 1 :: expr[i] == ')' ==> Depth(Round, expr[..i + 1]) != 0
  }

  /** An equality operator starts at `i`, outside all brackets and after some operand text. */
  predicate OperatorAt(expr: string, i: nat)
    requires i < |expr|
  {
    && (expr[i] == '=' || expr[i] == '!') && i + 1 < |expr| && expr[i + 1] == '='
    && Depth(Both, expr[..i]) == 0
    && !(i > 0 && (expr[i - 1] == '=' || expr[i - 1] == '!'))
    && Trim(expr[..i]) != ""
  }

  function OperatorText(expr: string, i: nat): (op: EqOp)
    requires i + 1 < |expr| && (expr[i] == '=' || expr[i] == '!') && expr[i + 1] == '='
    ensures i + |op.Text()| <= |expr| && expr[i..i + |op.Text()|] == op.Text()
  {
    if i + 2 < |expr| && expr[i + 2] == '=' then (if expr[i] == '=' then StrictEq else StrictNe)
    else if expr[i] == '=' then LooseEq else LooseNe
  }

  /** The first operator at or after `i`. */
  function FirstOperator(expr: string, i: nat): (r: Option<nat>)
    requires i <= |expr|
    ensures r.Some? ==> i <= r.value < |expr| && OperatorAt(expr, r.value)
    ensures r.Some? ==> forall j | i <= j < r.value :: !OperatorAt(expr, j)
    ensures r.None? ==> forall j | i <= j < |expr| :: !OperatorAt(expr, j)
    decreases |expr| - i
  {
    if i == |expr| then None else if OperatorAt(expr, i) then Some(i) else FirstOperator(expr, i + 1)
  }

  /** The bracket that closes `depth` open square brackets, scanning from `j`. */
  function CloseFrom(expr: string, j: nat, depth: nat): (r: Option<nat>)
    requires depth > 0
    ensures r.Some? ==> j <= r.value < |expr|
    decreases |expr| - j
  {
    if j >= |expr| then None
    else if expr[j] == '[' then CloseFrom(expr, j + 1, depth + 1)
    else if expr[j] == ']' then if depth == 1 then Some(j) else CloseFrom(expr, j + 1, depth - 1)
    else CloseFrom(expr, j + 1, depth)
  }

  // ----- The evaluator -----

  /** Terminates on every string: each recursive call gets a strictly shorter one. */
  function Resolve<V>(h: Host<V>, vals: V, src: string): V
    decreases |src|, 2, 0
  {
    var expr := Trim(src);
    if expr == "" then h.undef
    else if expr[0] == '(' && expr[|expr| - 1] == ')' && ParensWrapWhole(expr) then
      Resolve(h, vals, expr[1..|expr| - 1])
    else ResolveBare(h, vals, expr)
  }

  /** An equality at the first operator, a negation, or an atom. */
  function ResolveBare<V>(h: Host<V>, vals: V, expr: string): V
    requires expr != ""
    decreases |expr|, 1, 2
  {
    match FirstOperator(expr, 0)
    case Some(i) =>
      var op := OperatorText(expr, i);
      h.Compare(op, Resolve(h, vals, expr[..i]), Resolve(h, vals, expr[i + |op.Text()|..]))
    case None =>
      if expr[0] == '!' then h.ofBool(!h.truthy(Resolve(h, vals, expr[1..])))
      else ResolveAtom(h, vals, expr)
  }

  /** Keywords, numbers and string literals; anything else is a path. */
  function ResolveAtom<V>(h: Host<V>, vals: V, expr: string): V
    decreases |expr|, 1, 1
  {
    if expr == "true" then h.ofBool(true)
    else if expr == "false" then h.ofBool(false)
    else if expr == "null" then h.nul
    else if expr == "undefined" then h.undef
    else if IsNumber(expr) then h.ofNumber(expr)
    else if |expr| >= 2 && (expr[0] == '"' || expr[0] == '\'') && expr[|expr| - 1] == expr[0] then
      h.ofString(expr[1..|expr| - 1])
    else ResolvePath(h, vals, expr)
  }

  function ResolvePath<V>(h: Host<V>, vals: V, expr: string): V
    decreases |expr|, 1, 0
  {
    var n := IdentLength(expr);
    if n == 0 then h.undef else PathFrom(h, vals, expr, n, h.Get(vals, h.ofString(expr[..n])))
  }

  /** The rest of a path from position `i`, with value `cur` so far. */
  function PathFrom<V>(h: Host<V>, vals: V, expr: string, i: nat, cur: V): V
    requires 0 < i <= |expr|
    decreases |expr|, 0, |expr| - i
  {
    if i == |expr| then cur
    else if expr[i] == '.' then
      var rest := expr[i + 1..];
      var n := if IdentLength(rest) > 0 then IdentLength(rest) else DigitsLength(rest);
      if n == 0 then h.undef else PathFrom(h, vals, expr, i + 1 + n, h.Get(cur, h.ofString(rest[..n])))
    else if expr[i] == '[' then
      match CloseFrom(expr, i + 1, 1)
      case None => h.undef
      case Some(j) => PathFrom(h, vals, expr, j + 1, h.Get(cur, Resolve(h, vals, expr[i + 1..j])))
    else h.undef
  }

  // ----- The loops of the source -----

  lemma DepthStep(f: Family, s: string, i: nat)
    requires i < |s|
    ensures Depth(f, s[..i + 1]) == Depth(f, s[..i]) + Delta(f, s[i])
  {
    assert s[..i + 1][..i] == s[..i];
  }

  method ParensWrapWholeLoop(expr: string) returns (r: bool)
    ensures r == ParensWrapWhole(expr)
  {
    var depth := 0;
    var i := 0;
    while i < |expr| - 1
      invariant 0 <= i && (i <= |expr| - 1 || i == 0)
      invariant i <= |expr| && depth == Depth(Round, expr[..i])
      invariant forall k | 0 <= k < i :: expr[k] == ')' ==> Depth(Round, expr[..k + 1]) != 0
    {
      DepthStep(Round, expr, i);
      if expr[i] == '(' {
        depth := depth + 1;
      } else if expr[i] == ')' {
        depth := depth - 1;
        if depth == 0 { return false; }
      }
      i := i + 1;
    }
    return true;
  }

  method FindTopLevelEqualityLoop(expr: string) returns (r: Option<nat>)
    ensures r == FirstOperator(expr, 0)
  {
    var depth := 0;
    var i := 0;
    while i < |expr|
      invariant 0 <= i <= |expr| && depth == Depth(Both, expr[..i])
      invariant FirstOperator(expr, i) == FirstOperator(expr, 0)
    {
      DepthStep(Both, expr, i);
      var c := expr[i];
      if c == '[' || c == '(' {
        depth := depth + 1;
      } else if c == ']' || c == ')' {
        depth := depth - 1;
      } else if depth == 0 && (c == '=' || c == '!') && i + 1 < |expr| && expr[i + 1] == '=' {
        if !(i > 0 && (expr[i - 1] == '=' || expr[i - 1] == '!')) && Trim(expr[..i]) != "" {
          return Some(i);
        }
      }
      i := i + 1;
    }
    return None;
  }

  /** The inner scan of a bracketed path segment. */
  method CloseLoop(expr: string, start: nat) returns (r: Option<nat>)
    requires start <= |expr|
    ensures r == CloseFrom(expr, start, 1)
  {
    var depth: nat := 1;
    var j := start;
    while j < |expr| && depth > 0
      invariant start <= j <= |expr| && depth > 0
      invariant CloseFrom(expr, j, depth) == CloseFrom(expr, start, 1)
      decreases |expr| - j
    {
      if expr[j] == '[' {
        depth := depth + 1;
      } else if expr[j] == ']' {
        if depth == 1 { return Some(j); }
        depth := depth - 1;
      }
      j := j + 1;
    }
    return None;
  }

  /** `resolvePath`: the loop over path segments that overwrites the current value. */
  method ResolvePathLoop<V>(h: Host<V>, vals: V, expr: string) returns (cur: V)
    ensures cur == ResolvePath(h, vals, expr)
    decreases |expr|, 1, 0
  {
    hide Resolve, CloseFrom, IdentLength, DigitsLength;
    var n := IdentLength(expr);
    if n == 0 { return h.undef; }
    cur := h.Get(vals, h.ofString(expr[..n]));
    var i := n;
    while i < |expr|
      invariant 0 < i <= |expr|
      invariant PathFrom(h, vals, expr, i, cur) == ResolvePath(h, vals, expr)
    {
      if expr[i] == '.' {
        var rest := expr[i + 1..];
        var m := IdentLength(rest);
        if m == 0 { m := DigitsLength(rest); }
        if m == 0 { return h.undef; }
        cur := h.Get(cur, h.ofString(rest[..m]));
        i := i + 1 + m;
      } else if expr[i] == '[' {
        var close := CloseLoop(expr, i + 1);
        if close.None? { return h.undef; }
        var key := ResolveMethod(h, vals, expr[i + 1..close.value]);
        cur := h.Get(cur, key);
        i := close.value + 1;
      } else {
        return h.undef;
      }
    }
  }

  /** `resolve` over those loops. */
  method ResolveMethod<V>(h: Host<V>, vals: V, src: string) returns (v: V)
    ensures v == Resolve(h, vals, src)
    decreases |src|, 2, 0
  {
    var expr := Trim(src);
    if expr == "" { return h.undef; }
    if expr[0] == '(' && expr[|expr| - 1] == ')' {
      var whole := ParensWrapWholeLoop(expr);
      if whole {
        v := ResolveMethod(h, vals, expr[1..|expr| - 1]);
        return;
      }
    }
    v := ResolveBareMethod(h, vals, expr);
  }

  method ResolveBareMethod<V>(h: Host<V>, vals: V, expr: string) returns (v: V)
    requires expr != ""
    ensures v == ResolveBare(h, vals, expr)
    decreases |expr|, 1, 2
  {
    var eq := FindTopLevelEqualityLoop(expr);
    if eq.Some? {
      var op := OperatorText(expr, eq.value);
      var l := ResolveMethod(h, vals, expr[..eq.value]);
      var r := ResolveMethod(h, vals, expr[eq.value + |op.Text()|..]);
      return h.Compare(op, l, r);
    }
    if expr[0] == '!' {
      v := ResolveMethod(h, vals, expr[1..]);
      return h.ofBool(!h.truthy(v));
    }
    v := ResolveAtomMethod(h, vals, expr);
  }

  method ResolveAtomMethod<V>(h: Host<V>, vals: V, expr: string) returns (v: V)
    ensures v == ResolveAtom(h, vals, expr)
    decreases |expr|, 1, 1
  {
    if expr == "true" { return h.ofBool(true); }
    if expr == "false" { return h.ofBool(false); }
    if expr == "null" { return h.nul; }
    if expr == "undefined" { return h.undef; }
    if IsNumber(expr) { return h.ofNumber(expr); }
    if |expr| >= 2 && (expr[0] == '"' || expr[0] == '\'') && expr[|expr| - 1] == expr[0] {
      return h.ofString(expr[1..|expr| - 1]);
    }
    v := ResolvePathLoop(h, vals, expr);
  }
}
