/** Small shared vocabulary: optional values, results and substring search. */
module Common {

  datatype Option<+T> = None | Some(value: T)

  datatype Result<+T, +E> = Ok(value: T) | Err(error: E)

  type Byte = b: int | 0 <= b < 256

  /** `sub` occurs in `s` starting at index `at`. */
  predicate OccursAt<T(==)>(sub: seq<T>, s: seq<T>, at: nat) {
    at + |sub| <= |s| && s[at..at + |sub|] == sub
  }

  /** Substring containment, the `in` of Python strings. */
  predicate Occurs<T(==)>(sub: seq<T>, s: seq<T>) {
    exists at: nat | at <= |s| :: OccursAt(sub, s, at)
  }

  lemma OccursExtends<T>(sub: seq<T>, s: seq<T>, pre: seq<T>, post: seq<T>)
    requires Occurs(sub, s)
    ensures Occurs(sub, pre + s + post)
  {
    var at: nat :| at <= |s| && OccursAt(sub, s, at);
    assert (pre + s + post)[|pre| + at..|pre| + at + |sub|] == s[at..at + |sub|];
    assert OccursAt(sub, pre + s + post, |pre| + at);
  }

  lemma OccursMiddle<T>(pre: seq<T>, sub: seq<T>, post: seq<T>)
    ensures Occurs(sub, pre + sub + post)
  {
    assert OccursAt(sub, sub, 0);
    OccursExtends(sub, sub, pre, post);
  }

  lemma OccursTransitive<T>(a: seq<T>, b: seq<T>, c: seq<T>)
    requires Occurs(a, b) && Occurs(b, c)
    ensures Occurs(a, c)
  {
    var at: nat :| at <= |c| && OccursAt(b, c, at);
    OccursExtends(a, b, c[..at], c[at + |b|..]);
    assert c[..at] + b + c[at + |b|..] == c;
  }

  /** Containment is being one of three consecutive parts. */
  lemma OccursExactly<T>(sub: seq<T>, s: seq<T>)
    ensures Occurs(sub, s) <==> exists a, b :: s == a + sub + b
  {
    if Occurs(sub, s) {
      var at: nat :| at <= |s| && OccursAt(sub, s, at);
      assert s == s[..at] + sub + s[at + |sub|..];
    }
    if a, b :| s == a + sub + b {
      assert OccursAt(sub, s, |a|);
    }
  }

  lemma SubSlice<T>(s: seq<T>, a: nat, b: nat, i: nat, j: nat)
    requires a <= b <= |s| && i <= j <= b - a
    ensures s[a..b][i..j] == s[a + i..a + j]
  {
    var left, right := s[a..b][i..j], s[a + i..a + j];
    assert |left| == |right| && forall k | 0 <= k < |left| :: left[k] == right[k];
  }

  /** `str.strip` for a given white-space class. */
  function Strip(space: char -> bool, s: string): string {
    if s != "" && space(s[0]) then Strip(space, s[1..])
    else if s != "" && space(s[|s| - 1]) then Strip(space, s[..|s| - 1])
    else s
  }

  /** Stripping takes off the white space at both ends and nothing else. */
  lemma {:induction false} StripExactly(space: char -> bool, s: string) returns (a: string, b: string)
    ensures s == a + Strip(space, s) + b
    ensures (forall c | c in a :: space(c)) && (forall c | c in b :: space(c))
    ensures var r := Strip(space, s); r != "" ==> !space(r[0]) && !space(r[|r| - 1])
    decreases |s|
  {
    if s != "" && space(s[0]) {
      a, b := StripExactly(space, s[1..]);
      a := [s[0]] + a;
      assert s == [s[0]] + s[1..];
    } else if s != "" && space(s[|s| - 1]) {
      a, b := StripExactly(space, s[..|s| - 1]);
      b := b + [s[|s| - 1]];
      assert s == s[..|s| - 1] + [s[|s| - 1]];
    } else {
      a, b := "", "";
    }
  }

  lemma StripBlank(space: char -> bool, s: string)
    ensures Strip(space, s) == "" <==> forall c | c in s :: space(c)
  {
    var a, b := StripExactly(space, s);
    var r := Strip(space, s);
    if r != "" { assert s[|a|] == r[0]; }
  }

  function JoinSpaced(words: seq<string>): string {
    if words == [] then "" else if |words| == 1 then words[0] else words[0] + " " + JoinSpaced(words[1..])
  }
}
