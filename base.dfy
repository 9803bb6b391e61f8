/** Option and Result, the errors the tokenizer can raise, and the suffix relation
    that describes the remainders the tokenizer hands back. */
module Base {

  /** An optional value; usable with `:-`, where None propagates. */
  datatype Option<+T> = None | Some(value: T) {
    predicate IsFailure() { None? }
    function PropagateFailure<U>(): Option<U>
      requires None?
    {
      None
    }
    function Extract(): T
      requires Some?
    {
      value
    }
  }

  /** The exceptions harlowe.py can raise while tokenizing. */
  datatype ParseError =
    | NestedHookNotParsed   // a bracket of a `[[[` run did not open a hook (AttributeError on a str)
    | VerbatimAtEnd         // a verbatim run closed by the last character (IndexError)
    | LinkLeftover          // a link segment was not fully tokenized (RuntimeError)
    | MultipleNestedTokens  // a bracket run produced no single hook (RuntimeError)

  /** Either a value or the exception that aborted the computation; usable with `:-`. */
  datatype Result<+T> = Ok(value: T) | Fail(error: ParseError) {
    predicate IsFailure() { Fail? }
    function PropagateFailure<U>(): Result<U>
      requires Fail?
    {
      Fail(error)
    }
    function Extract(): T
      requires Ok?
    {
      value
    }
  }

  /** `r` is a (not necessarily proper) suffix of `s`. */
  predicate IsSuffix(r: string, s: string) {
    |r| <= |s| && s[..|s| - |r|] + r == s
  }

  /** A suffix of a suffix is a suffix. */
  lemma SuffixTransitive(a: string, b: string, c: string)
    requires IsSuffix(a, b) && IsSuffix(b, c)
    ensures IsSuffix(a, c)
  {
    assert c[..|c| - |a|] == c[..|c| - |b|] + b[..|b| - |a|];
  }

  /** Dropping a prefix leaves a suffix. */
  lemma SuffixDrop(s: string, k: nat)
    requires k <= |s|
    ensures IsSuffix(s[k..], s)
  {
    assert s[..k] + s[k..] == s;
  }

  /** A suffix of `t` is a suffix of anything that ends with `t`. */
  lemma SuffixCons(r: string, t: string, u: string)
    requires IsSuffix(r, t)
    ensures IsSuffix(r, u + t)
  {
    assert (u + t)[..|u + t| - |r|] == u + t[..|t| - |r|];
  }

  /** `pat` occurs in `s` at index `i`. */
  predicate OccursAt(s: string, pat: string, i: nat) {
    i + |pat| <= |s| && s[i..i + |pat|] == pat
  }

  /** `s` contains no occurrence of `pat`. */
  predicate Avoids(s: string, pat: string) {
    forall i: nat | i <= |s| :: !OccursAt(s, pat, i)
  }

  lemma SliceOfSlice(s: string, a: nat, b: nat, i: nat, j: nat)
    requires a <= b <= |s| && i <= j <= b - a
    ensures s[a..b][i..j] == s[a + i..a + j]
  {
    forall k | 0 <= k < j - i
      ensures s[a..b][i..j][k] == s[a + i..a + j][k]
    {
    }
  }

  /** Avoiding a pattern is inherited by every substring. */
  lemma AvoidsSlice(s: string, pat: string, a: nat, b: nat)
    requires a <= b <= |s| && Avoids(s, pat)
    ensures Avoids(s[a..b], pat)
  {
    forall i: nat | OccursAt(s[a..b], pat, i)
      ensures false
    {
      SliceOfSlice(s, a, b, i, i + |pat|);
      assert OccursAt(s, pat, a + i);
    }
  }

  /** Length of the longest prefix of `s` all of whose characters satisfy `p`. */
  function RunLength(s: string, p: char -> bool): (n: nat)
    ensures n <= |s|
    ensures n < |s| ==> !p(s[n])
  {
    if s == [] || !p(s[0]) then 0 else 1 + RunLength(s[1..], p)
  }

  /** Every character of the run satisfies `p`. */
  lemma {:induction false} RunLengthAll(s: string, p: char -> bool)
    ensures forall i :: 0 <= i < RunLength(s, p) ==> p(s[i])
  {
    if s != [] && p(s[0]) {
      RunLengthAll(s[1..], p);
      forall i | 1 <= i < RunLength(s, p)
        ensures p(s[i])
      {
        assert s[i] == s[1..][i - 1];
      }
    }
  }

  /** A run that all of the first `k` characters satisfy and the next one (if any) does
      not has length `k`. */
  lemma {:induction false} RunLengthExact(s: string, k: nat, p: char -> bool)
    requires k <= |s| && (forall i :: 0 <= i < k ==> p(s[i])) && (k == |s| || !p(s[k]))
    ensures RunLength(s, p) == k
  {
    if k > 0 {
      assert forall i :: 0 <= i < |s[1..]| ==> s[1..][i] == s[i + 1];
      RunLengthExact(s[1..], k - 1, p);
    }
  }

  predicate NoNewline(s: string) { forall i :: 0 <= i < |s| ==> s[i] != '\n' }
}
