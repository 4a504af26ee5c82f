/** Order-preserving selection from a sequence: the shape of
    `Array.prototype.filter`. */
module Sequences {
  /** `a` is `b` with some elements left out, the rest kept in order. */
  predicate SubsequenceOf<T(==)>(a: seq<T>, b: seq<T>)
    decreases |b|
  {
    if |a| == 0 then true
    else if |b| == 0 then false
    else if a[|a| - 1] == b[|b| - 1] then SubsequenceOf(a[..|a| - 1], b[..|b| - 1])
    else SubsequenceOf(a, b[..|b| - 1])
  }

  lemma {:induction false} SubsequenceDropLast<T>(a: seq<T>, b: seq<T>)
    requires |a| > 0 && SubsequenceOf(a, b)
    ensures SubsequenceOf(a[..|a| - 1], b)
    decreases |b|
  {
    var a' := a[..|a| - 1];
    var b' := b[..|b| - 1];
    if |a'| > 0 {
      assert a'[..|a'| - 1] == a[..|a| - 2];
      if a[|a| - 1] == b[|b| - 1] {
        assert SubsequenceOf(a', b');
        if a'[|a'| - 1] == b[|b| - 1] {
          SubsequenceDropLast(a', b');
        }
      } else {
        SubsequenceDropLast(a, b');
        if a'[|a'| - 1] == b[|b| - 1] {
          SubsequenceDropLast(a', b');
        }
      }
    }
  }

  /** Appending to the larger sequence keeps the relation. */
  lemma SubsequenceExtend<T>(a: seq<T>, b: seq<T>, x: T)
    requires SubsequenceOf(a, b)
    ensures SubsequenceOf(a, b + [x])
  {
    var b' := b + [x];
    assert b'[..|b'| - 1] == b;
    if |a| > 0 && a[|a| - 1] == x {
      SubsequenceDropLast(a, b);
    }
  }

  /** Appending the same element to both keeps the relation. */
  lemma SubsequenceAppendBoth<T>(a: seq<T>, b: seq<T>, x: T)
    requires SubsequenceOf(a, b)
    ensures SubsequenceOf(a + [x], b + [x])
  {
    var a' := a + [x];
    var b' := b + [x];
    assert a'[..|a'| - 1] == a && b'[..|b'| - 1] == b;
  }

  /** Element `j` of `b` sits at `|a| + j` in `a + b`. */
  lemma ConcatAt<T>(a: seq<T>, b: seq<T>, n: nat, j: nat)
    requires n == |a| && j < |b|
    ensures n + j < |a + b| && (a + b)[n + j] == b[j]
  {
  }

  /** An element of the first part of a concatenation keeps its index. */
  lemma ConcatHeadAt<T>(a: seq<T>, b: seq<T>, i: nat)
    requires i < |a|
    ensures (a + b)[i] == a[i]
  {
  }

  /** `ConcatAt` for a sequence known to be the concatenation. */
  lemma ConcatPick<T>(whole: seq<T>, a: seq<T>, b: seq<T>, n: nat, j: nat)
    requires whole == a + b && n == |a| && j < |b|
    ensures n + j < |whole| && whole[n + j] == b[j]
  {
  }
}
