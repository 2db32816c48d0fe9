/**
 * Python's `<` on lists and strings: the first differing position decides,
 * and a proper prefix is smaller. `StringLess` compares strings by code
 * point and `KeyLess` compares lists of strings, which is how `sorted`
 * orders the masked strands of a complex.
 */
module Lex {

  import opened Sorting

  function LexLess<T>(a: seq<T>, b: seq<T>, less: (T, T) -> bool): bool
    decreases |a|
  {
    if |a| == 0 then |b| > 0
    else if |b| == 0 then false
    else if less(a[0], b[0]) then true
    else if less(b[0], a[0]) then false
    else LexLess(a[1..], b[1..], less)
  }

  lemma {:induction false} LexIrreflexive<T(!new)>(a: seq<T>, less: (T, T) -> bool)
    requires StrictTotalOrder(less)
    ensures !LexLess(a, a, less)
    decreases |a|
  {
    if |a| > 0 {
      LexIrreflexive(a[1..], less);
    }
  }

  lemma {:induction false} LexTransitive<T(!new)>(a: seq<T>, b: seq<T>, c: seq<T>, less: (T, T) -> bool)
    requires StrictTotalOrder(less)
    requires LexLess(a, b, less) && LexLess(b, c, less)
    ensures LexLess(a, c, less)
    decreases |a|
  {
    if |a| > 0 && !less(a[0], b[0]) && !less(b[0], c[0]) {
      assert a[0] == b[0] && b[0] == c[0];
      LexTransitive(a[1..], b[1..], c[1..], less);
    }
  }

  lemma {:induction false} LexTotal<T(!new)>(a: seq<T>, b: seq<T>, less: (T, T) -> bool)
    requires StrictTotalOrder(less)
    requires a != b
    ensures LexLess(a, b, less) || LexLess(b, a, less)
    decreases |a|
  {
    if |a| > 0 && |b| > 0 && !less(a[0], b[0]) && !less(b[0], a[0]) {
      assert a[0] == b[0];
      assert a == [a[0]] + a[1..] && b == [b[0]] + b[1..];
      LexTotal(a[1..], b[1..], less);
    }
  }

  function CharLess(a: char, b: char): bool {
    a < b
  }

  /** `<` on Python strings. */
  function StringLess(a: string, b: string): bool {
    LexLess(a, b, CharLess)
  }

  /** `<` on Python lists of strings. */
  function KeyLess(a: seq<string>, b: seq<string>): bool {
    LexLess(a, b, StringLess)
  }

  lemma StringLessOrder()
    ensures StrictTotalOrder(StringLess)
  {
    assert StrictTotalOrder(CharLess);
    forall a: string
      ensures !StringLess(a, a)
    {
      LexIrreflexive(a, CharLess);
    }
    forall a: string, b: string, c: string | StringLess(a, b) && StringLess(b, c)
      ensures StringLess(a, c)
    {
      LexTransitive(a, b, c, CharLess);
    }
    forall a: string, b: string | a != b
      ensures StringLess(a, b) || StringLess(b, a)
    {
      LexTotal(a, b, CharLess);
    }
  }

  /** The order `sorted` uses on masked strands is a strict total order. */
  lemma KeyLessOrder()
    ensures StrictTotalOrder(KeyLess)
  {
    StringLessOrder();
    forall a: seq<string>
      ensures !KeyLess(a, a)
    {
      LexIrreflexive(a, StringLess);
    }
    forall a: seq<string>, b: seq<string>, c: seq<string> | KeyLess(a, b) && KeyLess(b, c)
      ensures KeyLess(a, c)
    {
      LexTransitive(a, b, c, StringLess);
    }
    forall a: seq<string>, b: seq<string> | a != b
      ensures KeyLess(a, b) || KeyLess(b, a)
    {
      LexTotal(a, b, StringLess);
    }
  }
}
