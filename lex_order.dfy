/**
 * Python compares `str` values code point by code point, a shorter string
 * coming first when it is a prefix of the longer one. `sorted(xs)[0]` is
 * therefore the least element of `xs` under that order.
 */
module LexOrder {

  /** `a <= b` on Python strings. */
  predicate LexLe(a: string, b: string)
    decreases |a|
  {
    |a| == 0 || (|b| > 0 && (a[0] < b[0] || (a[0] == b[0] && LexLe(a[1..], b[1..]))))
  }

  lemma {:induction false} LexLeReflexive(a: string)
    ensures LexLe(a, a)
    decreases |a|
  {
    if |a| > 0 {
      LexLeReflexive(a[1..]);
    }
  }

  lemma {:induction false} LexLeTotal(a: string, b: string)
    ensures LexLe(a, b) || LexLe(b, a)
    decreases |a|
  {
    if |a| > 0 && |b| > 0 && a[0] == b[0] {
      LexLeTotal(a[1..], b[1..]);
    }
  }

  lemma {:induction false} LexLeAntisymmetric(a: string, b: string)
    ensures LexLe(a, b) && LexLe(b, a) ==> a == b
    decreases |a|
  {
    if |a| > 0 && |b| > 0 && a[0] == b[0] {
      LexLeAntisymmetric(a[1..], b[1..]);
      if a[1..] == b[1..] {
        assert a == [a[0]] + a[1..] && b == [b[0]] + b[1..];
      }
    }
  }

  lemma {:induction false} LexLeTransitive(a: string, b: string, c: string)
    ensures LexLe(a, b) && LexLe(b, c) ==> LexLe(a, c)
    decreases |a|
  {
    if |a| > 0 && |b| > 0 && |c| > 0 {
      LexLeTransitive(a[1..], b[1..], c[1..]);
    }
  }

  /** `sorted(xs)[0]`: an element of `xs` below or equal to every element of `xs`. */
  function Min(xs: seq<string>): (m: string)
    requires |xs| > 0
    ensures m in xs
    ensures forall x | x in xs :: LexLe(m, x)
    decreases |xs|
  {
    if |xs| == 1 then
      LexLeReflexive(xs[0]);
      xs[0]
    else
      var rest := Min(xs[1..]);
      LexLeTotal(xs[0], rest);
      LexLeReflexive(xs[0]);
      forall x | x in xs[1..] ensures LexLe(xs[0], rest) ==> LexLe(xs[0], x) {
        LexLeTransitive(xs[0], rest, x);
      }
      assert forall x | x in xs :: x == xs[0] || x in xs[1..];
      if LexLe(xs[0], rest) then xs[0] else rest
  }

  /**
   * The least element is unique, so `Min` is exactly the first element of
   * the sorted list whatever order `xs` came in.
   */
  lemma MinUnique(xs: seq<string>, m: string)
    requires m in xs && forall x | x in xs :: LexLe(m, x)
    ensures m == Min(xs)
  {
    LexLeAntisymmetric(m, Min(xs));
  }

  /** The minimum depends only on which strings occur, not on their order or repetition. */
  lemma MinOfSameElements(xs: seq<string>, ys: seq<string>)
    requires |xs| > 0
    requires forall x :: x in xs <==> x in ys
    ensures |ys| > 0 && Min(xs) == Min(ys)
  {
    assert xs[0] in ys;
    MinUnique(ys, Min(xs));
  }
}
