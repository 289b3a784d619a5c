/** The scenario's `System.Random`, seen only through the contract of `Next(lo, hi)`. */
module Randomizer {

  /** The raw values a seeded generator yields, in order: draw number `n` is `oracle(n)`.
      The generator's algorithm and seeding are not modelled. */
  type Oracle = nat -> nat

  /** The value of one draw and the number of draws consumed after it. */
  datatype Draw = Draw(value: int, used: nat)

  /** `Random.Next(lo, hi)` made as draw number `used`: one draw is consumed, the value lies
      in `[lo, hi)`, and it is `lo` when the range is empty. `lo > hi` throws in the
      C# code and is excluded here. */
  function Next(oracle: Oracle, used: nat, lo: int, hi: int): (d: Draw)
    requires lo <= hi
    ensures d.used == used + 1
    ensures lo == hi ==> d.value == lo
    ensures lo < hi ==> lo <= d.value < hi
  {
    Draw(if lo == hi then lo else lo + oracle(used) % (hi - lo), used + 1)
  }

  /** Two generators that yield the same values at draws `from` up to (excluding) `to`. */
  ghost predicate Agree(o1: Oracle, o2: Oracle, from: nat, to: nat) {
    forall n :: from <= n < to ==> o1(n) == o2(n)
  }

  /** The abstraction loses no behaviour: every value `Next` may return is returned by some
      generator. */
  lemma NextCoversRange(used: nat, lo: int, hi: int, v: int)
    requires lo <= v < hi
    ensures exists oracle: Oracle :: Next(oracle, used, lo, hi).value == v
  {
    var oracle: Oracle := n => v - lo;
    assert Next(oracle, used, lo, hi).value == v;
  }

  /** `Next` reads nothing but its own draw. */
  lemma NextReadsOneDraw(o1: Oracle, o2: Oracle, used: nat, lo: int, hi: int)
    requires lo <= hi
    requires Agree(o1, o2, used, used + 1)
    ensures Next(o1, used, lo, hi) == Next(o2, used, lo, hi)
  {
    assert o1(used) == o2(used);
  }
}
