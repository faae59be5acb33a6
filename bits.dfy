/**
 * One-fact lemmas about 64-bit words, used by the flag, entry and rounding
 * proofs. Each states a single identity so that the solver sees one small
 * bit-vector problem at a time.
 */
module Bits {
  type Word = bv64

  lemma OrSets(d: Word, f: Word)
    ensures (d | f) & f == f
  {
  }

  lemma AndNotClears(d: Word, f: Word)
    ensures (d & !f) & f == 0
  {
  }

  lemma OrKeepsOthers(d: Word, f: Word)
    ensures (d | f) & !f == d & !f
  {
  }

  lemma AndNotKeepsOthers(d: Word, f: Word)
    ensures (d & !f) & !f == d & !f
  {
  }

  lemma OrIdempotent(d: Word, f: Word)
    ensures (d | f) | f == d | f
  {
  }

  lemma HasThenOrNoop(d: Word, f: Word)
    requires d & f == f
    ensures d | f == d
  {
  }

  lemma OrNoopThenHas(d: Word, f: Word)
    requires d | f == d
    ensures d & f == f
  {
  }

  lemma ClearedLacks(d: Word, f: Word)
    requires f != 0
    ensures (d & !f) & f != f
  {
  }

  lemma Or3First(a: Word, b: Word, c: Word)
    ensures (a | b | c) & a == a
  {
  }

  lemma Or3Second(a: Word, b: Word, c: Word)
    ensures (a | b | c) & b == b
  {
  }

  lemma Or3Third(a: Word, b: Word, c: Word)
    ensures (a | b | c) & c == c
  {
  }

  /** Clearing `off` then setting `on` leaves exactly `on` among the two, for disjoint `on` and `off`. */
  lemma PairOn(d: Word, off: Word, on: Word)
    requires off & on == 0
    ensures ((d & !off) | on) & (on | off) == on
  {
  }

  /** Setting `off` then clearing `on` leaves exactly `off` among the two, for disjoint `on` and `off`. */
  lemma PairOff(d: Word, off: Word, on: Word)
    requires off & on == 0
    ensures ((d | off) & !on) & (on | off) == off
  {
  }

  lemma JoinLow(phys: Word, f: Word, am: Word, fm: Word)
    requires am & fm == 0 && phys & !am == 0 && f & !fm == 0
    ensures (phys | f) & fm == f
  {
  }

  lemma JoinHigh(phys: Word, f: Word, am: Word, fm: Word)
    requires am & fm == 0 && phys & !am == 0 && f & !fm == 0
    ensures (phys | f) & am == phys
  {
  }

  lemma JoinBit(phys: Word, f: Word, p: Word, am: Word, fm: Word)
    requires am & fm == 0 && phys & !am == 0 && p & !fm == 0
    ensures (phys | f) & p == f & p
  {
  }

  lemma ReplaceLow(d: Word, f: Word, fm: Word)
    requires f & !fm == 0
    ensures ((d & !fm) | f) & fm == f
  {
  }

  lemma ReplaceHigh(d: Word, f: Word, fm: Word)
    ensures ((d & !fm) | f) & !fm == (d & !fm) | (f & !fm)
  {
  }

  lemma ReplaceKeepsRest(d: Word, f: Word, fm: Word)
    requires f & !fm == 0
    ensures ((d & !fm) | f) & !fm == d & !fm
  {
  }

  lemma ReplaceKeepsHigh(d: Word, f: Word, fm: Word, am: Word)
    requires f & !fm == 0 && am & fm == 0
    ensures ((d & !fm) | f) & am == d & am
  {
  }

  lemma ReplaceBit(d: Word, f: Word, fm: Word, p: Word)
    requires p & !fm == 0
    ensures ((d & !fm) | f) & p == f & p
  {
  }

  lemma PowerOfTwo(s: bv7)
    requires s < 64
    ensures (1 as Word) << s != 0
  {
  }

  lemma PowerOfTwoMask(s: bv7)
    requires s < 64
    ensures ((1 as Word) << s) & (((1 as Word) << s) - 1) == 0
  {
  }
}
