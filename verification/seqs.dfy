/** Small facts about sequences that the other modules' proofs lean on. */
module Seqs {

  /** Taking one more element of a sequence appends that element. */
  lemma TakeOneMore<T>(s: seq<T>, i: nat)
    requires i < |s|
    ensures s[..i + 1] == s[..i] + [s[i]]
  {
  }

  /** Moving the head of `ms` onto the end of `q` does not change `q + ms`. */
  lemma SnocThenRest<T>(q: seq<T>, ms: seq<T>)
    requires ms != []
    ensures (q + [ms[0]]) + ms[1..] == q + ms
  {
    assert ms == [ms[0]] + ms[1..];
  }

  /** A concatenation with a non-empty left part starts with that part's head. */
  lemma HeadOfConcat<T>(a: seq<T>, b: seq<T>)
    requires a != []
    ensures (a + b)[0] == a[0] && (a + b)[1..] == a[1..] + b
  {
  }

  /**
   * A prefix `r` of a suffix `l` of `s` is a slice of `s`, and what follows
   * it in `l` is what follows it in `s`.
   */
  lemma SliceOfSuffix<T>(s: seq<T>, l: seq<T>, r: seq<T>)
    requires |l| <= |s| && l == s[|s| - |l|..]
    requires |r| <= |l| && r == l[..|r|]
    ensures r == s[|s| - |l|..|s| - |l| + |r|]
    ensures s[|s| - |l| + |r|..] == l[|r|..]
  {
  }

  /** A non-empty sequence is its head followed by its tail. */
  lemma HeadAndTail<T>(s: seq<T>)
    requires s != []
    ensures s == [s[0]] + s[1..]
  {
  }

  /**
   * Two stretches that each keep "taken, then left" equal to "start, then
   * added" keep it when chained.
   */
  lemma ChainFifo<T>(t: seq<T>, q: seq<T>, q': seq<T>, s: seq<T>, rr: seq<T>, rb: seq<T>, ss: seq<T>)
    requires t + q' == q + s
    requires rr + rb == q' + ss
    ensures (t + rr) + rb == q + (s + ss)
  {
    calc {
      (t + rr) + rb;
      t + (rr + rb);
      t + (q' + ss);
      (t + q') + ss;
      (q + s) + ss;
    }
  }
}
