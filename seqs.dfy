/** Small facts about sequence concatenation, stated once so that proofs elsewhere stay cheap. */
module Seqs {

  lemma ConsAppend<X>(x: X, p: seq<X>, q: seq<X>)
    ensures [x] + (p + q) == ([x] + p) + q
  {
  }

  lemma AppendAssoc<X>(p: seq<X>, q: seq<X>, r: seq<X>)
    ensures (p + q) + r == p + (q + r)
  {
  }

  lemma HeadTailAppend<X>(p: seq<X>, q: seq<X>)
    requires p != []
    ensures (p + q)[0] == p[0] && (p + q)[1..] == p[1..] + q
  {
  }

  lemma HeadTail<X>(p: seq<X>)
    requires p != []
    ensures p == [p[0]] + p[1..]
  {
  }
}
