/** Sequence helpers shared by the modules. */
module Collections {

  /** `f` applied to every element, in order. */
  function MapSeq<A, B>(f: A -> B, xs: seq<A>): seq<B> {
    seq(|xs|, k requires 0 <= k < |xs| => f(xs[k]))
  }

  /** The strings of `ws` one after another (`"".join(ws)`). */
  function Concat(ws: seq<string>): string {
    if ws == [] then [] else ws[0] + Concat(ws[1..])
  }

  lemma MapSeqStep<A, B>(f: A -> B, xs: seq<A>, index: nat)
    requires index < |xs|
    ensures MapSeq(f, xs[..index + 1]) == MapSeq(f, xs[..index]) + [f(xs[index])]
  {
  }

  lemma MapSeqAppend<A, B>(f: A -> B, xs: seq<A>, x: A)
    ensures MapSeq(f, xs + [x]) == MapSeq(f, xs) + [f(x)]
  {
  }
}
