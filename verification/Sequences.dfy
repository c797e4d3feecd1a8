/** Selections from sequences: what a filtering loop keeps, and in which order. */
module Sequences {

  /** `out` is what stands in `raw` at the increasing positions `at`. */
  ghost predicate Picked<T>(raw: seq<T>, out: seq<T>, at: seq<nat>) {
    && |at| == |out|
    && (forall k | 0 <= k < |at| :: at[k] < |raw| && out[k] == raw[at[k]])
    && forall k, l | 0 <= k < l < |at| :: at[k] < at[l]
  }

  lemma NothingPicked<T>()
    ensures Picked<T>([], [], [])
  {
  }

  /** One more element is picked or passed over. */
  lemma PickedStep<T>(raw: seq<T>, out: seq<T>, at: seq<nat>, x: T, pick: bool)
    requires Picked(raw, out, at)
    ensures var more := if pick then at + [|raw|] else at;
            && Picked(raw + [x], if pick then out + [x] else out, more)
            && (forall i: nat | i < |raw| :: i in more <==> i in at)
            && (|raw| in more <==> pick)
  {
  }
}
