/** Two rearrangements of sequences that loops over lists need. */
module Sequences {
  lemma AppendAssoc<T>(a: seq<T>, b: seq<T>, c: seq<T>)
    ensures a + (b + c) == a + b + c
  {
  }

  lemma TailFrom<T>(v: seq<T>, k: nat)
    requires k < |v|
    ensures v[k..][0] == v[k] && v[k..][1..] == v[k + 1..] && v[k..] != []
  {
  }
}
