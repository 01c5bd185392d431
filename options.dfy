/** Optional values, standing for Java's nullable references and
    java.util.Optional, and the filter that keeps the present ones. */
module Options {

  datatype Option<T> = None | Some(value: T)

  /** The present values of xs in their order (a stream filtered on
      Objects::nonNull); never longer than xs. */
  function Somes<T>(xs: seq<Option<T>>): (r: seq<T>)
    ensures |r| <= |xs|
  {
    if xs == [] then []
    else (if xs[0].Some? then [xs[0].value] else []) + Somes(xs[1..])
  }

  /** The positions j >= from of the present values of xs, in increasing
      order: exactly the positions j >= from with xs[j] present. */
  function SomeIndices<T>(xs: seq<Option<T>>, from: nat): (r: seq<nat>)
    requires from <= |xs|
    ensures forall k :: 0 <= k < |r| ==> from <= r[k] < |xs| && xs[r[k]].Some?
    ensures forall k, l :: 0 <= k < l < |r| ==> r[k] < r[l]
    ensures forall j :: from <= j < |xs| && xs[j].Some? ==> j in r
    decreases |xs| - from
  {
    if from == |xs| then []
    else (if xs[from].Some? then [from] else []) + SomeIndices(xs, from + 1)
  }

  /** The filter keeps, position by position, the values found at SomeIndices:
      it is the subsequence of present values taken in the order of xs. */
  lemma {:induction false} SomesAtIndices<T>(xs: seq<Option<T>>, from: nat)
    requires from <= |xs|
    ensures |Somes(xs[from..])| == |SomeIndices(xs, from)|
    ensures forall k :: 0 <= k < |SomeIndices(xs, from)| ==>
      Somes(xs[from..])[k] == xs[SomeIndices(xs, from)[k]].value
    decreases |xs| - from
  {
    if from < |xs| {
      SomesAtIndices(xs, from + 1);
      assert xs[from..][1..] == xs[from + 1..];
    }
  }
}
