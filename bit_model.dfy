/** The value-level view of a bloom filter's bit array: a fixed-width
    sequence of bits, the positions an item hashes to, and what adding,
    clearing, AND and OR do to it. */
module Bits {

  /** Every listed position is a valid index into `b`. */
  predicate InRange(b: seq<bool>, ps: seq<nat>)
  {
    forall k :: 0 <= k < |ps| ==> ps[k] < |b|
  }

  /** Every listed position is in range and set: the filter's "maybe". */
  predicate AllSet(b: seq<bool>, ps: seq<nat>)
  {
    forall k :: 0 <= k < |ps| ==> ps[k] < |b| && b[ps[k]]
  }

  /** Sets the listed positions one after the other, as adding an item does. */
  function SetAll(b: seq<bool>, ps: seq<nat>): (r: seq<bool>)
    requires InRange(b, ps)
    ensures |r| == |b|
    decreases |ps|
  {
    if ps == [] then b else SetAll(b[ps[0] := true], ps[1..])
  }

  /** A bit array of width `n` with every bit clear. */
  function Cleared(n: nat): (r: seq<bool>)
    ensures |r| == n
  {
    seq(n, _ => false)
  }

  /** Bitwise AND of two arrays of the same width. */
  function And(a: seq<bool>, b: seq<bool>): (r: seq<bool>)
    requires |a| == |b|
    ensures |r| == |a|
  {
    seq(|a|, j requires 0 <= j < |a| => a[j] && b[j])
  }

  /** Bitwise OR of two arrays of the same width. */
  function Or(a: seq<bool>, b: seq<bool>): (r: seq<bool>)
    requires |a| == |b|
    ensures |r| == |a|
  {
    seq(|a|, j requires 0 <= j < |a| => a[j] || b[j])
  }

  /** Adding sets exactly the listed positions and keeps every other bit. */
  lemma {:induction false} SetAllAt(b: seq<bool>, ps: seq<nat>, j: nat)
    requires InRange(b, ps) && j < |b|
    ensures SetAll(b, ps)[j] == (b[j] || j in ps)
    decreases |ps|
  {
    if ps != [] {
      SetAllAt(b[ps[0] := true], ps[1..], j);
      assert ps == [ps[0]] + ps[1..];
    }
  }

  /** Adding only sets bits, never clears one. */
  lemma SetAllGrows(b: seq<bool>, ps: seq<nat>)
    requires InRange(b, ps)
    ensures forall j :: 0 <= j < |b| && b[j] ==> SetAll(b, ps)[j]
  {
    forall j | 0 <= j < |b| && b[j] ensures SetAll(b, ps)[j] {
      SetAllAt(b, ps, j);
    }
  }

  /** No false negatives: after adding, every position of the item is set. */
  lemma NoFalseNegative(b: seq<bool>, ps: seq<nat>)
    requires InRange(b, ps)
    ensures AllSet(SetAll(b, ps), ps)
  {
    forall k | 0 <= k < |ps| ensures SetAll(b, ps)[ps[k]] {
      SetAllAt(b, ps, ps[k]);
    }
  }

  /** Adding one item never turns another item's "maybe" into "no". */
  lemma SetAllMonotone(b: seq<bool>, ps: seq<nat>, qs: seq<nat>)
    requires InRange(b, ps) && AllSet(b, qs)
    ensures AllSet(SetAll(b, ps), qs)
  {
    SetAllGrows(b, ps);
  }

  /** Adding the same item twice leaves the bits as adding it once. */
  lemma SetAllIdempotent(b: seq<bool>, ps: seq<nat>)
    requires InRange(b, ps)
    ensures InRange(SetAll(b, ps), ps)
    ensures SetAll(SetAll(b, ps), ps) == SetAll(b, ps)
  {
    var once := SetAll(b, ps);
    forall j | 0 <= j < |b| ensures SetAll(once, ps)[j] == once[j] {
      SetAllAt(once, ps, j);
      SetAllAt(b, ps, j);
    }
  }

  /** A cleared array answers "no" for every item that has a position. */
  lemma ClearedRejects(n: nat, ps: seq<nat>)
    requires |ps| > 0
    ensures !AllSet(Cleared(n), ps)
  {
    assert ps[0] < n ==> !Cleared(n)[ps[0]];
  }

  /** The intersection says "maybe" exactly when both operands do. */
  lemma AndAllSet(a: seq<bool>, b: seq<bool>, ps: seq<nat>)
    requires |a| == |b|
    ensures AllSet(And(a, b), ps) <==> AllSet(a, ps) && AllSet(b, ps)
  {
    if AllSet(a, ps) && AllSet(b, ps) {
      forall k | 0 <= k < |ps| ensures And(a, b)[ps[k]] {
      }
    }
  }

  /** The union says "maybe" whenever either operand does. */
  lemma OrAllSet(a: seq<bool>, b: seq<bool>, ps: seq<nat>)
    requires |a| == |b|
    ensures AllSet(a, ps) || AllSet(b, ps) ==> AllSet(Or(a, b), ps)
  {
  }
}
