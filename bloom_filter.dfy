/** A fixed-width bloom filter over strings: K seeded hashes pick K bit
    positions per item; adding sets them, a query tests them, and a
    "maybe" can be settled by the authoritative word store. */
module Bloom {
  import opened Bits
  import Cdn

  /** The default width of the bit array: 81920 bits, ten kilobytes. */
  const DefaultWidth: nat := 81920

  class BloomFilter {
    /** Width of the bit array, fixed for the filter's lifetime. */
    const N: nat
    /** The bit array. */
    const bits: array<bool>
    /** Number of hash functions, K. */
    const numHashes: nat
    /** One seed per hash function. */
    const seeds: seq<nat>
    /** The base string hash, seeded by combining it with a seed; only its
        determinism is relied on. */
    const hasher: (string, nat) -> nat
    /** The store that settles a "maybe". */
    const server: Cdn.CDNServer
    /** The items the filter is guaranteed to report as "maybe": those added
        since it was created or last reset, less what `&` drops and plus
        what `|` brings in from the other filter. */
    ghost var Added: set<string>

    /** The filter's invariant: the array has width N, there is at least one
        hash function, the seeds are 0, 1, ..., K-1, and every item in
        `Added` reads as "maybe". */
    ghost predicate Valid()
      reads this, bits
    {
      && N > 0
      && bits.Length == N
      && numHashes > 0
      && |seeds| == numHashes
      && seeds == seq(numHashes, i => i)
      && (forall x :: x in Added ==> AllSet(bits[..], Slots(x)))
    }

    /** The K bit positions of `item`: each seeded hash reduced modulo N. */
    function Slots(item: string): (ps: seq<nat>)
      requires N > 0
      ensures |ps| == |seeds|
      ensures forall k :: 0 <= k < |ps| ==> ps[k] < N
    {
      seq(|seeds|, k requires 0 <= k < |seeds| => hasher(item, seeds[k]) % N)
    }

    /** Two filters built with the same width, K and hash. */
    ghost predicate Alike(other: BloomFilter)
    {
      other.N == N && other.numHashes == numHashes && other.hasher == hasher
    }

    /** Valid filters built alike compute the same positions for every item. */
    lemma AlikeSlots(other: BloomFilter)
      requires Valid() && other.Valid() && Alike(other)
      ensures forall x :: other.Slots(x) == Slots(x)
    {
      forall x ensures other.Slots(x) == Slots(x) {
        assert other.seeds == seeds;
      }
    }

    /** The filter's answer for `item`: all of its positions are set. */
    ghost predicate PossiblyIn(item: string)
      reads this, bits
      requires N > 0
    {
      AllSet(bits[..], Slots(item))
    }

    /** A filter of width `width` with `numHashes` hash functions and every
        bit clear. The seeds are 0, 1, ..., numHashes - 1. A filter without
        hash functions cannot be made. */
    constructor (width: nat, numHashes: nat, hasher: (string, nat) -> nat, server: Cdn.CDNServer)
      requires width > 0 && numHashes > 0
      ensures Valid() && fresh(bits)
      ensures N == width && this.numHashes == numHashes && seeds == seq(numHashes, i => i)
      ensures this.hasher == hasher && this.server == server
      ensures bits[..] == Cleared(width) && Added == {}
    {
      N := width;
      this.numHashes := numHashes;
      seeds := seq(numHashes, i => i);
      this.hasher := hasher;
      this.server := server;
      bits := new bool[width](_ => false);
      Added := {};
    }

    /** Sets the K positions of `item`. Only sets bits; re-adding changes
        nothing; afterwards `item` reads as "maybe", and so does every item
        that did before. */
    method Add(item: string)
      requires Valid()
      modifies this, bits
      ensures Valid()
      ensures bits[..] == SetAll(old(bits[..]), Slots(item))
      ensures forall j :: 0 <= j < N && old(bits[j]) ==> bits[j]
      ensures item in old(Added) ==> bits[..] == old(bits[..])
      ensures Added == old(Added) + {item}
      ensures PossiblyIn(item)
      ensures forall x :: old(PossiblyIn(x)) ==> PossiblyIn(x)
    {
      ghost var before := bits[..];
      ghost var ps := Slots(item);
      var i := 0;
      while i < |seeds|
        invariant 0 <= i <= |seeds|
        invariant |bits[..]| == N
        invariant SetAll(bits[..], ps[i..]) == SetAll(before, ps)
        modifies bits
      {
        ghost var cur := bits[..];
        var p := hasher(item, seeds[i]) % N;
        assert p == ps[i] && ps[i..] == [p] + ps[i + 1..];
        bits[p] := true;
        assert bits[..] == cur[p := true];
        i := i + 1;
      }
      assert ps[i..] == [];
      ghost var after := bits[..];
      NoFalseNegative(before, ps);
      SetAllGrows(before, ps);
      forall x | AllSet(before, Slots(x)) ensures AllSet(after, Slots(x)) {
        SetAllMonotone(before, ps, Slots(x));
      }
      if item in old(Added) {
        forall j | 0 <= j < N ensures after[j] == before[j] {
          SetAllAt(before, ps, j);
        }
      }
      Added := Added + {item};
    }

    /** True exactly when every position of `item` is set. */
    method PossiblyContains(item: string) returns (r: bool)
      requires Valid()
      ensures r == PossiblyIn(item)
      ensures item in Added ==> r
    {
      var i := 0;
      while i < |seeds|
        invariant 0 <= i <= |seeds|
        invariant forall k :: 0 <= k < i ==> bits[Slots(item)[k]]
      {
        var p := hasher(item, seeds[i]) % N;
        if !bits[p] {
          assert p == Slots(item)[i];
          return false;
        }
        i := i + 1;
      }
      return true;
    }

    /** "No" without querying the store when the filter says "no";
        otherwise the store's exact answer, at the cost of one query. */
    method CertainlyContains(item: string) returns (r: bool)
      requires Valid()
      modifies server
      ensures server.words == old(server.words)
      ensures !PossiblyIn(item) ==> !r && server.usageCount == old(server.usageCount)
      ensures PossiblyIn(item) ==>
                r == (item in old(server.words)) && server.usageCount == old(server.usageCount) + 1
      ensures r ==> item in server.words
    {
      var maybe := PossiblyContains(item);
      if !maybe {
        return false;
      }
      r := server.CheckWord(item);
    }

    /** Clears every bit; the width, K and the seeds stay as they were.
        Afterwards no item reads as "maybe". */
    method Reset()
      requires Valid()
      modifies this, bits
      ensures Valid()
      ensures bits[..] == Cleared(N) && Added == {}
      ensures forall x :: !PossiblyIn(x)
    {
      forall j | 0 <= j < bits.Length {
        bits[j] := false;
      }
      Added := {};
      assert bits[..] == Cleared(N);
      forall x ensures !PossiblyIn(x) {
        ClearedRejects(N, Slots(x));
      }
    }

    /** In-place intersection with a filter of the same width: the bits
        become the AND of both, so an item reads as "maybe" afterwards only
        if it did in both. Returns this filter. */
    method Intersect(other: BloomFilter) returns (r: BloomFilter)
      requires Valid() && other.Valid() && other.N == N
      requires other == this || other.bits != bits
      modifies this, bits
      ensures r == this && Valid()
      ensures bits[..] == And(old(bits[..]), old(other.bits[..]))
      ensures other.bits[..] == old(other.bits[..]) || other == this
      ensures forall x :: PossiblyIn(x) ==> old(PossiblyIn(x))
      ensures forall x :: other.Slots(x) == Slots(x) ==>
                (PossiblyIn(x) <==> old(PossiblyIn(x)) && old(other.PossiblyIn(x)))
      ensures Added == set x | x in old(Added) && x in old(other.Added) && other.Slots(x) == Slots(x)
      ensures Alike(other) ==> forall x :: PossiblyIn(x) <==> old(PossiblyIn(x)) && old(other.PossiblyIn(x))
      ensures Alike(other) ==> Added == old(Added) * old(other.Added)
    {
      ghost var mine := bits[..];
      ghost var theirs := other.bits[..];
      forall j | 0 <= j < bits.Length {
        bits[j] := bits[j] && other.bits[j];
      }
      assert bits[..] == And(mine, theirs);
      Added := set x | x in Added && x in other.Added && other.Slots(x) == Slots(x);
      forall x ensures AllSet(bits[..], Slots(x)) <==> AllSet(mine, Slots(x)) && AllSet(theirs, Slots(x)) {
        AndAllSet(mine, theirs, Slots(x));
      }
      if Alike(other) {
        AlikeSlots(other);
      }
      r := this;
    }

    /** In-place union with a filter of the same width: the bits become the
        OR of both, so whatever read as "maybe" in either still does.
        Returns this filter. */
    method Union(other: BloomFilter) returns (r: BloomFilter)
      requires Valid() && other.Valid() && other.N == N
      requires other == this || other.bits != bits
      modifies this, bits
      ensures r == this && Valid()
      ensures bits[..] == Or(old(bits[..]), old(other.bits[..]))
      ensures other.bits[..] == old(other.bits[..]) || other == this
      ensures forall x :: old(PossiblyIn(x)) ==> PossiblyIn(x)
      ensures forall x :: other.Slots(x) == Slots(x) && old(other.PossiblyIn(x)) ==> PossiblyIn(x)
      ensures Added == old(Added) + set x | x in old(other.Added) && other.Slots(x) == Slots(x)
      ensures Alike(other) ==> forall x :: old(other.PossiblyIn(x)) ==> PossiblyIn(x)
      ensures Alike(other) ==> Added == old(Added) + old(other.Added)
    {
      ghost var mine := bits[..];
      ghost var theirs := other.bits[..];
      forall j | 0 <= j < bits.Length {
        bits[j] := bits[j] || other.bits[j];
      }
      assert bits[..] == Or(mine, theirs);
      Added := Added + set x | x in other.Added && other.Slots(x) == Slots(x);
      forall x ensures AllSet(mine, Slots(x)) || AllSet(theirs, Slots(x)) ==> AllSet(bits[..], Slots(x)) {
        OrAllSet(mine, theirs, Slots(x));
      }
      if Alike(other) {
        AlikeSlots(other);
      }
      r := this;
    }

    /** Call syntax: the same answer as PossiblyContains. */
    method Apply(item: string) returns (r: bool)
      requires Valid()
      ensures r == PossiblyIn(item)
    {
      r := PossiblyContains(item);
    }
  }

  /** A filter of the default width with two hashes: once "cat" and "dog"
      are added, both read as "maybe", and "bird", which the store does not
      hold, is never certainly contained, whatever the hash. */
  method Scenario(hasher: (string, nat) -> nat)
  {
    var server := new Cdn.CDNServer();
    server.AddWord("cat");
    server.AddWord("dog");
    var filter := new BloomFilter(DefaultWidth, 2, hasher, server);
    filter.Add("cat");
    filter.Add("dog");
    var cat := filter.PossiblyContains("cat");
    assert cat;
    var dog := filter.Apply("dog");
    assert dog;
    var bird := filter.CertainlyContains("bird");
    assert "bird" !in server.words;
    assert !bird;
  }

  /** Two filters made alike hash alike: after the union, what the other
      filter had added reads as "maybe" in this one, and after an
      intersection with a filter that has added it too, it still does. */
  method CombineScenario(hasher: (string, nat) -> nat)
  {
    var server := new Cdn.CDNServer();
    var f := new BloomFilter(DefaultWidth, 3, hasher, server);
    var g := new BloomFilter(DefaultWidth, 3, hasher, server);
    g.Add("owl");
    var u := f.Union(g);
    var owl := f.PossiblyContains("owl");
    assert owl;
    var h := new BloomFilter(DefaultWidth, 3, hasher, server);
    h.Add("owl");
    var i := f.Intersect(h);
    owl := f.Apply("owl");
    assert owl;
  }

  /** Filters that differ only in K are combined bit by bit and nothing
      more. With a hash that ignores the item, a filter with three hashes
      reads positions 0, 1, 2 and one with two hashes reads 0, 1. After
      `|`, an item the two-hash filter added still reads as "no" in the
      three-hash one; after `&` with it, the two-hash filter reads as
      "maybe" an item the other rejects. */
  method MismatchScenario()
  {
    var server := new Cdn.CDNServer();
    var hasher := (s: string, seed: nat) => seed;
    var f := new BloomFilter(8, 3, hasher, server);
    var g := new BloomFilter(8, 2, hasher, server);
    g.Add("owl");
    assert g.Slots("owl") == [0, 1];
    SetAllAt(Cleared(8), [0, 1], 2);
    var u := f.Union(g);
    assert f.Slots("owl")[2] == 2 && !f.bits[2];
    var owl := f.PossiblyContains("owl");
    assert !owl;
    var i := g.Intersect(f);
    owl := g.PossiblyContains("owl");
    assert owl;
  }
}
