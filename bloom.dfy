/** A Bloom filter over strings: a fixed array of `size` bits, and
    `numHashes` seeded hashes that give each item its bit positions. */
module Bloom {

  /** The seeded hash the filter is built on (`mmh3.hash(item, seed)`): any
      deterministic function of the item and the seed, signed output allowed. */
  type Hash = (string, nat) -> int

  /** The filter's fixed configuration. */
  datatype Config = Config(size: int, numHashes: int, hash: Hash) {
    /** A bit array of `size` bits can be indexed by `h % size` only for `size >= 1`. */
    predicate Valid() {
      size >= 1
    }

    /** The number of seeds `range(numHashes)` runs through: none for a negative count. */
    function HashCount(): nat {
      if numHashes < 0 then 0 else numHashes
    }
  }

  /** Every position of `ps` indexes a bit array of length `n`. */
  predicate InRange(ps: seq<int>, n: int) {
    forall i :: 0 <= i < |ps| ==> 0 <= ps[i] < n
  }

  /** `_get_hashes(item)`: one position per seed `0 .. numHashes-1`, in seed order,
      each an index into the bit array. */
  function Positions(cfg: Config, item: string): (ps: seq<int>)
    requires cfg.Valid()
    ensures |ps| == cfg.HashCount()
    ensures InRange(ps, cfg.size)
  {
    SeededPositions(cfg, item, cfg.HashCount())
  }

  /** The positions for seeds `0 .. n-1`. */
  function SeededPositions(cfg: Config, item: string, n: nat): (ps: seq<int>)
    requires cfg.Valid()
    ensures |ps| == n
    ensures InRange(ps, cfg.size)
  {
    if n == 0 then []
    else SeededPositions(cfg, item, n - 1) + [cfg.hash(item, n - 1) % cfg.size]
  }

  /** Position `i` is the seed-`i` hash reduced the way Python's `%` reduces by a
      positive divisor: the representative in `[0, size)` congruent to the hash, even
      for a negative hash. Equal item and configuration give equal positions. */
  lemma {:induction false} PositionAt(cfg: Config, item: string, n: nat, i: nat)
    requires cfg.Valid() && i < n
    ensures 0 <= SeededPositions(cfg, item, n)[i] < cfg.size
    ensures (cfg.hash(item, i) - SeededPositions(cfg, item, n)[i]) % cfg.size == 0
  {
    if i < n - 1 {
      PositionAt(cfg, item, n - 1, i);
    } else {
      ModCongruent(cfg.hash(item, i), cfg.size);
    }
  }

  /** `a - a % m` is a multiple of `m`. */
  lemma ModCongruent(a: int, m: int)
    requires m >= 1
    ensures (a - a % m) % m == 0
  {
    var x := a - a % m;
    var q, d, r := a / m, x / m, x % m;
    assert x == m * q;
    assert x == m * d + r && 0 <= r < m;
    assert m * (q - d) == r by {
      assert m * q - m * d == m * (q - d);
    }
    MulBounds(m, q - d);
  }

  /** A non-zero multiple of `m >= 1` is at least `m` away from zero. */
  lemma MulBounds(m: int, k: int)
    requires m >= 1
    ensures k >= 1 ==> m * k >= m
    ensures k <= -1 ==> m * k <= -m
  {
  }

  /** `all(bits[p] for p in ps)`, read left to right and stopping at the first
      clear bit: true exactly when every listed bit is set. */
  function AllOnes(bits: seq<bv1>, ps: seq<int>): (r: bool)
    requires InRange(ps, |bits|)
    ensures r <==> forall i :: 0 <= i < |ps| ==> bits[ps[i]] == 1
  {
    if ps == [] then true
    else bits[ps[0]] == 1 && AllOnes(bits, ps[1..])
  }

  /** The bit array after `for p in ps: bits[p] = 1`. */
  function SetAll(bits: seq<bv1>, ps: seq<int>): (r: seq<bv1>)
    requires InRange(ps, |bits|)
    ensures |r| == |bits|
    decreases |ps|
  {
    if ps == [] then bits
    else
      var n := |ps| - 1;
      SetAll(bits, ps[..n])[ps[n] := 1]
  }

  /** After `for p in ps: bits[p] = 1` a listed bit is set and every other bit keeps
      its value. */
  lemma {:induction false} SetAllAt(bits: seq<bv1>, ps: seq<int>, j: int)
    requires InRange(ps, |bits|) && 0 <= j < |bits|
    ensures SetAll(bits, ps)[j] == if j in ps then 1 else bits[j]
    decreases |ps|
  {
    if ps != [] {
      var n := |ps| - 1;
      SetAllAt(bits, ps[..n], j);
      assert ps == ps[..n] + [ps[n]];
    }
  }

  /** After setting the bits of `ps`, all of them read as set. */
  lemma SetAllSetsEvery(bits: seq<bv1>, ps: seq<int>)
    requires InRange(ps, |bits|)
    ensures AllOnes(SetAll(bits, ps), ps)
  {
    var r := SetAll(bits, ps);
    forall i | 0 <= i < |ps| ensures r[ps[i]] == 1 {
      SetAllAt(bits, ps, ps[i]);
    }
  }

  /** Setting bits never clears one: a set bit stays set. */
  lemma SetAllMonotone(bits: seq<bv1>, ps: seq<int>, j: int)
    requires InRange(ps, |bits|)
    requires 0 <= j < |bits| && bits[j] == 1
    ensures SetAll(bits, ps)[j] == 1
  {
    SetAllAt(bits, ps, j);
  }

  /** Whatever was reported present before an insertion is still present after it. */
  lemma SetAllKeepsPresent(bits: seq<bv1>, ps: seq<int>, qs: seq<int>)
    requires InRange(ps, |bits|) && InRange(qs, |bits|)
    requires AllOnes(bits, qs)
    ensures AllOnes(SetAll(bits, ps), qs)
  {
    var r := SetAll(bits, ps);
    forall i | 0 <= i < |qs| ensures r[qs[i]] == 1 {
      SetAllMonotone(bits, ps, qs[i]);
    }
  }

  /** Inserting the same positions twice gives the bit array of inserting them once. */
  lemma SetAllIdempotent(bits: seq<bv1>, ps: seq<int>)
    requires InRange(ps, |bits|)
    ensures SetAll(SetAll(bits, ps), ps) == SetAll(bits, ps)
  {
    var once := SetAll(bits, ps);
    var twice := SetAll(once, ps);
    forall j | 0 <= j < |bits| ensures twice[j] == once[j] {
      SetAllAt(once, ps, j);
      SetAllAt(bits, ps, j);
    }
  }

  /** An insertion changes nothing exactly when the item is already reported present. */
  lemma SetAllUnchangedIff(bits: seq<bv1>, ps: seq<int>)
    requires InRange(ps, |bits|)
    ensures SetAll(bits, ps) == bits <==> AllOnes(bits, ps)
  {
    var r := SetAll(bits, ps);
    SetAllSetsEvery(bits, ps);
    if AllOnes(bits, ps) {
      forall j | 0 <= j < |bits| ensures r[j] == bits[j] {
        SetAllAt(bits, ps, j);
        if j in ps {
          var i :| 0 <= i < |ps| && ps[i] == j;
        }
      }
    }
  }

  /** The bit array after `add(x)` for each `x` of `items`, in order. */
  function AddEach(cfg: Config, bits: seq<bv1>, items: seq<string>): (r: seq<bv1>)
    requires cfg.Valid() && |bits| == cfg.size
    ensures |r| == |bits|
    decreases |items|
  {
    if items == [] then bits
    else AddEach(cfg, SetAll(bits, Positions(cfg, items[0])), items[1..])
  }

  /** Adding items never clears a bit. */
  lemma {:induction false} AddEachMonotone(cfg: Config, bits: seq<bv1>, items: seq<string>, j: int)
    requires cfg.Valid() && |bits| == cfg.size
    requires 0 <= j < |bits| && bits[j] == 1
    ensures AddEach(cfg, bits, items)[j] == 1
    decreases |items|
  {
    if items != [] {
      var b := SetAll(bits, Positions(cfg, items[0]));
      SetAllMonotone(bits, Positions(cfg, items[0]), j);
      AddEachMonotone(cfg, b, items[1..], j);
    }
  }

  /** No false negatives: once `x` is added it is reported present, and it stays
      reported present however many other items are added afterwards. */
  lemma NoFalseNegatives(cfg: Config, bits: seq<bv1>, x: string, later: seq<string>)
    requires cfg.Valid() && |bits| == cfg.size
    ensures AllOnes(AddEach(cfg, SetAll(bits, Positions(cfg, x)), later), Positions(cfg, x))
  {
    var ps := Positions(cfg, x);
    var b := SetAll(bits, ps);
    SetAllSetsEvery(bits, ps);
    var r := AddEach(cfg, b, later);
    forall i | 0 <= i < |ps| ensures r[ps[i]] == 1 {
      AddEachMonotone(cfg, b, later, ps[i]);
    }
  }

  /** With a single bit every item hashes to bit 0, so after any one insertion every
      item is reported present (the total-collision case). */
  lemma SingleBitCollision(cfg: Config, bits: seq<bv1>, x: string, y: string)
    requires cfg.Valid() && cfg.size == 1 && |bits| == 1
    ensures AllOnes(SetAll(bits, Positions(cfg, x)), Positions(cfg, y))
  {
    var px := Positions(cfg, x);
    var py := Positions(cfg, y);
    var r := SetAll(bits, px);
    if px != [] {
      SetAllAt(bits, px, 0);
      assert px[0] == 0 && 0 in px;
    }
    forall i | 0 <= i < |py| ensures r[py[i]] == 1 {
      assert py[i] == 0;
    }
  }

  /** The filter object: `size`, `num_hashes` and the bit array the source keeps as
      attributes. Only the bits change after construction. */
  class BloomFilter {
    const size: int
    const numHashes: int
    const hash: Hash
    const bitArray: array<bv1>

    /** The items added so far; recorded only to state the no-false-negatives invariant. */
    ghost var added: set<string>

    function Cfg(): Config {
      Config(size, numHashes, hash)
    }

    /** The object invariant: the array has `size >= 1` bits, and every item ever
        added has all its positions set. */
    ghost predicate Valid()
      reads this, bitArray
    {
      && size >= 1
      && bitArray.Length == size
      && forall x :: x in added ==> AllOnes(bitArray[..], Positions(Cfg(), x))
    }

    /** `BloomFilter(size, num_hashes)`: `size` clear bits. */
    constructor (size: int, numHashes: int, hash: Hash)
      requires size >= 1
      ensures Valid() && fresh(bitArray)
      ensures this.size == size && this.numHashes == numHashes && this.hash == hash
      ensures bitArray[..] == seq(size, _ => 0) && added == {}
    {
      this.size := size;
      this.numHashes := numHashes;
      this.hash := hash;
      bitArray := new bv1[size](_ => 0);
      added := {};
    }

    /** `add(item)`: set every position of `item`, leaving all other bits alone. */
    method Add(item: string)
      requires Valid()
      modifies this`added, bitArray
      ensures Valid()
      ensures bitArray[..] == SetAll(old(bitArray[..]), Positions(Cfg(), item))
      ensures added == old(added) + {item}
      ensures Contains(item)
    {
      var ps := Positions(Cfg(), item);
      ghost var before := bitArray[..];
      assert ps[..0] == [];
      for i := 0 to |ps|
        invariant added == old(added)
        invariant bitArray[..] == SetAll(before, ps[..i])
      {
        var p := ps[i];
        assert 0 <= p < bitArray.Length;
        assert ps[..i + 1][..i] == ps[..i];
        bitArray[p] := 1;
      }
      assert ps[..|ps|] == ps;
      ghost var after := bitArray[..];
      forall x | x in added + {item} ensures AllOnes(after, Positions(Cfg(), x)) {
        if x == item {
          SetAllSetsEvery(before, ps);
        } else {
          SetAllKeepsPresent(before, ps, Positions(Cfg(), x));
        }
      }
      added := added + {item};
    }

    /** `item in filter`: true exactly when every position of `item` is set; never
        false for an item that was added. */
    function Contains(item: string): (r: bool)
      reads this, bitArray
      requires Valid()
      ensures item in added ==> r
      ensures r <==> forall i :: 0 <= i < Cfg().HashCount() ==> bitArray[Positions(Cfg(), item)[i]] == 1
    {
      AllOnes(bitArray[..], Positions(Cfg(), item))
    }
  }
}
