/** A tag map split over a power-of-two number of shards, each under its own lock. */
module ShardedTags {
  import opened Options

  type Byte = b: int | 0 <= b < 256

  /** Keys are byte strings, as the hash sees them. */
  type Key = seq<Byte>

  // ----- Bit operations on naturals -----

  function Xor(a: nat, b: nat): nat {
    if a == 0 then b else if b == 0 then a
    else (if a % 2 == b % 2 then 0 else 1) + 2 * Xor(a / 2, b / 2)
  }

  function And(a: nat, b: nat): nat {
    if a == 0 || b == 0 then 0 else (if a % 2 == 1 && b % 2 == 1 then 1 else 0) + 2 * And(a / 2, b / 2)
  }

  function Pow2(k: nat): (p: nat)
    ensures p > 0
  {
    if k == 0 then 1 else 2 * Pow2(k - 1)
  }

  const TWO32 := 0x1_0000_0000

  /** FNV-1a over the bytes of a key, in 32-bit arithmetic. */
  method Fnv32a(s: Key) returns (hash: nat)
    ensures hash == Hash(s) < TWO32
  {
    hash := 2166136261;
    for i := 0 to |s|
      invariant hash == Hash(s[..i]) < TWO32
    {
      assert s[..i + 1][..i] == s[..i];
      hash := Xor(hash, s[i]);
      hash := hash * 16777619 % TWO32;
    }
    assert s[..|s|] == s;
  }

  function Hash(s: Key): (h: nat)
    ensures h < TWO32
  {
    if s == [] then 2166136261 else Xor(Hash(s[..|s| - 1]), s[|s| - 1]) * 16777619 % TWO32
  }

  /** Published FNV-1a test vectors for the empty string and for "a". */
  lemma HashVectors()
    ensures Hash([]) == 0x811c9dc5 && Hash([97]) == 0xe40c292c
  {
    assert Hash([]) == 0x811c9dc5;
    hide Xor, Hash;
    XorOfA();
    HashStep([], 97);
    assert [] + [97] == [97];
    MulOfA();
  }

  lemma MulOfA()
    ensures 0x811c9da4 * 16777619 % TWO32 == 0xe40c292c
  {
  }

  lemma HashStep(s: Key, b: Byte)
    ensures Hash(s + [b]) == Xor(Hash(s), b) * 16777619 % TWO32
  {
    hide Xor;
    assert (s + [b])[..|s|] == s;
  }

  lemma XorOfA()
    ensures Xor(0x811c9dc5, 97) == 0x811c9da4
  {
    assert Xor(16922939, 0) == 16922939;
    assert Xor(33845879, 1) == 33845878;
    assert Xor(67691758, 3) == 67691757;
    assert Xor(135383516, 6) == 135383514;
    assert Xor(270767032, 12) == 270767028;
    assert Xor(541534065, 24) == 541534057;
    assert Xor(1083068130, 48) == 1083068114;
    assert Xor(2166136261, 97) == 2166136228;
  }

  function Mod(a: nat, d: nat): (r: nat)
    requires d > 0
    ensures r < d
  {
    a % d
  }

  /** Masking with 2^k - 1 is reduction modulo 2^k. */
  lemma {:induction false} MaskIsModulo(h: nat, k: nat)
    ensures And(h, Pow2(k) - 1) == Mod(h, Pow2(k))
  {
    hide Mod;
    if k == 0 {
      assert Mod(h, 1) == 0;
    } else {
      var p := Pow2(k - 1);
      HalveMod(h, p);
      if h > 0 {
        MaskIsModulo(h / 2, k - 1);
        assert (2 * p - 1) / 2 == p - 1 && (2 * p - 1) % 2 == 1;
      } else {
        ModSmall(0, 2 * p);
      }
    }
  }

  lemma ModSmall(h: nat, d: nat)
    requires h < d
    ensures Mod(h, d) == h
  {
  }

  lemma HalveMod(h: nat, p: nat)
    requires p > 0
    ensures Mod(h, 2 * p) == h % 2 + 2 * Mod(h / 2, p)
  {
    hide Mod;
    var q := Quotient(h / 2, p);
    var r := Mod(h / 2, p);
    assert h == q * (2 * p) + (h % 2 + 2 * r);
    RemainderUnique(h, 2 * p, q, h % 2 + 2 * r);
  }

  lemma Quotient(h: nat, d: nat) returns (q: nat)
    requires d > 0
    ensures h == q * d + Mod(h, d)
  {
    q := h / d;
  }

  lemma RemainderUnique(h: nat, d: nat, q: int, r: nat)
    requires r < d && h == q * d + r
    ensures Mod(h, d) == r
  {
    hide Mod;
    var p := Quotient(h, d);
    assert (q - p) * d == q * d - p * d;
    SmallMultiple(q - p, d);
  }

  lemma SmallMultiple(x: int, d: int)
    requires -d < x * d < d
    ensures x == 0
  {
    if x >= 1 {
      MulAtLeast(x, d);
    } else if x <= -1 {
      MulAtLeast(-x, d);
    }
  }

  lemma MulAtLeast(x: int, d: int)
    requires x >= 1 && d >= 0
    ensures x * d >= d
  {
    assert x * d == (x - 1) * d + d;
    assert (x - 1) * d >= 0;
  }

  /** The mask is the shard count minus one, cut to 32 bits. */
  function ShardMask(count: nat): nat
    requires count > 0
  {
    Mod(count - 1, TWO32)
  }

  function ShardIndex(key: Key, count: nat): nat
    requires count > 0
  {
    And(Hash(key), ShardMask(count))
  }

  /** For every power-of-two shard count, the masked hash is the hash modulo the count. */
  lemma ShardIndexIsModulo(key: Key, k: nat)
    ensures ShardIndex(key, Pow2(k)) == Mod(Hash(key), Pow2(k)) < Pow2(k)
  {
    hide Hash, And, Mod, Pow2;
    Pow2Of32();
    if k <= 32 {
      Pow2Monotone(k, 32);
      ModSmall(Pow2(k) - 1, TWO32);
      MaskIsModulo(Hash(key), k);
    } else {
      Pow2Monotone(32, k);
      Pow2Divides(32, k);
      AllOnes(Pow2(k), Pow2(32), Pow2(k - 32));
      MaskIsModulo(Hash(key), 32);
      ModSmall(Hash(key), Pow2(32));
      ModSmall(Hash(key), Pow2(k));
    }
  }

  lemma Pow2Of32()
    ensures Pow2(32) == TWO32
  {
    assert Pow2(8) == 256;
    assert Pow2(16) == 65536;
    assert Pow2(24) == 16777216;
  }

  lemma {:induction false} Pow2Monotone(a: nat, b: nat)
    requires a <= b
    ensures Pow2(a) <= Pow2(b)
  {
    if a < b {
      Pow2Monotone(a, b - 1);
    }
  }

  lemma {:induction false} Pow2Divides(a: nat, b: nat)
    requires a <= b
    ensures Pow2(b) == Pow2(b - a) * Pow2(a)
  {
    if a < b {
      Pow2Divides(a, b - 1);
    }
  }

  lemma AllOnes(big: nat, small: nat, q: nat)
    requires small > 0 && big > 0 && big == q * small
    ensures Mod(big - 1, small) == small - 1
  {
    hide Mod;
    assert big - 1 == (q - 1) * small + (small - 1);
    RemainderUnique(big - 1, small, q - 1, small - 1);
  }

  const MAX_SHARDS := 0x4000_0000_0000_0000

  lemma Pow2Of62()
    ensures Pow2(62) == MAX_SHARDS
  {
    Pow2Of32();
    assert Pow2(30) * 4 == Pow2(32);
    Pow2Divides(32, 62);
  }

  /** The shard counter after doubling `k` times in signed 64-bit arithmetic. */
  function Doubled(k: nat): int {
    if k <= 62 then Pow2(k) else if k == 63 then -0x8000_0000_0000_0000 else 0
  }

  /** Each step is a left shift of the 64-bit counter. */
  lemma DoubledStep(k: nat)
    ensures Doubled(k + 1) == (2 * Doubled(k) + 0x8000_0000_0000_0000) % 0x1_0000_0000_0000_0000 - 0x8000_0000_0000_0000
  {
    Pow2Of62();
    if k < 62 {
      Pow2Monotone(k + 1, 62);
      assert Doubled(k + 1) == 2 * Doubled(k) <= MAX_SHARDS;
    }
  }

  /** Doubling ever covers a request exactly when the request is at most 2^62; beyond that the counter
      overflows to zero and the source's loop runs for ever. */
  lemma CoveredIff(want: int)
    ensures (exists k :: Doubled(k) >= want) <==> want <= MAX_SHARDS
  {
    Pow2Of62();
    assert Doubled(62) == MAX_SHARDS;
    forall k: nat
      ensures Doubled(k) <= MAX_SHARDS
    {
      if k <= 62 {
        Pow2Monotone(k, 62);
      }
    }
  }

  /** The least request for which it does. */
  lemma NeverCovered(k: nat)
    ensures Doubled(k) < MAX_SHARDS + 1
  {
    CoveredIff(MAX_SHARDS + 1);
  }

  /** Doubling from one until the request is covered gives the least power of two that covers it; a
      request that is not positive gets sixteen. The loop ends for no other request (CoveredIff). */
  method RoundUp(shardCount: int) returns (count: nat, ghost k: nat)
    requires shardCount <= MAX_SHARDS
    ensures count == Pow2(k) <= MAX_SHARDS && (shardCount <= 0 ==> count == 16)
    ensures shardCount > 0 ==> shardCount <= count && forall j: nat :: shardCount <= Pow2(j) ==> count <= Pow2(j)
  {
    var want := if shardCount <= 0 then 16 else shardCount;
    count, k := 1, 0;
    while count < want
      invariant count == Pow2(k)
      invariant k > 0 ==> Pow2(k - 1) < want
      decreases want - count
    {
      count, k := count * 2, k + 1;
    }
    assert Pow2(4) == 16;
    Pow2Of62();
    if k > 62 {
      Pow2Monotone(62, k - 1);
    } else {
      Pow2Monotone(k, 62);
    }
    if shardCount <= 0 {
      if k < 4 {
        Pow2Monotone(k, 3);
      } else if k > 4 {
        Pow2Monotone(4, k - 1);
      }
    }
    forall j: nat | want <= Pow2(j)
      ensures count <= Pow2(j)
    {
      if j < k {
        Pow2Monotone(j, k - 1);
      } else {
        Pow2Monotone(k, j);
      }
    }
  }

  // ----- Shards as one map -----

  type Tags = map<Key, string>

  /** Every key is stored only in the shard its hash selects. */
  ghost predicate AtHome(shards: seq<Tags>) {
    |shards| > 0 && forall i, k | 0 <= i < |shards| && k in shards[i] :: ShardIndex(k, |shards|) == i
  }

  /** Reading the shards in order into one map. */
  function Union(shards: seq<Tags>): Tags {
    if shards == [] then map[] else Union(shards[..|shards| - 1]) + shards[|shards| - 1]
  }

  function TotalSize(shards: seq<Tags>): nat {
    if shards == [] then 0 else TotalSize(shards[..|shards| - 1]) + |shards[|shards| - 1]|
  }

  lemma {:induction false} UnionLookup(shards: seq<Tags>, n: nat, k: Key, home: nat)
    requires n <= |shards| && forall i | 0 <= i < |shards| && k in shards[i] :: i == home
    ensures k in Union(shards[..n]) <==> home < n && k in shards[home]
    ensures k in Union(shards[..n]) ==> Union(shards[..n])[k] == shards[home][k]
  {
    if n > 0 {
      UnionLookup(shards, n - 1, k, home);
      assert shards[..n][..n - 1] == shards[..n - 1];
    }
  }

  /** The map a family of shards stands for: look a key up in its own shard. */
  lemma Lookup(shards: seq<Tags>, k: Key)
    requires AtHome(shards) && ShardIndex(k, |shards|) < |shards|
    ensures k in Union(shards) <==> k in shards[ShardIndex(k, |shards|)]
    ensures k in Union(shards) ==> Union(shards)[k] == shards[ShardIndex(k, |shards|)][k]
  {
    assert shards[..|shards|] == shards;
    UnionLookup(shards, |shards|, k, ShardIndex(k, |shards|));
  }

  /** Two families at home that agree with a map key by key stand for that map. */
  lemma UnionIs(shards: seq<Tags>, m: Tags)
    requires AtHome(shards) && forall k: Key :: ShardIndex(k, |shards|) < |shards|
    requires forall k: Key :: k in m <==> k in shards[ShardIndex(k, |shards|)]
    requires forall k: Key | k in m :: shards[ShardIndex(k, |shards|)][k] == m[k]
    ensures Union(shards) == m
  {
    forall k: Key
      ensures k in Union(shards) <==> k in m
      ensures k in m ==> Union(shards)[k] == m[k]
    {
      Lookup(shards, k);
    }
  }

  lemma {:induction false} SizeIsTotal(shards: seq<Tags>, n: nat)
    requires AtHome(shards) && n <= |shards|
    ensures |Union(shards[..n])| == TotalSize(shards[..n])
    ensures forall k | k in Union(shards[..n]) :: ShardIndex(k, |shards|) < n
  {
    if n > 0 {
      SizeIsTotal(shards, n - 1);
      assert shards[..n][..n - 1] == shards[..n - 1];
      var a, b := Union(shards[..n - 1]), shards[n - 1];
      assert a.Keys !! b.Keys;
      assert (a + b).Keys == a.Keys + b.Keys;
      assert |(a + b).Keys| == |a.Keys| + |b.Keys|;
    }
  }

  /** Replacing one shard by another that only holds its own keys. */
  lemma ReplaceShard(shards: seq<Tags>, i: nat, m: Tags)
    requires AtHome(shards) && i < |shards| && (forall k: Key :: ShardIndex(k, |shards|) < |shards|)
    requires forall k | k in m :: ShardIndex(k, |shards|) == i
    ensures AtHome(shards[i := m])
    ensures forall k: Key :: k in Union(shards[i := m]) <==>
      if ShardIndex(k, |shards|) == i then k in m else k in Union(shards)
    ensures forall k: Key | k in Union(shards[i := m]) ::
      Union(shards[i := m])[k] == if k in m then m[k] else Union(shards)[k]
  {
    hide ShardIndex, Union;
    forall k: Key
      ensures k in Union(shards[i := m]) <==> if ShardIndex(k, |shards|) == i then k in m else k in Union(shards)
      ensures k in Union(shards[i := m]) ==>
        Union(shards[i := m])[k] == if k in m then m[k] else Union(shards)[k]
    {
      Lookup(shards, k);
      Lookup(shards[i := m], k);
    }
  }

  /** The part of a map that belongs to shard `i` of `n`. */
  function Group(tags: Tags, i: nat, n: nat): Tags
    requires n > 0
  {
    map k | k in tags && ShardIndex(k, n) == i :: tags[k]
  }

  /** Writing each group into its shard writes the whole map. */
  lemma MergedShards(shards: seq<Tags>, merged: seq<Tags>, tags: Tags)
    requires AtHome(shards) && |merged| == |shards| && (forall k: Key :: ShardIndex(k, |shards|) < |shards|)
    requires forall i | 0 <= i < |shards| :: merged[i] == shards[i] + Group(tags, i, |shards|)
    ensures AtHome(merged) && Union(merged) == Union(shards) + tags
  {
    hide ShardIndex, Union;
    forall k: Key
      ensures k in (Union(shards) + tags) <==> k in merged[ShardIndex(k, |shards|)]
      ensures k in (Union(shards) + tags) ==> merged[ShardIndex(k, |shards|)][k] == (Union(shards) + tags)[k]
    {
      Lookup(shards, k);
    }
    UnionIs(merged, Union(shards) + tags);
  }

  function SumHits(hits: seq<int>): int {
    if hits == [] then 0 else SumHits(hits[..|hits| - 1]) + hits[|hits| - 1]
  }

  lemma {:induction false} SumHitsUpdate(hits: seq<int>, i: nat, h: int)
    requires i < |hits|
    ensures SumHits(hits[i := h]) == SumHits(hits) - hits[i] + h
  {
    var n := |hits| - 1;
    if i < n {
      assert hits[i := h][..n] == hits[..n][i := h];
      SumHitsUpdate(hits[..n], i, h);
    } else {
      assert hits[i := h][..n] == hits[..n];
    }
  }

  lemma {:induction false} NoHits(hits: seq<int>)
    requires forall i | 0 <= i < |hits| :: hits[i] == 0
    ensures SumHits(hits) == 0
  {
    if hits != [] {
      NoHits(hits[..|hits| - 1]);
    }
  }

  lemma {:induction false} EmptyShards(shards: seq<Tags>)
    requires |shards| > 0 && forall i | 0 <= i < |shards| :: shards[i] == map[]
    ensures AtHome(shards) && Union(shards) == map[]
  {
    if |shards| > 1 {
      EmptyShards(shards[..|shards| - 1]);
    } else {
      assert shards[..0] == [];
    }
  }

  class ShardedTags {
    var shards: seq<Tags>
    var hits: seq<int>
    var totalOperations: int
    ghost const exponent: nat

    ghost predicate Valid()
      reads this
    {
      && |shards| == Pow2(exponent) <= MAX_SHARDS
      && AtHome(shards)
      && |hits| == |shards| && SumHits(hits) == totalOperations
    }

    /** The one map the shards stand for. */
    ghost function View(): Tags
      reads this
    {
      Union(shards)
    }

    constructor (shardCount: int)
      requires shardCount <= MAX_SHARDS
      ensures Valid() && View() == map[]
      ensures shardCount <= 0 ==> |shards| == 16
      ensures shardCount > 0 ==>
        shardCount <= |shards| && forall j: nat :: shardCount <= Pow2(j) ==> |shards| <= Pow2(j)
    {
      var count;
      ghost var k;
      count, k := RoundUp(shardCount);
      exponent := k;
      shards := seq(count, _ => map[]);
      hits := seq(count, _ => 0);
      totalOperations := 0;
      new;
      EmptyShards(shards);
      NoHits(hits);
    }

    lemma Homes()
      requires Valid()
      ensures forall k: Key :: ShardIndex(k, |shards|) < |shards|
    {
      hide ShardIndex;
      forall k: Key
        ensures ShardIndex(k, |shards|) < |shards|
      {
        ShardIndexIsModulo(k, exponent);
      }
    }

    /** Hashes the key, masks, and records the hit. */
    method GetShard(key: Key) returns (i: nat)
      requires Valid()
      modifies this`hits, this`totalOperations
      ensures Valid() && i == ShardIndex(key, |shards|) < |shards|
      ensures totalOperations == old(totalOperations) + 1 && hits == old(hits)[i := old(hits)[i] + 1]
    {
      hide Union, AtHome;
      var hash := Fnv32a(key);
      i := And(hash, ShardMask(|shards|));
      Homes();
      assert i == ShardIndex(key, |shards|);
      hide ShardIndex;
      SumHitsUpdate(hits, i, hits[i] + 1);
      hits := hits[i := hits[i] + 1];
      totalOperations := totalOperations + 1;
    }

    method Set(key: Key, value: string)
      requires Valid()
      modifies this
      ensures Valid() && View() == old(View())[key := value]
    {
      hide ShardIndex, Union, AtHome, SumHits;
      Homes();
      var i := GetShard(key);
      OwnKeys(shards, i);
      ReplaceShard(shards, i, shards[i][key := value]);
      Lookup(shards, key);
      ShardAgrees(shards, i);
      shards := shards[i := shards[i][key := value]];
    }

    method Get(key: Key) returns (r: Option<string>)
      requires Valid()
      modifies this`hits, this`totalOperations
      ensures Valid() && View() == old(View())
      ensures r == if key in View() then Some(View()[key]) else None
    {
      hide ShardIndex, Union, AtHome, SumHits;
      var i := GetShard(key);
      Lookup(shards, key);
      r := if key in shards[i] then Some(shards[i][key]) else None;
    }

    method Delete(key: Key)
      requires Valid()
      modifies this
      ensures Valid() && View() == old(View()) - {key}
    {
      hide ShardIndex, Union, AtHome, SumHits;
      Homes();
      var i := GetShard(key);
      OwnKeys(shards, i);
      ReplaceShard(shards, i, shards[i] - {key});
      ShardAgrees(shards, i);
      shards := shards[i := shards[i] - {key}];
    }

    method Clear()
      requires Valid()
      modifies this`shards
      ensures Valid() && View() == map[]
    {
      var empty: seq<Tags> := [];
      for i := 0 to |shards|
        invariant |empty| == i && forall j | 0 <= j < i :: empty[j] == map[]
      {
        empty := empty + [map[]];
      }
      EmptyShards(empty);
      shards := empty;
    }

    /** A copy of everything, shard by shard. */
    method GetAll() returns (r: Tags)
      requires Valid()
      ensures r == View()
    {
      r := map[];
      for i := 0 to |shards|
        invariant r == Union(shards[..i])
      {
        assert shards[..i + 1][..i] == shards[..i];
        r := r + shards[i];
      }
      assert shards[..|shards|] == shards;
    }

    method Len() returns (n: nat)
      requires Valid()
      ensures n == |View()|
    {
      n := 0;
      for i := 0 to |shards|
        invariant n == TotalSize(shards[..i])
      {
        assert shards[..i + 1][..i] == shards[..i];
        n := n + |shards[i]|;
      }
      assert shards[..|shards|] == shards;
      SizeIsTotal(shards, |shards|);
    }

    /** Groups the tags by shard. */
    method GroupByShard(tags: Tags) returns (groups: seq<Tags>)
      requires Valid()
      ensures |groups| == |shards| && forall i | 0 <= i < |shards| :: groups[i] == Group(tags, i, |shards|)
    {
      hide ShardIndex, Union, AtHome, SumHits;
      Homes();
      groups := seq(|shards|, _ => map[]);
      var todo := tags.Keys;
      while todo != {}
        invariant |groups| == |shards| && todo <= tags.Keys
        invariant forall i, k | 0 <= i < |groups| ::
          k in groups[i] <==> k in tags && k !in todo && ShardIndex(k, |shards|) == i
        invariant forall i, k | 0 <= i < |groups| && k in groups[i] :: groups[i][k] == tags[k]
        decreases todo
      {
        var k :| k in todo;
        var i := ShardIndex(k, |shards|);
        groups := groups[i := groups[i][k := tags[k]]];
        todo := todo - {k};
      }
      assert forall i | 0 <= i < |groups| :: groups[i] == Group(tags, i, |shards|);
    }

    /** Groups the tags, then lets one goroutine per shard write its group, in any order. */
    method SetMultiple(tags: Tags)
      requires Valid()
      modifies this`shards
      ensures Valid() && View() == old(View()) + tags && |shards| == old(|shards|)
    {
      hide ShardIndex, Union, AtHome, SumHits, Group;
      if |tags| == 0 {
        assert View() + tags == View();
        return;
      }
      Homes();
      var groups := GroupByShard(tags);
      ghost var before := shards;
      shards := WriteGroups(shards, groups);
      MergedShards(before, shards, tags);
    }

    /** A separate object with the same contents and the same number of shards. */
    method Clone() returns (c: ShardedTags)
      requires Valid()
      ensures fresh(c) && c.Valid() && c.View() == View() && |c.shards| == |shards|
    {
      hide Union, AtHome, SumHits;
      c := new ShardedTags(|shards|);
      var all := GetAll();
      c.SetMultiple(all);
    }

    /** Entries of the other container win. The other container may be absent, or this one. */
    method Merge(other: ShardedTags?)
      requires Valid() && (other != null ==> other.Valid())
      modifies this`shards
      ensures Valid() && View() == if other == null then old(View()) else old(View()) + old(other.View())
    {
      hide Union, AtHome, SumHits;
      if other == null {
        return;
      }
      var all := other.GetAll();
      SetMultiple(all);
    }
  }

  /** The goroutines of SetMultiple: each shard with a non-empty group is updated once, in any order. */
  method WriteGroups(shards: seq<Tags>, groups: seq<Tags>) returns (after: seq<Tags>)
    requires |groups| == |shards|
    ensures |after| == |shards| && forall i | 0 <= i < |shards| :: after[i] == shards[i] + groups[i]
  {
    after := shards;
    var todo := set i | 0 <= i < |groups| && groups[i] != map[];
    forall i | 0 <= i < |groups| && groups[i] == map[]
      ensures shards[i] + groups[i] == shards[i]
    {
    }
    while todo != {}
      invariant |after| == |shards| && forall i | i in todo :: 0 <= i < |shards|
      invariant forall i | 0 <= i < |shards| :: after[i] == if i in todo then shards[i] else shards[i] + groups[i]
      decreases todo
    {
      var i :| i in todo;
      after := after[i := after[i] + groups[i]];
      todo := todo - {i};
    }
  }

  lemma OwnKeys(shards: seq<Tags>, i: nat)
    requires AtHome(shards) && i < |shards|
    ensures forall k | k in shards[i] :: ShardIndex(k, |shards|) == i
  {
  }

  /** A shard agrees with the one map on its own keys. */
  lemma ShardAgrees(shards: seq<Tags>, i: nat)
    requires AtHome(shards) && i < |shards|
    ensures forall k | k in shards[i] :: k in Union(shards) && Union(shards)[k] == shards[i][k]
    ensures forall k: Key | ShardIndex(k, |shards|) == i && k in Union(shards) :: k in shards[i]
  {
    hide ShardIndex, Union;
    forall k: Key | ShardIndex(k, |shards|) == i
      ensures k in Union(shards) <==> k in shards[i]
      ensures k in shards[i] ==> Union(shards)[k] == shards[i][k]
    {
      Lookup(shards, k);
    }
  }
}
