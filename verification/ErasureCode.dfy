/** The erasure code behind the object store. The Reed-Solomon library is idealised as a codec
    that satisfies `MDS`; `Split` and the padding it adds are modelled in full. A lost shard reads
    as an empty one, as in the library. */
module ErasureCode {
  import opened Results

  type Byte = bv8
  type Shard = seq<Byte>

  datatype Codec = Codec(
    data: nat,
    parity: nat,
    encode: seq<Shard> -> seq<Shard>,
    repair: seq<Shard> -> Option<seq<Shard>>)

  ghost predicate Uniform(shards: seq<Shard>, n: nat) {
    forall i :: 0 <= i < |shards| ==> |shards[i]| == n
  }

  /** `got` is what is left of `whole` after some shards were lost. */
  ghost predicate Remains(whole: seq<Shard>, got: seq<Shard>) {
    |got| == |whole| && forall i :: 0 <= i < |got| ==> got[i] == [] || got[i] == whole[i]
  }

  function Lost(got: seq<Shard>): set<nat> {
    set i: nat | i < |got| && got[i] == []
  }

  ghost predicate IsData(c: Codec, d: seq<Shard>, n: nat) {
    n > 0 && |d| == c.data && Uniform(d, n)
  }

  /** The shards that are there have one length. */
  predicate SameLengths(got: seq<Shard>) {
    forall i, j :: 0 <= i < |got| && 0 <= j < |got| && got[i] != [] && got[j] != [] ==> |got[i]| == |got[j]|
  }

  /** Maximum distance separable: any `parity` losses are repaired, and no more. Shards that are all there are
      given as they are, whatever they hold, unless their lengths differ. */
  ghost predicate MDS(c: Codec) {
    && c.data > 0
    && (forall d, n: nat {:trigger IsData(c, d, n)} :: IsData(c, d, n)
          ==> |c.encode(d)| == c.parity && Uniform(c.encode(d), n))
    && (forall d, n: nat, got {:trigger IsData(c, d, n), c.repair(got)} ::
          IsData(c, d, n) && Remains(d + c.encode(d), got) && |Lost(got)| <= c.parity
          ==> c.repair(got) == Some(d + c.encode(d)))
    && (forall got {:trigger c.repair(got)} ::
          |got| == c.data + c.parity && |Lost(got)| > c.parity ==> c.repair(got) == None)
    && (forall got {:trigger c.repair(got)} ::
          |got| == c.data + c.parity && Lost(got) == {} ==>
          c.repair(got) == if SameLengths(got) then Some(got) else None)
  }

  /** The shards of a body: its data shards and their parity. */
  function Codeword(c: Codec, body: Shard): seq<Shard>
    requires c.data > 0
  {
    var d := Split(body, c.data);
    d + c.encode(d)
  }

  lemma CodewordShape(c: Codec, body: Shard)
    requires MDS(c) && body != []
    ensures |Codeword(c, body)| == c.data + c.parity
    ensures forall i :: 0 <= i < |Codeword(c, body)| ==> Codeword(c, body)[i] != []
  {
    var n := ShardLength(|body|, c.data);
    assert IsData(c, Split(body, c.data), n);
    forall i | 0 <= i < |Codeword(c, body)| ensures |Codeword(c, body)[i]| == n {}
  }

  /** Whatever at most `parity` losses leave of the shards, repairing, joining and cutting gives
      the body; after more losses nothing is given. */
  lemma RepairBody(c: Codec, body: Shard, got: seq<Shard>)
    requires MDS(c) && body != [] && Remains(Codeword(c, body), got)
    ensures |Lost(got)| > c.parity ==> c.repair(got) == None
    ensures |Lost(got)| <= c.parity ==>
      && c.repair(got) == Some(Codeword(c, body))
      && |Concat(Codeword(c, body)[..c.data])| >= |body|
      && Concat(Codeword(c, body)[..c.data])[..|body|] == body
  {
    CodewordShape(c, body);
    var d := Split(body, c.data);
    assert IsData(c, d, ShardLength(|body|, c.data));
    assert Codeword(c, body)[..c.data] == d;
    SplitRoundTrip(body, c.data);
  }

  // ----- Split and join -----

  function Chunks(s: Shard, n: nat, k: nat): (r: seq<Shard>)
    requires |s| == n * k
    ensures |r| == k && forall i :: 0 <= i < k ==> |r[i]| == n
  {
    if k == 0 then [] else
      assert n * k == n + n * (k - 1);
      [s[..n]] + Chunks(s[n..], n, k - 1)
  }

  function Concat(shards: seq<Shard>): Shard {
    if shards == [] then [] else shards[0] + Concat(shards[1..])
  }

  lemma {:induction false} ConcatChunks(s: Shard, n: nat, k: nat)
    requires |s| == n * k
    ensures Concat(Chunks(s, n, k)) == s
  {
    if k == 0 {
    } else {
      assert n * k == n + n * (k - 1);
      ConcatChunks(s[n..], n, k - 1);
      assert s == s[..n] + s[n..];
    }
  }

  lemma {:induction false} ConcatAppend(a: seq<Shard>, b: seq<Shard>)
    ensures Concat(a + b) == Concat(a) + Concat(b)
  {
    if a == [] {
      assert a + b == b;
    } else {
      ConcatAppend(a[1..], b);
      assert (a + b)[1..] == a[1..] + b;
    }
  }

  lemma TimesSplits(n: nat, k: nat, m: nat)
    requires m <= k
    ensures n * k == n * m + n * (k - m) && n * m >= 0 && n * (k - m) >= 0
  {
  }

  /** The first `m` chunks are those of the first `n * m` bytes. */
  lemma {:induction false} ChunksCut(s: Shard, n: nat, k: nat, m: nat, cut: nat)
    requires |s| == n * k && m <= k && cut == n * m <= |s| && |s| - cut == n * (k - m)
    ensures Chunks(s, n, k) == Chunks(s[..cut], n, m) + Chunks(s[cut..], n, k - m)
    decreases m
  {
    if m == 0 {
      assert s[cut..] == s;
    } else {
      TimesSplits(n, k, 1);
      TimesSplits(n, m, 1);
      ChunksCut(s[n..], n, k - 1, m - 1, cut - n);
      assert s[..cut][..n] == s[..n] && s[..cut][n..] == s[n..][..cut - n] && s[n..][cut - n..] == s[cut..];
    }
  }

  lemma ConcatCut(s: Shard, n: nat, k: nat, m: nat)
    requires |s| == n * k && m <= k
    ensures 0 <= n * m <= |s|
    ensures Concat(Chunks(s, n, k)[..m]) == s[..n * m] && Concat(Chunks(s, n, k)[m..]) == s[n * m..]
  {
    var cut := n * m;
    TimesSplits(n, k, m);
    ChunksCut(s, n, k, m, cut);
    ConcatChunks(s[..cut], n, m);
    ConcatChunks(s[cut..], n, k - m);
    var a, b := Chunks(s[..cut], n, m), Chunks(s[cut..], n, k - m);
    assert (a + b)[..m] == a && (a + b)[m..] == b;
  }

  function ShardLength(size: nat, data: nat): (n: nat)
    requires data > 0
    ensures size <= n * data
    ensures size > 0 ==> n > 0
  {
    var n := (size + data - 1) / data;
    assert n * data + (size + data - 1) % data == size + data - 1;
    n
  }

  /** The library's `Split`: equal shards, the last ones padded with zeros. */
  function Split(body: Shard, data: nat): (r: seq<Shard>)
    requires data > 0
    ensures |r| == data
    ensures forall i :: 0 <= i < data ==> |r[i]| == ShardLength(|body|, data)
  {
    var n := ShardLength(|body|, data);
    Chunks(body + seq(n * data - |body|, _ => 0 as Byte), n, data)
  }

  /** Cutting the joined data shards at the recorded size removes exactly the padding. */
  lemma SplitRoundTrip(body: Shard, data: nat)
    requires data > 0
    ensures |Concat(Split(body, data))| >= |body|
    ensures Concat(Split(body, data))[..|body|] == body
  {
    var n := ShardLength(|body|, data);
    ConcatChunks(body + seq(n * data - |body|, _ => 0 as Byte), n, data);
  }

  // ----- An instance: one parity shard holding the exclusive or -----

  function At(s: Shard, j: nat): Byte {
    if j < |s| then s[j] else 0
  }

  function XorAt(shards: seq<Shard>, j: nat): Byte {
    if shards == [] then 0 else At(shards[0], j) ^ XorAt(shards[1..], j)
  }

  function Xor(shards: seq<Shard>): Shard
  {
    seq(if shards == [] then 0 else Longest(shards), j requires j >= 0 => XorAt(shards, j))
  }

  function Longest(shards: seq<Shard>): (n: nat)
    ensures forall i :: 0 <= i < |shards| ==> |shards[i]| <= n
    ensures shards != [] ==> exists i :: 0 <= i < |shards| && n == |shards[i]|
  {
    if shards == [] then 0
    else if |shards| == 1 then |shards[0]|
    else
      var n := Longest(shards[1..]);
      assert forall i :: 0 < i < |shards| ==> shards[i] == shards[1..][i - 1];
      assert exists i :: 0 <= i < |shards| && n == |shards[i]| by {
        var i :| 0 <= i < |shards[1..]| && n == |shards[1..][i]|;
        assert shards[i + 1] == shards[1..][i];
      }
      if n < |shards[0]| then |shards[0]| else n
  }

  function FirstLost(got: seq<Shard>): (i: nat)
    ensures i <= |got|
    ensures i < |got| ==> got[i] == []
    ensures forall j :: 0 <= j < i ==> got[j] != []
  {
    if got == [] || got[0] == [] then 0 else
      var i := FirstLost(got[1..]);
      assert forall j :: 0 < j < |got| ==> got[j] == got[1..][j - 1];
      i + 1
  }

  function XorRepair(data: nat, got: seq<Shard>): Option<seq<Shard>> {
    if |got| != data + 1 || |Lost(got)| > 1 || !SameLengths(got) then None
    else
      var i := FirstLost(got);
      if i == |got| then Some(got) else Some(got[i := Xor(got)])
  }

  function XorCodec(data: nat): Codec {
    Codec(data, 1, d => [Xor(d)], got => XorRepair(data, got))
  }

  lemma {:induction false} XorAppend(a: seq<Shard>, b: seq<Shard>, j: nat)
    ensures XorAt(a + b, j) == XorAt(a, j) ^ XorAt(b, j)
  {
    if a == [] {
      assert a + b == b;
    } else {
      XorAppend(a[1..], b, j);
      assert (a + b)[1..] == a[1..] + b;
    }
  }

  lemma XorDrop(s: seq<Shard>, i: nat, j: nat)
    requires i < |s|
    ensures XorAt(s, j) == XorAt(s[i := []], j) ^ At(s[i], j)
  {
    assert s == s[..i] + ([s[i]] + s[i + 1..]);
    assert s[i := []] == s[..i] + ([[]] + s[i + 1..]);
    XorAppend(s[..i], [s[i]] + s[i + 1..], j);
    XorAppend(s[..i], [[]] + s[i + 1..], j);
  }

  lemma CodewordXorsToZero(d: seq<Shard>, n: nat, j: nat)
    requires d != [] && Uniform(d, n) && j < n
    ensures XorAt(d + [Xor(d)], j) == 0
  {
    XorAppend(d, [Xor(d)], j);
    assert |Xor(d)| == n;
    assert [Xor(d)][1..] == [];
  }

  lemma XorRepairs(data: nat, d: seq<Shard>, n: nat, got: seq<Shard>)
    requires data > 0 && n > 0 && |d| == data && Uniform(d, n)
    requires Remains(d + [Xor(d)], got) && |Lost(got)| <= 1
    ensures XorRepair(data, got) == Some(d + [Xor(d)])
  {
    var whole := d + [Xor(d)];
    assert forall i :: 0 <= i < |whole| ==> |whole[i]| == n;
    var i := FirstLost(got);
    assert SameLengths(got);
    if i == |got| {
      assert got == whole;
    } else {
      assert forall j :: 0 <= j < |got| && j != i ==> got[j] == whole[j] by {
        forall j | 0 <= j < |got| && j != i ensures got[j] == whole[j] {
          if got[j] == [] {
            assert {i, j} <= Lost(got);
            assert |{i, j}| == 2;
            SubsetSize({i, j}, Lost(got));
          }
        }
      }
      assert got == whole[i := []];
      var other := if i == 0 then 1 else 0;
      assert |got[other]| == n && Longest(got) == n;
      forall j | 0 <= j < n ensures Xor(got)[j] == whole[i][j] {
        CodewordXorsToZero(d, n, j);
        XorDrop(whole, i, j);
      }
      assert Xor(got) == whole[i];
      assert got[i := Xor(got)] == whole;
    }
  }

  lemma {:induction false} SubsetSize(a: set<nat>, b: set<nat>)
    requires a <= b
    ensures |a| <= |b|
  {
    if a != {} {
      var x :| x in a;
      SubsetSize(a - {x}, b - {x});
    }
  }

  /** The laws asked of the codec are satisfiable, for every number of data shards. */
  lemma XorIsMDS(data: nat)
    requires data > 0
    ensures MDS(XorCodec(data))
  {
    var c := XorCodec(data);
    forall d, n: nat | IsData(c, d, n) ensures |c.encode(d)| == 1 && Uniform(c.encode(d), n) {
      assert |Xor(d)| == n;
    }
    forall d, n: nat, got | IsData(c, d, n) && Remains(d + c.encode(d), got) && |Lost(got)| <= 1
      ensures c.repair(got) == Some(d + c.encode(d))
    {
      XorRepairs(data, d, n, got);
    }
    forall got | |got| == data + 1 && Lost(got) == {}
      ensures c.repair(got) == if SameLengths(got) then Some(got) else None
    {
      var i := FirstLost(got);
      assert i < |got| ==> i in Lost(got);
    }
  }
}
