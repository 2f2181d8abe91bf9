/** Changing what is stored while disks are down, and reading it once they are back: overwriting and deleting an
    object, and deleting a bucket and creating it again. */
module StoreFaults {
  import opened Results
  import opened ErasureCode
  import opened Store
  import opened StoreRuns

  // ----- What the disks hold -----

  function Fail(ds: seq<Disk>, f: nat): seq<Disk>
    requires f < |ds|
  {
    ds[f := ds[f].(online := false)]
  }

  function Return(ds: seq<Disk>, f: nat): seq<Disk>
    requires f < |ds|
  {
    ds[f := ds[f].(online := true)]
  }

  /** The old version at `q`, overwritten on the disks before `f`. */
  ghost predicate Overwritten(c: Config, a: Abs, ds: seq<Disk>, q: Place, f: nat, info: ObjectInfo, shards: seq<Shard>)
    requires c.disks > 0 && c.codec.data > 0 && |ds| == c.disks && f < |ds| && KeyOf(q) in a.objects
  {
    forall i :: 0 <= i < |ds| ==>
      && ds[i].online && ds[i].buckets == a.buckets && q in ds[i].objects
      && Shards(c, a.objects[KeyOf(q)].body).Ok?
      && ds[i].objects[q] ==
           if i < f then Entry(info, PartFor(shards, i))
           else Entry(a.objects[KeyOf(q)].info, PartFor(Shards(c, a.objects[KeyOf(q)].body).value, i))
  }

  lemma PutStopsAt(c: Config, a: Abs, ds: seq<Disk>, f: nat, q: Place, info: ObjectInfo, shards: seq<Shard>)
    requires c.Valid() && Refines(c, a, ds) && f < |ds| && KeyOf(q) in a.objects
    ensures Overwritten(c, a, Return(PutEntries(Fail(ds, f), q, info, shards), f), q, f, info, shards)
  {
    var down := Fail(ds, f);
    var back := Return(PutEntries(down, q, info, shards), f);
    forall i | 0 <= i < |ds| ensures Holds(c, a, ds[i], i) && (Reached(down, i) <==> i < f) {
      assert Holds(c, a, ds[i], i);
      if i < f {
        forall j | 0 <= j <= i ensures down[j].online { assert Holds(c, a, ds[j], j); }
      }
    }
  }

  /** The upload is reported as failed. */
  lemma PutFails(c: Config, a: Abs, ds: seq<Disk>, f: nat, put: Op)
    requires c.Valid() && Refines(c, a, ds) && Sound(c, a) && f < |ds| && |ds| > 1
    requires put.PutObject? && MayUse(a, put.bucket, put.account) && Shards(c, put.body).Ok?
    ensures Exec(c, Fail(ds, f), put) ==
      (PutEntries(Fail(ds, f), PlaceOf(put.bucket, put.key), NewInfo(put.key, put.contentType, put.body, put.now),
                  Shards(c, put.body).value),
       Failed(IOFault))
  {
    var down := Fail(ds, f);
    assert Degraded(ds, down);
    forall i | 0 <= i < |ds| ensures ds[i].online { assert Holds(c, a, ds[i], i); }
    var other := if f == 0 then 1 else 0;
    assert down[other].online && !down[f].online;
    DegradedOwned(c, a, ds, down, put.bucket, put.account);
  }

  // ----- What is read -----

  /** The old body with the new one's first `k` shards, cut at the old size. */
  function Spliced(c: Config, earlier: Shard, later: Shard, k: nat): Shard
    requires c.codec.data > 0 && k <= c.codec.data
  {
    Cut(Concat(Split(later, c.codec.data)[..k] + Split(earlier, c.codec.data)[k..]), |earlier|)
  }

  function Least(a: nat, b: nat): nat {
    if a < b then a else b
  }

  /** Some shards of each version, but not of one length. */
  predicate Clash(c: Config, earlier: Shard, later: Shard, f: nat)
    requires c.codec.data > 0
  {
    0 < f < c.Total() && ShardLength(|earlier|, c.codec.data) != ShardLength(|later|, c.codec.data)
  }

  lemma JoinSpliced(c: Config, earlier: Shard, later: Shard, f: nat, parts: seq<Shard>)
    requires c.Valid() && c.codec.parity > 0 && earlier != [] && later != [] && |parts| == c.disks
    requires forall i :: 0 <= i < |parts| ==>
      parts[i] == PartFor(if i < f then Codeword(c.codec, later) else Codeword(c.codec, earlier), i)
    ensures JoinShards(c, parts, |earlier|) ==
      if Clash(c, earlier, later, f) then Err(TooFewShards) else Ok(Spliced(c, earlier, later, Least(f, c.codec.data)))
  {
    var d, t, k := c.codec.data, c.Total(), Least(f, c.codec.data);
    var got := parts[..t];
    CodewordLengths(c.codec, earlier);
    CodewordLengths(c.codec, later);
    assert Lost(got) == {};
    LengthsIff(c, earlier, later, f, got);
    assert got[..d] == Split(later, d)[..k] + Split(earlier, d)[k..];
  }

  lemma CodewordLengths(c: Codec, body: Shard)
    requires MDS(c) && body != []
    ensures |Codeword(c, body)| == c.data + c.parity && ShardLength(|body|, c.data) > 0
    ensures Uniform(Codeword(c, body), ShardLength(|body|, c.data)) && Codeword(c, body)[..c.data] == Split(body, c.data)
  {
    CodewordShape(c, body);
    assert IsData(c, Split(body, c.data), ShardLength(|body|, c.data));
  }

  lemma LengthsIff(c: Config, earlier: Shard, later: Shard, f: nat, got: seq<Shard>)
    requires c.Valid() && c.codec.parity > 0 && earlier != [] && later != [] && |got| == c.Total()
    requires |Codeword(c.codec, earlier)| == |Codeword(c.codec, later)| == |got|
    requires Uniform(Codeword(c.codec, earlier), ShardLength(|earlier|, c.codec.data))
    requires Uniform(Codeword(c.codec, later), ShardLength(|later|, c.codec.data))
    requires forall i :: 0 <= i < |got| ==> got[i] == (if i < f then Codeword(c.codec, later) else Codeword(c.codec, earlier))[i]
    ensures SameLengths(got) <==> !Clash(c, earlier, later, f)
  {
    assert ShardLength(|earlier|, c.codec.data) > 0 && ShardLength(|later|, c.codec.data) > 0;
    if Clash(c, earlier, later, f) {
      assert |got[0]| != |got[f]| && got[0] != [] && got[f] != [];
    }
  }

  /** After an overwrite that failed on disk `f`, once the disk is back, the object is read under its old metadata:
      as an error if shards of different lengths meet, and otherwise as the two versions spliced. */
  lemma ReadAfterFailedPut(c: Config, a: Abs, ds: seq<Disk>, f: nat, put: Op)
    requires c.Valid() && c.codec.parity > 0 && Refines(c, a, ds) && Sound(c, a) && f < |ds|
    requires put.PutObject? && put.body != [] && MayUse(a, put.bucket, put.account) && (put.bucket, put.key) in a.objects
    ensures var o := a.objects[(put.bucket, put.key)];
      var failed := Exec(c, Fail(ds, f), put);
      && failed.1 == Failed(IOFault)
      && Exec(c, Return(failed.0, f), GetObject(put.bucket, put.key, put.account)).1 ==
           if Clash(c, o.body, put.body, f) then Failed(TooFewShards)
           else Body(o.info, Spliced(c, o.body, put.body, Least(f, c.codec.data)))
  {
    var q, o := PlaceOf(put.bucket, put.key), a.objects[(put.bucket, put.key)];
    var info, shards := NewInfo(put.key, put.contentType, put.body, put.now), Shards(c, put.body).value;
    assert KeyOf(q) == (put.bucket, put.key);
    PutFails(c, a, ds, f, put);
    PutStopsAt(c, a, ds, f, q, info, shards);
    ReadOverwritten(c, a, Return(PutEntries(Fail(ds, f), q, info, shards), f), put, f);
  }

  lemma {:induction false} TwoMetas(ds: seq<Disk>, q: Place, f: nat, later: ObjectInfo, earlier: ObjectInfo)
    requires later.tags == map[]
    requires forall i :: 0 <= i < |ds| ==> Readable(ds[i], q) && ds[i].objects[q].meta == if i < f then later else earlier
    ensures ReadMeta(ds, q) == if ds == [] then None else if |ds| <= f then Some(later) else Some(earlier)
  {
    if ds != [] {
      TwoMetas(ds[..|ds| - 1], q, f, later, earlier);
      assert map[] + earlier.tags == earlier.tags && earlier.tags + earlier.tags == earlier.tags;
    }
  }

  lemma ReadOverwritten(c: Config, a: Abs, back: seq<Disk>, put: Op, f: nat)
    requires c.Valid() && c.codec.parity > 0 && Sound(c, a) && |back| == c.disks && f < |back|
    requires put.PutObject? && put.body != [] && MayUse(a, put.bucket, put.account) && (put.bucket, put.key) in a.objects
    requires Overwritten(c, a, back, PlaceOf(put.bucket, put.key), f,
                         NewInfo(put.key, put.contentType, put.body, put.now), Shards(c, put.body).value)
    ensures var o := a.objects[(put.bucket, put.key)];
      Exec(c, back, GetObject(put.bucket, put.key, put.account)).1 ==
        if Clash(c, o.body, put.body, f) then Failed(TooFewShards)
        else Body(o.info, Spliced(c, o.body, put.body, Least(f, c.codec.data)))
  {
    var q, o := PlaceOf(put.bucket, put.key), a.objects[(put.bucket, put.key)];
    assert KeyOf(q) == (put.bucket, put.key);
    FindBucketAgrees(back, a.buckets, put.bucket);
    assert back[0].online;
    TwoMetas(back, q, f, NewInfo(put.key, put.contentType, put.body, put.now), o.info);
    JoinSpliced(c, o.body, put.body, f, Parts(back, q));
    ExecGet(c, back, put.bucket, put.key, put.account);
  }

  // ----- Which version that is -----

  /** A byte of the body with the padding behind it. */
  function ByteAt(body: Shard, j: nat): Byte {
    if j < |body| then body[j] else 0
  }

  /** Byte by byte: the new version in the first `k` shards, the old one behind them. */
  lemma SplicedAt(c: Config, earlier: Shard, later: Shard, k: nat)
    requires c.codec.data > 0 && k <= c.codec.data
    requires ShardLength(|earlier|, c.codec.data) == ShardLength(|later|, c.codec.data)
    ensures var n := ShardLength(|earlier|, c.codec.data);
      && |Spliced(c, earlier, later, k)| == |earlier|
      && forall j :: 0 <= j < |earlier| ==> Spliced(c, earlier, later, k)[j] == if j < n * k then ByteAt(later, j) else earlier[j]
  {
    var d, n := c.codec.data, ShardLength(|earlier|, c.codec.data);
    var o, w := Padded(earlier, d), Padded(later, d);
    ConcatCut(w, n, d, k);
    ConcatCut(o, n, d, k);
    ConcatAppend(Split(later, d)[..k], Split(earlier, d)[k..]);
    var whole := w[..n * k] + o[n * k..];
    assert Concat(Split(later, d)[..k] + Split(earlier, d)[k..]) == whole && |whole| == |o|;
    forall j | 0 <= j < |earlier| ensures whole[j] == if j < n * k then ByteAt(later, j) else earlier[j] {}
  }

  function Padded(body: Shard, data: nat): (r: Shard)
    requires data > 0
    ensures |r| == ShardLength(|body|, data) * data
  {
    body + seq(ShardLength(|body|, data) * data - |body|, _ => 0 as Byte)
  }

  /** The old body is what is read exactly if the new one agrees with it in the shards that were overwritten. */
  lemma OldIsReadIff(c: Config, earlier: Shard, later: Shard, k: nat)
    requires c.codec.data > 0 && k <= c.codec.data
    requires ShardLength(|earlier|, c.codec.data) == ShardLength(|later|, c.codec.data)
    ensures Spliced(c, earlier, later, k) == earlier <==>
      forall j :: 0 <= j < |earlier| && j < ShardLength(|earlier|, c.codec.data) * k ==> ByteAt(later, j) == earlier[j]
  {
    SplicedAt(c, earlier, later, k);
  }

  /** And the new body exactly if it is as long and agrees in the others. */
  lemma NewIsReadIff(c: Config, earlier: Shard, later: Shard, k: nat)
    requires c.codec.data > 0 && k <= c.codec.data
    requires ShardLength(|earlier|, c.codec.data) == ShardLength(|later|, c.codec.data)
    ensures Spliced(c, earlier, later, k) == later <==>
      |later| == |earlier| && forall j :: 0 <= j < |earlier| && j >= ShardLength(|earlier|, c.codec.data) * k ==> later[j] == earlier[j]
  {
    SplicedAt(c, earlier, later, k);
  }

  /** So a failed overwrite can leave bytes of neither version: it does whenever the bodies differ in their first
      and in their last byte and the failing disk is neither the first nor behind the data. */
  lemma NeitherIsRead(c: Config, earlier: Shard, later: Shard, f: nat)
    requires c.codec.data > 0 && 0 < f < c.codec.data && |earlier| == |later| > 0
    requires ShardLength(|earlier|, c.codec.data) * f < |earlier|
    requires earlier[0] != later[0] && earlier[|earlier| - 1] != later[|earlier| - 1]
    ensures Spliced(c, earlier, later, f) != earlier && Spliced(c, earlier, later, f) != later
  {
    var n := ShardLength(|earlier|, c.codec.data);
    assert n * f >= 1;
    OldIsReadIff(c, earlier, later, f);
    NewIsReadIff(c, earlier, later, f);
  }

  // ----- Deleting while disks are down -----

  /** All disks are back. */
  function Raised(ds: seq<Disk>): (r: seq<Disk>)
    ensures |r| == |ds|
  {
    seq(|ds|, i requires 0 <= i < |ds| => ds[i].(online := true))
  }

  function Up(ds: seq<Disk>, n: nat): set<nat>
    requires n <= |ds|
  {
    set i: nat | i < n && ds[i].online
  }

  lemma {:induction false} UpAndDown(ds: seq<Disk>, n: nat)
    requires n <= |ds|
    ensures |Up(ds, n)| + |Unreadable(ds, n)| == n
  {
    if n > 0 {
      UpAndDown(ds, n - 1);
      UpStep(ds, n);
    }
  }

  lemma UpStep(ds: seq<Disk>, n: nat)
    requires 0 < n <= |ds|
    ensures Up(ds, n) == Up(ds, n - 1) + if ds[n - 1].online then {n - 1} else {}
    ensures Unreadable(ds, n) == Unreadable(ds, n - 1) + if ds[n - 1].online then {} else {n - 1}
    ensures n - 1 !in Up(ds, n - 1) && n - 1 !in Unreadable(ds, n - 1)
  {
  }

  /** After a deletion, the disks that were down still hold the object once they are back. */
  lemma RaisedDisk(c: Config, a: Abs, ds: seq<Disk>, down: seq<Disk>, q: Place, i: nat)
    requires c.Valid() && Refines(c, a, ds) && Degraded(ds, down) && KeyOf(q) in a.objects && i < |ds|
    ensures var d := Raised(DropEntries(down, q))[i];
      && d.online && d.buckets == a.buckets && (Readable(d, q) <==> !down[i].online)
      && (Readable(d, q) ==>
            d.objects[q] == Entry(a.objects[KeyOf(q)].info, PartFor(Shards(c, a.objects[KeyOf(q)].body).value, i)))
  {
    assert Holds(c, a, ds[i], i);
  }

  lemma ReadDeleted(c: Config, a: Abs, ds: seq<Disk>, down: seq<Disk>, bucket: string, key: string, account: string)
    requires c.Valid() && Refines(c, a, ds) && Sound(c, a) && Degraded(ds, down)
    requires MayUse(a, bucket, account) && (bucket, key) in a.objects
    ensures var back := Raised(DropEntries(down, PlaceOf(bucket, key)));
      var q, o := PlaceOf(bucket, key), a.objects[(bucket, key)];
      && Exec(c, back, GetObject(bucket, key, account)).1 ==
           (if AllOnline(down) then Failed(NotFound) else Fetched(c, back, bucket, key, o.info))
      && forall i :: 0 <= i < |back| ==>
           Parts(back, q)[i] == if down[i].online then [] else PartFor(Shards(c, o.body).value, i)
  {
    var q, o := PlaceOf(bucket, key), a.objects[(bucket, key)];
    var back := Raised(DropEntries(down, q));
    assert KeyOf(q) == (bucket, key);
    forall i | 0 <= i < |back|
      ensures back[i].online && back[i].buckets == a.buckets && (Readable(back[i], q) <==> !down[i].online)
      ensures Readable(back[i], q) ==> back[i].objects[q].meta == o.info
      ensures Parts(back, q)[i] == if down[i].online then [] else PartFor(Shards(c, o.body).value, i)
    {
      RaisedDisk(c, a, ds, down, q, i);
    }
    FindBucketAgrees(back, a.buckets, bucket);
    assert back[0].online;
    ReadMetaAgrees(back, q, o.info);
    ExecGet(c, back, bucket, key, account);
  }

  lemma DeleteIsDone(c: Config, a: Abs, ds: seq<Disk>, down: seq<Disk>, bucket: string, key: string, account: string)
    requires c.Valid() && Refines(c, a, ds) && Sound(c, a) && Degraded(ds, down) && SomeOnline(down)
    requires MayUse(a, bucket, account)
    ensures Exec(c, down, DeleteObject(bucket, key, account)) == (DropEntries(down, PlaceOf(bucket, key)), Done)
  {
    DegradedOwned(c, a, ds, down, bucket, account);
  }

  /** With parity, an object that was deleted while disks were down can be read in full again, once they are back,
      exactly if at most `parity` of the disks that carry its shards were up. */
  lemma DeletedReturnsIff(c: Config, a: Abs, ds: seq<Disk>, down: seq<Disk>, bucket: string, key: string, account: string)
    requires c.Valid() && c.codec.parity > 0 && Refines(c, a, ds) && Sound(c, a) && Degraded(ds, down) && SomeOnline(down)
    requires MayUse(a, bucket, account) && (bucket, key) in a.objects
    ensures var deleted, o := Exec(c, down, DeleteObject(bucket, key, account)), a.objects[(bucket, key)];
      && deleted.1 == Done
      && (Exec(c, Raised(deleted.0), GetObject(bucket, key, account)).1 == Body(o.info, o.body)
          <==> |Up(down, c.Total())| <= c.codec.parity)
  {
    var o := a.objects[(bucket, key)];
    var back := Raised(DropEntries(down, PlaceOf(bucket, key)));
    DeleteIsDone(c, a, ds, down, bucket, key, account);
    ReadDeleted(c, a, ds, down, bucket, key, account);
    UpAndDown(down, c.Total());
    if AllOnline(down) {
      assert Unreadable(down, c.Total()) == {};
    } else {
      JoinLeft(c, o.body, down, Parts(back, PlaceOf(bucket, key)));
    }
  }

  lemma JoinLeft(c: Config, body: Shard, down: seq<Disk>, parts: seq<Shard>)
    requires c.Valid() && c.codec.parity > 0 && body != [] && |down| == |parts| == c.disks
    requires forall i :: 0 <= i < |parts| ==> parts[i] == if down[i].online then [] else PartFor(Shards(c, body).value, i)
    ensures JoinShards(c, parts, |body|) ==
      if |Up(down, c.Total())| <= c.codec.parity then Ok(body) else Err(TooFewShards)
  {
    CodewordShape(c.codec, body);
    assert Lost(parts[..c.Total()]) == Up(down, c.Total());
    JoinAfterLoss(c, body, parts);
  }

  /** Without parity, exactly if disk 0 was down and the body is not empty. */
  lemma DeletedReturnsWithoutParityIff(c: Config, a: Abs, ds: seq<Disk>, down: seq<Disk>, bucket: string, key: string, account: string)
    requires c.Valid() && c.codec.parity == 0 && Refines(c, a, ds) && Sound(c, a) && Degraded(ds, down) && SomeOnline(down)
    requires MayUse(a, bucket, account) && (bucket, key) in a.objects
    ensures var deleted, o := Exec(c, down, DeleteObject(bucket, key, account)), a.objects[(bucket, key)];
      Exec(c, Raised(deleted.0), GetObject(bucket, key, account)).1 == Body(o.info, o.body)
      <==> !down[0].online && o.body != []
  {
    var o := a.objects[(bucket, key)];
    DeleteIsDone(c, a, ds, down, bucket, key, account);
    ReadDeleted(c, a, ds, down, bucket, key, account);
    if !AllOnline(down) {
      var parts := Parts(Raised(DropEntries(down, PlaceOf(bucket, key))), PlaceOf(bucket, key));
      FirstNonEmptyOf(parts, parts[0]);
    }
  }

  // ----- A bucket that changes hands while disks are down -----

  /** The disks after `DeleteBucket` by its owner and `CreateBucket` by another account, the same disks being down. */
  function Reassigned(c: Config, down: seq<Disk>, name: string, owner: string, other: string, now: int): (r: (seq<Disk>, Reply, Reply))
    requires c.disks > 0 && c.codec.data > 0 && |down| == c.disks && c.Total() <= c.disks
    ensures |r.0| == |down|
  {
    var deleted := Exec(c, down, DeleteBucket(name, owner));
    var created := Exec(c, deleted.0, CreateBucket(name, other, now));
    (created.0, deleted.1, created.1)
  }

  lemma NobodyHas(c: Config, a: Abs, ds: seq<Disk>, down: seq<Disk>, name: string)
    requires c.Valid() && Refines(c, a, ds) && Degraded(ds, down) && forall p :: p in a.objects ==> p.0 != name
    ensures !HasObjects(down, name) && FindBucket(DropBucket(down, name), name).None?
  {
    forall i | 0 <= i < |down| ensures !(down[i].online && exists q :: q in down[i].objects && q.0 == name) {
      assert Holds(c, a, ds[i], i) && down[i].objects == ds[i].objects;
    }
    FindBucketAbsent(DropBucket(down, name), name);
  }

  /** The first disk decides who owns the bucket once all disks are back: the new account if the disk was up, and
      the old one, whose bucket was deleted, if it was down. The creation is reported as failed either way. */
  lemma FirstDiskDecides(c: Config, a: Abs, ds: seq<Disk>, down: seq<Disk>, name: string, owner: string, other: string, now: int)
    requires c.Valid() && Refines(c, a, ds) && Sound(c, a) && Degraded(ds, down) && SomeOnline(down) && !AllOnline(down)
    requires MayUse(a, name, owner) && other != "" && forall p :: p in a.objects ==> p.0 != name
    ensures var r := Reassigned(c, down, name, owner, other, now);
      && r.1 == Done && r.2 == Failed(IOFault)
      && FindBucket(Raised(r.0), name) ==
           Some(if down[0].online then BucketInfo(name, other, now, map[]) else a.buckets[name])
  {
    NobodyHas(c, a, ds, down, name);
    DegradedOwned(c, a, ds, down, name, owner);
    var dropped := DropBucket(down, name);
    assert Exec(c, down, DeleteBucket(name, owner)) == (dropped, Done);
    assert !AllOnline(dropped) by {
      var i :| 0 <= i < |down| && !down[i].online;
      assert !dropped[i].online;
    }
    var made := WriteBucket(dropped, BucketInfo(name, other, now, map[]));
    assert Reached(dropped, 0) <==> down[0].online;
    assert Holds(c, a, ds[0], 0);
    assert Raised(made)[0].online && name in Raised(made)[0].buckets;
  }

  /** A bucket that was deleted while disks were down is there again once they are back, with its owner. */
  lemma DeletedBucketReturnsIff(c: Config, a: Abs, ds: seq<Disk>, down: seq<Disk>, name: string, owner: string)
    requires c.Valid() && Refines(c, a, ds) && Sound(c, a) && Degraded(ds, down) && SomeOnline(down)
    requires MayUse(a, name, owner) && forall p :: p in a.objects ==> p.0 != name
    ensures var deleted := Exec(c, down, DeleteBucket(name, owner));
      deleted.1 == Done && FindBucket(Raised(deleted.0), name) == if AllOnline(down) then None else Some(a.buckets[name])
  {
    NobodyHas(c, a, ds, down, name);
    DegradedOwned(c, a, ds, down, name, owner);
    var back := Raised(DropBucket(down, name));
    forall i | 0 <= i < |back|
      ensures back[i].online && (name in back[i].buckets <==> !down[i].online)
      ensures name in back[i].buckets ==> back[i].buckets[name] == a.buckets[name]
    {
      assert Holds(c, a, ds[i], i);
    }
    OneOwner(back, name, a.buckets[name]);
  }

  lemma {:induction false} OneOwner(ds: seq<Disk>, name: string, info: BucketInfo)
    requires forall i :: 0 <= i < |ds| ==> ds[i].online && (name in ds[i].buckets ==> ds[i].buckets[name] == info)
    ensures FindBucket(ds, name) == if exists i :: 0 <= i < |ds| && name in ds[i].buckets then Some(info) else None
  {
    if ds != [] && name !in ds[0].buckets {
      OneOwner(ds[1..], name, info);
      assert forall i :: 0 < i < |ds| ==> ds[i] == ds[1..][i - 1];
      assert forall i :: 0 <= i < |ds| - 1 ==> ds[1..][i] == ds[i + 1];
    }
  }
}
