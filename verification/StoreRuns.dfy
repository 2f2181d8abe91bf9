/** The multi-disk store refines a plain map, over every run without disk faults, and survives the
    loss of disks between runs. */
module StoreRuns {
  import opened Results
  import opened ErasureCode
  import opened Store

  // ----- The abstract store -----

  datatype Obj = Obj(info: ObjectInfo, body: Shard)

  datatype Abs = Abs(buckets: map<string, BucketInfo>, objects: map<(string, string), Obj>)

  const EMPTY_STORE := Abs(map[], map[])

  predicate MayUse(a: Abs, bucket: string, account: string) {
    bucket in a.buckets && account != "" && a.buckets[bucket].account == account
  }

  function Refusal(a: Abs, bucket: string): Error {
    if bucket in a.buckets then Forbidden else NotFound
  }

  /** The plain map: no disks, no shards, no padding. */
  function AbsStep(c: Config, a: Abs, op: Op): (Abs, Reply) {
    match op
    case CreateBucket(name, account, now) =>
      if account == "" then (a, Failed(Forbidden))
      else if name in a.buckets then (a, Failed(BucketExists))
      else (a.(buckets := a.buckets[name := BucketInfo(name, account, now, map[])]), Done)
    case DeleteBucket(name, account) =>
      if !MayUse(a, name, account) then (a, Failed(Refusal(a, name)))
      else if exists p :: p in a.objects && p.0 == name then (a, Failed(BucketNotEmpty))
      else (a.(buckets := a.buckets - {name}), Done)
    case PutBucketMeta(name, account, mutate) =>
      if !MayUse(a, name, account) then (a, Failed(Refusal(a, name)))
      else (a.(buckets := a.buckets[name := Remade(a.buckets[name], mutate)]), Done)
    case PutObject(bucket, key, contentType, body, account, now) =>
      if !MayUse(a, bucket, account) then (a, Failed(Refusal(a, bucket)))
      else if body == [] && c.codec.parity > 0 then (a, Failed(ShortData))
      else
        var info := NewInfo(key, contentType, body, now);
        (a.(objects := a.objects[(bucket, key) := Obj(info, body)]), Info(info))
    case UpdateObjectMeta(bucket, key, account, mutate) =>
      if !MayUse(a, bucket, account) then (a, Failed(Refusal(a, bucket)))
      else if (bucket, key) !in a.objects then (a, Failed(NotFound))
      else
        var o := a.objects[(bucket, key)];
        (a.(objects := a.objects[(bucket, key) := o.(info := mutate(o.info))]), Done)
    case DeleteObject(bucket, key, account) =>
      if !MayUse(a, bucket, account) then (a, Failed(Refusal(a, bucket)))
      else (a.(objects := a.objects - {(bucket, key)}), Done)
    case HeadObject(bucket, key, account) =>
      if !MayUse(a, bucket, account) then (a, Failed(Refusal(a, bucket)))
      else if (bucket, key) !in a.objects then (a, Failed(NotFound))
      else (a, Info(a.objects[(bucket, key)].info))
    case GetObject(bucket, key, account) =>
      if !MayUse(a, bucket, account) then (a, Failed(Refusal(a, bucket)))
      else if (bucket, key) !in a.objects || a.objects[(bucket, key)].body == [] then (a, Failed(NotFound))
      else (a, Body(a.objects[(bucket, key)].info, a.objects[(bucket, key)].body))
  }

  /** What every reachable store satisfies. */
  ghost predicate Sound(c: Config, a: Abs) {
    && (forall b :: b in a.buckets ==> a.buckets[b].name == b && a.buckets[b].account != "")
    && (forall p :: p in a.objects ==> p.0 in a.buckets)
    && (forall p :: p in a.objects ==> a.objects[p].info.key == p.1 && a.objects[p].info.size == |a.objects[p].body|)
    && (c.codec.parity > 0 ==> forall p :: p in a.objects ==> a.objects[p].body != [])
  }

  /** Callers' changes to an object's metadata leave its key and size alone. */
  ghost predicate KeepsIdentity(op: Op) {
    op.UpdateObjectMeta? ==>
      forall info: ObjectInfo :: op.mutate(info).key == info.key && op.mutate(info).size == info.size
  }

  // ----- What the disks hold for a given abstract store -----

  function KeyOf(q: Place): (string, string) {
    (q.0, q.1.of)
  }

  ghost predicate Holds(c: Config, a: Abs, d: Disk, i: nat)
    requires c.disks > 0 && c.codec.data > 0
  {
    && d.online
    && d.buckets == a.buckets
    && (forall q :: q in d.objects <==> KeyOf(q) in a.objects)
    && (forall q :: q in d.objects ==>
          && d.objects[q].meta == a.objects[KeyOf(q)].info
          && Shards(c, a.objects[KeyOf(q)].body).Ok?
          && d.objects[q].part == PartFor(Shards(c, a.objects[KeyOf(q)].body).value, i))
  }

  ghost predicate Refines(c: Config, a: Abs, ds: seq<Disk>)
    requires c.disks > 0 && c.codec.data > 0
  {
    |ds| == c.disks && forall i :: 0 <= i < |ds| ==> Holds(c, a, ds[i], i)
  }

  /** All disks carry the same bucket and object metadata. */
  ghost predicate MetadataIdentical(ds: seq<Disk>) {
    forall i, j :: 0 <= i < |ds| && 0 <= j < |ds| ==>
      && ds[i].buckets == ds[j].buckets
      && ds[i].objects.Keys == ds[j].objects.Keys
      && forall q :: q in ds[i].objects ==> ds[i].objects[q].meta == ds[j].objects[q].meta
  }

  // ----- One step -----

  lemma OwnedRefines(c: Config, a: Abs, ds: seq<Disk>, bucket: string, account: string)
    requires c.Valid() && Refines(c, a, ds) && Sound(c, a)
    ensures FindBucket(ds, bucket) == if bucket in a.buckets then Some(a.buckets[bucket]) else None
    ensures Owned(ds, bucket, account) ==
            if MayUse(a, bucket, account) then Ok(a.buckets[bucket]) else Err(Refusal(a, bucket))
  {
    assert Holds(c, a, ds[0], 0);
    FindBucketAbsent(ds, bucket);
  }

  lemma {:induction false} FindBucketAbsent(ds: seq<Disk>, name: string)
    ensures FindBucket(ds, name).None? <==> forall i :: 0 <= i < |ds| && ds[i].online ==> name !in ds[i].buckets
  {
    if ds != [] {
      FindBucketAbsent(ds[1..], name);
      assert forall i :: 0 < i < |ds| ==> ds[i] == ds[1..][i - 1];
      assert forall i :: 0 <= i < |ds| - 1 ==> ds[1..][i] == ds[i + 1];
    }
  }

  lemma {:induction false} ReadMetaAgrees(ds: seq<Disk>, q: Place, info: ObjectInfo)
    requires forall i :: 0 <= i < |ds| && Readable(ds[i], q) ==> ds[i].objects[q].meta == info
    ensures ReadMeta(ds, q) == if exists i :: 0 <= i < |ds| && Readable(ds[i], q) then Some(info) else None
  {
    if ds != [] {
      ReadMetaAgrees(ds[..|ds| - 1], q, info);
      assert info.tags + info.tags == info.tags;
      assert Readable(ds[|ds| - 1], q) ==> ReadMeta(ds, q) == Some(info);
    }
  }

  lemma MetaRefines(c: Config, a: Abs, ds: seq<Disk>, bucket: string, key: string)
    requires c.Valid() && Refines(c, a, ds)
    ensures ReadMeta(ds, PlaceOf(bucket, key)) ==
            if (bucket, key) in a.objects then Some(a.objects[(bucket, key)].info) else None
  {
    var q := PlaceOf(bucket, key);
    assert KeyOf(q) == (bucket, key);
    assert Holds(c, a, ds[0], 0);
    forall i | 0 <= i < |ds| && Readable(ds[i], q) ensures ds[i].objects[q].meta == ds[0].objects[q].meta {
      assert Holds(c, a, ds[i], i);
    }
    if (bucket, key) in a.objects {
      ReadMetaAgrees(ds, q, a.objects[(bucket, key)].info);
    } else {
      forall i | 0 <= i < |ds| ensures !Readable(ds[i], q) { assert Holds(c, a, ds[i], i); }
      ReadMetaAgrees(ds, q, NewInfo("", "", [], 0));
    }
  }

  /** Reading with some disks gone: what is left of the shards still gives the body. `ds` may have
      any disks offline, as long as the first `Total()` of them lost at most `parity`. */
  lemma JoinAfterLoss(c: Config, body: Shard, parts: seq<Shard>)
    requires c.Valid() && c.codec.parity > 0 && body != []
    requires |parts| == c.disks
    requires forall i :: 0 <= i < c.Total() ==>
               parts[i] == [] || parts[i] == PartFor(Shards(c, body).value, i)
    ensures JoinShards(c, parts, |body|) ==
            if |Lost(parts[..c.Total()])| <= c.codec.parity then Ok(body) else Err(TooFewShards)
  {
    var got := parts[..c.Total()];
    CodewordShape(c.codec, body);
    assert Remains(Codeword(c.codec, body), got);
    RepairBody(c.codec, body, got);
    if |Lost(got)| <= c.codec.parity {
      var joined := Concat(Codeword(c.codec, body)[..c.codec.data]);
      assert Cut(joined, |body|) == joined[..|body|];
    }
  }

  lemma {:induction false} FirstNonEmptyOf(shards: seq<Shard>, s: Shard)
    requires shards != [] && shards[0] == s
    requires forall i :: 0 < i < |shards| ==> shards[i] == []
    ensures FirstNonEmpty(shards) == s
  {
    if s == [] && |shards| > 1 {
      assert shards[1..][0] == [];
      FirstNonEmptyOf(shards[1..], []);
    }
  }

  lemma GetRefines(c: Config, a: Abs, ds: seq<Disk>, bucket: string, key: string)
    requires c.Valid() && Refines(c, a, ds) && Sound(c, a)
    requires (bucket, key) in a.objects
    ensures
      var o := a.objects[(bucket, key)];
      JoinShards(c, Parts(ds, PlaceOf(bucket, key)), o.info.size)
      == if o.body == [] then Err(NotFound) else Ok(o.body)
  {
    var q := PlaceOf(bucket, key);
    var o := a.objects[(bucket, key)];
    assert KeyOf(q) == (bucket, key);
    var parts := Parts(ds, q);
    forall i | 0 <= i < |ds| ensures parts[i] == PartFor(Shards(c, o.body).value, i) {
      assert Holds(c, a, ds[i], i);
    }
    assert Holds(c, a, ds[0], 0);
    if c.codec.parity == 0 {
      FirstNonEmptyOf(parts, o.body);
    } else {
      CodewordShape(c.codec, o.body);
      assert Lost(parts[..c.Total()]) == {};
      JoinAfterLoss(c, o.body, parts);
    }
  }

  lemma PutRefines(c: Config, a: Abs, ds: seq<Disk>, bucket: string, key: string, info: ObjectInfo, body: Shard)
    requires c.Valid() && Refines(c, a, ds) && Shards(c, body).Ok?
    ensures Refines(c, a.(objects := a.objects[(bucket, key) := Obj(info, body)]),
                    PutEntries(ds, PlaceOf(bucket, key), info, Shards(c, body).value))
  {
    var a' := a.(objects := a.objects[(bucket, key) := Obj(info, body)]);
    var ds' := PutEntries(ds, PlaceOf(bucket, key), info, Shards(c, body).value);
    forall i | 0 <= i < |ds'| ensures Holds(c, a', ds'[i], i) {
      assert Holds(c, a, ds[i], i);
      assert Reached(ds, i);
      assert forall q: Place :: KeyOf(q) == (bucket, key) <==> q == PlaceOf(bucket, key);
    }
  }

  lemma WriteBucketRefines(c: Config, a: Abs, ds: seq<Disk>, info: BucketInfo)
    requires c.Valid() && Refines(c, a, ds)
    ensures Refines(c, a.(buckets := a.buckets[info.name := info]), WriteBucket(ds, info))
  {
    var a' := a.(buckets := a.buckets[info.name := info]);
    var ds' := WriteBucket(ds, info);
    forall i | 0 <= i < |ds'| ensures Holds(c, a', ds'[i], i) {
      assert Holds(c, a, ds[i], i);
      assert Reached(ds, i);
    }
  }

  lemma DropEntriesRefines(c: Config, a: Abs, ds: seq<Disk>, bucket: string, key: string)
    requires c.Valid() && Refines(c, a, ds)
    ensures Refines(c, a.(objects := a.objects - {(bucket, key)}), DropEntries(ds, PlaceOf(bucket, key)))
  {
    var a' := a.(objects := a.objects - {(bucket, key)});
    var ds' := DropEntries(ds, PlaceOf(bucket, key));
    forall i | 0 <= i < |ds'| ensures Holds(c, a', ds'[i], i) {
      assert Holds(c, a, ds[i], i);
      assert forall q: Place :: KeyOf(q) == (bucket, key) <==> q == PlaceOf(bucket, key);
    }
  }

  lemma RewriteMetaRefines(c: Config, a: Abs, ds: seq<Disk>, bucket: string, key: string, info: ObjectInfo)
    requires c.Valid() && Refines(c, a, ds) && (bucket, key) in a.objects
    ensures Refines(c, a.(objects := a.objects[(bucket, key) := a.objects[(bucket, key)].(info := info)]),
                    RewriteMeta(ds, PlaceOf(bucket, key), info))
  {
    var a' := a.(objects := a.objects[(bucket, key) := a.objects[(bucket, key)].(info := info)]);
    var ds' := RewriteMeta(ds, PlaceOf(bucket, key), info);
    forall i | 0 <= i < |ds'| ensures Holds(c, a', ds'[i], i) {
      assert Holds(c, a, ds[i], i);
      assert forall q: Place :: KeyOf(q) == (bucket, key) <==> q == PlaceOf(bucket, key);
    }
  }

  lemma HasObjectsRefines(c: Config, a: Abs, ds: seq<Disk>, name: string)
    requires c.Valid() && Refines(c, a, ds)
    ensures HasObjects(ds, name) <==> exists p :: p in a.objects && p.0 == name
  {
    assert Holds(c, a, ds[0], 0);
    if p :| p in a.objects && p.0 == name {
      assert KeyOf(PlaceOf(p.0, p.1)) == p;
      assert PlaceOf(p.0, p.1) in ds[0].objects;
    }
    if i, q :| 0 <= i < |ds| && ds[i].online && q in ds[i].objects && q.0 == name {
      assert Holds(c, a, ds[i], i);
      assert KeyOf(q) in a.objects;
    }
  }

  lemma DropBucketRefines(c: Config, a: Abs, ds: seq<Disk>, name: string)
    requires c.Valid() && Refines(c, a, ds)
    requires !HasObjects(ds, name)
    ensures Refines(c, a.(buckets := a.buckets - {name}), DropBucket(ds, name))
  {
    var a' := a.(buckets := a.buckets - {name});
    var ds' := DropBucket(ds, name);
    forall i | 0 <= i < |ds'| ensures Holds(c, a', ds'[i], i) {
      assert Holds(c, a, ds[i], i);
      assert ds'[i].objects == ds[i].objects;
    }
  }

  /** One operation on the disks does exactly what it does on the plain map, and answers the same. */
  lemma {:induction false} StepRefines(c: Config, a: Abs, ds: seq<Disk>, op: Op)
    requires c.Valid() && Refines(c, a, ds) && Sound(c, a)
    ensures Exec(c, ds, op).1 == AbsStep(c, a, op).1
    ensures Refines(c, AbsStep(c, a, op).0, Exec(c, ds, op).0)
  {
    assert AllOnline(ds) by {
      forall i | 0 <= i < |ds| ensures ds[i].online { assert Holds(c, a, ds[i], i); }
    }
    match op
    case CreateBucket(name, account, now) =>
      OwnedRefines(c, a, ds, name, account);
      WriteBucketRefines(c, a, ds, BucketInfo(name, account, now, map[]));
    case DeleteBucket(name, account) =>
      OwnedRefines(c, a, ds, name, account);
      HasObjectsRefines(c, a, ds, name);
      if !HasObjects(ds, name) { DropBucketRefines(c, a, ds, name); }
    case PutBucketMeta(name, account, mutate) =>
      OwnedRefines(c, a, ds, name, account);
      if MayUse(a, name, account) { WriteBucketRefines(c, a, ds, Remade(a.buckets[name], mutate)); }
    case PutObject(bucket, key, contentType, body, account, now) =>
      OwnedRefines(c, a, ds, bucket, account);
      if Shards(c, body).Ok? { PutRefines(c, a, ds, bucket, key, NewInfo(key, contentType, body, now), body); }
    case UpdateObjectMeta(bucket, key, account, mutate) =>
      OwnedRefines(c, a, ds, bucket, account);
      MetaRefines(c, a, ds, bucket, key);
      if (bucket, key) in a.objects { RewriteMetaRefines(c, a, ds, bucket, key, mutate(a.objects[(bucket, key)].info)); }
    case DeleteObject(bucket, key, account) =>
      OwnedRefines(c, a, ds, bucket, account);
      DropEntriesRefines(c, a, ds, bucket, key);
    case HeadObject(bucket, key, account) =>
      OwnedRefines(c, a, ds, bucket, account);
      MetaRefines(c, a, ds, bucket, key);
    case GetObject(bucket, key, account) =>
      OwnedRefines(c, a, ds, bucket, account);
      MetaRefines(c, a, ds, bucket, key);
      if (bucket, key) in a.objects { GetRefines(c, a, ds, bucket, key); }
  }

  lemma {:induction false} StepSound(c: Config, a: Abs, op: Op)
    requires Sound(c, a) && KeepsIdentity(op)
    ensures Sound(c, AbsStep(c, a, op).0)
  {
  }

  // ----- Whole runs -----

  function Run(c: Config, ds: seq<Disk>, ops: seq<Op>): (r: (seq<Disk>, seq<Reply>))
    requires c.disks > 0 && c.codec.data > 0 && |ds| == c.disks && c.Total() <= c.disks
    ensures |r.0| == |ds| && |r.1| == |ops|
    decreases |ops|
  {
    if ops == [] then (ds, []) else
      var s := Exec(c, ds, ops[0]);
      var rest := Run(c, s.0, ops[1..]);
      (rest.0, [s.1] + rest.1)
  }

  function AbsRun(c: Config, a: Abs, ops: seq<Op>): (r: (Abs, seq<Reply>))
    ensures |r.1| == |ops|
    decreases |ops|
  {
    if ops == [] then (a, []) else
      var s := AbsStep(c, a, ops[0]);
      var rest := AbsRun(c, s.0, ops[1..]);
      (rest.0, [s.1] + rest.1)
  }

  lemma {:induction false} RunRefines(c: Config, a: Abs, ds: seq<Disk>, ops: seq<Op>)
    requires c.Valid() && Refines(c, a, ds) && Sound(c, a)
    requires forall i :: 0 <= i < |ops| ==> KeepsIdentity(ops[i])
    ensures Run(c, ds, ops).1 == AbsRun(c, a, ops).1
    ensures Refines(c, AbsRun(c, a, ops).0, Run(c, ds, ops).0)
    ensures Sound(c, AbsRun(c, a, ops).0)
    decreases |ops|
  {
    if ops != [] {
      StepRefines(c, a, ds, ops[0]);
      StepSound(c, a, ops[0]);
      RunRefines(c, AbsStep(c, a, ops[0]).0, Exec(c, ds, ops[0]).0, ops[1..]);
    }
  }

  function FreshDisks(n: nat): (ds: seq<Disk>)
    ensures |ds| == n
  {
    seq(n, _ => Disk(true, map[], map[]))
  }

  /** From new disks on, every run answers as the plain map does, and ends with all disks carrying
      identical metadata and no object outside a bucket. */
  lemma {:induction false} StoreIsAMap(c: Config, ops: seq<Op>)
    requires c.Valid()
    requires forall i :: 0 <= i < |ops| ==> KeepsIdentity(ops[i])
    ensures
      var end := AbsRun(c, EMPTY_STORE, ops).0;
      var ds := Run(c, FreshDisks(c.disks), ops).0;
      && Run(c, FreshDisks(c.disks), ops).1 == AbsRun(c, EMPTY_STORE, ops).1
      && Refines(c, end, ds) && Sound(c, end)
      && MetadataIdentical(ds)
  {
    RunRefines(c, EMPTY_STORE, FreshDisks(c.disks), ops);
    RefinesIsIdentical(c, AbsRun(c, EMPTY_STORE, ops).0, Run(c, FreshDisks(c.disks), ops).0);
  }

  lemma RefinesIsIdentical(c: Config, a: Abs, ds: seq<Disk>)
    requires c.Valid() && Refines(c, a, ds)
    ensures MetadataIdentical(ds)
  {
    forall i, j | 0 <= i < |ds| && 0 <= j < |ds|
      ensures ds[i].buckets == ds[j].buckets && ds[i].objects.Keys == ds[j].objects.Keys
      ensures forall q :: q in ds[i].objects ==> ds[i].objects[q].meta == ds[j].objects[q].meta
    {
      assert Holds(c, a, ds[i], i) && Holds(c, a, ds[j], j);
      assert forall q :: q in ds[i].objects.Keys <==> q in ds[j].objects.Keys;
    }
  }

  /** As long as a bucket exists its owner stays the same. */
  lemma {:induction false} OwnerIsFixed(c: Config, a: Abs, ops: seq<Op>, b: string)
    requires Sound(c, a) && b in a.buckets
    requires forall i :: 0 <= i < |ops| ==> KeepsIdentity(ops[i])
    requires forall i :: 0 <= i <= |ops| ==> b in AbsRun(c, a, ops[..i]).0.buckets
    ensures b in AbsRun(c, a, ops).0.buckets
    ensures AbsRun(c, a, ops).0.buckets[b].account == a.buckets[b].account
    decreases |ops|
  {
    assert ops[..|ops|] == ops;
    if ops != [] {
      var a1 := AbsStep(c, a, ops[0]).0;
      StepSound(c, a, ops[0]);
      assert ops[..1] == [ops[0]];
      assert AbsRun(c, a1, []) == (a1, []);
      assert b in AbsRun(c, a, ops[..1]).0.buckets;
      forall i | 0 <= i <= |ops[1..]| ensures b in AbsRun(c, a1, ops[1..][..i]).0.buckets {
        assert ops[..i + 1][1..] == ops[1..][..i];
        assert AbsRun(c, a, ops[..i + 1]).0 == AbsRun(c, a1, ops[1..][..i]).0;
      }
      OwnerIsFixed(c, a1, ops[1..], b);
    }
  }

  /** On disks that hold a sound store, `DeleteBucket` succeeds exactly for its owner, on a bucket without objects. */
  lemma {:induction false} DeleteOnlyEmpty(c: Config, a: Abs, ds: seq<Disk>, name: string, account: string)
    requires c.Valid() && Refines(c, a, ds) && Sound(c, a)
    ensures Exec(c, ds, DeleteBucket(name, account)).1 == Done
            <==> MayUse(a, name, account) && forall p :: p in a.objects ==> p.0 != name
  {
    StepRefines(c, a, ds, DeleteBucket(name, account));
  }

  // ----- Losing disks -----

  /** Some disks of `ds` have become unreadable. */
  ghost predicate Degraded(ds: seq<Disk>, ds': seq<Disk>) {
    |ds'| == |ds| && forall i :: 0 <= i < |ds| ==> ds'[i] == ds[i] || ds'[i] == ds[i].(online := false)
  }

  function Unreadable(ds: seq<Disk>, n: nat): set<nat>
    requires n <= |ds|
  {
    set i: nat | i < n && !ds[i].online
  }

  predicate SomeOnline(ds: seq<Disk>) {
    exists i :: 0 <= i < |ds| && ds[i].online
  }

  lemma DegradedOwned(c: Config, a: Abs, ds: seq<Disk>, ds': seq<Disk>, bucket: string, account: string)
    requires c.Valid() && Refines(c, a, ds) && Sound(c, a) && Degraded(ds, ds')
    requires MayUse(a, bucket, account)
    ensures if SomeOnline(ds')
            then Owned(ds', bucket, account) == Ok(a.buckets[bucket])
            else Owned(ds', bucket, account) == Err(NotFound)
  {
    forall i | 0 <= i < |ds'| && ds'[i].online ensures ds'[i].buckets == a.buckets {
      assert Holds(c, a, ds[i], i);
    }
    FindBucketAgrees(ds', a.buckets, bucket);
  }

  lemma {:induction false} FindBucketAgrees(ds: seq<Disk>, buckets: map<string, BucketInfo>, name: string)
    requires name in buckets
    requires forall i :: 0 <= i < |ds| && ds[i].online ==> ds[i].buckets == buckets
    ensures FindBucket(ds, name) ==
            if SomeOnline(ds) then Some(buckets[name]) else None
  {
    if ds != [] && !ds[0].online {
      FindBucketAgrees(ds[1..], buckets, name);
      assert forall i :: 0 <= i < |ds| - 1 ==> ds[1..][i] == ds[i + 1];
    }
  }

  lemma DegradedParts(c: Config, a: Abs, ds: seq<Disk>, ds': seq<Disk>, bucket: string, key: string)
    requires c.Valid() && Refines(c, a, ds) && Degraded(ds, ds')
    requires (bucket, key) in a.objects
    requires SomeOnline(ds')
    ensures ReadMeta(ds', PlaceOf(bucket, key)) == Some(a.objects[(bucket, key)].info)
    ensures forall i :: 0 <= i < |ds'| ==>
      Parts(ds', PlaceOf(bucket, key))[i] ==
        if ds'[i].online then PartFor(Shards(c, a.objects[(bucket, key)].body).value, i) else []
  {
    var q, o := PlaceOf(bucket, key), a.objects[(bucket, key)];
    forall i | 0 <= i < |ds'|
      ensures Readable(ds'[i], q) <==> ds'[i].online
      ensures Readable(ds'[i], q) ==> ds'[i].objects[q].meta == o.info
      ensures Parts(ds', q)[i] == if ds'[i].online then PartFor(Shards(c, o.body).value, i) else []
    {
      DegradedPart(c, a, ds[i], ds'[i], i, q);
    }
    ReadMetaAgrees(ds', q, o.info);
  }

  lemma DegradedPart(c: Config, a: Abs, d: Disk, d': Disk, i: nat, q: Place)
    requires c.Valid() && Holds(c, a, d, i) && (d' == d || d' == d.(online := false)) && KeyOf(q) in a.objects
    ensures Readable(d', q) <==> d'.online
    ensures d'.online ==> d'.objects[q] == Entry(a.objects[KeyOf(q)].info, PartFor(Shards(c, a.objects[KeyOf(q)].body).value, i))
  {
  }

  lemma {:induction false} DegradedGet(c: Config, a: Abs, ds: seq<Disk>, ds': seq<Disk>, bucket: string, key: string, account: string)
    requires c.Valid() && Refines(c, a, ds) && Sound(c, a) && Degraded(ds, ds')
    requires MayUse(a, bucket, account) && (bucket, key) in a.objects
    ensures Exec(c, ds', GetObject(bucket, key, account)).1 ==
            if SomeOnline(ds') then Fetched(c, ds', bucket, key, a.objects[(bucket, key)].info) else Failed(NotFound)
  {
    DegradedOwned(c, a, ds, ds', bucket, account);
    var o := Owned(ds', bucket, account);
    var m := ReadMeta(ds', PlaceOf(bucket, key));
    var info := a.objects[(bucket, key)].info;
    assert SomeOnline(ds') ==> m == Some(info) by {
      if SomeOnline(ds') { DegradedParts(c, a, ds, ds', bucket, key); }
    }
    ExecGet(c, ds', bucket, key, account);
  }

  lemma ExecGet(c: Config, ds: seq<Disk>, bucket: string, key: string, account: string)
    requires c.disks > 0 && c.codec.data > 0 && |ds| == c.disks && c.Total() <= c.disks
    ensures
      var o := Owned(ds, bucket, account);
      var m := ReadMeta(ds, PlaceOf(bucket, key));
      Exec(c, ds, GetObject(bucket, key, account)).1 ==
      if o.Err? then Failed(o.error) else if m.None? then Failed(NotFound) else Fetched(c, ds, bucket, key, m.value)
  {
  }

  /** With parity, a stored object is read back in full exactly when at most `parity` of the disks
      that carry its shards are unreadable; disks beyond the shards never matter. */
  lemma {:induction false} SurvivesDiskLoss(c: Config, a: Abs, ds: seq<Disk>, ds': seq<Disk>, bucket: string, key: string, account: string)
    requires c.Valid() && c.codec.parity > 0 && Refines(c, a, ds) && Sound(c, a) && Degraded(ds, ds')
    requires MayUse(a, bucket, account) && (bucket, key) in a.objects
    ensures var o := a.objects[(bucket, key)];
            Exec(c, ds', GetObject(bucket, key, account)).1 == Body(o.info, o.body)
            <==> |Unreadable(ds', c.Total())| <= c.codec.parity
  {
    var o := a.objects[(bucket, key)];
    DegradedGet(c, a, ds, ds', bucket, key, account);
    if SomeOnline(ds') {
      DegradedParts(c, a, ds, ds', bucket, key);
      JoinDegraded(c, o.body, ds', Parts(ds', PlaceOf(bucket, key)));
    } else {
      AllUnreadable(ds', c.Total());
    }
  }

  lemma JoinDegraded(c: Config, body: Shard, ds: seq<Disk>, parts: seq<Shard>)
    requires c.Valid() && c.codec.parity > 0 && body != []
    requires |ds| == |parts| == c.disks
    requires forall i :: 0 <= i < |ds| ==>
      parts[i] == if ds[i].online then PartFor(Shards(c, body).value, i) else []
    ensures JoinShards(c, parts, |body|) ==
            if |Unreadable(ds, c.Total())| <= c.codec.parity then Ok(body) else Err(TooFewShards)
  {
    CodewordShape(c.codec, body);
    assert Lost(parts[..c.Total()]) == Unreadable(ds, c.Total());
    JoinAfterLoss(c, body, parts);
  }

  lemma {:induction false} AllUnreadable(ds: seq<Disk>, n: nat)
    requires n <= |ds| && forall i :: 0 <= i < |ds| ==> !ds[i].online
    ensures |Unreadable(ds, n)| == n
  {
    if n > 0 {
      AllUnreadable(ds, n - 1);
      assert Unreadable(ds, n) == Unreadable(ds, n - 1) + {n - 1};
    }
  }

  /** Without parity the body lives on the first disk alone, and an empty body cannot be read back. */
  lemma {:induction false} WithoutParity(c: Config, a: Abs, ds: seq<Disk>, ds': seq<Disk>, bucket: string, key: string, account: string)
    requires c.Valid() && c.codec.parity == 0 && Refines(c, a, ds) && Sound(c, a) && Degraded(ds, ds')
    requires MayUse(a, bucket, account) && (bucket, key) in a.objects
    ensures var o := a.objects[(bucket, key)];
            Exec(c, ds', GetObject(bucket, key, account)).1 ==
            if ds'[0].online && o.body != [] then Body(o.info, o.body) else Failed(NotFound)
  {
    DegradedGet(c, a, ds, ds', bucket, key, account);
    if SomeOnline(ds') {
      DegradedParts(c, a, ds, ds', bucket, key);
      JoinWithoutParity(c, a.objects[(bucket, key)].body, ds', Parts(ds', PlaceOf(bucket, key)));
    }
  }

  lemma JoinWithoutParity(c: Config, body: Shard, ds: seq<Disk>, parts: seq<Shard>)
    requires c.Valid() && c.codec.parity == 0
    requires |ds| == |parts| == c.disks
    requires forall i :: 0 <= i < |ds| ==>
      parts[i] == if ds[i].online then PartFor(Shards(c, body).value, i) else []
    ensures JoinShards(c, parts, |body|) ==
            if ds[0].online && body != [] then Ok(body) else Err(NotFound)
  {
    FirstNonEmptyOf(parts, parts[0]);
  }
}
