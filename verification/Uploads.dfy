/** What an upload leaves behind: over every run, and after any tolerable loss of disks. */
module Uploads {
  import opened Results
  import opened Store
  import opened StoreRuns

  /** `op` does not change the object. */
  predicate Spares(op: Op, bucket: string, key: string) {
    op.PutObject? || op.UpdateObjectMeta? || op.DeleteObject? ==> op.bucket != bucket || op.key != key
  }

  lemma {:induction false} AbsRunJoined(c: Config, a: Abs, ops: seq<Op>, more: seq<Op>)
    ensures AbsRun(c, a, ops + more).0 == AbsRun(c, AbsRun(c, a, ops).0, more).0
    decreases |ops|
  {
    if ops == [] {
      assert ops + more == more;
    } else {
      AbsRunJoined(c, AbsStep(c, a, ops[0]).0, ops[1..], more);
      assert (ops + more)[1..] == ops[1..] + more;
    }
  }

  lemma {:induction false} ReplyAt(c: Config, a: Abs, ops: seq<Op>, i: nat)
    requires i < |ops|
    ensures AbsRun(c, a, ops).1[i] == AbsStep(c, AbsRun(c, a, ops[..i]).0, ops[i]).1
    decreases |ops|
  {
    if i > 0 {
      ReplyAt(c, AbsStep(c, a, ops[0]).0, ops[1..], i - 1);
      assert ops[..i][1..] == ops[1..][..i - 1];
    }
  }

  lemma ObjectStaysOnce(c: Config, a: Abs, op: Op, bucket: string, key: string)
    requires Sound(c, a) && (bucket, key) in a.objects && Spares(op, bucket, key)
    ensures var end := AbsStep(c, a, op).0;
      && (bucket, key) in end.objects && end.objects[(bucket, key)] == a.objects[(bucket, key)]
      && bucket in end.buckets && end.buckets[bucket].account == a.buckets[bucket].account
  {
  }

  /** As long as nobody changes it, an object and its bucket's owner stay what they are. */
  lemma {:induction false} ObjectStays(c: Config, a: Abs, ops: seq<Op>, bucket: string, key: string)
    requires Sound(c, a) && (bucket, key) in a.objects
    requires forall i :: 0 <= i < |ops| ==> KeepsIdentity(ops[i]) && Spares(ops[i], bucket, key)
    ensures var end := AbsRun(c, a, ops).0;
      && (bucket, key) in end.objects && end.objects[(bucket, key)] == a.objects[(bucket, key)]
      && bucket in end.buckets && end.buckets[bucket].account == a.buckets[bucket].account
    decreases |ops|
  {
    if ops != [] {
      StepSound(c, a, ops[0]);
      ObjectStaysOnce(c, a, ops[0], bucket, key);
      ObjectStays(c, AbsStep(c, a, ops[0]).0, ops[1..], bucket, key);
    }
  }

  /** In every run, an upload that succeeds answers with the MD5 of the body, its length, the content type given
      and the time of the upload. */
  lemma UploadAnswers(c: Config, ops: seq<Op>, i: nat)
    requires c.Valid() && i < |ops| && ops[i].PutObject?
    requires forall j :: 0 <= j < |ops| ==> KeepsIdentity(ops[j])
    ensures var put, r := ops[i], Run(c, FreshDisks(c.disks), ops).1[i];
      && (r.Info? <==> MayUse(AbsRun(c, EMPTY_STORE, ops[..i]).0, put.bucket, put.account) && (put.body != [] || c.codec.parity == 0))
      && (r.Info? ==> r.info == ObjectInfo(put.key, Md5(put.body), |put.body|, put.contentType, put.now, map[]))
  {
    StoreIsAMap(c, ops);
    ReplyAt(c, EMPTY_STORE, ops, i);
  }

  /** Two uploads answer with the same entity tag exactly if their bodies are the same. */
  lemma TagsTellBodies(c: Config, ops: seq<Op>, i: nat, j: nat)
    requires c.Valid() && i < |ops| && ops[i].PutObject? && j < |ops| && ops[j].PutObject?
    requires forall k :: 0 <= k < |ops| ==> KeepsIdentity(ops[k])
    requires Run(c, FreshDisks(c.disks), ops).1[i].Info? && Run(c, FreshDisks(c.disks), ops).1[j].Info?
    ensures Run(c, FreshDisks(c.disks), ops).1[i].info.etag == Run(c, FreshDisks(c.disks), ops).1[j].info.etag
            <==> ops[i].body == ops[j].body
  {
    UploadAnswers(c, ops, i);
    UploadAnswers(c, ops, j);
  }

  /** `put` succeeds after `ops`, and nothing in `later` changes its object. */
  ghost predicate Uploaded(c: Config, ops: seq<Op>, put: Op, later: seq<Op>) {
    && c.Valid() && put.PutObject?
    && (forall i :: 0 <= i < |ops| ==> KeepsIdentity(ops[i]))
    && (forall i :: 0 <= i < |later| ==> KeepsIdentity(later[i]) && Spares(later[i], put.bucket, put.key))
    && Run(c, FreshDisks(c.disks), ops + [put]).1[|ops|].Info?
  }

  lemma UploadIsStored(c: Config, ops: seq<Op>, put: Op, later: seq<Op>)
    requires Uploaded(c, ops, put, later)
    ensures
      var end := AbsRun(c, EMPTY_STORE, ops + [put] + later).0;
      && Refines(c, end, Run(c, FreshDisks(c.disks), ops + [put] + later).0) && Sound(c, end)
      && MayUse(end, put.bucket, put.account) && (put.bucket, put.key) in end.objects
      && end.objects[(put.bucket, put.key)]
         == Obj(ObjectInfo(put.key, Md5(put.body), |put.body|, put.contentType, put.now, map[]), put.body)
  {
    var all := ops + [put];
    StoreIsAMap(c, all);
    StoreIsAMap(c, all + later);
    UploadAnswers(c, all, |ops|);
    assert all[..|ops|] == ops;
    AbsRunJoined(c, EMPTY_STORE, ops, [put]);
    AbsRunJoined(c, EMPTY_STORE, all, later);
    var before := AbsRun(c, EMPTY_STORE, ops).0;
    assert [put][1..] == [];
    assert AbsRun(c, before, [put]).0 == AbsStep(c, before, put).0;
    ObjectStays(c, AbsStep(c, before, put).0, later, put.bucket, put.key);
  }

  /** What was uploaded is what is found, until somebody changes it: its metadata always, its body unless it is
      empty. */
  lemma UploadIsFound(c: Config, ops: seq<Op>, put: Op, later: seq<Op>)
    requires Uploaded(c, ops, put, later)
    ensures
      var info := ObjectInfo(put.key, Md5(put.body), |put.body|, put.contentType, put.now, map[]);
      var ds := Run(c, FreshDisks(c.disks), ops + [put] + later).0;
      && Exec(c, ds, HeadObject(put.bucket, put.key, put.account)).1 == Info(info)
      && Exec(c, ds, GetObject(put.bucket, put.key, put.account)).1 == if put.body == [] then Failed(NotFound) else Body(info, put.body)
  {
    UploadIsStored(c, ops, put, later);
    var end, ds := AbsRun(c, EMPTY_STORE, ops + [put] + later).0, Run(c, FreshDisks(c.disks), ops + [put] + later).0;
    StepRefines(c, end, ds, HeadObject(put.bucket, put.key, put.account));
    StepRefines(c, end, ds, GetObject(put.bucket, put.key, put.account));
  }

  lemma DegradedHead(c: Config, a: Abs, ds: seq<Disk>, ds': seq<Disk>, bucket: string, key: string, account: string)
    requires c.Valid() && Refines(c, a, ds) && Sound(c, a) && Degraded(ds, ds')
    requires MayUse(a, bucket, account) && (bucket, key) in a.objects
    ensures Exec(c, ds', HeadObject(bucket, key, account)).1 ==
            if SomeOnline(ds') then Info(a.objects[(bucket, key)].info) else Failed(NotFound)
  {
    DegradedOwned(c, a, ds, ds', bucket, account);
    var m := ReadMeta(ds', PlaceOf(bucket, key));
    assert SomeOnline(ds') ==> m == Some(a.objects[(bucket, key)].info) by {
      if SomeOnline(ds') { DegradedParts(c, a, ds, ds', bucket, key); }
    }
    ExecHead(c, ds', bucket, key, account);
  }

  lemma ExecHead(c: Config, ds: seq<Disk>, bucket: string, key: string, account: string)
    requires c.disks > 0 && c.codec.data > 0 && |ds| == c.disks && c.Total() <= c.disks
    ensures
      var o, m := Owned(ds, bucket, account), ReadMeta(ds, PlaceOf(bucket, key));
      Exec(c, ds, HeadObject(bucket, key, account)).1 ==
      if o.Err? then Failed(o.error) else if m.None? then Failed(NotFound) else Info(m.value)
  {
  }

  /** With parity the same holds after any tolerable loss of disks. */
  lemma PutThenLoseThenGet(c: Config, ops: seq<Op>, put: Op, later: seq<Op>, ds': seq<Disk>)
    requires Uploaded(c, ops, put, later) && c.codec.parity > 0
    requires Degraded(Run(c, FreshDisks(c.disks), ops + [put] + later).0, ds')
    requires |Unreadable(ds', c.Total())| <= c.codec.parity
    ensures
      var info := ObjectInfo(put.key, Md5(put.body), |put.body|, put.contentType, put.now, map[]);
      && Exec(c, ds', HeadObject(put.bucket, put.key, put.account)).1 == Info(info)
      && Exec(c, ds', GetObject(put.bucket, put.key, put.account)).1 == Body(info, put.body)
  {
    UploadIsStored(c, ops, put, later);
    var end, ds := AbsRun(c, EMPTY_STORE, ops + [put] + later).0, Run(c, FreshDisks(c.disks), ops + [put] + later).0;
    SurvivesDiskLoss(c, end, ds, ds', put.bucket, put.key, put.account);
    DegradedHead(c, end, ds, ds', put.bucket, put.key, put.account);
    if !SomeOnline(ds') { AllUnreadable(ds', c.Total()); }
  }

  lemma BucketsRefine(c: Config, a: Abs, ds: seq<Disk>)
    requires c.Valid() && Refines(c, a, ds) && Sound(c, a)
    ensures forall b :: FindBucket(ds, b) == if b in a.buckets then Some(a.buckets[b]) else None
  {
    forall b ensures FindBucket(ds, b) == if b in a.buckets then Some(a.buckets[b]) else None {
      OwnedRefines(c, a, ds, b, "");
    }
  }

  /** After a `PutBucketMeta` by its owner a bucket has what the caller's change made of it, under its old name and
      owner; every other bucket is what it was. */
  lemma BucketIsRemade(c: Config, a: Abs, ds: seq<Disk>, name: string, account: string, mutate: BucketInfo -> BucketInfo)
    requires c.Valid() && Refines(c, a, ds) && Sound(c, a) && MayUse(a, name, account)
    ensures
      var r := Exec(c, ds, PutBucketMeta(name, account, mutate));
      var made := mutate(a.buckets[name]);
      && r.1 == Done
      && FindBucket(r.0, name) == Some(BucketInfo(name, a.buckets[name].account, made.created, made.settings))
      && (forall b :: b != name ==> FindBucket(r.0, b) == FindBucket(ds, b))
  {
    var op := PutBucketMeta(name, account, mutate);
    StepRefines(c, a, ds, op);
    StepSound(c, a, op);
    var r, s := Exec(c, ds, op), AbsStep(c, a, op);
    assert s.0.buckets == a.buckets[name := s.0.buckets[name]] && s.1 == Done;
    BucketsRefine(c, a, ds);
    BucketsRefine(c, s.0, r.0);
  }
}
