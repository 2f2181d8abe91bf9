/** The object store engine: each locked method, with its loops over the disks, is proved to do to the
    disks and to answer exactly what `Store.Exec` says, on healthy and on failing disks alike. */
module Engine {
  import opened Results
  import opened Text
  import opened ErasureCode
  import opened Store
  import opened Paging

  class Engine {
    const disks: array<Disk>
    const config: Config

    ghost predicate Valid() {
      config.Valid() && disks.Length == config.disks
    }

    constructor (disks: array<Disk>, codec: Codec)
      requires Config(disks.Length, codec).Valid()
      ensures Valid() && this.disks == disks && config == Config(disks.Length, codec)
    {
      this.disks := disks;
      config := Config(disks.Length, codec);
    }

    /** `New`. `makeCodec` is the Reed-Solomon library, which may refuse; without parity it is not asked. */
    static method New(disks: array<Disk>, dataShards: int, parityShards: int, makeCodec: (nat, nat) -> Option<Codec>)
      returns (r: Result<Engine, Error>)
      requires forall d, p :: p > 0 && makeCodec(d, p).Some? ==>
        makeCodec(d, p).value.data == d && makeCodec(d, p).value.parity == p && MDS(makeCodec(d, p).value)
      ensures disks.Length == 0 ==> r == Err(VolumeMissing)
      ensures disks.Length > 0 ==>
        var g := Geometry(disks.Length, dataShards, parityShards).value;
        if g.1 > 0 && makeCodec(g.0, g.1).None? then r == Err(CodecRefused)
        else r.Ok? && r.value.Valid() && r.value.disks == disks
             && r.value.config.codec == if g.1 > 0 then makeCodec(g.0, g.1).value else NoCodec(g.0)
    {
      if disks.Length == 0 {
        return Err(VolumeMissing);
      }
      var d, p := dataShards, parityShards;
      if d <= 0 {
        d := 1;
      }
      if p < 0 {
        p := 0;
      }
      if d + p > disks.Length {
        d, p := disks.Length, 0;
      }
      var codec := NoCodec(d);
      if p > 0 {
        var made := makeCodec(d, p);
        if made.None? {
          return Err(CodecRefused);
        }
        codec := made.value;
      }
      var engine := new Engine(disks, codec);
      return Ok(engine);
    }

    // ----- Buckets -----

    method GetBucketLocked(name: string) returns (r: Option<BucketInfo>)
      ensures r == FindBucket(disks[..], name)
    {
      ghost var ds := disks[..];
      for i := 0 to disks.Length
        invariant FindBucket(ds, name) == FindBucket(ds[i..], name)
      {
        assert ds[i..][1..] == ds[i + 1..];
        if disks[i].online && name in disks[i].buckets {
          return Some(disks[i].buckets[name]);
        }
      }
      return None;
    }

    method AssertOwnedLocked(name: string, account: string) returns (r: Result<BucketInfo, Error>)
      ensures r == Owned(disks[..], name, account)
    {
      var info := GetBucketLocked(name);
      if info.None? {
        return Err(NotFound);
      }
      if account == "" || info.value.account == "" || info.value.account != account {
        return Err(Forbidden);
      }
      return Ok(info.value);
    }

    method WriteBucketLocked(info: BucketInfo) returns (ok: bool)
      modifies disks
      ensures disks[..] == WriteBucket(old(disks[..]), info)
      ensures ok == AllOnline(old(disks[..]))
    {
      ghost var ds := disks[..];
      for i := 0 to disks.Length
        invariant forall j :: 0 <= j < i ==> ds[j].online
        invariant forall j :: 0 <= j < i ==> disks[j] == WriteBucket(ds, info)[j]
        invariant forall j :: i <= j < disks.Length ==> disks[j] == ds[j]
      {
        if !disks[i].online {
          assert forall j :: i <= j < |ds| ==> !Reached(ds, j);
          assert disks[..] == WriteBucket(ds, info);
          return false;
        }
        assert Reached(ds, i);
        disks[i] := disks[i].(buckets := disks[i].buckets[info.name := info]);
      }
      return true;
    }

    method CreateBucket(name: string, account: string, now: int) returns (r: Reply)
      requires Valid()
      modifies disks
      ensures (disks[..], r) == Exec(config, old(disks[..]), Op.CreateBucket(name, account, now))
    {
      if account == "" {
        return Failed(Forbidden);
      }
      var existing := GetBucketLocked(name);
      if existing.Some? {
        return Failed(BucketExists);
      }
      var ok := WriteBucketLocked(BucketInfo(name, account, now, map[]));
      return if ok then Done else Failed(IOFault);
    }

    method PutBucketMeta(name: string, account: string, mutate: BucketInfo -> BucketInfo) returns (r: Reply)
      requires Valid()
      modifies disks
      ensures (disks[..], r) == Exec(config, old(disks[..]), Op.PutBucketMeta(name, account, mutate))
    {
      var owned := AssertOwnedLocked(name, account);
      if owned.Err? {
        return Failed(owned.error);
      }
      var owner, bname := owned.value.account, owned.value.name;
      var info := mutate(owned.value);
      info := info.(account := owner, name := bname);
      var ok := WriteBucketLocked(info);
      return if ok then Done else Failed(IOFault);
    }

    method DeleteBucket(name: string, account: string) returns (r: Reply)
      requires Valid()
      modifies disks
      ensures (disks[..], r) == Exec(config, old(disks[..]), Op.DeleteBucket(name, account))
    {
      var owned := AssertOwnedLocked(name, account);
      if owned.Err? {
        return Failed(owned.error);
      }
      var objs, full := ListObjectsLocked(name, "", 1);
      EmptyListing(disks[..], name, full);
      if |objs| > 0 {
        return Failed(BucketNotEmpty);
      }
      ghost var ds := disks[..];
      for i := 0 to disks.Length
        invariant forall j :: 0 <= j < i ==> disks[j] == DropBucket(ds, name)[j]
        invariant forall j :: i <= j < disks.Length ==> disks[j] == ds[j]
      {
        disks[i] := DropBucketOn(disks[i], name);
      }
      assert disks[..] == DropBucket(ds, name);
      return Done;
    }

    // ----- Objects -----

    method SplitBody(body: Shard) returns (r: Result<seq<Shard>, Error>)
      requires Valid()
      ensures r == Shards(config, body)
    {
      if config.codec.parity == 0 {
        return Ok([body] + seq(config.disks - 1, _ => []));
      }
      if body == [] {
        return Err(ShortData);
      }
      var shards := ErasureCode.Split(body, config.codec.data);
      return Ok(shards + config.codec.encode(shards));
    }

    method PutObject(bucket: string, key: string, contentType: string, body: Shard, account: string, now: int)
      returns (r: Reply)
      requires Valid()
      modifies disks
      ensures (disks[..], r) == Exec(config, old(disks[..]), Op.PutObject(bucket, key, contentType, body, account, now))
    {
      var owned := AssertOwnedLocked(bucket, account);
      if owned.Err? {
        return Failed(owned.error);
      }
      var info := ObjectInfo(key, Md5(body), |body|, contentType, now, map[]);
      var shards := SplitBody(body);
      if shards.Err? {
        return Failed(shards.error);
      }
      var ok := WriteEntries(PlaceOf(bucket, key), info, shards.value);
      return if ok then Info(info) else Failed(IOFault);
    }

    method WriteEntries(q: Place, info: ObjectInfo, shards: seq<Shard>) returns (ok: bool)
      modifies disks
      ensures disks[..] == PutEntries(old(disks[..]), q, info, shards)
      ensures ok == AllOnline(old(disks[..]))
    {
      ghost var ds := disks[..];
      for i := 0 to disks.Length
        invariant forall j :: 0 <= j < i ==> ds[j].online
        invariant forall j :: 0 <= j < i ==> disks[j] == PutEntries(ds, q, info, shards)[j]
        invariant forall j :: i <= j < disks.Length ==> disks[j] == ds[j]
      {
        if !disks[i].online {
          assert forall j :: i <= j < |ds| ==> !Reached(ds, j);
          assert disks[..] == PutEntries(ds, q, info, shards);
          return false;
        }
        assert Reached(ds, i);
        var part := [];
        if i < |shards| {
          part := shards[i];
        }
        disks[i] := disks[i].(objects := disks[i].objects[q := Entry(info, part)]);
      }
      return true;
    }

    method ReadShardsLocked(bucket: string, key: string) returns (r: Result<ObjectInfo, Error>, shards: seq<Shard>)
      ensures shards == Parts(disks[..], PlaceOf(bucket, key))
      ensures r == match ReadMeta(disks[..], PlaceOf(bucket, key)) case None => Err(NotFound) case Some(info) => Ok(info)
    {
      var q := PlaceOf(bucket, key);
      ghost var ds := disks[..];
      var found: Option<ObjectInfo> := None;
      shards := [];
      for i := 0 to disks.Length
        invariant found == ReadMeta(ds[..i], q)
        invariant |shards| == i && forall j :: 0 <= j < i ==> shards[j] == Parts(ds, q)[j]
      {
        assert ds[..i + 1][..i] == ds[..i];
        if disks[i].online && q in disks[i].objects {
          var info := disks[i].objects[q].meta;
          if found.Some? {
            info := info.(tags := found.value.tags + info.tags);
          }
          found := Some(info);
          shards := shards + [disks[i].objects[q].part];
        } else {
          shards := shards + [[]];
        }
      }
      assert ds[..disks.Length] == ds;
      r := if found.None? then Err(NotFound) else Ok(found.value);
    }

    method JoinParts(shards: seq<Shard>, size: int) returns (r: Result<Shard, Error>)
      requires Valid() && |shards| == config.disks
      ensures r == JoinShards(config, shards, size)
    {
      if config.codec.parity == 0 {
        for i := 0 to |shards|
          invariant FirstNonEmpty(shards) == FirstNonEmpty(shards[i..])
        {
          assert shards[i..][1..] == shards[i + 1..];
          var s := shards[i];
          if |s| > 0 {
            return Ok(if |s| > size && size >= 0 then s[..size] else s);
          }
        }
        return Err(NotFound);
      }
      var ok := config.codec.repair(shards[..config.Total()]);
      if ok.None? {
        return Err(TooFewShards);
      }
      var data := FirstShards(ok.value, config.codec.data);
      var buf: Shard := [];
      for i := 0 to |data|
        invariant buf + Concat(data[i..]) == Concat(data)
      {
        assert data[i..][1..] == data[i + 1..];
        buf := buf + data[i];
      }
      assert data[|data|..] == [] && buf == Concat(data);
      return Ok(if size >= 0 && |buf| > size then buf[..size] else buf);
    }

    method GetObject(bucket: string, key: string, account: string) returns (r: Reply)
      requires Valid()
      ensures (disks[..], r) == Exec(config, disks[..], Op.GetObject(bucket, key, account))
    {
      var owned := AssertOwnedLocked(bucket, account);
      if owned.Err? {
        return Failed(owned.error);
      }
      var info, shards := ReadShardsLocked(bucket, key);
      if info.Err? {
        return Failed(info.error);
      }
      var body := JoinParts(shards, info.value.size);
      return if body.Err? then Failed(body.error) else Body(info.value, body.value);
    }

    method HeadObject(bucket: string, key: string, account: string) returns (r: Reply)
      requires Valid()
      ensures (disks[..], r) == Exec(config, disks[..], Op.HeadObject(bucket, key, account))
    {
      var owned := AssertOwnedLocked(bucket, account);
      if owned.Err? {
        return Failed(owned.error);
      }
      var info, _ := ReadShardsLocked(bucket, key);
      return if info.Err? then Failed(info.error) else Info(info.value);
    }

    method DeleteObject(bucket: string, key: string, account: string) returns (r: Reply)
      requires Valid()
      modifies disks
      ensures (disks[..], r) == Exec(config, old(disks[..]), Op.DeleteObject(bucket, key, account))
    {
      var owned := AssertOwnedLocked(bucket, account);
      if owned.Err? {
        return Failed(owned.error);
      }
      ghost var ds := disks[..];
      var q := PlaceOf(bucket, key);
      for i := 0 to disks.Length
        invariant forall j :: 0 <= j < i ==> disks[j] == DropEntries(ds, q)[j]
        invariant forall j :: i <= j < disks.Length ==> disks[j] == ds[j]
      {
        if disks[i].online {
          disks[i] := disks[i].(objects := disks[i].objects - {q});
        }
      }
      assert disks[..] == DropEntries(ds, q);
      return Done;
    }

    method UpdateObjectMeta(bucket: string, key: string, account: string, mutate: ObjectInfo -> ObjectInfo)
      returns (r: Reply)
      requires Valid()
      modifies disks
      ensures (disks[..], r) == Exec(config, old(disks[..]), Op.UpdateObjectMeta(bucket, key, account, mutate))
    {
      var owned := AssertOwnedLocked(bucket, account);
      if owned.Err? {
        return Failed(owned.error);
      }
      var found, _ := ReadShardsLocked(bucket, key);
      if found.Err? {
        return Failed(found.error);
      }
      var info := mutate(found.value);
      ghost var ds := disks[..];
      var q := PlaceOf(bucket, key);
      for i := 0 to disks.Length
        invariant forall j :: 0 <= j < i ==> disks[j] == RewriteMeta(ds, q, info)[j]
        invariant forall j :: i <= j < disks.Length ==> disks[j] == ds[j]
      {
        if disks[i].online && q in disks[i].objects {
          disks[i] := disks[i].(objects := disks[i].objects[q := disks[i].objects[q].(meta := info)]);
        }
      }
      assert disks[..] == RewriteMeta(ds, q, info);
      return Done;
    }

    // ----- Listing -----

    /** `full` is the whole listing, of which `out` is the part that the limit lets through. */
    method ListObjectsLocked(bucket: string, prefix: string, maxKeys: int)
      returns (out: seq<ObjectInfo>, ghost full: seq<ObjectInfo>)
      ensures IsCutListing(disks[..], bucket, prefix, maxKeys, out)
      ensures IsListing(disks[..], bucket, prefix, full)
      ensures out == if 0 < maxKeys < |full| then full[..maxKeys] else full
    {
      var seen := CollectSeen(bucket, prefix);
      var sorted := SortedNames(seen.Keys);
      full := seq(|sorted|, i requires 0 <= i < |sorted| => assert sorted[i] in sorted; seen[sorted[i]]);
      FullListing(disks[..], bucket, prefix, seen, sorted, full);
      out := TakeEntries(seen, sorted, maxKeys, full);
      CutOfListing(disks[..], bucket, prefix, maxKeys, full, out);
    }

    static method TakeEntries(seen: map<string, ObjectInfo>, sorted: seq<string>, maxKeys: int, ghost full: seq<ObjectInfo>)
      returns (out: seq<ObjectInfo>)
      requires |full| == |sorted| && forall i :: 0 <= i < |full| ==> sorted[i] in seen && full[i] == seen[sorted[i]]
      ensures out == if 0 < maxKeys < |full| then full[..maxKeys] else full
    {
      out := [];
      for i := 0 to |sorted|
        invariant out == full[..i]
        invariant maxKeys > 0 ==> i < maxKeys
      {
        out := out + [seen[sorted[i]]];
        assert out == full[..i + 1];
        if maxKeys > 0 && |out| >= maxKeys {
          return;
        }
      }
      assert full[..|sorted|] == full;
    }

    /** The walk over every disk; the last metadata seen for a key wins. */
    method CollectSeen(bucket: string, prefix: string) returns (seen: map<string, ObjectInfo>)
      ensures IsSeen(disks[..], |disks[..]|, bucket, prefix, seen)
    {
      seen := map[];
      ghost var ds := disks[..];
      for i := 0 to disks.Length
        invariant IsSeen(ds, i, bucket, prefix, seen)
      {
        if disks[i].online {
          var d := disks[i];
          var todo := d.objects.Keys;
          ghost var before := seen;
          while todo != {}
            invariant todo <= d.objects.Keys
            invariant before.Keys <= seen.Keys
            invariant forall k :: k in seen ==> seen[k].key == k && ListedOn(ds, i + 1, bucket, prefix, seen[k])
            invariant forall q ::
              (q in d.objects.Keys - todo && q.0 == bucket && HasPrefix(d.objects[q].meta.key, prefix))
              ==> d.objects[q].meta.key in seen
            decreases todo
          {
            var q :| q in todo;
            todo := todo - {q};
            if q.0 == bucket {
              var obj := d.objects[q].meta;
              if prefix == "" || HasPrefix(obj.key, prefix) {
                assert Readable(ds[i], q);
                assert ListedOn(ds, i + 1, bucket, prefix, obj);
                seen := seen[obj.key := obj];
              }
            }
          }
        }
      }
      forall info | Listed(ds, bucket, prefix, info) ensures ListedOn(ds, |ds|, bucket, prefix, info) {}
    }

    method ListObjects(bucket: string, prefix: string, account: string, maxKeys: int)
      returns (r: Result<seq<ObjectInfo>, Error>, ghost full: seq<ObjectInfo>)
      requires Valid()
      ensures r.Err? <==> Owned(disks[..], bucket, account).Err?
      ensures r.Err? ==> r.error == Owned(disks[..], bucket, account).error
      ensures r.Ok? ==> IsCutListing(disks[..], bucket, prefix, maxKeys, r.value)
      ensures r.Ok? ==> IsListing(disks[..], bucket, prefix, full)
      ensures r.Ok? ==> r.value == if 0 < maxKeys < |full| then full[..maxKeys] else full
    {
      var owned := AssertOwnedLocked(bucket, account);
      if owned.Err? {
        return Err(owned.error), [];
      }
      var out;
      out, full := ListObjectsLocked(bucket, prefix, maxKeys);
      r := Ok(out);
    }

    /** The page is the one `PageOf` cuts from the listing, which `Paging` then follows over a whole scan. */
    method ListObjectsPage(bucket: string, prefix: string, marker: string, account: string, maxKeys: int)
      returns (r: Result<Page, Error>, ghost all: seq<ObjectInfo>)
      requires Valid()
      ensures r.Err? <==> Owned(disks[..], bucket, account).Err?
      ensures r.Err? ==> r.error == Owned(disks[..], bucket, account).error
      ensures r.Ok? ==> IsListing(disks[..], bucket, prefix, all) && r.value == PageOf(all, marker, maxKeys)
    {
      var owned := AssertOwnedLocked(bucket, account);
      if owned.Err? {
        return Err(owned.error), [];
      }
      var infos;
      infos, all := ListObjectsLocked(bucket, prefix, 0);
      var page := CutPage(infos, marker, maxKeys);
      r := Ok(page);
    }

    method CutPage(all: seq<ObjectInfo>, marker: string, maxKeys: int) returns (page: Page)
      requires Ascending(all)
      ensures page == PageOf(all, marker, maxKeys)
    {
      var n := if maxKeys <= 0 then 1000 else maxKeys;
      var start := 0;
      if marker != "" {
        var i := 0;
        while i < |all|
          invariant 0 <= i <= |all| && start == i
          invariant Skip(all, marker) == Skip(all[i..], marker)
        {
          assert all[i..][1..] == all[i + 1..];
          StringsOrder(marker, all[i].key);
          if all[i].key == marker || Lt(marker, all[i].key) {
            if all[i].key == marker {
              start := i + 1;
              if i + 1 < |all| { assert Lt(all[i].key, all[i + 1].key); }
            }
            break;
          }
          i := i + 1;
          start := i;
        }
      }
      assert Rest(all, marker) == all[start..];
      if start >= |all| {
        return Page([], "", false);
      }
      var end := start + n;
      if end < |all| {
        assert all[start..][..n] == all[start..end];
        return Page(all[start..end], all[end - 1].key, true);
      }
      return Page(all[start..], "", false);
    }
  }

  ghost predicate ListedOn(ds: seq<Disk>, n: nat, bucket: string, prefix: string, info: ObjectInfo)
    requires n <= |ds|
  {
    HasPrefix(info.key, prefix) &&
    exists i, q :: 0 <= i < n && Readable(ds[i], q) && q.0 == bucket && ds[i].objects[q].meta == info
  }

  /** The map built by walking the first `n` disks. */
  ghost predicate IsSeen(ds: seq<Disk>, n: nat, bucket: string, prefix: string, seen: map<string, ObjectInfo>)
    requires n <= |ds|
  {
    && (forall k :: k in seen ==> seen[k].key == k && ListedOn(ds, n, bucket, prefix, seen[k]))
    && (forall info :: ListedOn(ds, n, bucket, prefix, info) ==> info.key in seen)
  }

  lemma FullListing(ds: seq<Disk>, bucket: string, prefix: string, seen: map<string, ObjectInfo>,
                    sorted: seq<string>, full: seq<ObjectInfo>)
    requires IsSeen(ds, |ds|, bucket, prefix, seen)
    requires forall k :: k in sorted <==> k in seen
    requires forall i, j :: 0 <= i < j < |sorted| ==> Lt(sorted[i], sorted[j])
    requires |full| == |sorted| && forall i :: 0 <= i < |full| ==> sorted[i] in seen && full[i] == seen[sorted[i]]
    ensures IsListing(ds, bucket, prefix, full)
  {
    forall i | 0 <= i < |full| ensures Listed(ds, bucket, prefix, full[i]) {
      assert ListedOn(ds, |ds|, bucket, prefix, seen[sorted[i]]);
    }
    forall info | Listed(ds, bucket, prefix, info) ensures HasKey(full, info.key) {
      assert ListedOn(ds, |ds|, bucket, prefix, info);
      var i :| 0 <= i < |sorted| && sorted[i] == info.key;
      assert full[i].key == info.key;
    }
  }

  lemma EmptyListing(ds: seq<Disk>, bucket: string, full: seq<ObjectInfo>)
    requires IsListing(ds, bucket, "", full)
    ensures full == [] <==> !HasObjects(ds, bucket)
  {
    if HasObjects(ds, bucket) {
      var i, q :| 0 <= i < |ds| && ds[i].online && q in ds[i].objects && q.0 == bucket;
      assert Readable(ds[i], q);
      assert Listed(ds, bucket, "", ds[i].objects[q].meta);
      assert HasKey(full, ds[i].objects[q].meta.key);
    }
    if full != [] {
      assert Listed(ds, bucket, "", full[0]);
    }
  }
}
