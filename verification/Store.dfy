/** What the object store keeps on its disks, and what each locked operation does to them.
    SHA-256 is idealised as a free constructor, hence injective; a bucket or object directory is
    an entry of a map; JSON encoding is a bijection and is left implicit. */
module Store {
  import opened Results
  import opened ErasureCode

  datatype Error =
    | VolumeMissing | NotFound | Forbidden | BucketExists | BucketNotEmpty
    | IOFault | ShortData | TooFewShards | CodecRefused

  datatype Hash = Sha256(of: string)
  datatype ETag = Md5(of: Shard)

  datatype BucketInfo = BucketInfo(name: string, account: string, created: int, settings: map<string, string>)

  /** `tags` stands for the tags and for the other parts of the JSON document that are left out when empty. */
  datatype ObjectInfo = ObjectInfo(
    key: string, etag: ETag, size: int, contentType: string, modified: int, tags: map<string, string>)

  /** The two files of an object directory: `xl.meta` and `part.0`. */
  datatype Entry = Entry(meta: ObjectInfo, part: Shard)

  type Place = (string, Hash)

  datatype Disk = Disk(online: bool, buckets: map<string, BucketInfo>, objects: map<Place, Entry>)

  function PlaceOf(bucket: string, key: string): Place {
    (bucket, Sha256(key))
  }

  // ----- Configuration -----

  datatype Config = Config(disks: nat, codec: Codec)
  {
    function Total(): nat { codec.data + codec.parity }

    ghost predicate Valid() {
      && disks > 0 && codec.data > 0 && Total() <= disks
      && (codec.parity > 0 ==> MDS(codec))
    }
  }

  function AtLeast(n: int, least: nat): nat {
    if n < least then least else n
  }

  /** The shard counts that `New` settles on: parity is dropped when there are too few disks. */
  function Geometry(disks: nat, dataShards: int, parityShards: int): (r: Result<(nat, nat), Error>)
    ensures r.Ok? <==> disks > 0
    ensures r.Ok? ==> 0 < r.value.0 && r.value.0 + r.value.1 <= disks
    ensures r.Ok? && AtLeast(dataShards, 1) + AtLeast(parityShards, 0) <= disks
      ==> r.value == (AtLeast(dataShards, 1), AtLeast(parityShards, 0))
    ensures r.Ok? && AtLeast(dataShards, 1) + AtLeast(parityShards, 0) > disks ==> r.value == (disks, 0)
  {
    if disks == 0 then Err(VolumeMissing) else
    var d := if dataShards <= 0 then 1 else dataShards;
    var p := if parityShards < 0 then 0 else parityShards;
    if d + p > disks then Ok((disks, 0)) else Ok((d, p))
  }

  /** Without parity there is no encoder. */
  function NoCodec(data: nat): Codec {
    Codec(data, 0, _ => [], _ => None)
  }

  // ----- Buckets -----

  function FindBucket(ds: seq<Disk>, name: string): Option<BucketInfo> {
    if ds == [] then None
    else if ds[0].online && name in ds[0].buckets then Some(ds[0].buckets[name])
    else FindBucket(ds[1..], name)
  }

  function Owned(ds: seq<Disk>, name: string, account: string): Result<BucketInfo, Error> {
    match FindBucket(ds, name)
    case None => Err(NotFound)
    case Some(info) =>
      if account == "" || info.account == "" || info.account != account then Err(Forbidden) else Ok(info)
  }

  /** A loop that writes disk after disk and stops at the first failing one has written disk `i`. */
  predicate Reached(ds: seq<Disk>, i: nat)
    requires i < |ds|
  {
    forall j :: 0 <= j <= i ==> ds[j].online
  }

  predicate AllOnline(ds: seq<Disk>) {
    forall i :: 0 <= i < |ds| ==> ds[i].online
  }

  function WriteBucket(ds: seq<Disk>, info: BucketInfo): (r: seq<Disk>)
    ensures |r| == |ds|
  {
    seq(|ds|, i requires 0 <= i < |ds| =>
      if Reached(ds, i) then ds[i].(buckets := ds[i].buckets[info.name := info]) else ds[i])
  }

  function DropBucket(ds: seq<Disk>, name: string): (r: seq<Disk>)
    ensures |r| == |ds|
  {
    seq(|ds|, i requires 0 <= i < |ds| => DropBucketOn(ds[i], name))
  }

  function DropBucketOn(d: Disk, name: string): Disk {
    if d.online
    then d.(buckets := d.buckets - {name}, objects := map q | q in d.objects && q.0 != name :: d.objects[q])
    else d
  }

  predicate HasObjects(ds: seq<Disk>, name: string) {
    exists i, q :: 0 <= i < |ds| && ds[i].online && q in ds[i].objects && q.0 == name
  }

  // ----- Objects -----

  function Shards(c: Config, body: Shard): Result<seq<Shard>, Error>
    requires c.disks > 0 && c.codec.data > 0
  {
    if c.codec.parity == 0 then Ok([body] + seq(c.disks - 1, _ => []))
    else if body == [] then Err(ShortData)
    else Ok(Codeword(c.codec, body))
  }

  function PartFor(shards: seq<Shard>, i: nat): Shard {
    if i < |shards| then shards[i] else []
  }

  function PutEntries(ds: seq<Disk>, q: Place, info: ObjectInfo, shards: seq<Shard>): (r: seq<Disk>)
    ensures |r| == |ds|
  {
    seq(|ds|, i requires 0 <= i < |ds| =>
      if Reached(ds, i) then ds[i].(objects := ds[i].objects[q := Entry(info, PartFor(shards, i))]) else ds[i])
  }

  function DropEntries(ds: seq<Disk>, q: Place): (r: seq<Disk>)
    ensures |r| == |ds|
  {
    seq(|ds|, i requires 0 <= i < |ds| =>
      if ds[i].online then ds[i].(objects := ds[i].objects - {q}) else ds[i])
  }

  function RewriteMeta(ds: seq<Disk>, q: Place, info: ObjectInfo): (r: seq<Disk>)
    ensures |r| == |ds|
  {
    seq(|ds|, i requires 0 <= i < |ds| =>
      if ds[i].online && q in ds[i].objects
      then ds[i].(objects := ds[i].objects[q := ds[i].objects[q].(meta := info)]) else ds[i])
  }

  predicate Readable(d: Disk, q: Place) {
    d.online && q in d.objects
  }

  /** Decoding a document into a record that holds an earlier one: what is left out of it stays. */
  function Decoded(before: Option<ObjectInfo>, info: ObjectInfo): ObjectInfo {
    if before.None? then info else info.(tags := before.value.tags + info.tags)
  }

  /** The metadata of all readable disks, decoded one after the other into the same record. */
  function ReadMeta(ds: seq<Disk>, q: Place): Option<ObjectInfo> {
    if ds == [] then None
    else
      var d, before := ds[|ds| - 1], ReadMeta(ds[..|ds| - 1], q);
      if Readable(d, q) then Some(Decoded(before, d.objects[q].meta)) else before
  }

  function Parts(ds: seq<Disk>, q: Place): (r: seq<Shard>)
    ensures |r| == |ds|
  {
    seq(|ds|, i requires 0 <= i < |ds| => if Readable(ds[i], q) then ds[i].objects[q].part else [])
  }

  function FirstNonEmpty(shards: seq<Shard>): Shard {
    if shards == [] then [] else if shards[0] != [] then shards[0] else FirstNonEmpty(shards[1..])
  }

  function Cut(s: Shard, size: int): Shard {
    if 0 <= size < |s| then s[..size] else s
  }

  function FirstShards(shards: seq<Shard>, n: nat): seq<Shard> {
    if n < |shards| then shards[..n] else shards
  }

  function JoinShards(c: Config, shards: seq<Shard>, size: int): Result<Shard, Error>
    requires c.Total() <= |shards|
  {
    if c.codec.parity == 0 then
      var s := FirstNonEmpty(shards);
      if s == [] then Err(NotFound) else Ok(Cut(s, size))
    else
      match c.codec.repair(shards[..c.Total()])
      case None => Err(TooFewShards)
      case Some(all) => Ok(Cut(Concat(FirstShards(all, c.codec.data)), size))
  }

  // ----- Operations -----

  datatype Op =
    | CreateBucket(name: string, account: string, now: int)
    | DeleteBucket(name: string, account: string)
    | PutBucketMeta(name: string, account: string, mutateBucket: BucketInfo -> BucketInfo)
    | PutObject(bucket: string, key: string, contentType: string, body: Shard, account: string, now: int)
    | UpdateObjectMeta(bucket: string, key: string, account: string, mutate: ObjectInfo -> ObjectInfo)
    | DeleteObject(bucket: string, key: string, account: string)
    | HeadObject(bucket: string, key: string, account: string)
    | GetObject(bucket: string, key: string, account: string)

  datatype Reply = Done | Info(info: ObjectInfo) | Body(info: ObjectInfo, body: Shard) | Failed(error: Error)

  function NewInfo(key: string, contentType: string, body: Shard, now: int): ObjectInfo {
    ObjectInfo(key, Md5(body), |body|, contentType, now, map[])
  }

  function Remade(info: BucketInfo, mutate: BucketInfo -> BucketInfo): BucketInfo {
    mutate(info).(account := info.account, name := info.name)
  }

  function Fetched(c: Config, ds: seq<Disk>, bucket: string, key: string, info: ObjectInfo): Reply
    requires c.Total() <= |ds|
  {
    match JoinShards(c, Parts(ds, PlaceOf(bucket, key)), info.size)
    case Err(e) => Failed(e)
    case Ok(body) => Body(info, body)
  }

  function Exec(c: Config, ds: seq<Disk>, op: Op): (r: (seq<Disk>, Reply))
    requires c.disks > 0 && c.codec.data > 0 && |ds| == c.disks && c.Total() <= c.disks
    ensures |r.0| == |ds|
  {
    match op
    case CreateBucket(name, account, now) =>
      if account == "" then (ds, Failed(Forbidden))
      else if FindBucket(ds, name).Some? then (ds, Failed(BucketExists))
      else (WriteBucket(ds, BucketInfo(name, account, now, map[])), if AllOnline(ds) then Done else Failed(IOFault))
    case DeleteBucket(name, account) =>
      var o := Owned(ds, name, account);
      if o.Err? then (ds, Failed(o.error))
      else if HasObjects(ds, name) then (ds, Failed(BucketNotEmpty))
      else (DropBucket(ds, name), Done)
    case PutBucketMeta(name, account, mutate) =>
      var o := Owned(ds, name, account);
      if o.Err? then (ds, Failed(o.error))
      else (WriteBucket(ds, Remade(o.value, mutate)), if AllOnline(ds) then Done else Failed(IOFault))
    case PutObject(bucket, key, contentType, body, account, now) =>
      var o := Owned(ds, bucket, account);
      if o.Err? then (ds, Failed(o.error))
      else
        var s := Shards(c, body);
        if s.Err? then (ds, Failed(s.error))
        else
          var info := NewInfo(key, contentType, body, now);
          (PutEntries(ds, PlaceOf(bucket, key), info, s.value),
           if AllOnline(ds) then Info(info) else Failed(IOFault))
    case UpdateObjectMeta(bucket, key, account, mutate) =>
      var o := Owned(ds, bucket, account);
      if o.Err? then (ds, Failed(o.error))
      else
        var m := ReadMeta(ds, PlaceOf(bucket, key));
        if m.None? then (ds, Failed(NotFound))
        else (RewriteMeta(ds, PlaceOf(bucket, key), mutate(m.value)), Done)
    case DeleteObject(bucket, key, account) =>
      var o := Owned(ds, bucket, account);
      if o.Err? then (ds, Failed(o.error))
      else (DropEntries(ds, PlaceOf(bucket, key)), Done)
    case HeadObject(bucket, key, account) =>
      var o := Owned(ds, bucket, account);
      if o.Err? then (ds, Failed(o.error))
      else
        var m := ReadMeta(ds, PlaceOf(bucket, key));
        (ds, if m.None? then Failed(NotFound) else Info(m.value))
    case GetObject(bucket, key, account) =>
      var o := Owned(ds, bucket, account);
      if o.Err? then (ds, Failed(o.error))
      else
        var m := ReadMeta(ds, PlaceOf(bucket, key));
        (ds, if m.None? then Failed(NotFound) else Fetched(c, ds, bucket, key, m.value))
  }
}
