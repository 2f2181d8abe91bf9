/** Listing a bucket and paging through it with markers, while other clients change the bucket. */
module Paging {
  import opened Text
  import opened Store
  import opened StoreRuns

  // ----- Listings -----

  /** `info` is stored under `bucket` on some readable disk, and its key starts with `prefix`. */
  ghost predicate Listed(ds: seq<Disk>, bucket: string, prefix: string, info: ObjectInfo) {
    HasPrefix(info.key, prefix) &&
    exists i, q :: 0 <= i < |ds| && Readable(ds[i], q) && q.0 == bucket && ds[i].objects[q].meta == info
  }

  ghost predicate Ascending(infos: seq<ObjectInfo>) {
    forall i, j :: 0 <= i < j < |infos| ==> Lt(infos[i].key, infos[j].key)
  }

  ghost predicate HasKey(infos: seq<ObjectInfo>, key: string) {
    exists i :: 0 <= i < |infos| && infos[i].key == key
  }

  ghost predicate IsListing(ds: seq<Disk>, bucket: string, prefix: string, out: seq<ObjectInfo>) {
    && Ascending(out)
    && (forall i :: 0 <= i < |out| ==> Listed(ds, bucket, prefix, out[i]))
    && (forall info :: Listed(ds, bucket, prefix, info) ==> HasKey(out, info.key))
  }

  /** A listing cut at `maxKeys`, if positive: what is missing comes after a full page. */
  ghost predicate IsCutListing(ds: seq<Disk>, bucket: string, prefix: string, maxKeys: int, out: seq<ObjectInfo>) {
    && Ascending(out)
    && (forall i :: 0 <= i < |out| ==> Listed(ds, bucket, prefix, out[i]))
    && (maxKeys > 0 ==> |out| <= maxKeys)
    && (forall info :: Listed(ds, bucket, prefix, info) ==>
          || HasKey(out, info.key)
          || (maxKeys > 0 && |out| == maxKeys && Lt(out[maxKeys - 1].key, info.key)))
  }

  lemma CutOfListing(ds: seq<Disk>, bucket: string, prefix: string, maxKeys: int, full: seq<ObjectInfo>, out: seq<ObjectInfo>)
    requires IsListing(ds, bucket, prefix, full)
    requires out == if 0 < maxKeys < |full| then full[..maxKeys] else full
    ensures IsCutListing(ds, bucket, prefix, maxKeys, out)
  {
    forall info | Listed(ds, bucket, prefix, info)
      ensures HasKey(out, info.key) || (maxKeys > 0 && |out| == maxKeys && Lt(out[maxKeys - 1].key, info.key))
    {
      var i :| 0 <= i < |full| && full[i].key == info.key;
      if i < |out| { assert out[i].key == info.key; }
    }
  }

  /** On disks that hold a sound store a listing is the sorted prefix of the plain map, entry by entry. */
  lemma ListingRefines(c: Config, a: Abs, ds: seq<Disk>, bucket: string, prefix: string, out: seq<ObjectInfo>)
    requires c.Valid() && Refines(c, a, ds) && Sound(c, a) && IsListing(ds, bucket, prefix, out)
    ensures forall i :: 0 <= i < |out| ==>
      (bucket, out[i].key) in a.objects && out[i] == a.objects[(bucket, out[i].key)].info
    ensures forall key :: HasKey(out, key) <==> HasPrefix(key, prefix) && (bucket, key) in a.objects
  {
    forall i | 0 <= i < |out|
      ensures HasPrefix(out[i].key, prefix)
      ensures (bucket, out[i].key) in a.objects && out[i] == a.objects[(bucket, out[i].key)].info
    {
      assert Listed(ds, bucket, prefix, out[i]);
      var j, q :| 0 <= j < |ds| && Readable(ds[j], q) && q.0 == bucket && ds[j].objects[q].meta == out[i];
      assert Holds(c, a, ds[j], j);
    }
    forall key | HasPrefix(key, prefix) && (bucket, key) in a.objects ensures HasKey(out, key) {
      assert Holds(c, a, ds[0], 0);
      var q := PlaceOf(bucket, key);
      assert KeyOf(q) == (bucket, key);
      assert Readable(ds[0], q);
      assert Listed(ds, bucket, prefix, ds[0].objects[q].meta);
    }
  }

  // ----- One page -----

  datatype Page = Page(objs: seq<ObjectInfo>, next: string, truncated: bool)

  /** The listing from the first key above the marker on. */
  function Skip(all: seq<ObjectInfo>, marker: string): seq<ObjectInfo> {
    if all == [] || Lt(marker, all[0].key) then all else Skip(all[1..], marker)
  }

  function Rest(all: seq<ObjectInfo>, marker: string): seq<ObjectInfo> {
    if marker == "" then all else Skip(all, marker)
  }

  function PageSize(maxKeys: int): (n: nat)
    ensures n > 0
  {
    if maxKeys <= 0 then 1000 else maxKeys
  }

  function PageOf(all: seq<ObjectInfo>, marker: string, maxKeys: int): Page {
    var rest := Rest(all, marker);
    var n := PageSize(maxKeys);
    if |rest| <= n then Page(rest, "", false) else Page(rest[..n], rest[n - 1].key, true)
  }

  lemma {:induction false} SkipIsSuffix(all: seq<ObjectInfo>, marker: string)
    requires Ascending(all)
    ensures |Skip(all, marker)| <= |all|
    ensures Skip(all, marker) == all[|all| - |Skip(all, marker)|..]
    ensures forall i :: 0 <= i < |all| ==>
      (Lt(marker, all[i].key) <==> |all| - |Skip(all, marker)| <= i)
  {
    if all != [] {
      if Lt(marker, all[0].key) {
        forall i | 0 < i < |all| ensures Lt(marker, all[i].key) {
          assert Lt(all[0].key, all[i].key);
          LtTransitive(marker, all[0].key, all[i].key);
        }
      } else {
        SkipIsSuffix(all[1..], marker);
        forall i | 0 < i < |all|
          ensures Lt(marker, all[i].key) <==> |all| - |Skip(all, marker)| <= i
        {
          assert all[i] == all[1..][i - 1];
        }
      }
    }
  }

  /** A page holds the first keys above the marker, as many as were asked for or 1000, and says so exactly if there
      are more; `next` is then its last key. */
  lemma PageHolds(all: seq<ObjectInfo>, marker: string, maxKeys: int) returns (start: nat)
    requires Ascending(all)
    ensures start <= |all| && forall i :: 0 <= i < |all| ==> (Above(marker, all[i].key) <==> start <= i)
    ensures
      var p, end := PageOf(all, marker, maxKeys), start + if maxKeys <= 0 then 1000 else maxKeys;
      && p.objs == (if end < |all| then all[start..end] else all[start..])
      && (p.truncated <==> end < |all|)
      && p.next == if end < |all| then all[end - 1].key else ""
  {
    SkipIsSuffix(all, marker);
    start := |all| - |Rest(all, marker)|;
    assert Rest(all, marker) == all[start..];
  }

  // ----- A scan -----

  /** What a client gathers by following `next` until a page is not truncated. The bucket may be
      different at each page: `all[i]` is its listing when page `i` is served. */
  datatype Gathered = Gathered(objs: seq<ObjectInfo>, pages: nat, complete: bool)

  function Scan(all: seq<seq<ObjectInfo>>, marker: string, maxKeys: int): (g: Gathered)
    ensures g.pages <= |all|
  {
    if all == [] then Gathered([], 0, false)
    else
      var p := PageOf(all[0], marker, maxKeys);
      if !p.truncated then Gathered(p.objs, 1, true)
      else
        var g := Scan(all[1..], p.next, maxKeys);
        Gathered(p.objs + g.objs, 1 + g.pages, g.complete)
  }

  ghost predicate AllAscending(all: seq<seq<ObjectInfo>>) {
    forall i :: 0 <= i < |all| ==> Ascending(all[i])
  }

  /** The first page of such a listing is the empty key alone, and its marker leads back to the start. */
  predicate Stuck(all: seq<ObjectInfo>, maxKeys: int) {
    PageSize(maxKeys) == 1 && |all| > 1 && all[0].key == ""
  }

  ghost predicate Above(marker: string, key: string) {
    marker == "" || Lt(marker, key)
  }

  lemma RestIsAbove(all: seq<ObjectInfo>, marker: string)
    requires Ascending(all)
    ensures Ascending(Rest(all, marker))
    ensures forall i :: 0 <= i < |Rest(all, marker)| ==> Above(marker, Rest(all, marker)[i].key) && Rest(all, marker)[i] in all
    ensures forall key :: HasKey(all, key) && Above(marker, key) ==> HasKey(Rest(all, marker), key)
  {
    SkipIsSuffix(all, marker);
    var k := |all| - |Rest(all, marker)|;
    assert Rest(all, marker) == all[k..];
    forall key | HasKey(all, key) && Above(marker, key) ensures HasKey(Rest(all, marker), key) {
      var i :| 0 <= i < |all| && all[i].key == key;
      assert all[k..][i - k] == all[i];
    }
  }

  lemma EmptyIsLowest(a: string)
    ensures !Lt(a, "")
  {
  }

  /** Only the page of a stuck listing ends in the empty key. */
  lemma PageEnds(all: seq<ObjectInfo>, marker: string, maxKeys: int)
    requires Ascending(all) && PageOf(all, marker, maxKeys).truncated
    ensures PageOf(all, marker, maxKeys).next == "" <==> marker == "" && Stuck(all, maxKeys)
  {
    var rest, n := Rest(all, marker), PageSize(maxKeys);
    RestIsAbove(all, marker);
    assert Above(marker, rest[n - 1].key);
    EmptyIsLowest(marker);
    if n > 1 { EmptyIsLowest(rest[0].key); }
  }

  ghost predicate Served(all: seq<seq<ObjectInfo>>, pages: nat, info: ObjectInfo)
    requires pages <= |all|
  {
    exists p :: 0 <= p < pages && info in all[p]
  }

  ghost predicate AllAbove(marker: string, infos: seq<ObjectInfo>) {
    forall i :: 0 <= i < |infos| ==> Above(marker, infos[i].key)
  }

  lemma AscendingAppend(a: seq<ObjectInfo>, b: seq<ObjectInfo>, marker: string)
    requires Ascending(a) && Ascending(b) && a != [] && AllAbove(a[|a| - 1].key, b) && a[|a| - 1].key != ""
    requires AllAbove(marker, a)
    ensures Ascending(a + b) && AllAbove(marker, a + b)
  {
    var last := a[|a| - 1].key;
    forall j | 0 <= j < |b| ensures Lt(last, b[j].key) && Above(marker, b[j].key) {
      assert Above(last, b[j].key);
      if marker != "" { LtTransitive(marker, last, b[j].key); }
    }
    forall i, j | 0 <= i < |a| && 0 <= j < |b| ensures Lt(a[i].key, b[j].key) {
      if i < |a| - 1 { LtTransitive(a[i].key, last, b[j].key); }
    }
  }

  lemma PageIsAbove(all: seq<ObjectInfo>, marker: string, maxKeys: int)
    requires Ascending(all)
    ensures var p := PageOf(all, marker, maxKeys);
      && Ascending(p.objs) && AllAbove(marker, p.objs)
      && (forall info :: info in p.objs ==> info in all)
      && (p.truncated ==> p.objs != [] && p.next == p.objs[|p.objs| - 1].key)
  {
    RestIsAbove(all, marker);
  }

  /** Whatever happens to the bucket between the pages, each object gathered was stored when its page was
      served. */
  lemma {:induction false} ScanServes(all: seq<seq<ObjectInfo>>, marker: string, maxKeys: int)
    requires AllAscending(all)
    ensures forall info :: info in Scan(all, marker, maxKeys).objs ==> Served(all, Scan(all, marker, maxKeys).pages, info)
  {
    if all != [] {
      PageIsAbove(all[0], marker, maxKeys);
      var p := PageOf(all[0], marker, maxKeys);
      var whole := Scan(all, marker, maxKeys);
      if p.truncated {
        ScanServes(all[1..], p.next, maxKeys);
        var g := Scan(all[1..], p.next, maxKeys);
        forall info | info in g.objs ensures Served(all, whole.pages, info) {
          var q :| 0 <= q < g.pages && info in all[1..][q];
          assert info in all[q + 1];
        }
      }
      forall info | info in p.objs ensures Served(all, whole.pages, info) {
        assert info in all[0];
      }
    }
  }

  /** And the keys gathered strictly increase, so none is ever repeated, if the first page does not lead
      back to the start. */
  lemma {:induction false} ScanAscends(all: seq<seq<ObjectInfo>>, marker: string, maxKeys: int)
    requires AllAscending(all) && (marker != "" || all == [] || !Stuck(all[0], maxKeys))
    ensures Ascending(Scan(all, marker, maxKeys).objs)
    ensures AllAbove(marker, Scan(all, marker, maxKeys).objs)
  {
    if all != [] {
      PageIsAbove(all[0], marker, maxKeys);
      var p := PageOf(all[0], marker, maxKeys);
      if p.truncated {
        PageEnds(all[0], marker, maxKeys);
        ScanAscends(all[1..], p.next, maxKeys);
        AscendingAppend(p.objs, Scan(all[1..], p.next, maxKeys).objs, marker);
      }
    }
  }

  /** Exactly one thing breaks the order: a first page that leads back to the start, followed by a listing
      that still begins with the empty key. */
  lemma ScanAscendsIff(all: seq<seq<ObjectInfo>>, maxKeys: int)
    requires AllAscending(all)
    ensures Ascending(Scan(all, "", maxKeys).objs) <==>
      !(|all| > 1 && Stuck(all[0], maxKeys) && all[1] != [] && all[1][0].key == "")
  {
    if |all| > 0 && Stuck(all[0], maxKeys) {
      var later := all[1..];
      var g := Scan(later, "", maxKeys);
      StuckPage(all[0], maxKeys);
      assert Scan(all, "", maxKeys).objs == [all[0][0]] + g.objs;
      if |all| > 1 {
        assert later[0] == all[1];
        if all[1] != [] && all[1][0].key == "" {
          FirstIsGathered(later, maxKeys);
          var objs := Scan(all, "", maxKeys).objs;
          assert objs[0].key == "" && objs[1] == g.objs[0];
          EmptyIsLowest("");
          assert !Lt(objs[0].key, objs[1].key);
        } else {
          ScanAscends(later, "", maxKeys);
          EmptyKeyFirst(all[0][0], later, maxKeys);
        }
      }
    } else {
      ScanAscends(all, "", maxKeys);
    }
  }

  lemma StuckPage(all: seq<ObjectInfo>, maxKeys: int)
    requires Stuck(all, maxKeys)
    ensures PageOf(all, "", maxKeys) == Page([all[0]], "", true)
  {
  }

  lemma FirstIsGathered(all: seq<seq<ObjectInfo>>, maxKeys: int)
    requires all != [] && all[0] != []
    ensures Scan(all, "", maxKeys).objs != [] && Scan(all, "", maxKeys).objs[0] == all[0][0]
  {
  }

  /** A scan whose first listing does not hold the empty key never gathers it. */
  lemma EmptyKeyFirst(first: ObjectInfo, all: seq<seq<ObjectInfo>>, maxKeys: int)
    requires AllAscending(all) && all != [] && first.key == "" && (all[0] == [] || all[0][0].key != "")
    ensures var g := Scan(all, "", maxKeys); Ascending(g.objs) ==> Ascending([first] + g.objs)
  {
    var g := Scan(all, "", maxKeys);
    if Ascending(g.objs) && g.objs != [] {
      FirstOfScan(all, maxKeys);
      forall j | 0 <= j < |g.objs| ensures Lt("", g.objs[j].key) {
        EmptyIsLowest(g.objs[0].key);
      }
    }
  }

  lemma FirstOfScan(all: seq<seq<ObjectInfo>>, maxKeys: int)
    requires all != [] && Scan(all, "", maxKeys).objs != []
    ensures all[0] != [] && Scan(all, "", maxKeys).objs[0] == all[0][0]
  {
  }

  /** A scan that came to its end has returned every key that was present throughout. */
  lemma {:induction false} ScanFindsTheSteady(all: seq<seq<ObjectInfo>>, marker: string, maxKeys: int, key: string)
    requires AllAscending(all) && Above(marker, key)
    requires Scan(all, marker, maxKeys).complete
    requires forall p :: 0 <= p < Scan(all, marker, maxKeys).pages ==> HasKey(all[p], key)
    ensures HasKey(Scan(all, marker, maxKeys).objs, key)
  {
    var p := PageOf(all[0], marker, maxKeys);
    assert HasKey(all[0], key);
    OnPageOrLater(all[0], marker, maxKeys, key);
    if p.truncated {
      var g := Scan(all[1..], p.next, maxKeys);
      if !HasKey(p.objs, key) {
        forall q | 0 <= q < g.pages ensures HasKey(all[1..][q], key) {
          assert all[1..][q] == all[q + 1];
        }
        ScanFindsTheSteady(all[1..], p.next, maxKeys, key);
      }
      HasKeyAppend(p.objs, g.objs, key);
    }
  }

  lemma OnPageOrLater(all: seq<ObjectInfo>, marker: string, maxKeys: int, key: string)
    requires Ascending(all) && HasKey(all, key) && Above(marker, key)
    ensures var p := PageOf(all, marker, maxKeys); HasKey(p.objs, key) || (p.truncated && Above(p.next, key))
  {
    var rest, n := Rest(all, marker), PageSize(maxKeys);
    RestIsAbove(all, marker);
    assert HasKey(rest, key);
    if |rest| > n {
      var i :| 0 <= i < |rest| && rest[i].key == key;
      if i < n { assert rest[..n][i].key == key; }
    }
  }

  lemma HasKeyAppend(a: seq<ObjectInfo>, b: seq<ObjectInfo>, key: string)
    ensures HasKey(a, key) || HasKey(b, key) ==> HasKey(a + b, key)
  {
    if i :| 0 <= i < |a| && a[i].key == key { assert (a + b)[i].key == key; }
    if i :| 0 <= i < |b| && b[i].key == key { assert (a + b)[|a| + i].key == key; }
  }

  function Repeat(all: seq<ObjectInfo>, n: nat): seq<seq<ObjectInfo>> {
    seq(n, _ => all)
  }

  lemma QuietStep(all: seq<ObjectInfo>, marker: string, maxKeys: int, pages: nat)
    requires pages > 0
    ensures var p, s := PageOf(all, marker, maxKeys), Scan(Repeat(all, pages), marker, maxKeys);
            if !p.truncated then s.complete && s.objs == p.objs
            else
              var g := Scan(Repeat(all, pages - 1), p.next, maxKeys);
              s.complete == g.complete && s.objs == p.objs + g.objs
  {
    assert Repeat(all, pages)[0] == all;
    assert Repeat(all, pages)[1..] == Repeat(all, pages - 1);
  }

  /** In a bucket nobody changes, the scan ends after at most one page per key above the marker, and
      the pages put together are the listing from the marker on, unless its first page leads back. */
  lemma {:induction false} QuietScan(all: seq<ObjectInfo>, marker: string, maxKeys: int, pages: nat)
    requires Ascending(all) && (marker != "" || !Stuck(all, maxKeys))
    requires pages > |Rest(all, marker)|
    ensures Scan(Repeat(all, pages), marker, maxKeys).complete
    ensures Scan(Repeat(all, pages), marker, maxKeys).objs == Rest(all, marker)
    decreases pages
  {
    var p := PageOf(all, marker, maxKeys);
    QuietStep(all, marker, maxKeys, pages);
    PageAdvances(all, marker, maxKeys);
    if p.truncated {
      PageEnds(all, marker, maxKeys);
      QuietScan(all, p.next, maxKeys, pages - 1);
    }
  }

  lemma CutInTwo(infos: seq<ObjectInfo>, n: nat)
    requires n <= |infos|
    ensures infos[..n] + infos[n..] == infos
  {
  }

  lemma PageAdvances(all: seq<ObjectInfo>, marker: string, maxKeys: int)
    requires Ascending(all) && (marker != "" || !Stuck(all, maxKeys))
    ensures var p, rest := PageOf(all, marker, maxKeys), Rest(all, marker);
            if !p.truncated then p.objs == rest
            else p.objs + Rest(all, p.next) == rest && |Rest(all, p.next)| < |rest|
  {
    var rest, n := Rest(all, marker), PageSize(maxKeys);
    if |rest| > n {
      PageEnds(all, marker, maxKeys);
      RestAfterPage(all, marker, n);
      CutInTwo(rest, n);
    }
  }

  /** `Skip` is pinned down by any index that splits the listing at the marker. */
  lemma SkipAt(all: seq<ObjectInfo>, marker: string, m: nat)
    requires Ascending(all) && m <= |all|
    requires m > 0 ==> !Lt(marker, all[m - 1].key)
    requires m < |all| ==> Lt(marker, all[m].key)
    ensures Skip(all, marker) == all[m..]
  {
    SkipIsSuffix(all, marker);
  }

  lemma RestAfterPage(all: seq<ObjectInfo>, marker: string, n: nat)
    requires Ascending(all) && 0 < n <= |Rest(all, marker)| && Rest(all, marker)[n - 1].key != ""
    ensures Rest(all, Rest(all, marker)[n - 1].key) == Rest(all, marker)[n..]
  {
    var rest := Rest(all, marker);
    assert |rest| <= |all| && rest == all[|all| - |rest|..] by { SkipIsSuffix(all, marker); }
    var m := |all| - |rest| + n;
    assert rest[n - 1] == all[m - 1];
    SkipAt(all, all[m - 1].key, m);
    assert rest[n..] == all[m..];
  }

  /** A client that starts over with every page never comes to an end. */
  lemma {:induction false} StuckNeverEnds(all: seq<ObjectInfo>, maxKeys: int, pages: nat)
    requires Stuck(all, maxKeys)
    ensures !Scan(Repeat(all, pages), "", maxKeys).complete
  {
    if pages > 0 {
      StuckNeverEnds(all, maxKeys, pages - 1);
      StuckPage(all, maxKeys);
      QuietStep(all, "", maxKeys, pages);
    }
  }

  /** The scan of a quiet bucket from the start ends exactly when its first page does not lead back to the
      start, and then it gives the whole listing. */
  lemma QuietScanEndsIff(all: seq<ObjectInfo>, maxKeys: int)
    requires Ascending(all)
    ensures (exists pages :: Scan(Repeat(all, pages), "", maxKeys).complete) <==> !Stuck(all, maxKeys)
    ensures !Stuck(all, maxKeys) ==>
      var g := Scan(Repeat(all, |all| + 1), "", maxKeys); g.complete && g.objs == all
  {
    if Stuck(all, maxKeys) {
      forall pages: nat { StuckNeverEnds(all, maxKeys, pages); }
    } else {
      QuietScan(all, "", maxKeys, |all| + 1);
    }
  }
}
