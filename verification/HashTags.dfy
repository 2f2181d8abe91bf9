/** Scatter and gather: a multi-key command is cut into one command per hash tag, the parts run in any
    order, and their answers are put back by index. */
module HashTags {
  import opened Seqs
  import opened Results
  import opened Text
  import opened Keys

  // ----- The hash tag of a key -----

  /** The text between the first `{` and the first `}` after it, or nothing. */
  function ExtractHashTag(key: string): string {
    var start := IndexByte(key, '{');
    if start < 0 then ""
    else
      var end := IndexByte(key[start + 1..], '}');
      if end < 0 then "" else key[start + 1..start + 1 + end]
  }

  /** The "Hash tags" rule of the Redis Cluster specification: positions of the braces that count. */
  ghost predicate Braces(key: string, i: int, j: int) {
    && 0 <= i && i + 1 < j < |key|
    && key[i] == '{' && '{' !in key[..i]
    && key[j] == '}' && '}' !in key[i + 1..j]
  }

  /** `hashed` is the part of `key` that Redis Cluster hashes. */
  ghost predicate HashedPart(key: string, hashed: string) {
    if exists i, j :: Braces(key, i, j)
    then exists i, j :: Braces(key, i, j) && hashed == key[i + 1..j]
    else hashed == key
  }

  function SlotInput(key: string): string {
    var tag := ExtractHashTag(key);
    if tag == "" then key else tag
  }

  lemma {:induction false} FirstIndex(s: string, c: char, i: nat)
    requires i < |s| && s[i] == c && c !in s[..i]
    ensures IndexByte(s, c) == i
  {
    if i > 0 {
      assert s[0] in s[..i];
      assert s[1..][..i - 1] == s[..i][1..];
      FirstIndex(s[1..], c, i - 1);
    }
  }

  lemma BracesGiveTag(key: string, i: int, j: int)
    requires Braces(key, i, j)
    ensures ExtractHashTag(key) == key[i + 1..j] && ExtractHashTag(key) != ""
  {
    FirstIndex(key, '{', i);
    var rest := key[i + 1..];
    assert rest[..j - i - 1] == key[i + 1..j];
    FirstIndex(rest, '}', j - i - 1);
  }

  lemma TagGivesBraces(key: string) returns (i: int, j: int)
    requires ExtractHashTag(key) != ""
    ensures Braces(key, i, j) && ExtractHashTag(key) == key[i + 1..j]
  {
    i := IndexByte(key, '{');
    var rest := key[i + 1..];
    var end := IndexByte(rest, '}');
    j := i + 1 + end;
    assert key[i + 1..j] == rest[..end];
  }

  /** `extractHashTag` finds what Redis Cluster hashes, and an empty tag means the whole key. */
  lemma TagFollowsSpecification(key: string, hashed: string)
    ensures HashedPart(key, hashed) <==> hashed == SlotInput(key)
  {
    var tag := ExtractHashTag(key);
    if tag != "" {
      var i, j := TagGivesBraces(key);
      assert Braces(key, i, j);
    }
    forall i, j | Braces(key, i, j) ensures key[i + 1..j] == tag && tag != "" {
      BracesGiveTag(key, i, j);
    }
  }

  /** An entity's key and its not-found key always share their hash tag, which is the id when the id
      holds no closing brace and the prefix no opening one. */
  lemma EntityKeysShareTag(k: KeyBuilder, id: string)
    ensures ExtractHashTag(k.EntityNil(id)) == ExtractHashTag(k.Entity(id))
    ensures '}' !in id && '{' !in k.RealPrefix(":entity") ==> ExtractHashTag(k.Entity(id)) == id
  {
    var p := k.RealPrefix(":entity") + ":";
    var key := k.Entity(id);
    assert key == p + "{" + id + "}";
    assert key[|p|] == '{';
    TagIsStable(key, ":nil");
    if '}' !in id && '{' !in p { TagOfBraced(p, id); }
  }

  lemma FirstIndexOfMore(s: string, tail: string, c: char)
    requires c in s
    ensures IndexByte(s + tail, c) == IndexByte(s, c)
  {
    var i := IndexByte(s, c);
    AppendSlices(s, tail, i, |s|);
    FirstIndex(s + tail, c, i);
  }

  /** Text after the closing brace does not change the tag. */
  lemma TagIsStable(key: string, tail: string)
    requires key != "" && '{' in key && key[|key| - 1] == '}'
    ensures ExtractHashTag(key + tail) == ExtractHashTag(key)
  {
    var s := IndexByte(key, '{');
    AppendSlices(key, tail, s + 1, |key|);
    FirstIndexOfMore(key, tail, '{');
    var rest := key[s + 1..];
    assert rest[|rest| - 1] == '}';
    FirstIndexOfMore(rest, tail, '}');
    AppendSlices(rest, tail, IndexByte(rest, '}'), |rest|);
    TagIn(key, s, rest);
    TagIn(key + tail, s, rest + tail);
  }

  lemma TagIn(key: string, s: nat, rest: string)
    requires IndexByte(key, '{') == s < |key| && rest == key[s + 1..] && '}' in rest
    ensures ExtractHashTag(key) == rest[..IndexByte(rest, '}')]
  {
    var e := IndexByte(rest, '}');
    assert key[s + 1..s + 1 + e] == rest[..e];
  }

  lemma TagOfBraced(p: string, id: string)
    requires '{' !in p && '}' !in id
    ensures ExtractHashTag(p + "{" + id + "}") == id
  {
    var key := p + "{" + id + "}";
    if id == "" {
      assert key[..|p|] == p && key[|p| + 1..] == "}";
      FirstIndex(key, '{', |p|);
      FirstIndex("}", '}', 0);
    } else {
      assert key[..|p|] == p && key[|p| + 1..|p| + 1 + |id|] == id;
      BracesGiveTag(key, |p|, |p| + 1 + |id|);
    }
  }

  // ----- Grouping -----

  function GroupKey(key: string): string {
    var tag := ExtractHashTag(key);
    if tag == "" then "single:" + key else tag
  }

  datatype KeyGroup = KeyGroup(keys: seq<string>, indexes: seq<nat>)

  /** The groups partition the first `n` indexes by `groupOf`, each keeping its keys in order. */
  ghost predicate Groups(groupOf: string -> string, keys: seq<string>, n: nat, groups: map<string, KeyGroup>)
    requires n <= |keys|
  {
    && (forall g :: g in groups ==> IsGroup(groupOf, keys, n, g, groups[g]))
    && (forall i :: 0 <= i < n ==> groupOf(keys[i]) in groups)
  }

  ghost predicate IsGroup(groupOf: string -> string, keys: seq<string>, n: nat, g: string, grp: KeyGroup)
    requires n <= |keys|
  {
    && |grp.keys| == |grp.indexes| > 0
    && (forall j :: 0 <= j < |grp.indexes| ==>
          grp.indexes[j] < n && grp.keys[j] == keys[grp.indexes[j]] && groupOf(grp.keys[j]) == g)
    && (forall i, j :: 0 <= i < j < |grp.indexes| ==> grp.indexes[i] < grp.indexes[j])
    && (forall i :: 0 <= i < n && groupOf(keys[i]) == g ==> i in grp.indexes)
  }

  /** `groupOf` is `GroupKey` in the code; nothing below depends on which function it is. */
  method GroupKeysBy(groupOf: string -> string, keys: seq<string>) returns (groups: map<string, KeyGroup>)
    ensures Groups(groupOf, keys, |keys|, groups)
  {
    groups := map[];
    for i := 0 to |keys|
      invariant Groups(groupOf, keys, i, groups)
    {
      var g := groupOf(keys[i]);
      var grp := if g in groups then groups[g] else KeyGroup([], []);
      var next := KeyGroup(grp.keys + [keys[i]], grp.indexes + [i]);
      assert next.indexes[|grp.indexes|] == i;
      forall j | 0 <= j < i && groupOf(keys[j]) == g ensures j in next.indexes {
        assert j in grp.indexes;
      }
      assert IsGroup(groupOf, keys, i + 1, g, next);
      groups := groups[g := next];
    }
  }

  /** The keys of each group have one part that is hashed, hence one slot, exactly when no untagged key of the batch, with "single:" put in
      front, is the hash tag of another key; in particular when no tag starts with "single:". */
  lemma GroupsShareSlotIff(keys: seq<string>)
    ensures (forall i, j :: 0 <= i < |keys| && 0 <= j < |keys| && GroupKey(keys[i]) == GroupKey(keys[j])
               ==> SlotInput(keys[i]) == SlotInput(keys[j]))
            <==> !exists i, j :: 0 <= i < |keys| && 0 <= j < |keys| &&
                   ExtractHashTag(keys[j]) == "" && ExtractHashTag(keys[i]) == "single:" + keys[j]
  {
    forall i, j | 0 <= i < |keys| && 0 <= j < |keys| && ExtractHashTag(keys[j]) == ""
      ensures ExtractHashTag(keys[i]) == "single:" + keys[j]
        ==> GroupKey(keys[i]) == GroupKey(keys[j]) && SlotInput(keys[i]) != SlotInput(keys[j])
    {
    }
    forall i, j | 0 <= i < |keys| && 0 <= j < |keys| && GroupKey(keys[i]) == GroupKey(keys[j]) &&
        ExtractHashTag(keys[i]) == "" && ExtractHashTag(keys[j]) == ""
      ensures keys[i] == keys[j]
    {
      assert ("single:" + keys[i])[7..] == keys[i];
    }
  }

  // ----- The cache -----

  function Lookup(store: map<string, string>, key: string): Option<string> {
    if key in store then Some(store[key]) else None
  }

  function Restrict(groupOf: string -> string, pairs: map<string, string>, todo: set<string>): map<string, string> {
    map k | k in pairs && groupOf(k) !in todo :: pairs[k]
  }

  /** The pairs of one group. */
  function GroupPairs(groupOf: string -> string, pairs: map<string, string>, g: string): map<string, string> {
    map k | k in pairs && groupOf(k) == g :: pairs[k]
  }

  lemma RestrictStep(groupOf: string -> string, pairs: map<string, string>, todo: set<string>, g: string)
    requires g in todo
    ensures Restrict(groupOf, pairs, todo) + GroupPairs(groupOf, pairs, g) == Restrict(groupOf, pairs, todo - {g})
    ensures GroupPairs(groupOf, pairs, g) + Restrict(groupOf, pairs, todo) == Restrict(groupOf, pairs, todo - {g})
  {
  }

  /** What a pipeline writes. */
  function Sent(pairs: map<string, string>, fails: bool, reached: set<string>): map<string, string> {
    map k | k in pairs && (!fails || k in reached) :: pairs[k]
  }

  /** What all pipelines write together. */
  function Written(groupOf: string -> string, pairs: map<string, string>, down: set<string>, reached: set<string>): map<string, string> {
    map k | k in pairs && (groupOf(k) !in down || k in reached) :: pairs[k]
  }

  lemma SentIs(groupOf: string -> string, pairs: map<string, string>, g: string, down: set<string>, reached: set<string>)
    ensures Sent(GroupPairs(groupOf, pairs, g), g in down, reached)
            == GroupPairs(groupOf, Written(groupOf, pairs, down, reached), g)
  {
  }

  lemma WrittenAll(groupOf: string -> string, pairs: map<string, string>, down: set<string>, reached: set<string>)
    ensures var written := Written(groupOf, pairs, down, reached);
      && Restrict(groupOf, written, {}) == written
      && Restrict(groupOf, written, set k | k in pairs :: groupOf(k)) == map[]
      && ((forall k :: k in pairs ==> groupOf(k) !in down) ==> written == pairs)
  {
  }

  class BaseCache {
    var store: map<string, string>
    const groupOf: string -> string

    constructor ()
      ensures store == map[]
      ensures forall k :: groupOf(k) == GroupKey(k)
    {
      store := map[];
      groupOf := k => GroupKey(k);
    }

    /** One MGET per group, in any order. `down` are the groups whose command fails. */
    method MGet(keys: seq<string>, down: set<string>) returns (r: Option<seq<Option<string>>>)
      ensures r.None? <==> exists i :: 0 <= i < |keys| && groupOf(keys[i]) in down
      ensures r.Some? ==> |r.value| == |keys|
      ensures r.Some? ==> forall i :: 0 <= i < |keys| ==>
        r.value[i] == if keys[i] in store then Some(store[keys[i]]) else None
    {
      if |keys| == 0 {
        return Some([]);
      }
      var groups := GroupKeysBy(groupOf, keys);
      var out := new Option<string>[|keys|](_ => None);
      var todo := groups.Keys;
      var failed := false;
      while todo != {}
        invariant todo <= groups.Keys
        invariant failed <==> exists g :: g in groups.Keys - todo && g in down
        invariant forall i ::
          (0 <= i < |keys| && groupOf(keys[i]) in groups.Keys - todo && groupOf(keys[i]) !in down)
          ==> out[i] == Lookup(store, keys[i])
        decreases todo
      {
        var g :| g in todo;
        todo := todo - {g};
        assert IsGroup(groupOf, keys, |keys|, g, groups[g]);
        if g in down {
          failed := true;
        } else {
          Gather(keys, groups[g], g, out);
        }
      }
      if failed {
        ghost var g :| g in groups.Keys && g in down;
        assert IsGroup(groupOf, keys, |keys|, g, groups[g]);
        assert groupOf(keys[groups[g].indexes[0]]) == g;
        return None;
      }
      return Some(out[..]);
    }

    /** The answer to one group's command is put back by index. */
    method Gather(ghost keys: seq<string>, grp: KeyGroup, ghost g: string, out: array<Option<string>>)
      requires out.Length == |keys| && IsGroup(groupOf, keys, |keys|, g, grp)
      modifies out
      ensures forall i :: 0 <= i < |keys| ==>
        out[i] == if groupOf(keys[i]) == g then Lookup(store, keys[i]) else old(out[i])
    {
      for i := 0 to |grp.keys|
        invariant forall j :: 0 <= j < i ==> out[grp.indexes[j]] == Lookup(store, keys[grp.indexes[j]])
        invariant forall j :: 0 <= j < |keys| && groupOf(keys[j]) != g ==> out[j] == old(out[j])
      {
        out[grp.indexes[i]] := Lookup(store, grp.keys[i]);
      }
    }

    /** One pipeline of SETs per group, in any order. `down` are the groups whose pipeline fails, and `reached` the
        keys that such a pipeline still writes. */
    method MSet(pairs: map<string, string>, down: set<string>, reached: set<string>) returns (ok: bool)
      modifies this
      ensures store == old(store) + Written(groupOf, pairs, down, reached)
      ensures ok <==> forall k :: k in pairs ==> groupOf(k) !in down
      ensures ok ==> store == old(store) + pairs
    {
      var todo := set k | k in pairs :: groupOf(k);
      ghost var all, written := todo, Written(groupOf, pairs, down, reached);
      WrittenAll(groupOf, pairs, down, reached);
      ok := true;
      while todo != {}
        invariant todo <= all && (ok <==> forall g :: g in all - todo ==> g !in down)
        invariant store == old(store) + Restrict(groupOf, written, todo)
        decreases todo
      {
        var g :| g in todo;
        RestrictStep(groupOf, written, todo, g);
        MapsAssociate(old(store), Restrict(groupOf, written, todo), GroupPairs(groupOf, written, g));
        var sent := Sent(GroupPairs(groupOf, pairs, g), g in down, reached);
        SentIs(groupOf, pairs, g, down, reached);
        store := store + sent;
        ok := ok && g !in down;
        todo := todo - {g};
      }
    }

    /** One pipeline of SETNXs per group: keys already set keep their value. */
    method MSetNX(pairs: map<string, string>, down: set<string>, reached: set<string>) returns (ok: bool)
      modifies this
      ensures store == Written(groupOf, pairs, down, reached) + old(store)
      ensures ok <==> forall k :: k in pairs ==> groupOf(k) !in down
      ensures ok ==> store == pairs + old(store)
    {
      var todo := set k | k in pairs :: groupOf(k);
      ghost var all, written := todo, Written(groupOf, pairs, down, reached);
      WrittenAll(groupOf, pairs, down, reached);
      ok := true;
      while todo != {}
        invariant todo <= all && (ok <==> forall g :: g in all - todo ==> g !in down)
        invariant store == Restrict(groupOf, written, todo) + old(store)
        decreases todo
      {
        var g :| g in todo;
        RestrictStep(groupOf, written, todo, g);
        MapsAssociate(GroupPairs(groupOf, written, g), Restrict(groupOf, written, todo), old(store));
        var sent := Sent(GroupPairs(groupOf, pairs, g), g in down, reached);
        SentIs(groupOf, pairs, g, down, reached);
        store := sent + store;
        ok := ok && g !in down;
        todo := todo - {g};
      }
    }
  }
}
