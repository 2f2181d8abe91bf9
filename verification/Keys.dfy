/** Cache key names. */
module Keys {
  import opened Seqs
  import opened Results
  import opened Text

  /** An empty namespace or version is left out of the key. */
  datatype KeyBuilder = KeyBuilder(prefix: string, namespace: string, version: string)
  {
    function RealPrefix(kind: string): string {
      prefix
      + (if namespace != "" then ":" + namespace else "")
      + (if version != "" then ":v" + version else "")
      + kind
    }

    function Entity(id: string): string {
      RealPrefix(":entity") + ":{" + id + "}"
    }

    function EntityNil(id: string): string {
      Entity(id) + ":nil"
    }

    function Counter(name: string, id: string): string {
      RealPrefix(":counter") + ":" + name + ":{" + id + "}"
    }

    function CounterHead(name: string): string {
      RealPrefix(":counter") + ":" + name + ":{"
    }

    /** The keys that the scan pattern of a counter matches. */
    predicate CounterMatches(name: string, key: string) {
      HasPrefix(key, RealPrefix(":counter") + ":" + name + ":")
    }

    function GetIDFromCounterKey(key: string, name: string): Option<string> {
      var head := CounterHead(name);
      if HasPrefix(key, head) && HasSuffix(key, "}") && |head| < |key|
      then Some(key[|head|..|key| - 1]) else None
    }

    /** The parser inverts the printer, and accepts nothing else. */
    lemma CounterKeyInverts(name: string, key: string, id: string)
      ensures GetIDFromCounterKey(key, name) == Some(id) <==> key == Counter(name, id)
    {
      var head := CounterHead(name);
      var made := Counter(name, id);
      assert made == head + id + "}";
      if GetIDFromCounterKey(key, name) == Some(id) {
        assert key == key[..|head|] + key[|head|..|key| - 1] + key[|key| - 1..];
        assert key == made;
      }
      if key == made {
        assert made[|made| - 1..] == "}" && made[..|head|] == head && made[|head|..|made| - 1] == id;
      }
    }

    /** The guard on lengths is idle: a key that is no longer than the head cannot end in a brace. */
    lemma HeadIsNotClosed(name: string, key: string)
      requires HasPrefix(key, CounterHead(name)) && HasSuffix(key, "}")
      ensures |CounterHead(name)| < |key|
    {
      var head := CounterHead(name);
      assert head[|head| - 1] == '{';
      assert key[|key| - 1..][0] == '}';
      assert |key| == |head| ==> key == head;
    }

    /** A counter whose name extends `name + ":"` is caught by the scan of `name`: its key matches, and
        is then either not recognised at all or credited to a made-up id. */
    lemma ExtendingNameIsCaught(name: string, rest: string, id: string)
      ensures CounterMatches(name, Counter(name + ":" + rest, id))
      ensures GetIDFromCounterKey(Counter(name + ":" + rest, id), name) ==
              if rest != "" && rest[0] == '{' then Some(rest[1..] + ":{" + id) else None
    {
      var key := Counter(name + ":" + rest, id);
      var base := RealPrefix(":counter") + ":" + name + ":";
      assert key == base + (rest + ":{" + id + "}");
      if rest != "" && rest[0] == '{' {
        assert key == Counter(name, rest[1..] + ":{" + id);
        CounterKeyInverts(name, key, rest[1..] + ":{" + id);
      } else {
        assert CounterHead(name) == base + "{";
        assert key[|base|] != '{';
      }
    }

    /** When counter names hold no brace, the scan of `name` matches a key of the counter `other` exactly
        when `other` is `name` or extends `name + ":"`. */
    lemma CaughtIff(name: string, other: string, id: string)
      requires '{' !in other && '{' !in name
      ensures CounterMatches(name, Counter(other, id)) <==> other == name || HasPrefix(other, name + ":")
    {
      if other == name {
        assert Counter(other, id)[..|RealPrefix(":counter") + ":" + name + ":"|] == RealPrefix(":counter") + ":" + name + ":";
      } else if HasPrefix(other, name + ":") {
        assert other == name + ":" + other[|name| + 1..];
        ExtendingNameIsCaught(name, other[|name| + 1..], id);
      }
      if CounterMatches(name, Counter(other, id)) {
        CaughtNames(name, other, id);
      }
    }

    /** Counters of different names without braces share no key. */
    lemma OtherNameOtherKey(name: string, other: string, id: string, i: string)
      requires '{' !in other && '{' !in name && other != name
      ensures Counter(other, id) != Counter(name, i)
    {
      if Counter(other, id) == Counter(name, i) {
        CaughtIff(name, name, i);
        CaughtIff(name, other, id);
        var rest := other[|name| + 1..];
        assert other == name + ":" + rest;
        assert rest != "" ==> rest[0] in other;
        ExtendingNameIsCaught(name, rest, id);
        CounterKeyInverts(name, Counter(name, i), i);
      }
    }

    lemma CaughtNames(name: string, other: string, id: string)
      requires '{' !in other && '{' !in name
      requires CounterMatches(name, Counter(other, id))
      ensures other == name || HasPrefix(other, name + ":")
    {
      var p := RealPrefix(":counter") + ":";
      var key := Counter(other, id);
      assert key == p + (other + ":{" + id + "}");
      var tail := key[|p|..];
      assert tail == other + ":{" + id + "}";
      assert tail[..|name| + 1] == name + ":" by {
        assert key[..|p| + |name| + 1] == p + name + ":";
        assert key[..|p| + |name| + 1][|p|..] == name + ":";
      }
      assert forall k :: 0 <= k <= |name| ==> tail[k] == (name + ":")[k];
      assert tail[|other| + 1] == '{';
      assert forall k :: 0 <= k <= |name| ==> (name + ":")[k] != '{';
      assert |other| >= |name|;
      if |name| < |other| {
        assert other[..|name| + 1] == name + ":";
      } else {
        assert other == tail[..|name|] == name;
      }
    }

    lemma EntityInjective(a: string, b: string)
      requires Entity(a) == Entity(b)
      ensures a == b
    {
      var h := RealPrefix(":entity") + ":{";
      assert Entity(a) == h + a + "}" && Entity(b) == h + b + "}";
      assert Entity(a)[|h|..|Entity(a)| - 1] == a && Entity(b)[|h|..|Entity(b)| - 1] == b;
    }

    lemma EntityNilInjective(a: string, b: string)
      requires EntityNil(a) == EntityNil(b)
      ensures a == b
    {
      assert EntityNil(a)[..|Entity(a)|] == Entity(a) && EntityNil(b)[..|Entity(b)|] == Entity(b);
      EntityInjective(a, b);
    }

    /** No id's entity key is another id's not-found key. */
    lemma EntityIsNotNil(a: string, b: string)
      ensures Entity(a) != EntityNil(b)
    {
      assert Entity(a)[|Entity(a)| - 1] == '}';
      assert EntityNil(b)[|EntityNil(b)| - 1] == 'l';
    }
  }

  // ----- Keys of different builders -----

  function PartsOf(b: KeyBuilder): seq<string> {
    (if b.namespace != "" then [b.namespace] else []) + if b.version != "" then ["v" + b.version] else []
  }

  /** What follows the prefix in an entity's key. */
  function AfterPrefix(parts: seq<string>, id: string): string {
    if parts == [] then ":entity:{" + id + "}" else ":" + parts[0] + AfterPrefix(parts[1..], id)
  }

  lemma Regroup(p: string, n: string, v: string, k: string, x: string, y: string, z: string)
    ensures p + n + v + k + x + y + z == p + (n + (v + (k + x + y + z)))
  {
    Associates(p, n, v + (k + x + y + z));
    Associates(p + n, v, k + x + y + z);
    Associates(p + n + v, k + x + y, z);
    Associates(p + n + v, k + x, y);
    Associates(p + n + v, k, x);
  }

  lemma AfterPrefixIs(b: KeyBuilder, id: string)
    ensures AfterPrefix(PartsOf(b), id) ==
      (if b.namespace != "" then ":" + b.namespace else "")
      + ((if b.version != "" then ":v" + b.version else "") + (":entity:{" + id + "}"))
  {
    var e := ":entity:{" + id + "}";
    var last := if b.version != "" then ["v" + b.version] else [];
    Associates(":", "v", b.version);
    assert ":" + "v" == ":v";
    assert AfterPrefix([], id) == e;
    assert AfterPrefix(last, id) == (if b.version != "" then ":v" + b.version else "") + e by {
      if b.version != "" { assert last[1..] == []; } else { EmptyFirst(e); }
    }
    if b.namespace != "" {
      HeadAndTail([b.namespace], last);
      EmptyFirst(last);
    } else {
      EmptyFirst(last);
      EmptyFirst(AfterPrefix(last, id));
    }
  }

  lemma EntityIs(b: KeyBuilder, id: string)
    ensures b.Entity(id) == b.prefix + AfterPrefix(PartsOf(b), id)
  {
    AfterPrefixIs(b, id);
    assert ":entity" + ":{" == ":entity:{";
    Regroup(b.prefix, if b.namespace != "" then ":" + b.namespace else "", if b.version != "" then ":v" + b.version else "",
            ":entity", ":{", id, "}");
  }

  /** No colon and no brace. */
  predicate Simple(s: string) {
    ':' !in s && '{' !in s
  }

  lemma FirstPartTells(x: string, y: string, r: string, s: string)
    requires Simple(x) && Simple(y) && r != "" && s != "" && r[0] == ':' == s[0]
    ensures ":" + x + r == ":" + y + s <==> x == y && r == s
  {
    var p, q := ":" + x + r, ":" + y + s;
    if p == q {
      assert p[|x| + 1] == ':' && q[|y| + 1] == ':';
      assert forall i :: 0 <= i < |x| ==> p[i + 1] == x[i];
      assert forall i :: 0 <= i < |y| ==> q[i + 1] == y[i];
      assert p[1..][..|x|] == x && q[1..][..|y|] == y && p[|x| + 1..] == r && q[|y| + 1..] == s;
    }
  }

  lemma StartsWithColon(parts: seq<string>, id: string)
    ensures var t := AfterPrefix(parts, id); |t| > 1 && t[0] == ':'
    ensures (forall x :: x in parts ==> Simple(x)) ==> AfterPrefix(parts, id)[1] != '{'
  {
    if parts != [] {
      assert parts[0] in parts;
      if |parts| > 1 { assert |AfterPrefix(parts[1..], id)| > 0 && AfterPrefix(parts[1..], id)[0] == ':'; }
    }
  }

  lemma {:induction false} PartsTell(a: seq<string>, b: seq<string>, i: string, j: string)
    requires (forall x :: x in a ==> Simple(x)) && (forall x :: x in b ==> Simple(x))
    ensures AfterPrefix(a, i) == AfterPrefix(b, j) <==> a == b && i == j
  {
    if a == [] && b == [] {
      var s, t := AfterPrefix(a, i), AfterPrefix(b, j);
      if s == t { assert s[9..|s| - 1] == i && t[9..|t| - 1] == j; }
    } else if a == [] {
      NeverEntityAlone(b, i, j);
    } else if b == [] {
      NeverEntityAlone(a, j, i);
    } else {
      PartsTell(a[1..], b[1..], i, j);
      StartsWithColon(a[1..], i);
      StartsWithColon(b[1..], j);
      assert a[0] in a && b[0] in b;
      FirstPartTells(a[0], b[0], AfterPrefix(a[1..], i), AfterPrefix(b[1..], j));
      assert a == [a[0]] + a[1..] && b == [b[0]] + b[1..];
    }
  }

  lemma NeverEntityAlone(b: seq<string>, i: string, j: string)
    requires b != [] && forall x :: x in b ==> Simple(x)
    ensures AfterPrefix([], i) != AfterPrefix(b, j)
  {
    var s := ":{" + i + "}";
    StartsWithColon(b[1..], j);
    assert b[0] in b;
    assert AfterPrefix([], i) == ":" + "entity" + s;
    FirstPartTells("entity", b[0], s, AfterPrefix(b[1..], j));
    assert s[1] == '{';
  }

  /** The namespace of one builder reads like the version of another. */
  predicate Mistaken(b: KeyBuilder, c: KeyBuilder) {
    b.version == "" && c.namespace == "" && c.version != "" && b.namespace == "v" + c.version
  }

  /** Under one prefix, two builders share an entity's key exactly if they are the same, or one has no version and
      a namespace that reads like the other's version, and the other no namespace. */
  lemma KeysAreSharedIff(b: KeyBuilder, c: KeyBuilder, i: string, j: string)
    requires b.prefix == c.prefix && Simple(b.namespace) && Simple(b.version) && Simple(c.namespace) && Simple(c.version)
    ensures b.Entity(i) == c.Entity(j) <==> i == j && (b == c || Mistaken(b, c) || Mistaken(c, b))
  {
    EntityIs(b, i);
    EntityIs(c, j);
    SameTail(b.prefix, AfterPrefix(PartsOf(b), i), AfterPrefix(PartsOf(c), j));
    PartsTell(PartsOf(b), PartsOf(c), i, j);
    SamePartsIff(b, c);
  }

  lemma SamePartsIff(b: KeyBuilder, c: KeyBuilder)
    requires b.prefix == c.prefix
    ensures PartsOf(b) == PartsOf(c) <==> b == c || Mistaken(b, c) || Mistaken(c, b)
  {
    SameTail("v", b.version, c.version);
    if PartsOf(b) == PartsOf(c) && |PartsOf(b)| > 0 {
      assert PartsOf(b)[0] == PartsOf(c)[0];
      if |PartsOf(b)| > 1 { assert PartsOf(b)[1] == PartsOf(c)[1]; }
    }
  }
}
