/** The chained hash table of picocoin/hashtab.c:88-313 as a refinement of a finite map. The key
    comparison `equal_f` is any equivalence; it is given by `canon`, which sends equal keys, and only
    those, to the same value. `hash_f` must agree on equal keys. The table of
    a bucket array is the sequence of the entries that each of its linked chains carries. */
module HashTable {
  import opened Common
  import opened LinkedChains

  const INIT_TAB_SIZE := 11
  const MAX_BUCKET_SIZE := 3

  /** The two callbacks of a table. */
  datatype Keys<!K(!new), !C> = Keys(hash: K -> nat, canon: K -> C) {
    ghost predicate Compatible()
    {
      forall a, b :: canon(a) == canon(b) ==> hash(a) == hash(b)
    }
  }

  /** A small table grows by a larger factor. */
  function GrownSize(n: nat): (r: nat)
    requires n > 0
    ensures r > n
  {
    if n < 1024 then n * 10 - 1 else n * 2 - 1
  }

  // ----- what a table means -----

  /** The entry stored for the class c of the map. */
  ghost function EntryOf<K(!new), V, C>(f: Keys<K, C>, m: map<C, (K, V)>, c: C): Ent<K, V>
    requires c in m
  {
    Ent(f.hash(m[c].0), m[c].0, m[c].1)
  }

  /** Entry e of bucket b: it carries its key's hash, sits where the hash says and is what the map holds. */
  ghost predicate Belongs<K(!new), V, C>(f: Keys<K, C>, t: Table<K, V>, m: map<C, (K, V)>, b: nat, e: Ent<K, V>)
    requires |t| > 0
  {
    && e.hash == f.hash(e.key) && e.hash % |t| == b
    && f.canon(e.key) in m && m[f.canon(e.key)] == (e.key, e.value)
  }

  /** The table holds exactly the map: every entry belongs, no class twice, none missing. */
  ghost predicate Represents<K(!new), V, C(!new)>(f: Keys<K, C>, t: Table<K, V>, m: map<C, (K, V)>)
  {
    && |t| > 0
    && (forall b, i :: 0 <= b < |t| && 0 <= i < |t[b]| ==> Belongs(f, t, m, b, t[b][i]))
    && (forall b, i, j :: 0 <= b < |t| && 0 <= i < j < |t[b]| ==> f.canon(t[b][i].key) != f.canon(t[b][j].key))
    && (forall c :: c in m ==> Stored(f, t, m, c))
  }

  ghost predicate Stored<K(!new), V, C>(f: Keys<K, C>, t: Table<K, V>, m: map<C, (K, V)>, c: C)
    requires |t| > 0 && c in m
  {
    f.canon(m[c].0) == c && EntryOf(f, m, c) in t[f.hash(m[c].0) % |t|]
  }

  lemma EmptyTable<K(!new), V, C(!new)>(f: Keys<K, C>, t: Table<K, V>)
    requires |t| > 0 && forall b :: 0 <= b < |t| ==> t[b] == []
    ensures Represents(f, t, map[])
  {
  }

  function BucketOf<K(!new), V, C>(f: Keys<K, C>, t: Table<K, V>, key: K): (b: nat)
    requires |t| > 0
    ensures b < |t|
  {
    f.hash(key) % |t|
  }

  /** A class that is in the map has exactly one entry, in the bucket of any of its keys. */
  lemma FindInBucket<K(!new), V, C(!new)>(f: Keys<K, C>, t: Table<K, V>, m: map<C, (K, V)>, key: K) returns (i: nat)
    requires f.Compatible() && Represents(f, t, m) && f.canon(key) in m
    ensures var b := BucketOf(f, t, key);
            i < |t[b]| && t[b][i] == EntryOf(f, m, f.canon(key)) && f.canon(t[b][i].key) == f.canon(key)
  {
    var c := f.canon(key);
    assert Stored(f, t, m, c);
    assert f.hash(m[c].0) == f.hash(key);
    var b := BucketOf(f, t, key);
    i :| 0 <= i < |t[b]| && t[b][i] == EntryOf(f, m, c);
  }

  lemma NotInBucket<K(!new), V, C(!new)>(f: Keys<K, C>, t: Table<K, V>, m: map<C, (K, V)>, key: K)
    requires f.Compatible() && Represents(f, t, m)
    requires var chain := t[BucketOf(f, t, key)];
             forall k :: 0 <= k < |chain| ==> f.canon(chain[k].key) != f.canon(key)
    ensures f.canon(key) !in m
  {
    hide Represents;
    TableNotEmpty(f, t, m);
    if f.canon(key) in m {
      var i := FindInBucket(f, t, m, key);
    }
  }

  lemma FoundInMap<K(!new), V, C(!new)>(f: Keys<K, C>, t: Table<K, V>, m: map<C, (K, V)>, b: nat, i: nat)
    requires Represents(f, t, m) && b < |t| && i < |t[b]|
    ensures var e := t[b][i];
            && f.canon(e.key) in m && m[f.canon(e.key)] == (e.key, e.value)
            && e.hash == f.hash(e.key) && b == BucketOf(f, t, e.key)
            && e == EntryOf(f, m, f.canon(e.key))
  {
    assert Belongs(f, t, m, b, t[b][i]);
  }

  // ----- the four changes to a table -----

  /** A new entry at the head of its chain. */
  lemma PushFront<K(!new), V, C(!new)>(f: Keys<K, C>, t: Table<K, V>, m: map<C, (K, V)>, key: K, value: V)
    requires f.Compatible() && Represents(f, t, m) && f.canon(key) !in m
    ensures var b := BucketOf(f, t, key);
            Represents(f, t[b := [Ent(f.hash(key), key, value)] + t[b]], m[f.canon(key) := (key, value)])
  {
    var b, e := BucketOf(f, t, key), Ent(f.hash(key), key, value);
    var t', m' := t[b := [e] + t[b]], m[f.canon(key) := (key, value)];
    forall x, i | 0 <= x < |t'| && 0 <= i < |t'[x]|
      ensures Belongs(f, t', m', x, t'[x][i])
    {
      if x != b {
        assert Belongs(f, t, m, x, t[x][i]);
      } else if i > 0 {
        assert t'[b][i] == t[b][i - 1];
        assert Belongs(f, t, m, b, t[b][i - 1]);
      }
    }
    forall x, i, j | 0 <= x < |t'| && 0 <= i < j < |t'[x]|
      ensures f.canon(t'[x][i].key) != f.canon(t'[x][j].key)
    {
      if x == b {
        assert t'[b][j] == t[b][j - 1];
        assert Belongs(f, t, m, b, t[b][j - 1]);
        if i > 0 {
          assert t'[b][i] == t[b][i - 1];
        }
      }
    }
    forall c | c in m'
      ensures Stored(f, t', m', c)
    {
      if c != f.canon(key) {
        assert Stored(f, t, m, c);
      } else {
        assert t'[b][0] == e;
      }
    }
  }

  /** The entry of a known class is overwritten, key and value. */
  lemma Overwrite<K(!new), V, C(!new)>(f: Keys<K, C>, t: Table<K, V>, m: map<C, (K, V)>, i: nat, key: K, value: V)
    requires f.Compatible() && Represents(f, t, m)
    requires i < |t[BucketOf(f, t, key)]| && f.canon(t[BucketOf(f, t, key)][i].key) == f.canon(key)
    ensures var b := BucketOf(f, t, key);
            Represents(f, t[b := t[b][i := Ent(f.hash(key), key, value)]], m[f.canon(key) := (key, value)])
  {
    var b, e := BucketOf(f, t, key), Ent(f.hash(key), key, value);
    var t', m' := t[b := t[b][i := e]], m[f.canon(key) := (key, value)];
    forall x, k | 0 <= x < |t'| && 0 <= k < |t'[x]|
      ensures Belongs(f, t', m', x, t'[x][k])
    {
      if x != b || k != i {
        assert Belongs(f, t, m, x, t[x][k]);
      }
    }
    forall x, k, j | 0 <= x < |t'| && 0 <= k < j < |t'[x]|
      ensures f.canon(t'[x][k].key) != f.canon(t'[x][j].key)
    {
      assert f.canon(t[x][k].key) != f.canon(t[x][j].key);
    }
    forall c | c in m'
      ensures Stored(f, t', m', c)
    {
      if c == f.canon(key) {
        assert t'[b][i] == e;
      } else {
        assert Stored(f, t, m, c);
        if f.hash(m[c].0) % |t| == b {
          var k :| 0 <= k < |t[b]| && t[b][k] == EntryOf(f, m, c);
          assert t'[b][k] == t[b][k];
        }
      }
    }
  }

  /** The i-th entry of a bucket is unlinked. */
  lemma Unlink<K(!new), V, C(!new)>(f: Keys<K, C>, t: Table<K, V>, m: map<C, (K, V)>, b: nat, i: nat)
    requires f.Compatible() && Represents(f, t, m) && b < |t| && i < |t[b]|
    ensures Represents(f, t[b := t[b][..i] + t[b][i + 1..]], m - {f.canon(t[b][i].key)})
  {
    var t', m' := t[b := t[b][..i] + t[b][i + 1..]], m - {f.canon(t[b][i].key)};
    forall x, k | 0 <= x < |t'| && 0 <= k < |t'[x]|
      ensures Belongs(f, t', m', x, t'[x][k])
    {
      BelongsAfterUnlink(f, t, m, b, i, x, k);
    }
    forall x, k, j | 0 <= x < |t'| && 0 <= k < j < |t'[x]|
      ensures f.canon(t'[x][k].key) != f.canon(t'[x][j].key)
    {
      var k' := if x == b && k >= i then k + 1 else k;
      var j' := if x == b && j >= i then j + 1 else j;
      assert f.canon(t[x][k'].key) != f.canon(t[x][j'].key);
    }
    forall c | c in m'
      ensures Stored(f, t', m', c)
    {
      StoredAfterUnlink(f, t, m, b, i, c);
    }
  }

  lemma BelongsAfterUnlink<K(!new), V, C(!new)>(f: Keys<K, C>, t: Table<K, V>, m: map<C, (K, V)>, b: nat, i: nat, x: nat, k: nat)
    requires Represents(f, t, m) && b < |t| && i < |t[b]|
    requires var t' := t[b := t[b][..i] + t[b][i + 1..]]; x < |t'| && k < |t'[x]|
    ensures var t' := t[b := t[b][..i] + t[b][i + 1..]];
            Belongs(f, t', m - {f.canon(t[b][i].key)}, x, t'[x][k])
  {
    var t' := t[b := t[b][..i] + t[b][i + 1..]];
    var k' := if x == b && k >= i then k + 1 else k;
    assert t'[x][k] == t[x][k'];
    assert Belongs(f, t, m, x, t[x][k']);
    assert Belongs(f, t, m, b, t[b][i]);
    if x == b {
      assert f.canon(t[b][k'].key) != f.canon(t[b][i].key);
    }
  }

  lemma StoredAfterUnlink<K(!new), V, C(!new)>(f: Keys<K, C>, t: Table<K, V>, m: map<C, (K, V)>, b: nat, i: nat, c: C)
    requires Represents(f, t, m) && b < |t| && i < |t[b]| && c in m && c != f.canon(t[b][i].key)
    ensures Stored(f, t[b := t[b][..i] + t[b][i + 1..]], m - {f.canon(t[b][i].key)}, c)
  {
    var chain := t[b][..i] + t[b][i + 1..];
    assert Stored(f, t, m, c);
    if f.hash(m[c].0) % |t| == b {
      var k :| 0 <= k < |t[b]| && t[b][k] == EntryOf(f, m, c);
      assert k != i;
      assert chain[if k < i then k else k - 1] == t[b][k];
    }
  }

  // ----- visiting every entry once -----

  /** The walk over all buckets stands before entry p of bucket i and has met the class c. */
  ghost predicate Met<K(!new), V, C>(f: Keys<K, C>, t: Table<K, V>, i: nat, p: nat, c: C)
  {
    exists b, k :: 0 <= b < |t| && 0 <= k < |t[b]| && (b < i || (b == i && k < p)) && f.canon(t[b][k].key) == c
  }

  lemma MetNothing<K(!new), V, C(!new)>(f: Keys<K, C>, t: Table<K, V>)
    ensures forall c :: !Met(f, t, 0, 0, c)
  {
  }

  lemma MetNext<K(!new), V, C(!new)>(f: Keys<K, C>, t: Table<K, V>, m: map<C, (K, V)>, i: nat, p: nat)
    requires f.Compatible() && Represents(f, t, m) && i < |t| && p < |t[i]|
    ensures !Met(f, t, i, p, f.canon(t[i][p].key))
    ensures forall c :: Met(f, t, i, p + 1, c) <==> Met(f, t, i, p, c) || c == f.canon(t[i][p].key)
  {
    var here := f.canon(t[i][p].key);
    FoundInMap(f, t, m, i, p);
    forall b, k | 0 <= b < |t| && 0 <= k < |t[b]| && (b < i || (b == i && k < p))
      ensures f.canon(t[b][k].key) != here
    {
      FoundInMap(f, t, m, b, k);
    }
    forall c
      ensures Met(f, t, i, p + 1, c) <==> Met(f, t, i, p, c) || c == here
    {
      if Met(f, t, i, p, c) {
        var b, k :| 0 <= b < |t| && 0 <= k < |t[b]| && (b < i || (b == i && k < p)) && f.canon(t[b][k].key) == c;
        assert b < i || (b == i && k < p + 1);
      }
    }
  }

  lemma MetBucket<K(!new), V, C(!new)>(f: Keys<K, C>, t: Table<K, V>, i: nat)
    requires i < |t|
    ensures forall c :: Met(f, t, i, |t[i]|, c) <==> Met(f, t, i + 1, 0, c)
  {
    forall c
      ensures Met(f, t, i, |t[i]|, c) <==> Met(f, t, i + 1, 0, c)
    {
      if Met(f, t, i, |t[i]|, c) {
        var b, k :| 0 <= b < |t| && 0 <= k < |t[b]| && (b < i || (b == i && k < |t[i]|)) && f.canon(t[b][k].key) == c;
        assert b < i + 1;
      }
    }
  }

  lemma MetAll<K(!new), V, C(!new)>(f: Keys<K, C>, t: Table<K, V>, m: map<C, (K, V)>)
    requires f.Compatible() && Represents(f, t, m)
    ensures forall c :: Met(f, t, |t|, 0, c) <==> c in m
  {
    forall b, k | 0 <= b < |t| && 0 <= k < |t[b]|
      ensures f.canon(t[b][k].key) in m
    {
      FoundInMap(f, t, m, b, k);
    }
    forall c | c in m
      ensures Met(f, t, |t|, 0, c)
    {
      assert Stored(f, t, m, c);
      var i := FindInBucket(f, t, m, m[c].0);
      assert f.canon(t[BucketOf(f, t, m[c].0)][i].key) == c;
    }
  }

  // ----- relinking all entries into another table -----

  /** Pushing the entries of bucket i, from the p-th on, onto a table that holds what was met before. */
  lemma {:induction false} BucketPushed<K(!new), V, C(!new)>(f: Keys<K, C>, t: Table<K, V>, m: map<C, (K, V)>, i: nat, p: nat,
                                           start: Table<K, V>, moved: map<C, (K, V)>) returns (moved': map<C, (K, V)>)
    requires f.Compatible() && Represents(f, t, m) && i < |t| && p <= |t[i]|
    requires Represents(f, start, moved) && |start| > 0
    requires forall c :: c in moved <==> Met(f, t, i, p, c)
    requires forall c :: c in moved ==> c in m && moved[c] == m[c]
    ensures Represents(f, PushAll(start, t[i][p..]), moved')
    ensures forall c :: c in moved' <==> Met(f, t, i, |t[i]|, c)
    ensures forall c :: c in moved' ==> c in m && moved'[c] == m[c]
    decreases |t[i]| - p
  {
    hide Represents, Met, PushAll;
    var row := t[i];
    if p == |row| {
      moved' := moved;
      PushNone(start, row[p..]);
    } else {
      var e := row[p];
      MetNext(f, t, m, i, p);
      FoundInMap(f, t, m, i, p);
      PushFront(f, start, moved, e.key, e.value);
      moved' := BucketPushed(f, t, m, i, p + 1, Pushing(start, e), moved[f.canon(e.key) := (e.key, e.value)]);
      PushFirst(start, row[p..]);
      assert row[p..][1..] == row[p + 1..];
    }
  }

  lemma PushNone<K, V>(t: Table<K, V>, es: seq<Ent<K, V>>)
    requires |t| > 0 && es == []
    ensures PushAll(t, es) == t
  {
  }

  lemma PushFirst<K, V>(t: Table<K, V>, es: seq<Ent<K, V>>)
    requires |t| > 0 && es != []
    ensures PushAll(t, es) == PushAll(Pushing(t, es[0]), es[1..])
  {
    hide Pushing;
    var one := [es[0]];
    assert es == one + es[1..];
    PushAllConcat(t, one, es[1..]);
    assert one[..0] == [];
    assert PushAll(t, one) == Pushing(t, es[0]);
  }

  /** The same for the buckets before the i-th. */
  lemma {:induction false} BucketsPushed<K(!new), V, C(!new)>(f: Keys<K, C>, t: Table<K, V>, m: map<C, (K, V)>, i: nat,
                                            start: Table<K, V>) returns (moved: map<C, (K, V)>)
    requires f.Compatible() && Represents(f, t, m) && i <= |t|
    requires |start| > 0 && forall b :: 0 <= b < |start| ==> start[b] == []
    ensures Represents(f, PushAll(start, Flat(t[..i])), moved)
    ensures forall c :: c in moved <==> Met(f, t, i, 0, c)
    ensures forall c :: c in moved ==> c in m && moved[c] == m[c]
    decreases i
  {
    hide Represents, Met, PushAll, Flat;
    if i == 0 {
      moved := map[];
      EmptyTable(f, start);
      MetNothing(f, t);
      NothingFlat(start, t);
    } else {
      moved := BucketsPushed(f, t, m, i - 1, start);
      var pushed := PushAll(start, Flat(t[..i - 1]));
      moved := BucketPushed(f, t, m, i - 1, 0, pushed, moved);
      assert t[i - 1][0..] == t[i - 1];
      FlatNext(start, t, i - 1);
      MetBucket(f, t, i - 1);
    }
  }

  /** An empty table into which all entries were relinked holds the same map. */
  lemma Relinked<K(!new), V, C(!new)>(f: Keys<K, C>, t: Table<K, V>, m: map<C, (K, V)>, start: Table<K, V>)
    requires f.Compatible() && Represents(f, t, m)
    requires |start| > 0 && forall b :: 0 <= b < |start| ==> start[b] == []
    ensures Represents(f, PushAll(start, Flat(t)), m)
  {
    hide Represents, Met, PushAll, Flat;
    var moved := BucketsPushed(f, t, m, |t|, start);
    assert t[..|t|] == t;
    MetAll(f, t, m);
    assert moved == m;
  }

  // ----- the object -----

  class HashTab<K(!new), V, C(!new, ==)> {
    const f: Keys<K, C>
    var tab: Chains<K, V>
    var size: nat

    /** The finite map: for each class of equal keys, the key and the value put last. */
    ghost var contents: map<C, (K, V)>

    ghost function Repr(): set<object>
      reads this, tab
    {
      {this, tab, tab.heads} + tab.nodes
    }

    ghost predicate Valid()
      reads this, tab, tab.heads, tab.nodes
    {
      f.Compatible() && tab.Valid() && Represents(f, tab.table, contents) && size == |contents|
    }

    /** `bp_hashtab_new_ext`. */
    constructor (f: Keys<K, C>)
      requires f.Compatible()
      ensures Valid() && contents == map[] && fresh(Repr()) && |tab.table| == 11
      ensures this.f == f
    {
      hide Represents, Chains.Valid;
      this.f := f;
      var t := new Chains(INIT_TAB_SIZE);
      tab := t;
      size, contents := 0, map[];
      new;
      EmptyTable(f, tab.table);
    }

    /** `bp_hashtab_get_ent`: the entry for a key and the one before it in its chain, if there is one. */
    method GetEnt(key: K) returns (bucket: nat, prev: Node?<K, V>, ent: Node?<K, V>, ghost i: nat)
      requires Valid()
      ensures ent != null <==> f.canon(key) in contents
      ensures |tab.table| == |tab.chains| == tab.heads.Length > 0 && bucket == BucketOf(f, tab.table, key)
      ensures ent != null ==>
        && i < |tab.chains[bucket]| && i < |tab.table[bucket]| && ent == tab.chains[bucket][i]
        && ent.Entry() == tab.table[bucket][i] && ent in tab.nodes
        && prev == (if i == 0 then null else tab.chains[bucket][i - 1])
        && f.canon(tab.table[bucket][i].key) == f.canon(key)
    {
      hide Represents, Chains.Valid;
      TableNotEmpty(f, tab.table, contents);
      tab.TableSize();
      var hash := f.hash(key);
      bucket := hash % tab.heads.Length;
      tab.BucketSound(bucket);
      ghost var c, row := tab.chains[bucket], tab.table[bucket];
      prev, ent, i := null, tab.heads[bucket], 0;
      while ent != null
        invariant 0 <= i <= |c| && ent == At(c, i) && prev == if i == 0 then null else c[i - 1]
        invariant forall k :: 0 <= k < i ==> f.canon(row[k].key) != f.canon(key)
        decreases |c| - i
      {
        FoundInMap(f, tab.table, contents, bucket, i);
        assert c[i].Entry() == row[i];
        if ent.hash == hash && f.canon(ent.key) == f.canon(key) {
          return;
        }
        prev, ent, i := ent, ent.next, i + 1;
      }
      NotInBucket(f, tab.table, contents, key);
    }

    /** `bp_hashtab_get_ext`. */
    method Get(key: K) returns (r: Option<(K, V)>)
      requires Valid()
      ensures r == if f.canon(key) in contents then Some(contents[f.canon(key)]) else None
    {
      hide Represents, Distinct, Sound;
      var bucket, prev, ent, i := GetEnt(key);
      if ent == null {
        return None;
      }
      FoundInMap(f, tab.table, contents, bucket, i);
      r := Some((ent.key, ent.value));
    }

    /** `bp_hashtab_del`. */
    method Del(key: K) returns (ok: bool)
      requires Valid()
      modifies Repr()
      ensures Valid() && Repr() == old(Repr())
      ensures ok <==> f.canon(key) in old(contents)
      ensures contents == old(contents) - {f.canon(key)}
    {
      hide Represents, Chains.Valid;
      var bucket, prev, ent, i := GetEnt(key);
      if ent == null {
        AbsentKey(contents, f.canon(key));
        return false;
      }
      RemoveEntry(f, tab.table, contents, bucket, i);
      tab.Unlink(bucket, prev, ent, i);
      contents := contents - {f.canon(key)};
      size := size - 1;
      return true;
    }

    /** `bp_hashtab_clear`. */
    method Clear()
      requires Valid()
      modifies this
      ensures Valid() && contents == map[] && fresh(Repr() - {this}) && |tab.table| == 11
    {
      hide Represents, Chains.Valid;
      tab := new Chains(INIT_TAB_SIZE);
      size, contents := 0, map[];
      EmptyTable(f, tab.table);
    }

    /** `bp_hashtab_put`; `canGrow` says whether the allocation of a larger table would succeed. */
    method Put(key: K, value: V, canGrow: bool)
      requires Valid()
      modifies Repr()
      ensures Valid() && fresh(Repr() - old(Repr()))
      ensures contents == old(contents)[f.canon(key) := (key, value)]
      ensures old(|tab.table|) > 0
      ensures var chain := old(tab.table[BucketOf(f, tab.table, key)]);
              var grows := canGrow && f.canon(key) !in old(contents) && |chain| >= 3;
              var n := old(|tab.table|);
              && |tab.table| == (if !grows then n else if n < 1024 then 10 * n - 1 else 2 * n - 1)
              && (tab == old(tab) <==> !grows)
    {
      hide Represents, Chains.Valid;
      var bucket, prev, ent, i := GetEnt(key);
      if ent != null {
        ReplaceEntry(f, tab.table, contents, i, key, value);
        tab.Overwrite(ent, key, value, bucket, i);
        contents := contents[f.canon(key) := (key, value)];
        return;
      }
      PushFront(f, tab.table, contents, key, value);
      tab.Push(bucket, f.hash(key), key, value);
      contents := contents[f.canon(key) := (key, value)];
      size := size + 1;
      var count := tab.Count(bucket);
      if count > MAX_BUCKET_SIZE {
        Grow(canGrow);
      }
    }

    /** `bp_hashtab_grow`: every entry moves to the head of its new chain. */
    method Grow(canGrow: bool)
      requires Valid()
      modifies this`tab, tab.heads, tab.nodes`next
      ensures Valid() && fresh(Repr() - old(Repr())) && old(|tab.table|) > 0
      ensures var n := old(|tab.table|);
              |tab.table| == (if !canGrow then n else if n < 1024 then 10 * n - 1 else 2 * n - 1)
      ensures tab == old(tab) <==> !canGrow
    {
      hide Represents, Distinct, Sound, PushAll, Flat;
      TableNotEmpty(f, tab.table, contents);
      if !canGrow {
        return;
      }
      var larger := new Chains<K, V>(GrownSize(tab.heads.Length));
      ghost var start := larger.table;
      Relinked(f, tab.table, contents, start);
      larger.TakeAll(tab);
      tab := larger;
    }

    /** `bp_hashtab_iter`: the keys and values handed to the callback, in order. */
    method Iter() returns (visited: seq<(K, V)>)
      requires Valid()
      ensures |visited| == size
      ensures forall i, j :: 0 <= i < j < |visited| ==> f.canon(visited[i].0) != f.canon(visited[j].0)
      ensures forall i :: 0 <= i < |visited| ==>
                f.canon(visited[i].0) in contents && visited[i] == contents[f.canon(visited[i].0)]
      ensures forall c :: c in contents ==> exists i :: 0 <= i < |visited| && f.canon(visited[i].0) == c
    {
      hide Represents, Met, Visited, Distinct, Sound;
      visited := [];
      ghost var seen: set<C> := {};
      ghost var t := tab.table;
      TableNotEmpty(f, t, contents);
      MetNothing(f, t);
      VisitNone(f, contents);
      for bucket := 0 to tab.heads.Length
        invariant Visited(f, contents, visited, seen)
        invariant forall c :: c in seen <==> Met(f, t, bucket, 0, c)
      {
        visited, seen := IterBucket(bucket, visited, seen);
        MetBucket(f, t, bucket);
      }
      MetAll(f, t, contents);
      assert seen == contents.Keys;
      VisitedAll(f, contents, visited);
    }

    /** The inner loop of `bp_hashtab_iter`: one chain. */
    method IterBucket(bucket: nat, visited: seq<(K, V)>, ghost seen: set<C>) returns (visited': seq<(K, V)>, ghost seen': set<C>)
      requires Valid() && bucket < tab.heads.Length && bucket < |tab.table|
      requires Visited(f, contents, visited, seen) && forall c :: c in seen <==> Met(f, tab.table, bucket, 0, c)
      ensures Visited(f, contents, visited', seen')
      ensures forall c :: c in seen' <==> Met(f, tab.table, bucket, |tab.table[bucket]|, c)
    {
      hide Represents, Met, Visited, Chains.Valid;
      tab.BucketSound(bucket);
      ghost var t, c, row := tab.table, tab.chains[bucket], tab.table[bucket];
      visited', seen' := visited, seen;
      var ent := tab.heads[bucket];
      ghost var p := 0;
      while ent != null
        invariant 0 <= p <= |c| && ent == At(c, p)
        invariant Visited(f, contents, visited', seen')
        invariant forall c :: c in seen' <==> Met(f, t, bucket, p, c)
        decreases |c| - p
      {
        MetNext(f, t, contents, bucket, p);
        FoundInMap(f, t, contents, bucket, p);
        assert c[p].Entry() == row[p];
        VisitNext(f, contents, visited', seen', (ent.key, ent.value));
        visited' := visited' + [(ent.key, ent.value)];
        seen' := seen' + {f.canon(ent.key)};
        ent := ent.next;
        p := p + 1;
      }
    }
  }

  lemma AbsentKey<C, W>(m: map<C, W>, c: C)
    requires c !in m
    ensures m - {c} == m
  {
  }

  /** Removing an entry: the map, and how many keys it has. */
  lemma RemoveEntry<K(!new), V, C(!new)>(f: Keys<K, C>, t: Table<K, V>, m: map<C, (K, V)>, b: nat, i: nat)
    requires f.Compatible() && Represents(f, t, m) && b < |t| && i < |t[b]|
    ensures Represents(f, t[b := t[b][..i] + t[b][i + 1..]], m - {f.canon(t[b][i].key)})
    ensures |m - {f.canon(t[b][i].key)}| == |m| - 1
  {
    hide Represents;
    Unlink(f, t, m, b, i);
    FoundInMap(f, t, m, b, i);
    assert (m - {f.canon(t[b][i].key)}).Keys == m.Keys - {f.canon(t[b][i].key)};
  }

  /** Overwriting an entry: the hash stays, and so does the number of keys. */
  lemma ReplaceEntry<K(!new), V, C(!new)>(f: Keys<K, C>, t: Table<K, V>, m: map<C, (K, V)>, i: nat, key: K, value: V)
    requires f.Compatible() && Represents(f, t, m) && |t| > 0
    requires i < |t[BucketOf(f, t, key)]| && f.canon(t[BucketOf(f, t, key)][i].key) == f.canon(key)
    ensures var b := BucketOf(f, t, key);
            Represents(f, t[b := t[b][i := Ent(t[b][i].hash, key, value)]], m[f.canon(key) := (key, value)])
    ensures |m[f.canon(key) := (key, value)]| == |m|
  {
    hide Represents;
    var b := BucketOf(f, t, key);
    Overwrite(f, t, m, i, key, value);
    FoundInMap(f, t, m, b, i);
    assert m[f.canon(key) := (key, value)].Keys == m.Keys;
  }

  lemma TableNotEmpty<K(!new), V, C(!new)>(f: Keys<K, C>, t: Table<K, V>, m: map<C, (K, V)>)
    requires Represents(f, t, m)
    ensures |t| > 0
  {
  }

  /** The visited pairs are entries of the map, one for each class seen. */
  ghost predicate Visited<K(!new), V, C(!new)>(f: Keys<K, C>, m: map<C, (K, V)>, visited: seq<(K, V)>, seen: set<C>)
  {
    && |visited| == |seen|
    && (forall i, j :: 0 <= i < j < |visited| ==> f.canon(visited[i].0) != f.canon(visited[j].0))
    && (forall i :: 0 <= i < |visited| ==>
          f.canon(visited[i].0) in seen && f.canon(visited[i].0) in m && visited[i] == m[f.canon(visited[i].0)])
    && (forall c :: c in seen ==> exists i :: 0 <= i < |visited| && f.canon(visited[i].0) == c)
  }

  lemma VisitNone<K(!new), V, C(!new)>(f: Keys<K, C>, m: map<C, (K, V)>)
    ensures Visited(f, m, [], {})
  {
  }

  lemma VisitNext<K(!new), V, C(!new)>(f: Keys<K, C>, m: map<C, (K, V)>, visited: seq<(K, V)>, seen: set<C>, e: (K, V))
    requires Visited(f, m, visited, seen)
    requires f.canon(e.0) !in seen && f.canon(e.0) in m && m[f.canon(e.0)] == e
    ensures Visited(f, m, visited + [e], seen + {f.canon(e.0)})
  {
    var v, s := visited + [e], seen + {f.canon(e.0)};
    forall c | c in s
      ensures exists i :: 0 <= i < |v| && f.canon(v[i].0) == c
    {
      if c in seen {
        var i :| 0 <= i < |visited| && f.canon(visited[i].0) == c;
        assert v[i] == visited[i];
      } else {
        assert v[|visited|] == e;
      }
    }
  }

  lemma VisitedAll<K(!new), V, C(!new)>(f: Keys<K, C>, m: map<C, (K, V)>, visited: seq<(K, V)>)
    requires Visited(f, m, visited, m.Keys)
    ensures |visited| == |m|
    ensures forall i, j :: 0 <= i < j < |visited| ==> f.canon(visited[i].0) != f.canon(visited[j].0)
    ensures forall i :: 0 <= i < |visited| ==> f.canon(visited[i].0) in m && visited[i] == m[f.canon(visited[i].0)]
    ensures forall c :: c in m ==> exists i :: 0 <= i < |visited| && f.canon(visited[i].0) == c
  {
  }

  // ----- any sequence of operations -----

  datatype Op<K, V> = Put(key: K, value: V) | Get(key: K) | Del(key: K) | Clear

  /** What an operation answers: the entry found by a get, whether a delete removed something. */
  datatype Answer<K, V> = Done | Found(entry: Option<(K, V)>) | Deleted(ok: bool)

  function MapAfter<K(!new), V, C(==)>(f: Keys<K, C>, m: map<C, (K, V)>, op: Op<K, V>): map<C, (K, V)>
  {
    match op
    case Put(key, value) => m[f.canon(key) := (key, value)]
    case Get(_) => m
    case Del(key) => m - {f.canon(key)}
    case Clear => map[]
  }

  function AnswerOf<K(!new), V, C(==)>(f: Keys<K, C>, m: map<C, (K, V)>, op: Op<K, V>): Answer<K, V>
  {
    match op
    case Put(_, _) => Done
    case Get(key) => Found(if f.canon(key) in m then Some(m[f.canon(key)]) else None)
    case Del(key) => Deleted(f.canon(key) in m)
    case Clear => Done
  }

  function MapRun<K(!new), V, C(==)>(f: Keys<K, C>, m: map<C, (K, V)>, ops: seq<Op<K, V>>): map<C, (K, V)>
  {
    if ops == [] then m else MapAfter(f, MapRun(f, m, ops[..|ops| - 1]), ops[|ops| - 1])
  }

  function MapAnswers<K(!new), V, C(==)>(f: Keys<K, C>, m: map<C, (K, V)>, ops: seq<Op<K, V>>): seq<Answer<K, V>>
  {
    if ops == [] then [] else
      var init := ops[..|ops| - 1];
      MapAnswers(f, m, init) + [AnswerOf(f, MapRun(f, m, init), ops[|ops| - 1])]
  }

  /** One operation. */
  method Operate<K(!new), V, C(!new, ==)>(h: HashTab<K, V, C>, op: Op<K, V>, canGrow: bool) returns (answer: Answer<K, V>)
    requires h.Valid()
    modifies h.Repr()
    ensures h.Valid() && fresh(h.Repr() - old(h.Repr()))
    ensures h.contents == MapAfter(h.f, old(h.contents), op)
    ensures answer == AnswerOf(h.f, old(h.contents), op)
  {
    hide HashTab.Valid;
    match op
    case Put(key, value) =>
      h.Put(key, value, canGrow);
      answer := Done;
    case Get(key) =>
      var r := h.Get(key);
      answer := Found(r);
    case Del(key) =>
      var ok := h.Del(key);
      answer := Deleted(ok);
    case Clear =>
      h.Clear();
      answer := Done;
  }

  /** Whatever the operations and whichever growth attempts fail, the table answers as the map does. */
  method Perform<K(!new), V, C(!new, ==)>(h: HashTab<K, V, C>, ops: seq<Op<K, V>>, canGrow: nat -> bool)
    returns (answers: seq<Answer<K, V>>)
    requires h.Valid()
    modifies h.Repr()
    ensures h.Valid()
    ensures h.contents == MapRun(h.f, old(h.contents), ops)
    ensures answers == MapAnswers(h.f, old(h.contents), ops)
  {
    hide HashTab.Valid, MapAfter, AnswerOf;
    answers := [];
    for i := 0 to |ops|
      invariant h.Valid() && fresh(h.Repr() - old(h.Repr()))
      invariant h.contents == MapRun(h.f, old(h.contents), ops[..i])
      invariant answers == MapAnswers(h.f, old(h.contents), ops[..i])
    {
      assert ops[..i + 1][..i] == ops[..i];
      var answer := Operate(h, ops[i], canGrow(i));
      answers := answers + [answer];
    }
    assert ops[..|ops|] == ops;
  }
}
