/** The buckets of picocoin/hashtab.c: an array of singly linked entries that are pushed, overwritten,
    unlinked through their predecessor and relinked into a larger array, all in place. Each change is
    described by what it does to the sequences of entries that the chains hold. */
module LinkedChains {
  import opened Common

  datatype Ent<K, V> = Ent(hash: nat, key: K, value: V)

  type Table<K, V> = seq<seq<Ent<K, V>>>

  /** `struct bp_ht_ent`. */
  class Node<K, V> {
    var hash: nat
    var key: K
    var value: V
    var next: Node?<K, V>

    constructor (hash: nat, key: K, value: V, next: Node?<K, V>)
      ensures this.hash == hash && this.key == key && this.value == value && this.next == next
    {
      this.hash, this.key, this.value, this.next := hash, key, value, next;
    }

    function Entry(): Ent<K, V>
      reads this`hash, this`key, this`value
    {
      Ent(hash, key, value)
    }
  }

  /** The i-th element, or null behind the end. */
  ghost function At<K, V>(c: seq<Node<K, V>>, i: nat): Node?<K, V>
  {
    if i < |c| then c[i] else null
  }

  /** From `head` on, the links run through the nodes of c and end. */
  ghost predicate IsChain<K, V>(head: Node?<K, V>, c: seq<Node<K, V>>)
    reads (set n | n in c)`next
  {
    head == At(c, 0) && forall i :: 0 <= i < |c| ==> c[i].next == At(c, i + 1)
  }

  /** The nodes of c carry the entries es. */
  ghost predicate Carries<K, V>(c: seq<Node<K, V>>, es: seq<Ent<K, V>>)
    reads (set n | n in c)`hash, (set n | n in c)`key, (set n | n in c)`value
  {
    |c| == |es| && forall i :: 0 <= i < |c| ==> c[i].Entry() == es[i]
  }

  /** No node is in two places. */
  ghost predicate Distinct<K, V>(chains: seq<seq<Node<K, V>>>)
  {
    forall b, i, d, j :: 0 <= b < |chains| && 0 <= i < |chains[b]| && 0 <= d < |chains| && 0 <= j < |chains[d]| ==>
      chains[b][i] == chains[d][j] ==> b == d && i == j
  }

  ghost predicate Within<K, V>(c: seq<Node<K, V>>, nodes: set<Node<K, V>>)
  {
    forall i :: 0 <= i < |c| ==> c[i] in nodes
  }

  /** A chain from `head` through nodes of the given set, carrying the entries es. */
  ghost predicate Sound<K, V>(head: Node?<K, V>, c: seq<Node<K, V>>, es: seq<Ent<K, V>>, nodes: set<Node<K, V>>)
    reads set n | n in c
  {
    Within(c, nodes) && IsChain(head, c) && Carries(c, es)
  }

  // ----- changing one chain -----

  lemma DistinctPush<K, V>(chains: seq<seq<Node<K, V>>>, nodes: set<Node<K, V>>, b: nat, n: Node<K, V>)
    requires Distinct(chains) && b < |chains| && n !in nodes
    requires forall d :: 0 <= d < |chains| ==> Within(chains[d], nodes)
    ensures Distinct(chains[b := [n] + chains[b]])
  {
    var after := chains[b := [n] + chains[b]];
    forall a, i, d, j | 0 <= a < |after| && 0 <= i < |after[a]| && 0 <= d < |after| && 0 <= j < |after[d]| && after[a][i] == after[d][j]
      ensures a == d && i == j
    {
      var i', j' := if a == b then i - 1 else i, if d == b then j - 1 else j;
      assert i' >= 0 ==> after[a][i] == chains[a][i'] && chains[a][i'] in nodes;
      assert j' >= 0 ==> after[d][j] == chains[d][j'] && chains[d][j'] in nodes;
    }
  }

  lemma DistinctCut<K, V>(chains: seq<seq<Node<K, V>>>, b: nat, i: nat)
    requires Distinct(chains) && b < |chains| && i < |chains[b]|
    ensures Distinct(chains[b := chains[b][..i] + chains[b][i + 1..]])
  {
    var after := chains[b := chains[b][..i] + chains[b][i + 1..]];
    forall a, k, d, j | 0 <= a < |after| && 0 <= k < |after[a]| && 0 <= d < |after| && 0 <= j < |after[d]| && after[a][k] == after[d][j]
      ensures a == d && k == j
    {
      var k', j' := if a == b && k >= i then k + 1 else k, if d == b && j >= i then j + 1 else j;
      assert after[a][k] == chains[a][k'] && after[d][j] == chains[d][j'];
    }
  }

  // ----- the buckets -----

  class Chains<K, V> {
    const heads: array<Node?<K, V>>

    /** The nodes of each chain, and the entries they carry. */
    ghost var chains: seq<seq<Node<K, V>>>
    ghost var table: Table<K, V>
    ghost var nodes: set<Node<K, V>>

    ghost predicate Valid()
      reads this, heads, nodes
    {
      && |chains| == |table| == heads.Length
      && (forall b :: 0 <= b < heads.Length ==>
            Within(chains[b], nodes) && Sound(heads[b], chains[b], table[b], nodes))
      && Distinct(chains)
    }

    /** `calloc`: all chains are empty. */
    constructor (size: nat)
      ensures Valid() && fresh(heads) && heads.Length == size && nodes == {}
      ensures |table| == size && forall b :: 0 <= b < size ==> table[b] == []
    {
      heads := new Node?<K, V>[size](_ => null);
      chains, table, nodes := seq(size, _ => []), seq(size, _ => []), {};
    }

    /** A new node at the head of a chain. */
    method Push(b: nat, hash: nat, key: K, value: V)
      requires Valid() && b < heads.Length
      modifies this, heads
      ensures Valid() && fresh(nodes - old(nodes)) && old(nodes) <= nodes
      ensures table == old(table)[b := [Ent(hash, key, value)] + old(table)[b]]
    {
      var n := new Node(hash, key, value, heads[b]);
      Link(n, b);
    }

    /** A node whose link already leads to the chain becomes its head. */
    method Link(n: Node<K, V>, b: nat)
      requires Valid() && b < heads.Length && n !in nodes && n.next == heads[b]
      modifies this, heads
      ensures Valid() && nodes == old(nodes) + {n}
      ensures table == old(table)[b := [n.Entry()] + old(table)[b]]
    {
      hide IsChain, Carries, Distinct;
      DistinctPush(chains, nodes, b, n);
      Pushed(n, heads[b], chains[b], table[b]);
      heads[b] := n;
      chains := chains[b := [n] + chains[b]];
      table := table[b := [n.Entry()] + table[b]];
      nodes := nodes + {n};
    }

    /** The node behind `prev`, or the head, is taken out: its predecessor is linked to its successor. */
    method Unlink(b: nat, prev: Node?<K, V>, n: Node<K, V>, ghost i: nat)
      requires Valid() && b < heads.Length && i < |chains[b]| && n == chains[b][i]
      requires prev == if i == 0 then null else chains[b][i - 1]
      modifies this`chains, this`table, heads, nodes`next
      ensures Valid() && i < |old(table)[b]|
      ensures table == old(table)[b := old(table)[b][..i] + old(table)[b][i + 1..]]
    {
      hide Sound, Distinct;
      assert |table[b]| == |chains[b]| by { SoundLength(heads[b], chains[b], table[b], nodes); }
      SkipNode(b, prev, n, i);
      DistinctCut(chains, b, i);
      chains := chains[b := chains[b][..i] + chains[b][i + 1..]];
      table := table[b := table[b][..i] + table[b][i + 1..]];
    }

    /** The two assignments of `bp_hashtab_del`; the other chains are left alone. */
    method SkipNode(b: nat, prev: Node?<K, V>, n: Node<K, V>, ghost i: nat)
      requires Valid() && b < heads.Length && i < |chains[b]| && i < |table[b]| && n == chains[b][i]
      requires prev == if i == 0 then null else chains[b][i - 1]
      modifies heads, nodes`next
      ensures forall d :: 0 <= d < heads.Length && d != b ==> Sound(heads[d], chains[d], table[d], nodes)
      ensures Sound(heads[b], chains[b][..i] + chains[b][i + 1..], table[b][..i] + table[b][i + 1..], nodes)
    {
      hide Distinct;
      if prev == null {
        assert Sound(heads[b], chains[b], table[b], nodes);
        heads[b] := n.next;
        Unlinked(heads[b], chains[b], i, table[b], nodes);
      } else {
        SkipBehind(b, prev, n, i);
      }
    }

    method SkipBehind(b: nat, prev: Node<K, V>, n: Node<K, V>, ghost i: nat)
      requires Valid() && b < heads.Length && 0 < i < |chains[b]| && i < |table[b]| && n == chains[b][i]
      requires prev == chains[b][i - 1]
      modifies nodes`next
      ensures forall d :: 0 <= d < heads.Length && d != b ==> Sound(heads[d], chains[d], table[d], nodes)
      ensures Sound(heads[b], chains[b][..i] + chains[b][i + 1..], table[b][..i] + table[b][i + 1..], nodes)
    {
      hide Distinct, Carries;
      assert Sound(heads[b], chains[b], table[b], nodes);
      ghost var c, head, row := chains[b], heads[b], table[b];
      OnlyThere(chains, b, i - 1);
      prev.next := n.next;
      Unlinked(head, c, i, row, nodes);
    }

    /** Key and value of a node are overwritten. */
    method Overwrite(n: Node<K, V>, key: K, value: V, ghost b: nat, ghost i: nat)
      requires Valid() && b < heads.Length && i < |chains[b]| && n == chains[b][i]
      modifies this`table, nodes`key, nodes`value
      ensures Valid() && i < |old(table)[b]|
      ensures table == old(table)[b := old(table)[b][i := Ent(old(table)[b][i].hash, key, value)]]
    {
      hide Distinct, IsChain;
      assert Sound(heads[b], chains[b], table[b], nodes);
      OnlyThere(chains, b, i);
      n.key, n.value := key, value;
      table := table[b := table[b][i := Ent(table[b][i].hash, key, value)]];
    }

    /** The length of a chain. */
    method Count(b: nat) returns (count: nat)
      requires Valid() && b < heads.Length && b < |table|
      ensures count == |table[b]|
    {
      hide Distinct;
      ghost var c := chains[b];
      assert Sound(heads[b], c, table[b], nodes);
      var n := heads[b];
      count := 0;
      while n != null
        invariant 0 <= count <= |c| && n == At(c, count)
        decreases |c| - count
      {
        count := count + 1;
        n := n.next;
      }
    }

    /** A node from elsewhere becomes the head of the chain its hash belongs to. */
    method Adopt(n: Node<K, V>)
      requires Valid() && heads.Length > 0 && n !in nodes
      modifies this, heads, n`next
      ensures Valid() && nodes == old(nodes) + {n}
      ensures |old(table)| > 0 && table == Pushing(old(table), n.Entry())
    {
      hide IsChain, Carries, Distinct;
      var b := n.hash % heads.Length;
      n.next := heads[b];
      Link(n, b);
    }

    /** The inner loop of `bp_hashtab_grow`: the nodes of a chain are relinked one after the other. */
    method TakeChain(head: Node?<K, V>, ghost c: seq<Node<K, V>>, ghost es: seq<Ent<K, V>>)
      requires Valid() && heads.Length > 0
      requires IsChain(head, c) && Carries(c, es) && Apart(c) && Outside(c, 0, nodes)
      modifies this, heads, (set n | n in c)`next
      ensures Valid() && forall n :: n in nodes ==> n in old(nodes) || n in c
      ensures |old(table)| > 0 && table == PushAll(old(table), es)
    {
      hide Distinct, Sound, Carries, Apart, Outside, LinkedFrom, PushAll, Valid;
      var iter := head;
      ghost var p := 0;
      ghost var start := table;
      StartOfChain(head, c, start, es);
      TableSize();
      while iter != null
        invariant 0 <= p <= |c| && iter == At(c, p) && LinkedFrom(c, p)
        invariant Valid() && Outside(c, p, nodes) && forall n :: n in nodes ==> n in old(nodes) || n in c
        invariant Carries(c, es) && p <= |es| && |start| > 0 && table == PushAll(start, es[..p])
        decreases |c| - p
      {
        var n := iter;
        NextInChain(c, p);
        iter := iter.next;
        TakeNode(n, c, es, p, start);
        p := p + 1;
      }
      CarriesAll(c, es);
      assert es[..p] == es;
    }

    method TakeNode(n: Node<K, V>, ghost c: seq<Node<K, V>>, ghost es: seq<Ent<K, V>>, ghost p: nat, ghost start: Table<K, V>)
      requires Valid() && heads.Length > 0 && p < |c| && n == c[p]
      requires LinkedFrom(c, p) && Outside(c, p, nodes) && Apart(c) && Carries(c, es)
      requires p <= |es| && |start| > 0 && table == PushAll(start, es[..p])
      modifies this, heads, n`next
      ensures Valid() && nodes == old(nodes) + {n}
      ensures LinkedFrom(c, p + 1) && Outside(c, p + 1, nodes)
      ensures p < |es| && table == PushAll(start, es[..p + 1])
    {
      hide Distinct, Sound, Carries, Pushing, Valid;
      RestOfChain(c, es, p);
      Adopt(n);
    }

    lemma TableSize()
      requires Valid()
      ensures |table| == heads.Length
    {
    }

    /** One bucket of another table is relinked and cleared; the buckets behind it are left alone. */
    method TakeBucket(from: Chains<K, V>, i: nat, ghost all: seq<seq<Node<K, V>>>, ghost rows: Table<K, V>)
      requires Valid() && heads.Length > 0 && from != this && from.heads != heads
      requires |all| == |rows| == from.heads.Length && i < from.heads.Length && Distinct(all)
      requires Waiting(from.heads[..], all, rows, from.nodes, nodes, i)
      modifies this, heads, from.heads, (set n | n in all[i])`next
      ensures Valid() && forall n :: n in nodes ==> n in old(nodes) || n in all[i]
      ensures |old(table)| > 0 && table == PushAll(old(table), rows[i])
      ensures Waiting(from.heads[..], all, rows, from.nodes, nodes, i + 1)
    {
      hide Distinct, Valid, PushAll, IsChain, Carries, Within;
      assert Sound(from.heads[..][i], all[i], rows[i], from.nodes);
      ApartInside(all, i);
      TakeChain(from.heads[i], all[i], rows[i]);
      from.heads[i] := null;
      forall b | i < b < |all|
        ensures Outside(all[b], 0, nodes) && Sound(from.heads[..][b], all[b], rows[b], from.nodes)
      {
        assert old(Sound(from.heads[..][b], all[b], rows[b], from.nodes));
        assert Outside(all[b], 0, old(nodes));
        ApartFrom(all, i, b);
      }
    }

    /** The outer loop of `bp_hashtab_grow`: every bucket of the old table is relinked and cleared. */
    method TakeAll(from: Chains<K, V>)
      requires Valid() && from.Valid() && heads.Length > 0 && from != this && from.heads != heads && nodes == {}
      modifies this, heads, from.heads, from.nodes`next
      ensures Valid() && forall n :: n in nodes ==> n in from.nodes
      ensures |old(table)| > 0 && table == PushAll(old(table), Flat(from.table))
    {
      hide Distinct, Valid, PushAll, Flat, Waiting;
      ghost var all, rows, start := from.chains, from.table, table;
      from.AllWait();
      TableSize();
      NothingFlat(start, rows);
      for i := 0 to from.heads.Length
        invariant Valid() && |start| > 0 && from.chains == all && from.table == rows
        invariant forall n :: n in nodes ==> n in from.nodes
        invariant Waiting(from.heads[..], all, rows, from.nodes, nodes, i)
        invariant table == PushAll(start, Flat(rows[..i]))
      {
        TakeBucket(from, i, all, rows);
        FlatNext(start, rows, i);
      }
      assert rows[..|rows|] == rows;
    }

    lemma BucketSound(b: nat)
      requires Valid() && b < heads.Length
      ensures |chains| == |table| == heads.Length && Within(chains[b], nodes)
      ensures Sound(heads[b], chains[b], table[b], nodes)
    {
      hide Distinct;
    }

    lemma AllWait()
      requires Valid()
      ensures |chains| == |table| == heads.Length && Distinct(chains)
      ensures Waiting(heads[..], chains, table, nodes, {}, 0)
      ensures forall b :: 0 <= b < |chains| ==> forall n :: n in chains[b] ==> n in nodes
    {
      hide Distinct, IsChain, Carries;
      assert forall b :: 0 <= b < |chains| ==> Sound(heads[b], chains[b], table[b], nodes);
    }
  }

  /** From bucket i on, the chains are intact and have nothing in common with the nodes taken. */
  ghost predicate Waiting<K, V>(heads: seq<Node?<K, V>>, all: seq<seq<Node<K, V>>>, rows: Table<K, V>,
                                nodes: set<Node<K, V>>, taken: set<Node<K, V>>, i: nat)
    reads set b, k | 0 <= b < |all| && 0 <= k < |all[b]| :: all[b][k]
  {
    && |heads| == |all| == |rows|
    && forall b :: i <= b < |all| ==> Outside(all[b], 0, taken) && Sound(heads[b], all[b], rows[b], nodes)
  }

  lemma ApartInside<K, V>(all: seq<seq<Node<K, V>>>, b: nat)
    requires Distinct(all) && b < |all|
    ensures Apart(all[b])
  {
  }

  lemma ApartFrom<K, V>(all: seq<seq<Node<K, V>>>, b: nat, d: nat)
    requires Distinct(all) && b < |all| && d < |all| && b != d
    ensures forall n :: n in all[b] ==> n !in all[d]
  {
  }

  lemma NothingFlat<K, V>(t: Table<K, V>, rows: Table<K, V>)
    ensures |t| > 0 ==> t == PushAll(t, Flat(rows[..0]))
  {
  }

  lemma FlatNext<K, V>(t: Table<K, V>, rows: Table<K, V>, i: nat)
    requires |t| > 0 && i < |rows|
    ensures PushAll(t, Flat(rows[..i + 1])) == PushAll(PushAll(t, Flat(rows[..i])), rows[i])
  {
    hide PushAll;
    assert rows[..i + 1][..i] == rows[..i];
    PushAllConcat(t, Flat(rows[..i]), rows[i]);
  }

  /** The entries of all buckets, in the order in which they are walked. */
  function Flat<K, V>(t: Table<K, V>): seq<Ent<K, V>>
  {
    if t == [] then [] else Flat(t[..|t| - 1]) + t[|t| - 1]
  }

  lemma {:induction false} PushAllConcat<K, V>(t: Table<K, V>, a: seq<Ent<K, V>>, b: seq<Ent<K, V>>)
    requires |t| > 0
    ensures PushAll(t, a + b) == PushAll(PushAll(t, a), b)
    decreases |b|
  {
    hide Pushing;
    if b == [] {
      assert a + b == a;
    } else {
      assert (a + b)[..|a + b| - 1] == a + b[..|b| - 1];
      PushAllConcat(t, a, b[..|b| - 1]);
    }
  }

  lemma StartOfChain<K, V>(head: Node?<K, V>, c: seq<Node<K, V>>, start: Table<K, V>, es: seq<Ent<K, V>>)
    requires IsChain(head, c)
    ensures LinkedFrom(c, 0) && (|start| > 0 ==> start == PushAll(start, es[..0]))
  {
  }

  lemma NextInChain<K, V>(c: seq<Node<K, V>>, p: nat)
    requires p < |c| && LinkedFrom(c, p)
    ensures c[p].next == At(c, p + 1)
  {
  }

  ghost predicate LinkedFrom<K, V>(c: seq<Node<K, V>>, p: nat)
    reads (set n | n in c)`next
  {
    forall k :: p <= k < |c| ==> c[k].next == At(c, k + 1)
  }

  ghost predicate Outside<K, V>(c: seq<Node<K, V>>, p: nat, nodes: set<Node<K, V>>)
  {
    forall k :: p <= k < |c| ==> c[k] !in nodes
  }

  ghost predicate Apart<K, V>(c: seq<Node<K, V>>)
  {
    forall k, j :: 0 <= k < j < |c| ==> c[k] != c[j]
  }

  /** What does not change for the nodes behind the p-th when that one is taken. */
  lemma RestOfChain<K, V>(c: seq<Node<K, V>>, es: seq<Ent<K, V>>, p: nat)
    requires p < |c| && Apart(c) && Carries(c, es)
    ensures forall k :: p < k < |c| ==> c[k] != c[p]
    ensures p < |es| && c[p].Entry() == es[p]
    ensures es[..p + 1][..p] == es[..p] && es[..p + 1] != [] && es[..p + 1][p] == es[p]
  {
  }

  lemma CarriesAll<K, V>(c: seq<Node<K, V>>, es: seq<Ent<K, V>>)
    requires Carries(c, es)
    ensures |c| == |es|
  {
  }

  function Pushing<K, V>(t: Table<K, V>, e: Ent<K, V>): (r: Table<K, V>)
    requires |t| > 0
    ensures |r| == |t|
  {
    t[e.hash % |t| := [e] + t[e.hash % |t|]]
  }

  /** The entries pushed one after the other, each where its hash belongs. */
  function PushAll<K, V>(t: Table<K, V>, es: seq<Ent<K, V>>): (r: Table<K, V>)
    requires |t| > 0
    ensures |r| == |t|
  {
    if es == [] then t else Pushing(PushAll(t, es[..|es| - 1]), es[|es| - 1])
  }

  lemma SoundLength<K, V>(head: Node?<K, V>, c: seq<Node<K, V>>, es: seq<Ent<K, V>>, nodes: set<Node<K, V>>)
    requires Sound(head, c, es, nodes)
    ensures |c| == |es|
  {
  }

  /** A node stands in no other place. */
  lemma OnlyThere<K, V>(chains: seq<seq<Node<K, V>>>, b: nat, i: nat)
    requires Distinct(chains) && b < |chains| && i < |chains[b]|
    ensures forall d :: 0 <= d < |chains| && d != b ==> chains[b][i] !in chains[d]
    ensures forall k :: 0 <= k < |chains[b]| && k != i ==> chains[b][k] != chains[b][i]
  {
  }

  lemma Unlinked<K, V>(head: Node?<K, V>, c: seq<Node<K, V>>, i: nat, es: seq<Ent<K, V>>, nodes: set<Node<K, V>>)
    requires i < |c| && Carries(c, es) && Within(c, nodes)
    requires head == if i == 0 then At(c, 1) else At(c, 0)
    requires forall k :: 0 <= k < |c| && k + 1 != i ==> c[k].next == At(c, k + 1)
    requires i > 0 ==> c[i - 1].next == At(c, i + 1)
    ensures Sound(head, c[..i] + c[i + 1..], es[..i] + es[i + 1..], nodes)
  {
    var shorter := c[..i] + c[i + 1..];
    forall k | 0 <= k < |shorter|
      ensures shorter[k].next == At(shorter, k + 1)
    {
      var k' := if k < i then k else k + 1;
      assert shorter[k] == c[k'];
    }
  }

  lemma Pushed<K, V>(n: Node<K, V>, head: Node?<K, V>, c: seq<Node<K, V>>, es: seq<Ent<K, V>>)
    requires IsChain(head, c) && Carries(c, es) && n.next == head
    ensures IsChain(n, [n] + c) && Carries([n] + c, [n.Entry()] + es)
  {
    var longer := [n] + c;
    forall i | 0 <= i < |longer|
      ensures longer[i].next == At(longer, i + 1)
    {
      if i > 0 {
        assert longer[i] == c[i - 1];
      }
    }
  }
}
