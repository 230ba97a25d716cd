// lib/core/ogs-hash.c: what the iterator has still to visit, and the rehash that runs over it.
module HashIter {
  import opened Prelude
  import opened HashKey
  import opened HashSpec

  ghost function Flat(p: seq<seq<int>>): seq<int> {
    if p == [] then [] else p[0] + Flat(p[1..])
  }

  // What is left of the chains when index buckets have been opened and the next entry is at
  // place i of the last one opened.
  ghost function Pending(chains: seq<seq<int>>, index: nat, i: nat): (p: seq<seq<int>>)
    requires index <= |chains| && (index > 0 ==> i <= |chains[index - 1]|)
    ensures |p| == |chains| - index + 1
  {
    [if index == 0 then [] else chains[index - 1][i..]] + chains[index..]
  }

  // The links that the iterator is going to follow.
  ghost predicate Ahead<V>(es: seq<Entry<V>>, heads: seq<int>, index: nat, next: int, p: seq<seq<int>>) {
    && index <= |heads| && |p| == |heads| - index + 1 && Linked(es, next, p[0])
    && forall c :: 1 <= c < |p| ==> Opens(es, heads, index, p, c)
  }

  ghost predicate Opens<V>(es: seq<Entry<V>>, heads: seq<int>, index: nat, p: seq<seq<int>>, c: nat)
    requires index <= |heads| && 1 <= c < |p| == |heads| - index + 1
  {
    Linked(es, heads[index + c - 1], p[c])
  }

  // Opening the next bucket.
  lemma Opened<V>(es: seq<Entry<V>>, heads: seq<int>, index: nat, p: seq<seq<int>>)
    requires Ahead(es, heads, index, NONE, p) && index < |heads|
    ensures Ahead(es, heads, index + 1, heads[index], p[1..])
    ensures p[0] == [] && Flat(p[1..]) == Flat(p)
  {
    assert Opens(es, heads, index, p, 1);
    assert p[0] != [] ==> LinkedAt(es, p[0], 0);
    var q, later := p[1..], index + 1;
    forall c | 1 <= c < |q|
      ensures Opens(es, heads, later, q, c)
    {
      assert Opens(es, heads, index, p, c + 1);
    }
  }

  // No bucket is left to open.
  lemma Nothing<V>(es: seq<Entry<V>>, heads: seq<int>, index: nat, p: seq<seq<int>>)
    requires Ahead(es, heads, index, NONE, p) && index == |heads|
    ensures Flat(p) == []
  {
    assert p[0] != [] ==> LinkedAt(es, p[0], 0);
    assert p[1..] == [];
  }

  // Taking the next entry of the bucket.
  lemma Taken<V>(es: seq<Entry<V>>, heads: seq<int>, index: nat, this_: int, p: seq<seq<int>>)
    requires Ahead(es, heads, index, this_, p) && this_ != NONE
    ensures p[0] != [] && this_ == p[0][0] && 0 <= this_ < |es|
    ensures Ahead(es, heads, index, es[this_].next, [p[0][1..]] + p[1..])
    ensures Flat(p) == [this_] + Flat([p[0][1..]] + p[1..])
  {
    assert p[0] != [] && LinkedAt(es, p[0], 0);
    var q := [p[0][1..]] + p[1..];
    forall j | 0 <= j < |q[0]|
      ensures LinkedAt(es, q[0], j)
    {
      assert LinkedAt(es, p[0], j + 1);
    }
    forall c | 1 <= c < |q|
      ensures Opens(es, heads, index, q, c)
    {
      assert Opens(es, heads, index, p, c);
    }
    assert q[1..] == p[1..];
    assert p[0] + Flat(p[1..]) == [this_] + (p[0][1..] + Flat(p[1..]));
  }

  // The walk stands before place i of the last bucket opened, whose entry is next.
  ghost predicate Stands<V>(es: seq<Entry<V>>, heads: seq<int>, chains: seq<seq<int>>, index: nat, next: int, i: nat) {
    && |heads| == |chains| && index <= |chains| && (index > 0 ==> i <= |chains[index - 1]|)
    && Ahead(es, heads, index, next, Pending(chains, index, i))
  }

  // The entries it has still to visit.
  ghost function ToGo(chains: seq<seq<int>>, index: nat, i: nat): seq<int> {
    if index <= |chains| && (index > 0 ==> i <= |chains[index - 1]|) then Flat(Pending(chains, index, i)) else []
  }

  lemma OpenBucket<V>(es: seq<Entry<V>>, heads: seq<int>, chains: seq<seq<int>>, index: nat, i: nat)
    requires Stands(es, heads, chains, index, NONE, i) && index < |heads|
    ensures Stands(es, heads, chains, index + 1, heads[index], 0) && ToGo(chains, index + 1, 0) == ToGo(chains, index, i)
  {
    var p := Pending(chains, index, i);
    Opened(es, heads, index, p);
    assert p[1..] == Pending(chains, index + 1, 0);
  }

  lemma TakeEntry<V>(es: seq<Entry<V>>, heads: seq<int>, chains: seq<seq<int>>, index: nat, this_: int, i: nat)
    requires Stands(es, heads, chains, index, this_, i) && this_ != NONE
    ensures 0 < index <= |chains| && i < |chains[index - 1]| && this_ == chains[index - 1][i] && 0 <= this_ < |es|
    ensures Stands(es, heads, chains, index, es[this_].next, i + 1) && ToGo(chains, index, i) == [this_] + ToGo(chains, index, i + 1)
  {
    var p := Pending(chains, index, i);
    Taken(es, heads, index, this_, p);
    assert [p[0][1..]] + p[1..] == Pending(chains, index, i + 1);
  }

  lemma EndOfWalk<V>(es: seq<Entry<V>>, heads: seq<int>, chains: seq<seq<int>>, index: nat, i: nat)
    requires Stands(es, heads, chains, index, NONE, i) && index == |heads|
    ensures ToGo(chains, index, i) == []
  {
    Nothing(es, heads, index, Pending(chains, index, i));
  }

  // The chains of a sound table can be walked.
  lemma SoundAhead<V>(t: State<V>, index: nat, next: int, i: nat)
    requires t.Sound() && index <= |t.chains| && (index > 0 ==> i <= |t.chains[index - 1]|)
    requires next == if index == 0 then NONE else First(t.chains[index - 1], i)
    ensures Ahead(t.entries, t.heads, index, next, Pending(t.chains, index, i))
  {
    hide Pow2, State.AllFound, State.Recycled, State.Filed;
    var p := Pending(t.chains, index, i);
    if index > 0 {
      assert t.Chained(index - 1);
      forall j | 0 <= j < |p[0]|
        ensures LinkedAt(t.entries, p[0], j)
      {
        assert LinkedAt(t.entries, t.chains[index - 1], i + j);
      }
    }
    forall c | 1 <= c < |p|
      ensures Opens(t.entries, t.heads, index, p, c)
    {
      assert t.Chained(index + c - 1) && p[c] == t.chains[index + c - 1];
    }
  }

  lemma StartAhead<V>(t: State<V>)
    requires t.Sound()
    ensures Stands(t.entries, t.heads, t.chains, 0, NONE, 0) && ToGo(t.chains, 0, 0) == Flat(t.chains)
  {
    SoundAhead(t, 0, NONE, 0);
    assert Pending(t.chains, 0, 0)[1..] == t.chains;
    assert [] + Flat(t.chains) == Flat(t.chains);
  }

  // Relinking an entry that is not ahead.
  lemma AheadApart<V>(es: seq<Entry<V>>, fs: seq<Entry<V>>, heads: seq<int>, index: nat, next: int, p: seq<seq<int>>)
    requires Ahead(es, heads, index, next, p) && |fs| == |es|
    requires forall x :: 0 <= x < |es| && x in Flat(p) ==> fs[x] == es[x]
    ensures Ahead(fs, heads, index, next, p)
  {
    forall c, j | 0 <= c < |p| && 0 <= j < |p[c]|
      ensures LinkedAt(fs, p[c], j)
    {
      InFlat(p, c, p[c][j]);
      assert c > 0 ==> Opens(es, heads, index, p, c);
      assert LinkedAt(es, p[c], j);
    }
    forall c | 1 <= c < |p|
      ensures Opens(fs, heads, index, p, c)
    {
      assert Opens(es, heads, index, p, c);
    }
  }

  lemma {:induction false} InFlat(p: seq<seq<int>>, c: nat, x: int)
    requires c < |p| && x in p[c]
    ensures x in Flat(p)
  {
    if c == 0 {
    } else {
      assert p[1..][c - 1] == p[c];
      InFlat(p[1..], c - 1, x);
    }
  }

  lemma {:induction false} FlatIn(p: seq<seq<int>>, x: int) returns (c: nat)
    requires x in Flat(p)
    ensures c < |p| && x in p[c]
  {
    if x in p[0] {
      c := 0;
    } else {
      c := FlatIn(p[1..], x);
      c := c + 1;
    }
  }

  // ---------- Every entry once ----------

  // Chains that share no entry, each without repetition, list each entry once.
  lemma {:induction false} FlatDistinct(p: seq<seq<int>>)
    requires forall c :: 0 <= c < |p| ==> Distinct(p[c])
    requires forall c, d, x :: 0 <= c < d < |p| && x in p[c] ==> x !in p[d]
    ensures Distinct(Flat(p))
  {
    if p == [] {
    } else {
      FlatDistinct(p[1..]);
      forall x | x in Flat(p[1..])
        ensures x !in p[0]
      {
        var c := FlatIn(p[1..], x);
        assert p[1..][c] == p[c + 1];
      }
      var f := Flat(p[1..]);
      assert forall j :: 0 <= j < |f| ==> f[j] in f;
    }
  }

  // The entries of a table: each once, and exactly those of its keys.
  lemma EachOnce<V>(t: State<V>)
    requires t.Sound()
    ensures Distinct(Flat(t.chains))
    ensures forall k :: k in t.at ==> t.at[k] in Flat(t.chains)
    ensures forall x :: x in Flat(t.chains) ==> Live(t, x) && x !in t.frees
  {
    forall c, d, x | 0 <= c < d < |t.chains| && x in t.chains[c]
      ensures x !in t.chains[d]
    {
      assert t.Chained(c) && t.Chained(d) && t.Filed(x, c);
      assert x in t.chains[d] ==> t.Filed(x, d);
    }
    forall c | 0 <= c < |t.chains|
      ensures Distinct(t.chains[c])
    {
      assert t.Chained(c);
    }
    FlatDistinct(t.chains);
    forall k | k in t.at
      ensures t.at[k] in Flat(t.chains)
    {
      assert t.Found(k);
      InFlat(t.chains, t.BucketOf(k), t.at[k]);
    }
    forall x | x in Flat(t.chains)
      ensures Live(t, x) && x !in t.frees
    {
      var c := FlatIn(t.chains, x);
      assert t.Chained(c) && t.Filed(x, c);
    }
  }

  ghost predicate Live<V>(t: State<V>, x: int) {
    && 0 <= x < |t.entries| && t.entries[x].key in t.at && t.at[t.entries[x].key] == x
    && t.entries[x].hash == t.hasher(t.entries[x].key)
  }

  // ---------- Deleting the entry just visited ----------

  // Every entry has its key in both.
  ghost predicate SameKeys<V>(t: State<V>, u: State<V>) {
    |u.entries| == |t.entries| && forall x :: 0 <= x < |t.entries| ==> u.entries[x].key == t.entries[x].key
  }

  // Dropping the last entry taken leaves what is ahead as it was.
  lemma DropTaken<V>(t: State<V>, u: State<V>, b: nat, i: nat)
    requires t.Sound() && u.Sound() && b <= t.max && i < |t.chains[b]| && Drops(t, u, b, i)
    ensures Pending(u.chains, b + 1, i) == Pending(t.chains, b + 1, i + 1)
    ensures First(u.chains[b], i) == First(t.chains[b], i + 1)
  {
    assert u.chains[b][i..] == t.chains[b][i + 1..];
    assert u.chains[b + 1..] == t.chains[b + 1..];
  }

  lemma DropHere<V>(t: State<V>, u: State<V>, index: nat, next: int, i: nat)
    requires t.Sound() && u.Sound() && 0 < index <= t.max + 1 && 0 < i <= |t.chains[index - 1]|
    requires Stands(t.entries, t.heads, t.chains, index, next, i) && Drops(t, u, index - 1, i - 1)
    ensures Stands(u.entries, u.heads, u.chains, index, next, i - 1) && ToGo(u.chains, index, i - 1) == ToGo(t.chains, index, i)
    ensures SameKeys(t, u)
  {
    hide State.Sound, Stands, ToGo;
    StandsAt(t, index, next, i);
    hide Stands, ToGo, State.Sound, Pending, Ahead;
    DropTaken(t, u, index - 1, i - 1);
    StandsBefore(u, index, next, i - 1);
    SameToGo(t.chains, u.chains, index, i);
  }

  lemma StandsAt<V>(t: State<V>, index: nat, next: int, i: nat)
    requires t.Sound() && 0 < index <= t.max + 1 && Stands(t.entries, t.heads, t.chains, index, next, i)
    ensures i <= |t.chains[index - 1]| && next == First(t.chains[index - 1], i) && |t.chains| == t.max + 1
  {
    assert Pending(t.chains, index, i)[0] == t.chains[index - 1][i..];
  }

  lemma StandsBefore<V>(t: State<V>, index: nat, next: int, i: nat)
    requires t.Sound() && 0 < index <= |t.chains| && i <= |t.chains[index - 1]| && next == First(t.chains[index - 1], i)
    ensures Stands(t.entries, t.heads, t.chains, index, next, i)
  {
    SoundAhead(t, index, next, i);
  }

  lemma SameToGo(a: seq<seq<int>>, b: seq<seq<int>>, index: nat, i: nat)
    requires |a| == |b| && 0 < index <= |a| && 0 < i <= |a[index - 1]| && i - 1 <= |b[index - 1]|
    requires Pending(b, index, i - 1) == Pending(a, index, i)
    ensures ToGo(b, index, i - 1) == ToGo(a, index, i)
  {
  }

  // The place where a key is found is the place of its entry.
  lemma SamePlace<V>(t: State<V>, b: nat, i: nat, j: nat)
    requires t.Sound() && b <= t.max && i < |t.chains[b]| && 0 <= t.chains[b][i] < |t.entries|
    ensures var key := t.entries[t.chains[b][i]].key;
      && key in t.at && t.at[key] == t.chains[b][i] && t.BucketOf(key) == b
      && (j < |t.chains[b]| && t.chains[b][j] == t.at[key] ==> j == i)
  {
    assert t.Chained(b) && t.Filed(t.chains[b][i], b);
  }

  // The entry that the walk is at.
  ghost predicate Current<V>(t: State<V>, index: nat, i: nat, id: int) {
    0 < index <= |t.chains| && 0 < i <= |t.chains[index - 1]| && id == t.chains[index - 1][i - 1] && 0 <= id < |t.entries|
  }

  lemma CurrentIs<V>(t: State<V>, index: nat, i: nat, id: int)
    requires t.Sound() && Current(t, index, i, id)
    ensures 0 <= id < |t.entries| && t.entries[id].key in t.at && t.at[t.entries[id].key] == id
    ensures i > 0 && t.BucketOf(t.entries[id].key) == index - 1
  {
    SamePlace(t, index - 1, i - 1, 0);
  }

  // The deletion of that entry.
  lemma DropCurrent<V>(t: State<V>, u: State<V>, index: nat, next: int, i: nat, p: nat, id: int)
    requires t.Sound() && u.Sound() && Current(t, index, i, id) && Stands(t.entries, t.heads, t.chains, index, next, i)
    requires var b := t.BucketOf(t.entries[id].key);
      b <= t.max && p < |t.chains[b]| && t.chains[b][p] == id && Drops(t, u, b, p)
    ensures Stands(u.entries, u.heads, u.chains, index, next, i - 1) && ToGo(u.chains, index, i - 1) == ToGo(t.chains, index, i)
    ensures SameKeys(t, u)
  {
    hide Stands, ToGo, Drops;
    SamePlace(t, index - 1, i - 1, p);
    DropHere(t, u, index, next, i);
  }

  // The key of the entry that a walk over t comes to after n others, and the keys of the first n.
  ghost function KeyAt<V>(t: State<V>, n: nat): seq<Byte> {
    var ids := Flat(t.chains);
    if n < |ids| && 0 <= ids[n] < |t.entries| then t.entries[ids[n]].key else []
  }

  ghost function Walked<V>(t: State<V>, n: nat): seq<seq<Byte>> { seq(n, j requires j >= 0 => KeyAt(t, j)) }

  lemma WalkedOn<V>(t: State<V>, n: nat)
    ensures Walked(t, n + 1) == Walked(t, n) + [KeyAt(t, n)]
    ensures forall k :: k in Walked(t, n + 1) ==> k in Walked(t, n) || k == KeyAt(t, n)
  {
    assert Walked(t, n + 1) == Walked(t, n) + [KeyAt(t, n)];
  }

  // After n steps of a walk that deletes the keys of drop as it meets them.
  ghost predicate Midway<V>(t: State<V>, u: State<V>, drop: set<seq<Byte>>, n: nat) {
    && t.Sound() && u.AllFound() && n <= |Flat(t.chains)|
    && SameKeys(t, u)
    && Pruned(t.Model(), u.Model(), drop, Walked(t, n))
  }

  // m is m0 without the keys of drop met so far.
  ghost predicate Pruned<V>(m0: map<seq<Byte>, V>, m: map<seq<Byte>, V>, drop: set<seq<Byte>>, met: seq<seq<Byte>>) {
    && (forall k :: k in m <==> k in m0 && !(k in drop && k in met))
    && (forall k :: k in m ==> m[k] == m0[k])
  }

  lemma PrunedOn<V>(m0: map<seq<Byte>, V>, m: map<seq<Byte>, V>, drop: set<seq<Byte>>, met: seq<seq<Byte>>, key: seq<Byte>)
    requires Pruned(m0, m, drop, met)
    ensures Pruned(m0, if key in drop then m - {key} else m, drop, met + [key])
  {
    var s := met + [key];
    assert s[|met|] == key && forall k :: k in s <==> k in met || k == key;
  }

  lemma StartWalk<V>(t: State<V>, drop: set<seq<Byte>>)
    requires t.Sound()
    ensures Midway(t, t, drop, 0)
  {
    EachOnce(t);
  }

  // The key of the entry come to is one of the map.
  lemma AtKey<V>(t: State<V>, u: State<V>, drop: set<seq<Byte>>, n: nat, x: int)
    requires Midway(t, u, drop, n) && n < |Flat(t.chains)| && x == Flat(t.chains)[n]
    ensures 0 <= x < |u.entries| && u.entries[x].key == KeyAt(t, n) && KeyAt(t, n) in t.Model()
  {
    EachOnce(t);
    assert x in Flat(t.chains) && Live(t, x);
  }

  lemma WalkOn<V>(t: State<V>, u: State<V>, v: State<V>, drop: set<seq<Byte>>, n: nat)
    requires Midway(t, u, drop, n) && n < |Flat(t.chains)| && v.AllFound()
    requires SameKeys(u, v)
    requires v.Model() == if KeyAt(t, n) in drop then u.Model() - {KeyAt(t, n)} else u.Model()
    ensures Midway(t, v, drop, n + 1)
  {
    PrunedOn(t.Model(), u.Model(), drop, Walked(t, n), KeyAt(t, n));
    assert Walked(t, n + 1) == Walked(t, n) + [KeyAt(t, n)];
  }

  lemma WalkedAll<V>(t: State<V>)
    requires t.Sound()
    ensures Once(Walked(t, |Flat(t.chains)|), t.Model().Keys)
  {
    EachOnce(t);
    var ids := Flat(t.chains);
    var keys := Walked(t, |ids|);
    forall k
      ensures k in keys <==> k in t.Model()
    {
      if k in t.at {
        assert t.Found(k);
        var j :| 0 <= j < |ids| && ids[j] == t.at[k];
        assert keys[j] == k;
      }
      if k in keys {
        var j :| 0 <= j < |ids| && keys[j] == k;
        assert ids[j] in ids && Live(t, ids[j]);
      }
    }
    forall i, j | 0 <= i < j < |ids|
      ensures keys[i] != keys[j]
    {
      assert ids[i] in ids && ids[j] in ids && Live(t, ids[i]) && Live(t, ids[j]);
    }
  }

  // The whole walk meets every key of the map once, and has deleted those of drop.
  lemma EndWalk<V>(t: State<V>, u: State<V>, drop: set<seq<Byte>>)
    requires Midway(t, u, drop, |Flat(t.chains)|)
    ensures u.Model() == t.Model() - drop
    ensures Once(Walked(t, |Flat(t.chains)|), t.Model().Keys)
  {
    WalkedAll(t);
  }

  // When every key is deleted, every entry has been recycled.
  lemma Cleared<V>(t: State<V>, u: State<V>)
    requires u.Sound() && t.AllFound() && Midway(t, u, t.Model().Keys, |Flat(t.chains)|)
    ensures u.Model() == map[] && u.count == 0 && Once(Walked(t, |Flat(t.chains)|), t.Model().Keys)
    ensures |u.frees| == |u.entries| && forall x :: 0 <= x < |u.entries| ==> x in u.frees
  {
    EndWalk(t, u, t.Model().Keys);
    assert u.Model() == map[];
    AllRecycled(u);
  }

  lemma AllRecycled<V>(t: State<V>)
    requires t.Sound() && t.Model() == map[]
    ensures t.count == 0
    ensures |t.frees| == |t.entries| && forall x :: 0 <= x < |t.entries| ==> x in t.frees
  {
    assert t.at.Keys == t.Model().Keys == {};
    assert |t.at| == |t.at.Keys|;
    forall j | 0 <= j < |t.frees|
      ensures 0 <= t.frees[j] < |t.entries|
    {
      assert LinkedAt(t.entries, t.frees, j);
    }
    forall x | 0 <= x < |t.entries|
      ensures x in t.frees
    {
      if x !in t.frees {
        Pigeonhole(t.frees, |t.entries|, x);
      }
    }
  }

  // s lists each element of m, once.
  ghost predicate Once(s: seq<seq<Byte>>, m: set<seq<Byte>>) {
    (forall i, j :: 0 <= i < j < |s| ==> s[i] != s[j]) && forall x :: x in s <==> x in m
  }

  // ---------- Rehash ----------

  // The tables while expand_array runs: es has the entries of t, those in todo not yet moved and
  // the others linked into the new buckets nh, whose chains are nc.
  ghost predicate Moving<V>(t: State<V>, es: seq<Entry<V>>, nh: seq<int>, nc: seq<seq<int>>, todo: seq<int>) {
    && |es| == |t.entries| && (forall x :: 0 <= x < |es| ==> Kept(t, es, todo, x))
    && |nh| == |nc| == 2 * t.max + 2
    && (forall c :: 0 <= c < |nc| ==> Moved(t, es, nh, nc, todo, c))
    && (forall k :: k in t.at ==> Somewhere(t, nc, todo, k))
  }

  ghost predicate Kept<V>(t: State<V>, es: seq<Entry<V>>, todo: seq<int>, x: int)
    requires 0 <= x < |es| == |t.entries|
  {
    es[x] == t.entries[x].(next := es[x].next) && (x in todo || x in t.frees ==> es[x].next == t.entries[x].next)
  }

  ghost predicate Moved<V>(t: State<V>, es: seq<Entry<V>>, nh: seq<int>, nc: seq<seq<int>>, todo: seq<int>, c: nat)
    requires c < |nh| == |nc|
  {
    && Linked(es, nh[c], nc[c]) && Distinct(nc[c])
    && forall id :: id in nc[c] ==> MovedTo(t, todo, c, id)
  }

  ghost predicate MovedTo<V>(t: State<V>, todo: seq<int>, c: nat, id: int) {
    id !in todo && Live(t, id) && And(t.entries[id].hash, 2 * t.max + 1) == c
  }

  ghost predicate Somewhere<V>(t: State<V>, nc: seq<seq<int>>, todo: seq<int>, k: seq<Byte>)
    requires k in t.at
  {
    || t.at[k] in todo
    || (And(t.hasher(k), 2 * t.max + 1) < |nc| && t.at[k] in nc[And(t.hasher(k), 2 * t.max + 1)])
  }

  lemma StartMoving<V>(t: State<V>)
    requires t.Sound()
    ensures Moving(t, t.entries, seq(2 * t.max + 2, _ => NONE), seq(2 * t.max + 2, _ => []), Flat(t.chains))
  {
    EachOnce(t);
  }

  lemma MovingHead<V>(t: State<V>, es: seq<Entry<V>>, nh: seq<int>, nc: seq<seq<int>>, todo: seq<int>)
    requires Moving(t, es, nh, nc, todo) && todo != [] && Live(t, todo[0])
    ensures 0 <= todo[0] < |t.entries| && 0 <= todo[0] < |es| && es[todo[0]].hash == t.entries[todo[0]].hash
    ensures And(es[todo[0]].hash, 2 * t.max + 1) < |nh| == |nc|
  {
    assert Kept(t, es, todo, todo[0]);
    AndBelow(es[todo[0]].hash, 2 * t.max + 1);
  }

  // The first entry of todo is put in front of its new chain.
  lemma Move<V>(t: State<V>, es: seq<Entry<V>>, nh: seq<int>, nc: seq<seq<int>>, todo: seq<int>, c: nat)
    requires t.AllFound() && Moving(t, es, nh, nc, todo) && todo != [] && Distinct(todo) && Live(t, todo[0]) && todo[0] !in t.frees
    requires c == And(t.entries[todo[0]].hash, 2 * t.max + 1) && c < |nh|
    ensures var x := todo[0]; Moving(t, es[x := es[x].(next := nh[c])], nh[c := x], nc[c := [x] + nc[c]], todo[1..])
  {
    var x := todo[0];
    var es', nh', nc', rest := es[x := es[x].(next := nh[c])], nh[c := x], nc[c := [x] + nc[c]], todo[1..];
    assert forall y :: y in rest ==> y in todo && y != x;
    forall y | 0 <= y < |es|
      ensures Kept(t, es', rest, y)
    {
      assert Kept(t, es, todo, y);
    }
    forall d | 0 <= d < |nc|
      ensures Moved(t, es', nh', nc', rest, d)
    {
      MoveChain(t, es, nh, nc, todo, c, d);
    }
    forall k | k in t.at
      ensures Somewhere(t, nc', rest, k)
    {
      assert Somewhere(t, nc, todo, k) && t.Found(k);
      assert t.at[k] in todo && t.at[k] !in rest ==> t.at[k] == x;
    }
  }

  lemma MoveChain<V>(t: State<V>, es: seq<Entry<V>>, nh: seq<int>, nc: seq<seq<int>>, todo: seq<int>, c: nat, d: nat)
    requires Moving(t, es, nh, nc, todo) && todo != [] && Distinct(todo) && Live(t, todo[0])
    requires c == And(t.entries[todo[0]].hash, 2 * t.max + 1) && c < |nh| && d < |nh|
    ensures var x := todo[0]; Moved(t, es[x := es[x].(next := nh[c])], nh[c := x], nc[c := [x] + nc[c]], todo[1..], d)
  {
    var x := todo[0];
    var es', us := es[x := es[x].(next := nh[c])], if c == d then [x] + nc[d] else nc[d];
    assert Moved(t, es, nh, nc, todo, d);
    forall j | 0 <= j < |us|
      ensures LinkedAt(es', us, j) && MovedTo(t, todo[1..], d, us[j])
    {
      var l := if c == d then j - 1 else j;
      if l >= 0 {
        assert us[j] == nc[d][l] && LinkedAt(es, nc[d], l) && nc[d][l] in nc[d] && MovedTo(t, todo, d, nc[d][l]);
      }
    }
  }

  ghost function Rehashed<V>(t: State<V>, es: seq<Entry<V>>, nh: seq<int>, nc: seq<seq<int>>): State<V> {
    t.(entries := es, heads := nh, chains := nc, max := 2 * t.max + 1)
  }

  lemma MovedChains<V>(t: State<V>, es: seq<Entry<V>>, nh: seq<int>, nc: seq<seq<int>>)
    requires t.Sound() && Moving(t, es, nh, nc, [])
    ensures forall c :: 0 <= c <= 2 * t.max + 1 ==> Rehashed(t, es, nh, nc).Chained(c)
    ensures Rehashed(t, es, nh, nc).Recycled()
  {
    var u := Rehashed(t, es, nh, nc);
    forall c | 0 <= c <= u.max
      ensures u.Chained(c)
    {
      assert Moved(t, es, nh, nc, [], c);
      forall id | id in nc[c]
        ensures u.Filed(id, c)
      {
        assert MovedTo(t, [], c, id) && Kept(t, es, [], id);
      }
    }
    forall j | 0 <= j < |t.frees|
      ensures LinkedAt(es, t.frees, j)
    {
      assert LinkedAt(t.entries, t.frees, j) && t.frees[j] in t.frees && Kept(t, es, [], t.frees[j]);
    }
  }

  lemma MovedKeys<V>(t: State<V>, es: seq<Entry<V>>, nh: seq<int>, nc: seq<seq<int>>)
    requires t.AllFound() && Moving(t, es, nh, nc, [])
    ensures Rehashed(t, es, nh, nc).AllFound() && Rehashed(t, es, nh, nc).Model() == t.Model()
  {
    var u := Rehashed(t, es, nh, nc);
    forall k | k in t.at
      ensures u.Found(k) && t.Found(k) && SameFor(t, u, k)
    {
      assert t.Found(k) && Somewhere(t, nc, [], k) && Kept(t, es, [], t.at[k]);
    }
  }

  // The rehash changes no binding.
  lemma EndMoving<V>(t: State<V>, es: seq<Entry<V>>, nh: seq<int>, nc: seq<seq<int>>)
    requires t.Sound() && Moving(t, es, nh, nc, [])
    ensures Rehashed(t, es, nh, nc).Sound() && Rehashed(t, es, nh, nc).Model() == t.Model()
  {
    MovedChains(t, es, nh, nc);
    MovedKeys(t, es, nh, nc);
    var k: nat :| t.max + 1 == Pow2(k);
    assert 2 * t.max + 2 == Pow2(k + 1);
  }
}
