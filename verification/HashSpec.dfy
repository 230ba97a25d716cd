// lib/core/ogs-hash.c: a chained hash table that recycles its entries.  Entries are named by
// their place in a growing memory, and NONE stands for NULL.
module HashSpec {
  import opened Prelude
  import opened HashKey

  // ogs_hash_entry_t
  datatype Entry<V> = Entry(next: int, hash: nat, key: seq<Byte>, val: V)

  // A pointer to a pointer to an entry: a bucket of the array, or the link of an entry.
  datatype Loc = Bucket(b: nat) | Link(e: int)

  ghost function First(ids: seq<int>, i: nat): int { if i < |ids| then ids[i] else NONE }

  // From p on, the entries are linked in the order of ids.
  ghost predicate Linked<V>(es: seq<Entry<V>>, p: int, ids: seq<int>) {
    p == First(ids, 0) && forall i :: 0 <= i < |ids| ==> LinkedAt(es, ids, i)
  }

  ghost predicate LinkedAt<V>(es: seq<Entry<V>>, ids: seq<int>, i: nat)
    requires i < |ids|
  {
    0 <= ids[i] < |es| && es[ids[i]].next == First(ids, i + 1)
  }

  // The table as values.  chains[b] lists the entries of bucket b, frees the recycled ones, and
  // at names the entry of each key.
  datatype State<V> = State(hasher: seq<Byte> -> nat, entries: seq<Entry<V>>, heads: seq<int>, count: nat, max: nat, free: int,
                            chains: seq<seq<int>>, frees: seq<int>, at: map<seq<Byte>, int>)
  {
    ghost function BucketOf(key: seq<Byte>): nat { And(hasher(key), max) }

    // The entry is filed under its bucket, and is the only one with its key.
    ghost predicate Filed(id: int, b: nat) {
      && 0 <= id < |entries| && entries[id].hash == hasher(entries[id].key) && BucketOf(entries[id].key) == b
      && entries[id].key in at && at[entries[id].key] == id
    }

    ghost predicate Chained(b: nat)
      requires b < |heads| == |chains|
    {
      && Linked(entries, heads[b], chains[b]) && Distinct(chains[b])
      && forall id :: id in chains[b] ==> Filed(id, b)
    }

    ghost predicate Found(key: seq<Byte>)
      requires key in at
    {
      && 0 <= at[key] < |entries| && entries[at[key]].key == key
      && BucketOf(key) < |chains| && at[key] in chains[BucketOf(key)]
    }

    ghost predicate AllFound() {
      forall k :: k in at ==> Found(k)
    }

    ghost predicate Recycled() {
      Linked(entries, free, frees) && Distinct(frees) && forall k :: k in at ==> at[k] !in frees
    }

    // Everything but the bound on the count.
    ghost predicate Sound() {
      && |heads| == |chains| == max + 1 && (exists k :: max + 1 == Pow2(k)) && count == |at| && |entries| == count + |frees|
      && (forall b :: 0 <= b <= max ==> Chained(b)) && AllFound() && Recycled()
    }

    // The table as a finite map.
    ghost function Model(): map<seq<Byte>, V>
      requires AllFound()
    {
      map k | k in at :: assert Found(k); entries[at[k]].val
    }

    // hep points to place i of the chain of bucket b.
    ghost predicate Points(hep: Loc, b: nat, i: nat)
      requires b < |chains|
    {
      i <= |chains[b]| && hep == if i == 0 then Bucket(b) else Link(chains[b][i - 1])
    }

    function Deref(hep: Loc): int {
      match hep
      case Bucket(b) => if b < |heads| then heads[b] else NONE
      case Link(e) => if 0 <= e < |entries| then entries[e].next else NONE
    }

    // *hep = p
    function Assign(hep: Loc, p: int): (t: State<V>)
      ensures |t.entries| == |entries| && t == this.(entries := t.entries, heads := t.heads)
    {
      match hep
      case Bucket(b) => if b < |heads| then this.(heads := heads[b := p]) else this
      case Link(e) => if 0 <= e < |entries| then this.(entries := entries[e := entries[e].(next := p)]) else this
    }
  }

  lemma DerefIs<V>(t: State<V>, hep: Loc, b: nat, i: nat)
    requires t.Sound() && b <= t.max && t.Points(hep, b, i)
    ensures t.Deref(hep) == First(t.chains[b], i)
  {
    assert t.Chained(b);
    if i > 0 { assert LinkedAt(t.entries, t.chains[b], i - 1); }
  }

  lemma ChainEnd<V>(t: State<V>, b: nat, i: nat)
    requires t.Sound() && b <= t.max && i <= |t.chains[b]|
    ensures First(t.chains[b], i) == NONE <==> i == |t.chains[b]|
  {
    assert t.Chained(b) && (i < |t.chains[b]| ==> LinkedAt(t.entries, t.chains[b], i));
  }

  // A key is in the table exactly when its chain holds it.
  lemma KeyInChain<V>(t: State<V>, key: seq<Byte>)
    requires t.Sound()
    ensures t.BucketOf(key) <= t.max
    ensures key in t.at <==> exists id :: id in t.chains[t.BucketOf(key)] && 0 <= id < |t.entries| && t.entries[id].key == key
  {
    AndBelow(t.hasher(key), t.max);
    var b := t.BucketOf(key);
    assert t.Chained(b);
    if key in t.at {
      assert t.Found(key);
    }
    if id :| id in t.chains[b] && 0 <= id < |t.entries| && t.entries[id].key == key {
      assert t.Filed(id, b);
    }
  }

  // An entry id no chain holds: the first recycled one, or the next of the memory.
  ghost predicate Spare<V>(t: State<V>, he: int) {
    if t.frees != [] then he == t.frees[0] else he == |t.entries|
  }

  // u is t with the entry e at he, linked behind the last entry of bucket b.
  ghost predicate Appends<V>(t: State<V>, u: State<V>, b: nat, he: int, e: Entry<V>)
    requires b < |t.chains|
  {
    && u.hasher == t.hasher && u.max == t.max && u.count == t.count + 1
    && |u.entries| == (if t.frees == [] then |t.entries| + 1 else |t.entries|)
    && (forall x :: 0 <= x < |u.entries| ==> u.entries[x] == Appended(t, b, he, e, x))
    && |u.heads| == |t.heads|
    && (forall c :: 0 <= c < |t.heads| ==> u.heads[c] == if c == b && t.chains[b] == [] then he else t.heads[c])
    && u.chains == t.chains[b := t.chains[b] + [he]] && u.at == t.at[e.key := he]
    && u.free == First(t.frees, 1) && u.frees == if t.frees == [] then [] else t.frees[1..]
  }

  ghost function Appended<V>(t: State<V>, b: nat, he: int, e: Entry<V>, x: int): Entry<V>
    requires b < |t.chains|
  {
    if x == he || !(0 <= x < |t.entries|) then e
    else if x == Before(t.chains[b], |t.chains[b]|) then t.entries[x].(next := he)
    else t.entries[x]
  }

  // The entry before place i of a chain.
  ghost function Before(ids: seq<int>, i: nat): int { if 0 < i <= |ids| then ids[i - 1] else NONE }

  lemma SpareUnused<V>(t: State<V>, he: int)
    requires t.Sound() && Spare(t, he)
    ensures 0 <= he <= |t.entries| && (he == |t.entries| ==> t.frees == [])
    ensures forall c :: 0 <= c <= t.max ==> he !in t.chains[c]
    ensures forall k :: k in t.at ==> t.at[k] != he
    ensures t.free == First(t.frees, 0)
  {
    if t.frees != [] { assert LinkedAt(t.entries, t.frees, 0); }
    forall c | 0 <= c <= t.max
      ensures he !in t.chains[c]
    {
      assert t.Chained(c) && (he in t.chains[c] ==> t.Filed(he, c));
    }
    forall k | k in t.at
      ensures t.at[k] != he
    {
      assert t.Found(k);
    }
  }

  // An entry of another chain is not the one before a place of this chain.
  lemma Elsewhere<V>(t: State<V>, b: nat, i: nat, c: nat, id: int)
    requires t.Sound() && b <= t.max && c <= t.max && c != b && i <= |t.chains[b]| && id in t.chains[c]
    ensures t.Filed(id, c) && id != Before(t.chains[b], i)
  {
    assert t.Chained(c) && t.Chained(b);
    assert i > 0 ==> t.Filed(t.chains[b][i - 1], b);
  }

  ghost predicate Fits<V>(t: State<V>, b: nat, he: int, e: Entry<V>) {
    && t.Sound() && Spare(t, he) && b == t.BucketOf(e.key) <= t.max
    && e.key !in t.at && e.hash == t.hasher(e.key) && e.next == NONE
  }

  lemma AppendedOther<V>(t: State<V>, u: State<V>, b: nat, he: int, e: Entry<V>, c: nat)
    requires Fits(t, b, he, e) && Appends(t, u, b, he, e) && c <= t.max && c != b
    ensures u.Chained(c)
  {
    var ids := t.chains[c];
    SpareUnused(t, he);
    assert t.Chained(c);
    forall j | 0 <= j < |ids|
      ensures LinkedAt(u.entries, ids, j) && u.Filed(ids[j], c)
    {
      assert LinkedAt(t.entries, ids, j) && ids[j] in ids;
      Elsewhere(t, b, |t.chains[b]|, c, ids[j]);
    }
  }

  lemma AppendedAt<V>(t: State<V>, u: State<V>, b: nat, he: int, e: Entry<V>, j: nat)
    requires Fits(t, b, he, e) && Appends(t, u, b, he, e) && j < |t.chains[b]|
    ensures LinkedAt(u.entries, t.chains[b] + [he], j) && u.Filed(t.chains[b][j], b)
  {
    hide Spare, State.AllFound, State.Recycled;
    var ids := t.chains[b];
    SpareUnused(t, he);
    assert t.Chained(b) && LinkedAt(t.entries, ids, j) && ids[j] in ids && t.Filed(ids[j], b);
    assert j < |ids| - 1 ==> ids[j] != ids[|ids| - 1];
  }

  lemma AppendedOwn<V>(t: State<V>, u: State<V>, b: nat, he: int, e: Entry<V>)
    requires Fits(t, b, he, e) && Appends(t, u, b, he, e)
    ensures u.Chained(b) && u.Filed(he, b)
  {
    var ids, us := t.chains[b], t.chains[b] + [he];
    SpareUnused(t, he);
    assert t.Chained(b) && us[|ids|] == he;
    forall j | 0 <= j < |us|
      ensures LinkedAt(u.entries, us, j) && u.Filed(us[j], b)
    {
      if j < |ids| {
        AppendedAt(t, u, b, he, e, j);
      }
    }
    assert Linked(u.entries, u.heads[b], us);
  }

  lemma AppendedRest<V>(t: State<V>, u: State<V>, b: nat, he: int, e: Entry<V>)
    requires Fits(t, b, he, e) && Appends(t, u, b, he, e)
    ensures u.Recycled()
  {
    SpareUnused(t, he);
    forall j | 0 <= j < |u.frees|
      ensures LinkedAt(u.entries, u.frees, j)
    {
      AppendedFree(t, u, b, he, e, j);
    }
    assert he !in u.frees by {
      assert t.frees != [] ==> u.frees == t.frees[1..];
    }
  }

  lemma AppendedFree<V>(t: State<V>, u: State<V>, b: nat, he: int, e: Entry<V>, j: nat)
    requires Fits(t, b, he, e) && Appends(t, u, b, he, e) && j < |u.frees|
    ensures LinkedAt(u.entries, u.frees, j)
  {
    var last := Before(t.chains[b], |t.chains[b]|);
    assert t.Chained(b) && (t.chains[b] != [] ==> last in t.chains[b] && t.Filed(last, b) && last !in t.frees);
    assert LinkedAt(t.entries, t.frees, j + 1) && t.frees[j + 1] in t.frees;
  }

  lemma AppendedKey<V>(t: State<V>, u: State<V>, b: nat, he: int, e: Entry<V>, k: seq<Byte>)
    requires Fits(t, b, he, e) && Appends(t, u, b, he, e) && k in t.at
    ensures t.Found(k) && u.Found(k) && SameFor(t, u, k)
  {
    SpareUnused(t, he);
    assert t.Found(k);
  }

  lemma AppendedKeys<V>(t: State<V>, u: State<V>, b: nat, he: int, e: Entry<V>)
    requires Fits(t, b, he, e) && Appends(t, u, b, he, e)
    ensures t.AllFound() && u.AllFound() && Adds(t, u, e.key, e.val)
  {
    AppendedNew(t, u, b, he, e);
    forall k | k in t.at
      ensures t.Found(k) && u.Found(k) && SameFor(t, u, k)
    {
      AppendedKey(t, u, b, he, e, k);
    }
    hide Fits, Appends;
    KeysAdded(t, u, e.key, e.val, he);
  }

  lemma KeysAdded<V>(t: State<V>, u: State<V>, key: seq<Byte>, val: V, he: int)
    requires u.at == t.at[key := he] && u.Found(key) && 0 <= he < |u.entries| && u.entries[he].val == val
    requires forall k :: k in t.at ==> t.Found(k) && u.Found(k) && SameFor(t, u, k)
    ensures t.AllFound() && u.AllFound() && (key !in t.at ==> Adds(t, u, key, val))
  {
    hide State.Found;
  }

  lemma AppendedNew<V>(t: State<V>, u: State<V>, b: nat, he: int, e: Entry<V>)
    requires Fits(t, b, he, e) && Appends(t, u, b, he, e)
    ensures e.key !in t.at && u.at == t.at[e.key := he] && u.Found(e.key) && 0 <= he < |u.entries| && u.entries[he].val == e.val
  {
    SpareUnused(t, he);
    assert (t.chains[b] + [he])[|t.chains[b]|] == he;
  }

  lemma InsertedSound<V>(t: State<V>, u: State<V>, b: nat, he: int, e: Entry<V>)
    requires Fits(t, b, he, e) && Appends(t, u, b, he, e) && u.AllFound()
    ensures u.Sound()
  {
    AppendedOwn(t, u, b, he, e);
    AppendedRest(t, u, b, he, e);
    forall c | 0 <= c <= t.max && c != b
      ensures u.Chained(c)
    {
      AppendedOther(t, u, b, he, e, c);
    }
  }

  // Both tables have the same entry for k, with the same value.
  ghost predicate SameFor<V>(t: State<V>, u: State<V>, k: seq<Byte>)
    requires k in t.at
  {
    && k in u.at && u.at[k] == t.at[k] && 0 <= t.at[k] < |u.entries| && 0 <= t.at[k] < |t.entries|
    && u.entries[t.at[k]].val == t.entries[t.at[k]].val
  }

  ghost predicate AllSame<V>(t: State<V>, u: State<V>, but: seq<Byte>) {
    forall k :: k in t.at && k != but ==> SameFor(t, u, k)
  }

  // u has an entry with val for key, and t's entries for the other keys.
  ghost predicate Adds<V>(t: State<V>, u: State<V>, key: seq<Byte>, val: V) {
    u.at.Keys == t.at.Keys + {key} && 0 <= u.at[key] < |u.entries| && u.entries[u.at[key]].val == val && AllSame(t, u, key)
  }

  lemma ModelWith<V>(t: State<V>, u: State<V>, key: seq<Byte>, val: V)
    requires t.AllFound() && u.AllFound() && Adds(t, u, key, val)
    ensures u.Model() == t.Model()[key := val]
  {
    var a, b := u.Model(), t.Model()[key := val];
    assert a.Keys == b.Keys;
    forall k | k in a.Keys
      ensures a[k] == b[k]
    {
      assert u.Found(k) && (k != key ==> t.Found(k) && SameFor(t, u, k));
    }
  }

  // A new key appended to its chain is added to the map, and nothing else changes.
  lemma Inserted<V>(t: State<V>, u: State<V>, b: nat, he: int, e: Entry<V>)
    requires Fits(t, b, he, e) && Appends(t, u, b, he, e)
    ensures u.Sound() && u.Model() == t.Model()[e.key := e.val]
  {
    AppendedKeys(t, u, b, he, e);
    InsertedSound(t, u, b, he, e);
    ModelWith(t, u, e.key, e.val);
  }

  // u is t without the entry at place i of bucket b, which is the first to be recycled.
  ghost predicate Drops<V>(t: State<V>, u: State<V>, b: nat, i: nat)
    requires b < |t.chains| && i < |t.chains[b]|
  {
    var ids := t.chains[b];
    && u.hasher == t.hasher && u.max == t.max && u.count == t.count - 1 && |u.entries| == |t.entries|
    && (forall x :: 0 <= x < |u.entries| ==> u.entries[x] == Dropped(t, b, i, x))
    && |u.heads| == |t.heads|
    && (forall c :: 0 <= c < |t.heads| ==> u.heads[c] == if c == b && i == 0 then First(ids, 1) else t.heads[c])
    && u.chains == t.chains[b := ids[..i] + ids[i + 1..]]
    && 0 <= ids[i] < |t.entries| && u.at == t.at - {t.entries[ids[i]].key}
    && u.free == ids[i] && u.frees == [ids[i]] + t.frees
  }

  ghost function Dropped<V>(t: State<V>, b: nat, i: nat, x: nat): Entry<V>
    requires b < |t.chains| && i < |t.chains[b]| && x < |t.entries|
  {
    if x == t.chains[b][i] then t.entries[x].(next := t.free)
    else if x == Before(t.chains[b], i) then t.entries[x].(next := First(t.chains[b], i + 1))
    else t.entries[x]
  }

  lemma DroppedOther<V>(t: State<V>, u: State<V>, b: nat, i: nat, c: nat)
    requires t.Sound() && b <= t.max && i < |t.chains[b]| && Drops(t, u, b, i) && c <= t.max && c != b
    ensures u.Chained(c)
  {
    var ids := t.chains[c];
    assert t.Chained(c) && t.Chained(b) && t.Filed(t.chains[b][i], b);
    forall j | 0 <= j < |ids|
      ensures LinkedAt(u.entries, ids, j) && u.Filed(ids[j], c)
    {
      assert LinkedAt(t.entries, ids, j) && ids[j] in ids;
      Elsewhere(t, b, i, c, ids[j]);
      Elsewhere(t, b, i + 1, c, ids[j]);
    }
  }

  lemma DroppedOwn<V>(t: State<V>, u: State<V>, b: nat, i: nat)
    requires t.Sound() && b <= t.max && i < |t.chains[b]| && Drops(t, u, b, i)
    ensures u.Chained(b)
  {
    hide State.AllFound, State.Recycled;
    var ids, us := t.chains[b], t.chains[b][..i] + t.chains[b][i + 1..];
    assert t.Chained(b) && u.chains[b] == us;
    forall j | 0 <= j < |us|
      ensures LinkedAt(u.entries, us, j) && u.Filed(us[j], b)
    {
      var l := if j < i then j else j + 1;
      assert us[j] == ids[l] && LinkedAt(t.entries, ids, l) && ids[l] in ids && t.Filed(ids[l], b) && t.Filed(ids[i], b);
      assert ids[l] != ids[i] && (i > 0 && l != i - 1 ==> ids[l] != ids[i - 1]);
    }
    assert First(us, 0) == First(ids, if i == 0 then 1 else 0);
    DistinctWithout(ids, i);
  }

  lemma DistinctWithout(ids: seq<int>, i: nat)
    requires Distinct(ids) && i < |ids|
    ensures Distinct(ids[..i] + ids[i + 1..])
  {
    var us := ids[..i] + ids[i + 1..];
    forall j, l | 0 <= j < l < |us|
      ensures us[j] != us[l]
    {
      assert us[j] == ids[if j < i then j else j + 1] && us[l] == ids[if l < i then l else l + 1];
    }
  }

  lemma DroppedKeys<V>(t: State<V>, u: State<V>, b: nat, i: nat)
    requires t.Sound() && b <= t.max && i < |t.chains[b]| && Drops(t, u, b, i)
    ensures (forall k :: k in u.at ==> u.Found(k) && SameFor(t, u, k))
    ensures t.entries[t.chains[b][i]].key in t.at
  {
    assert t.Chained(b) && t.Filed(t.chains[b][i], b);
    forall k | k in u.at
      ensures u.Found(k) && SameFor(t, u, k)
    {
      DroppedKey(t, u, b, i, k);
    }
  }

  lemma DroppedRest<V>(t: State<V>, u: State<V>, b: nat, i: nat)
    requires t.Sound() && b <= t.max && i < |t.chains[b]| && Drops(t, u, b, i)
    ensures u.Recycled()
  {
    hide State.AllFound;
    var ids, id := t.chains[b], t.chains[b][i];
    assert t.Chained(b) && id in ids && t.Filed(id, b);
    assert i > 0 ==> ids[i - 1] in ids && t.Filed(ids[i - 1], b);
    forall k | k in u.at
      ensures t.at[k] != id
    {
      DroppedKey(t, u, b, i, k);
    }
    assert id !in t.frees && (i > 0 ==> ids[i - 1] !in t.frees);
    forall j | 0 <= j < |u.frees|
      ensures LinkedAt(u.entries, u.frees, j)
    {
      assert j > 0 ==> LinkedAt(t.entries, t.frees, j - 1) && t.frees[j - 1] in t.frees;
    }
  }

  // The entry of another key stays in its chain.
  lemma DroppedKey<V>(t: State<V>, u: State<V>, b: nat, i: nat, k: seq<Byte>)
    requires t.Sound() && b <= t.max && i < |t.chains[b]| && Drops(t, u, b, i) && k in u.at
    ensures t.Found(k) && t.at[k] != t.chains[b][i] && t.at[k] in u.chains[t.BucketOf(k)]
  {
    hide State.BucketOf, State.Filed;
    var ids, c := t.chains[b], t.BucketOf(k);
    assert t.Chained(b) && t.Filed(ids[i], b) && t.Found(k);
    var j :| 0 <= j < |t.chains[c]| && t.chains[c][j] == t.at[k];
    if c == b {
      assert u.chains[b][if j < i then j else j - 1] == t.at[k];
    }
  }

  lemma DroppedSound<V>(t: State<V>, u: State<V>, b: nat, i: nat)
    requires t.Sound() && b <= t.max && i < |t.chains[b]| && Drops(t, u, b, i)
    ensures u.Sound() && forall k :: k in u.at ==> SameFor(t, u, k)
  {
    DroppedOwn(t, u, b, i);
    DroppedRest(t, u, b, i);
    DroppedKeys(t, u, b, i);
    forall c | 0 <= c <= t.max && c != b
      ensures u.Chained(c)
    {
      DroppedOther(t, u, b, i, c);
    }
  }

  lemma ModelWithout<V>(t: State<V>, u: State<V>, key: seq<Byte>)
    requires t.AllFound() && u.AllFound()
    requires u.at == t.at - {key} && forall k :: k in u.at ==> SameFor(t, u, k)
    ensures u.Model() == t.Model() - {key}
  {
    var a, b := u.Model(), t.Model() - {key};
    assert a.Keys == b.Keys;
    forall k | k in a.Keys
      ensures a[k] == b[k]
    {
      assert u.Found(k) && t.Found(k) && SameFor(t, u, k);
    }
  }

  // Dropping an entry removes its key from the map, and nothing else changes.
  lemma Deleted<V>(t: State<V>, u: State<V>, b: nat, i: nat)
    requires t.Sound() && b <= t.max && i < |t.chains[b]| && Drops(t, u, b, i)
    ensures u.Sound() && u.Model() == t.Model() - {t.entries[t.chains[b][i]].key}
  {
    DroppedSound(t, u, b, i);
    ModelWithout(t, u, t.entries[t.chains[b][i]].key);
  }

  // A value replaced in its entry.
  lemma Replaced<V>(t: State<V>, u: State<V>, key: seq<Byte>, val: V)
    requires t.Sound() && key in t.at && t.Found(key)
    requires u == t.(entries := t.entries[t.at[key] := t.entries[t.at[key]].(val := val)])
    ensures u.Sound() && u.Model() == t.Model()[key := val]
  {
    forall c | 0 <= c <= t.max
      ensures u.Chained(c)
    {
      assert t.Chained(c);
      forall j | 0 <= j < |t.chains[c]|
        ensures LinkedAt(u.entries, t.chains[c], j) && u.Filed(t.chains[c][j], c)
      {
        assert LinkedAt(t.entries, t.chains[c], j) && t.Filed(t.chains[c][j], c);
      }
    }
    forall k | k in t.at
      ensures u.Found(k) && (k != key ==> SameFor(t, u, k))
    {
      assert t.Found(k);
    }
    forall j | 0 <= j < |t.frees|
      ensures LinkedAt(u.entries, t.frees, j)
    {
      assert LinkedAt(t.entries, t.frees, j);
    }
    ModelWith(t, u, key, val);
  }

  // t after the entry at place i of bucket b, which hep points to, has been cut out and recycled.
  ghost function Cut<V>(t: State<V>, hep: Loc, b: nat, i: nat, key: seq<Byte>): State<V>
    requires b < |t.chains| && i < |t.chains[b]| && t.count > 0 && 0 <= t.chains[b][i] < |t.entries|
  {
    var ids, dead := t.chains[b], t.chains[b][i];
    var v := t.Assign(hep, t.entries[dead].next);
    v.(entries := v.entries[dead := v.entries[dead].(next := t.free)], free := dead, count := t.count - 1,
       chains := t.chains[b := ids[..i] + ids[i + 1..]], frees := [dead] + t.frees, at := t.at - {key})
  }

  lemma CutDrops<V>(t: State<V>, hep: Loc, b: nat, i: nat, key: seq<Byte>)
    requires t.Sound() && b <= t.max && i < |t.chains[b]| && t.Points(hep, b, i) && key in t.at && t.at[key] == t.chains[b][i]
    ensures t.count > 0 && t.Deref(hep) == t.chains[b][i] && 0 <= t.chains[b][i] < |t.entries|
    ensures Drops(t, Cut(t, hep, b, i, key), b, i)
    ensures Cut(t, hep, b, i, key).Sound() && Cut(t, hep, b, i, key).Model() == t.Model() - {key}
  {
    DerefIs(t, hep, b, i);
    assert t.Chained(b) && LinkedAt(t.entries, t.chains[b], i) && t.Found(key);
    assert i > 0 ==> LinkedAt(t.entries, t.chains[b], i - 1);
    assert Drops(t, Cut(t, hep, b, i, key), b, i);
    Deleted(t, Cut(t, hep, b, i, key), b, i);
  }

  // t with the entry e at he, which *hep is made to point to.
  ghost function Grown<V>(t: State<V>, hep: Loc, b: nat, he: int, e: Entry<V>): State<V>
    requires b < |t.chains|
  {
    var es := if 0 <= he < |t.entries| then t.entries[he := e] else t.entries + [e];
    t.(entries := es).Assign(hep, he).(free := First(t.frees, 1), count := t.count + 1, chains := t.chains[b := t.chains[b] + [he]],
       frees := if t.frees == [] then [] else t.frees[1..], at := t.at[e.key := he])
  }

  lemma GrownAppends<V>(t: State<V>, hep: Loc, b: nat, he: int, e: Entry<V>)
    requires Fits(t, b, he, e) && t.Points(hep, b, |t.chains[b]|)
    ensures Grown(t, hep, b, he, e).Sound() && Grown(t, hep, b, he, e).Model() == t.Model()[e.key := e.val]
    ensures t.frees == [] ==> t.free == NONE && he == |t.entries|
    ensures t.frees != [] ==> t.free == he && 0 <= he < |t.entries| && t.entries[he].next == First(t.frees, 1)
  {
    SpareUnused(t, he);
    assert t.Chained(b) && (t.chains[b] != [] ==> LinkedAt(t.entries, t.chains[b], |t.chains[b]| - 1));
    assert t.frees != [] ==> LinkedAt(t.entries, t.frees, 0);
    assert Appends(t, Grown(t, hep, b, he, e), b, he, e);
    Inserted(t, Grown(t, hep, b, he, e), b, he, e);
  }

  // The search ends at an entry exactly when the key is in the map, and then at its entry.
  lemma SeekEnd<V>(t: State<V>, key: seq<Byte>, he: int, i: nat)
    requires t.Sound() && t.BucketOf(key) <= t.max && he == First(t.chains[t.BucketOf(key)], i)
    requires i <= |t.chains[t.BucketOf(key)]| && (key in t.at <==> i < |t.chains[t.BucketOf(key)]|) && (key in t.at ==> he == t.at[key])
    ensures he != NONE <==> key in t.Model()
    ensures key in t.Model() ==> 0 <= he < |t.entries| && t.entries[he].val == t.Model()[key] && he == t.at[key]
  {
    ChainEnd(t, t.BucketOf(key), i);
    assert key in t.at ==> t.Found(key);
  }

  lemma Overwrite<V>(m: map<seq<Byte>, V>, key: seq<Byte>, val: V)
    ensures m[key := val][key := val] == m[key := val]
  {
  }
}
