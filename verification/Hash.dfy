// lib/core/ogs-hash.c: the table itself.
module Hash {
  import opened Prelude
  import opened HashKey
  import opened HashSpec
  import opened HashIter

  // ogs_hash_t, with its built-in iterator
  class Table<V> {
    const standard: bool            // hash_func == NULL
    const seed: nat
    const hasher: seq<Byte> -> nat  // the hash of a key, seed included
    var entries: seq<Entry<V>>      // every entry ever allocated
    var heads: seq<int>             // array
    var count: nat
    var max: nat
    var free: int
    var cur: int                    // iterator.this
    var nxt: int                    // iterator.next
    var index: nat                  // iterator.index
    ghost var chains: seq<seq<int>>
    ghost var frees: seq<int>
    ghost var at: map<seq<Byte>, int>

    ghost function Now(): State<V>
      reads this
    {
      State(hasher, entries, heads, count, max, free, chains, frees, at)
    }

    ghost predicate Valid()
      reads this
    {
      Now().Sound() && count <= max
    }

    // hashfunc_default is what a table without a hash function of its own uses.
    ghost predicate Hashes() {
      standard ==> forall key :: hasher(key) == Times33(key, seed)
    }

    // ogs_hash_make
    constructor Make(seed: nat)
      ensures Valid() && Hashes() && Now().Model() == map[] && max == 15
    {
      this.standard, this.seed, this.hasher := true, seed, key => Times33(key, seed);
      entries, frees, at := [], [], map[];
      heads := seq(16, _ => NONE);
      chains := seq(16, _ => []);
      count, max, free := 0, 15, NONE;
      cur, nxt, index := NONE, NONE, 0;
      new;
      assert Pow2(4) == 16;
    }

    // ogs_hash_make_custom
    constructor MakeCustom(hasher: seq<Byte> -> nat)
      ensures Valid() && Hashes() && Now().Model() == map[] && max == 15 && this.hasher == hasher
    {
      this.standard, this.seed, this.hasher := false, 0, hasher;
      entries, frees, at := [], [], map[];
      heads := seq(16, _ => NONE);
      chains := seq(16, _ => []);
      count, max, free := 0, 15, NONE;
      cur, nxt, index := NONE, NONE, 0;
      new;
      assert Pow2(4) == 16;
    }

    // The hash of the key at mem, and the key with its length made explicit.
    method HashKey(mem: seq<Byte>, klen: int) returns (hash: nat, key: seq<Byte>)
      requires Hashes() && Readable(mem, klen)
      ensures key == KeyOf(mem, klen) && hash == hasher(key)
    {
      if standard {
        var length;
        hash, length := HashDefault(mem, klen, seed);
        key := mem[..length];
      } else {
        key := KeyOf(mem, klen);
        hash := hasher(key);
      }
    }

    // ---------- Search, insertion, deletion ----------

    // The search for key ended at place i of its chain, which hep points to.
    ghost predicate Sought(hep: Loc, he: int, key: seq<Byte>, i: nat)
      reads this
    {
      var b := Now().BucketOf(key);
      && b <= max && |chains| == max + 1 && Now().Points(hep, b, i) && he == Now().Deref(hep) == First(chains[b], i)
      && (key in at <==> i < |chains[b]|) && (key in at ==> he == at[key])
    }

    // find_entry without a value: where the key is linked from, or where the chain ends.
    method Seek(key: seq<Byte>, hash: nat) returns (hep: Loc, he: int, ghost i: nat)
      requires Now().Sound() && hash == hasher(key)
      ensures Sought(hep, he, key, i)
    {
      KeyInChain(Now(), key);
      ghost var b := Now().BucketOf(key);
      hep, i := Bucket(And(hash, max)), 0;
      he := heads[And(hash, max)];
      DerefIs(Now(), hep, b, i);
      while he != NONE
        invariant Now().Points(hep, b, i) && he == Now().Deref(hep) == First(chains[b], i)
        invariant forall j :: 0 <= j < i ==> 0 <= chains[b][j] < |entries| && entries[chains[b][j]].key != key
        decreases |chains[b]| - i
      {
        assert Now().Chained(b) && LinkedAt(entries, chains[b], i) && Now().Filed(he, b);
        if entries[he].hash == hash && entries[he].key == key {
          return;
        }
        hep, i := Link(he), i + 1;
        he := entries[he].next;
      }
      ChainEnd(Now(), b, i);
    }

    // *hep = p
    method Write(hep: Loc, p: int)
      modifies this`heads, this`entries
      ensures entries == old(Now()).Assign(hep, p).entries && heads == old(Now()).Assign(hep, p).heads
    {
      match hep
      case Bucket(b) => if b < |heads| { heads := heads[b := p]; }
      case Link(e) => if 0 <= e < |entries| { entries := entries[e := entries[e].(next := p)]; }
    }

    function Deref(hep: Loc): int
      reads this
    {
      match hep
      case Bucket(b) => if b < |heads| then heads[b] else NONE
      case Link(e) => if 0 <= e < |entries| then entries[e].next else NONE
    }

    // The part of find_entry for a key that is new: an entry, recycled if there is one, is filled
    // and put where the chain ended.
    method Insert(hep: Loc, key: seq<Byte>, hash: nat, val: V, ghost b: nat) returns (he: int)
      requires Now().Sound() && hash == hasher(key) && key !in at && b == Now().BucketOf(key) <= max
      requires Now().Points(hep, b, |chains[b]|)
      modifies this`entries, this`heads, this`count, this`free, this`chains, this`frees, this`at
      ensures Now().Sound() && Now().Model() == old(Now()).Model()[key := val]
      ensures max == old(max) && count == old(count) + 1 && key in at && he == at[key]
    {
      ghost var t, spare := Now(), if frees != [] then frees[0] else |entries|;
      var e := Entry(NONE, hash, key, val);
      GrownAppends(t, hep, b, spare, e);
      he := PutEntry(hep, e, b, spare);
    }

    method PutEntry(hep: Loc, e: Entry<V>, ghost b: nat, ghost spare: int) returns (he: int)
      requires b < |chains|
      requires if frees == [] then free == NONE && spare == |entries|
               else free == spare && 0 <= spare < |entries| && entries[spare].next == First(frees, 1)
      modifies this`entries, this`heads, this`count, this`free, this`chains, this`frees, this`at
      ensures Now() == Grown(old(Now()), hep, b, spare, e) && he == spare
    {
      ghost var u := Grown(Now(), hep, b, spare, e);
      he := free;
      if he != NONE {
        free := entries[he].next;
        entries := entries[he := e];
      } else {
        he := |entries|;
        entries := entries + [e];
      }
      Write(hep, he);
      count := count + 1;
      chains, frees, at := u.chains, u.frees, u.at;
    }

    // The part of ogs_hash_set that deletes the entry *hep.
    method Remove(hep: Loc, ghost key: seq<Byte>, ghost b: nat, ghost i: nat)
      requires Now().Sound() && b <= max && i < |chains[b]| && Now().Points(hep, b, i)
      requires key in at && at[key] == chains[b][i]
      modifies this`entries, this`heads, this`count, this`free, this`chains, this`frees, this`at
      ensures Now().Sound() && Now().Model() == old(Now()).Model() - {key}
      ensures Drops(old(Now()), Now(), b, i)
    {
      CutDrops(Now(), hep, b, i, key);
      CutEntry(hep, key, b, i);
    }

    method CutEntry(hep: Loc, ghost key: seq<Byte>, ghost b: nat, ghost i: nat)
      requires b < |chains| && i < |chains[b]| && count > 0 && 0 <= chains[b][i] < |entries| && Now().Deref(hep) == chains[b][i]
      modifies this`entries, this`heads, this`count, this`free, this`chains, this`frees, this`at
      ensures Now() == Cut(old(Now()), hep, b, i, key)
    {
      ghost var u := Cut(Now(), hep, b, i, key);
      var dead := Deref(hep);
      Write(hep, entries[dead].next);
      entries := entries[dead := entries[dead].(next := free)];
      free, count := dead, count - 1;
      chains, frees, at := u.chains, u.frees, u.at;
    }

    // (*hep)->val = val
    method Replace(he: int, key: seq<Byte>, val: V)
      requires Now().Sound() && key in at && he == at[key]
      modifies this`entries
      ensures Now().Sound() && Now().Model() == old(Now()).Model()[key := val]
    {
      ghost var t := Now();
      assert t.Found(key);
      entries := entries[he := entries[he].(val := val)];
      Replaced(t, Now(), key, val);
    }

    // ---------- Operations ----------

    // ogs_hash_get
    method Get(mem: seq<Byte>, klen: int) returns (val: Option<V>)
      requires Valid() && Hashes() && Readable(mem, klen)
      ensures var key := KeyOf(mem, klen); val == if key in Now().Model() then Some(Now().Model()[key]) else None
    {
      var hash, key := HashKey(mem, klen);
      var hep, he;
      ghost var i;
      hep, he, i := Seek(key, hash);
      SeekEnd(Now(), key, he, i);
      return if he != NONE then Some(entries[he].val) else None;
    }

    // ogs_hash_set; None stands for a null value, which deletes the key
    method Set(mem: seq<Byte>, klen: int, val: Option<V>)
      requires Valid() && Hashes() && Readable(mem, klen)
      modifies this
      ensures Valid()
      ensures var key := KeyOf(mem, klen);
        Now().Model() == if val.Some? then old(Now()).Model()[key := val.value] else old(Now()).Model() - {key}
    {
      var hash, key := HashKey(mem, klen);
      if val.Some? {
        Store(key, hash, val.value);
      } else {
        ghost var i := Delete(key, hash);
      }
    }

    method Store(key: seq<Byte>, hash: nat, val: V)
      requires Valid() && hash == hasher(key)
      modifies this
      ensures Valid() && Now().Model() == old(Now()).Model()[key := val]
    {
      var hep, he;
      ghost var i;
      hep, he, i := Seek(key, hash);
      Place(hep, he, key, hash, val, i);
      if count > max {
        ExpandArray();
      }
    }

    method Place(hep: Loc, found: int, key: seq<Byte>, hash: nat, val: V, ghost i: nat)
      requires Now().Sound() && hash == hasher(key) && Sought(hep, found, key, i)
      modifies this
      ensures Now().Sound() && Now().Model() == old(Now()).Model()[key := val]
      ensures max == old(max) && count <= old(count) + 1
    {
      var he := found;
      SeekEnd(Now(), key, he, i);
      ghost var m := Now().Model();
      if he == NONE {
        he := Insert(hep, key, hash, val, Now().BucketOf(key));
      }
      Replace(he, key, val);
      Overwrite(m, key, val);
    }

    method Delete(key: seq<Byte>, hash: nat) returns (ghost i: nat)
      requires Valid() && hash == hasher(key)
      modifies this`entries, this`heads, this`count, this`free, this`chains, this`frees, this`at
      ensures Valid() && Now().Model() == old(Now()).Model() - {key}
      ensures key !in old(at) ==> Now() == old(Now())
      ensures key in old(at) ==> var t, b := old(Now()), old(Now()).BucketOf(key);
        b <= t.max && i < |t.chains[b]| && t.chains[b][i] == t.at[key] && Drops(t, Now(), b, i)
    {
      var hep, he;
      hep, he, i := Seek(key, hash);
      SeekEnd(Now(), key, he, i);
      if he != NONE {
        Remove(hep, key, Now().BucketOf(key), i);
      } else {
        assert Now().Model() - {key} == Now().Model();
      }
    }

    // ogs_hash_get_or_set
    method GetOrSet(mem: seq<Byte>, klen: int, val: Option<V>) returns (r: Option<V>)
      requires Valid() && Hashes() && Readable(mem, klen)
      modifies this
      ensures Valid()
      ensures var key, m := KeyOf(mem, klen), old(Now()).Model();
        && r == (if key in m then Some(m[key]) else val)
        && Now().Model() == if key in m || val.None? then m else m[key := val.value]
    {
      var hash, key := HashKey(mem, klen);
      var hep, he;
      ghost var i;
      hep, he, i := Seek(key, hash);
      SeekEnd(Now(), key, he, i);
      r := val;
      if he != NONE {
        r := Some(entries[he].val);
      } else if val.Some? {
        he := Insert(hep, key, hash, val.value, Now().BucketOf(key));
      }
      if count > max {
        ExpandArray();
      }
    }

    // ---------- Iteration ----------

    // The iterator stands before place i of the last bucket it opened.
    ghost predicate Walking(i: nat)
      reads this
    {
      |heads| == max + 1 && Stands(entries, heads, chains, index, nxt, i)
    }

    // It is at the entry before place i, and visits todo after it.
    ghost predicate Here(i: nat, todo: seq<int>)
      reads this
    {
      && Current(Now(), index, i, cur) && Walking(i) && ToGo(chains, index, i) == todo
    }

    // ogs_hash_next
    method Next(ghost i: nat) returns (found: bool, ghost j: nat)
      requires Walking(i)
      modifies this`cur, this`nxt, this`index
      ensures var todo := ToGo(chains, old(index), i);
        && (found <==> todo != [])
        && (found ==> Here(j, todo[1..]) && todo == [cur] + todo[1..])
    {
      hide Stands, ToGo;
      cur := nxt;
      j := OpenBuckets(i);
      if cur == NONE {
        return false, j;
      }
      TakeEntry(entries, heads, chains, index, cur, j);
      nxt, j := entries[cur].next, j + 1;
      found := true;
    }

    method OpenBuckets(ghost i: nat) returns (ghost j: nat)
      requires |heads| == max + 1 && Stands(entries, heads, chains, index, cur, i)
      modifies this`cur, this`index
      ensures Stands(entries, heads, chains, index, cur, j) && ToGo(chains, index, j) == ToGo(chains, old(index), i)
      ensures cur == NONE ==> ToGo(chains, index, j) == []
    {
      j := i;
      while cur == NONE
        invariant Stands(entries, heads, chains, index, cur, j) && ToGo(chains, index, j) == ToGo(chains, old(index), i)
        decreases |heads| - index
      {
        if index > max {
          EndOfWalk(entries, heads, chains, index, j);
          return;
        }
        OpenBucket(entries, heads, chains, index, j);
        cur, index, j := heads[index], index + 1, 0;
      }
    }

    // ogs_hash_first
    method FirstEntry() returns (found: bool, ghost j: nat)
      requires Now().Sound()
      modifies this`cur, this`nxt, this`index
      ensures found <==> Flat(chains) != []
      ensures found ==> Here(j, Flat(chains)[1..]) && Flat(chains) == [cur] + Flat(chains)[1..]
    {
      cur, nxt, index := NONE, NONE, 0;
      StartAhead(Now());
      found, j := Next(0);
    }

    // ---------- Rehash ----------

    // The walk over t has todo left, from the entry it is at when found says that it is at one.
    ghost predicate Left(t: State<V>, found: bool, i: nat, todo: seq<int>)
      reads this
    {
      && (if found then todo != [] && todo[0] == cur && Here(i, todo[1..]) else todo == [])
      && Distinct(todo) && forall x :: x in todo ==> Live(t, x) && x !in t.frees
    }

    // expand_array
    method ExpandArray()
      requires Now().Sound()
      modifies this
      ensures Now().Sound() && Now().Model() == old(Now()).Model()
      ensures count == old(count) && max == 2 * old(max) + 1
    {
      hide State.Sound;
      ghost var t, newChains := Now(), [];
      var newArray;
      newArray, newChains := MoveAll(t);
      EndMoving(t, entries, newArray, newChains);
      heads, max := newArray, max * 2 + 1;
      chains := newChains;
    }

    method MoveAll(ghost t: State<V>) returns (newArray: seq<int>, ghost newChains: seq<seq<int>>)
      requires t == Now() && t.Sound()
      modifies this`entries, this`cur, this`nxt, this`index
      ensures Now() == t.(entries := entries) && Moving(t, entries, newArray, newChains, [])
    {
      hide Moving, Flat, Here;
      ghost var todo := Flat(chains);
      newArray, newChains := seq(max * 2 + 2, _ => NONE), seq(max * 2 + 2, _ => []);
      StartMoving(t);
      assert t.AllFound();
      hide State.Sound, Stands, ToGo, Moving, Live, State.AllFound, Flat, Here;
      var found;
      ghost var i;
      found, i := FirstLeft(t);
      while found
        invariant Now() == t.(entries := entries) && Left(t, found, i, todo)
        invariant Moving(t, entries, newArray, newChains, todo)
        decreases |todo|
      {
        newArray, newChains, found, i := MoveOne(newArray, newChains, t, i, todo);
        todo := todo[1..];
      }
    }

    method FirstLeft(ghost t: State<V>) returns (found: bool, ghost j: nat)
      requires t == Now() && t.Sound()
      modifies this`cur, this`nxt, this`index
      ensures Left(t, found, j, Flat(chains))
    {
      EachOnce(t);
      hide State.Sound, Stands, ToGo, Live, Flat;
      found, j := FirstEntry();
    }

    // One turn of its loop.
    method MoveOne(array0: seq<int>, ghost chains0: seq<seq<int>>, ghost t: State<V>, ghost i: nat, ghost todo: seq<int>)
      returns (newArray: seq<int>, ghost newChains: seq<seq<int>>, found: bool, ghost j: nat)
      requires Now() == t.(entries := entries) && t.AllFound() && Left(t, true, i, todo) && Moving(t, entries, array0, chains0, todo)
      modifies this`entries, this`cur, this`nxt, this`index
      ensures Now() == t.(entries := entries) && todo != [] && Left(t, found, j, todo[1..])
      ensures Moving(t, entries, newArray, newChains, todo[1..])
    {
      hide Stands, ToGo, Moving, Live, State.AllFound;
      MovingHead(t, entries, array0, chains0, todo);
      var c := And(entries[cur].hash, max * 2 + 1);
      Move(t, entries, array0, chains0, todo, c);
      newArray, newChains := array0[c := cur], chains0[c := [cur] + chains0[c]];
      Relink(array0[c], t, i, todo);
      found, j := Next(i);
    }

    // hi->this->next = next
    method Relink(next: int, ghost t: State<V>, ghost i: nat, ghost todo: seq<int>)
      requires Left(t, true, i, todo)
      modifies this`entries
      ensures entries == old(entries)[cur := old(entries)[cur].(next := next)]
      ensures Walking(i) && ToGo(chains, index, i) == todo[1..]
      ensures Distinct(todo[1..]) && forall x :: x in todo[1..] ==> Live(t, x) && x !in t.frees
    {
      assert forall j :: 1 <= j < |todo| ==> todo[j] != todo[0];
      AheadApart(entries, entries[cur := entries[cur].(next := next)], heads, index, nxt, Pending(chains, index, i));
      entries := entries[cur := entries[cur].(next := next)];
    }

    // ---------- Walks that delete the entry they are at ----------

    // The walk over t, which deletes the keys of drop, has n entries behind it.
    ghost predicate Walks(t: State<V>, drop: set<seq<Byte>>, found: bool, i: nat, n: nat)
      reads this
    {
      && Valid() && Midway(t, Now(), drop, n)
      && (if found then n < |Flat(t.chains)| && cur == Flat(t.chains)[n] && Here(i, Flat(t.chains)[n + 1..]) else n == |Flat(t.chains)|)
    }

    // Walks over the table, deleting the keys of drop as it meets them.
    method Sweep(drop: set<seq<Byte>>) returns (visited: seq<seq<Byte>>)
      requires Valid()
      modifies this
      ensures Valid() && Now().Model() == old(Now()).Model() - drop
      ensures Once(visited, old(Now()).Model().Keys)
    {
      ghost var t, n := Now(), 0;
      visited := [];
      StartWalk(t, drop);
      var found;
      ghost var i;
      found, i := FirstEntry();
      while found
        invariant Walks(t, drop, found, i, n) && visited == Walked(t, n)
        decreases |Flat(t.chains)| - n
      {
        hide Midway, Stands, ToGo, Walked, KeyAt, State.Sound;
        visited := visited + [entries[cur].key];
        WalkedOn(t, n);
        i := Step(entries[cur].key in drop, t, drop, i, n);
        n := n + 1;
        found, i := NextStep(t, drop, i, n);
      }
      EndWalk(t, Now(), drop);
    }

    method NextStep(ghost t: State<V>, ghost drop: set<seq<Byte>>, ghost i: nat, ghost n: nat) returns (found: bool, ghost j: nat)
      requires Valid() && Midway(t, Now(), drop, n) && n <= |Flat(t.chains)|
      requires Walking(i) && ToGo(chains, index, i) == Flat(t.chains)[n..]
      modifies this`cur, this`nxt, this`index
      ensures Walks(t, drop, found, j, n)
    {
      hide Midway, Stands, ToGo, State.Sound;
      found, j := Next(i);
    }

    // The body of such a walk.
    method Step(kill: bool, ghost t: State<V>, ghost drop: set<seq<Byte>>, ghost i: nat, ghost n: nat) returns (ghost j: nat)
      requires Walks(t, drop, true, i, n) && kill == (entries[cur].key in drop)
      modifies this`entries, this`heads, this`count, this`free, this`chains, this`frees, this`at
      ensures Valid() && Midway(t, Now(), drop, n + 1) && old(entries)[cur].key == KeyAt(t, n)
      ensures Walking(j) && ToGo(chains, index, j) == Flat(t.chains)[n + 1..]
    {
      ghost var u := Now();
      j := i;
      if kill {
        j := DeleteHere(i, Flat(t.chains)[n + 1..]);
      }
      assert Now().AllFound();
      hide State.Sound, Stands, ToGo, Pruned;
      WalkOn(t, u, Now(), drop, n);
    }

    // ogs_hash_set(ht, hi->this->key, hi->this->klen, NULL)
    method DeleteHere(ghost i: nat, ghost todo: seq<int>) returns (ghost j: nat)
      requires Valid() && Here(i, todo)
      modifies this`entries, this`heads, this`count, this`free, this`chains, this`frees, this`at
      ensures Valid() && Now().Model() == old(Now()).Model() - {old(entries)[cur].key}
      ensures SameKeys(old(Now()), Now())
      ensures Walking(j) && ToGo(chains, index, j) == todo
    {
      hide Stands, ToGo, State.Sound, Drops, Current, SameKeys;
      ghost var u, id := Now(), cur;
      CurrentIs(u, index, i, cur);
      var key := entries[cur].key;
      ghost var p := Delete(key, hasher(key));
      j := i - 1;
      DropCurrent(u, Now(), index, nxt, i, p, id);
    }

    // ogs_hash_clear.  The deletion of an entry demands a key that is not empty, and aborts.
    method Clear() returns (aborted: bool)
      requires Valid()
      modifies this
      ensures aborted <==> [] in old(Now()).Model()
      ensures !aborted ==> Valid() && Now().Model() == map[] && count == 0
      ensures !aborted ==> |frees| == |entries| && forall x :: 0 <= x < |entries| ==> x in frees
    {
      ghost var t, n, drop := Now(), 0, Now().Model().Keys;
      StartWalk(t, drop);
      assert [] !in Walked(t, 0);
      hide Midway, Stands, ToGo, Walked, KeyAt, State.Sound;
      var found;
      ghost var i;
      found, i := FirstEntry();
      while found
        invariant Walks(t, drop, found, i, n) && [] !in Walked(t, n)
        decreases |Flat(t.chains)| - n
      {
        AtKey(t, Now(), drop, n, cur);
        if |entries[cur].key| == 0 {
          return true;
        }
        WalkedOn(t, n);
        i := Step(true, t, drop, i, n);
        n := n + 1;
        found, i := NextStep(t, drop, i, n);
      }
      Cleared(t, Now());
      aborted := false;
    }
  }

  // A string key of no characters is stored with length 0, and the table can then not be cleared.
  method EmptyKeyAborts<V>(val: V) returns (aborted: bool)
    ensures aborted
  {
    var table := new Table<V>.Make(0);
    table.Set([0], KEY_STRING, Some(val));
    assert KeyOf([0], KEY_STRING) == [] && [] in table.Now().Model();
    aborted := table.Clear();
  }

  // Storing under one key of klen bytes changes what is found under another exactly when their
  // bytes are the same.
  method KeysApart<V>(table: Table<V>, a: seq<Byte>, b: seq<Byte>, klen: nat, val: V) returns (own: Option<V>, before: Option<V>, after: Option<V>)
    requires table.Valid() && table.Hashes() && 0 < klen <= |a| && klen <= |b|
    modifies table
    ensures own == Some(val)
    ensures after == if forall i :: 0 <= i < klen ==> a[i] == b[i] then Some(val) else before
  {
    ExplicitKeys(a, b, klen);
    hide KeyOf, State.Sound, State.Model;
    before := table.Get(b, klen);
    table.Set(a, klen, Some(val));
    own := table.Get(a, klen);
    after := table.Get(b, klen);
  }
}
