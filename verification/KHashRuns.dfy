/** Whole histories of a khash table: it behaves like a finite map, allocation failures included. */
module KHashRuns {
  import opened Context
  import opened KHash

  datatype Op<K, V> =
    | Put(key: K, val: V, alloc: Alloc)
    | Get(key: K)
    | Del(key: K)
    | Clear
    | Resize(request: nat, alloc: Alloc)

  datatype Reply<V> = Code(ret: int) | Found(val: Option<V>) | Done

  /** What an operation on the map m replies, and the map it leaves: the answers of a finite map, except
      for a put in the overfull case. */
  ghost predicate Answers<K, V>(m: map<K, V>, op: Op<K, V>, r: Reply<V>, m': map<K, V>) {
    match op
    case Put(key, val, alloc) => r.Code? && StoreResult(m, key, val, r.ret, !alloc.AllSucceed(), m')
    case Get(key) => m' == m && r == Found(if key in m then Some(m[key]) else None)
    case Del(key) => m' == m - {key}
    case Clear => m' == map[]
    case Resize(_, alloc) => m' == m && r.Code? && (r.ret == 0 || (r.ret == -1 && !alloc.AllSucceed()))
  }

  /** A put that does not fail leaves the map with its key exactly outside that case. */
  lemma PutStoresUnlessOverfull<K, V>(m: map<K, V>, key: K, val: V, alloc: Alloc, r: Reply<V>, m': map<K, V>)
    requires Answers(m, Put(key, val, alloc), r, m') && r != Code(-1)
    ensures m' == m[key := val] <==> !Overfull(m, key)
  {
    if Overfull(m, key) {
      var k :| k in m && k != key && m' == m[k := val];
      assert key !in m' && key in m[key := val];
    }
  }

  lemma RemoveAbsent<K, V>(m: map<K, V>, key: K)
    requires key !in m
    ensures m - {key} == m
  {
  }

  /** One operation, with the value stored after kh_put and the key looked up before kh_del. The load stays
      within its bound as long as there are fewer than 2 to the 30 keys. */
  method Apply<K(==, 0, !new), V(0)>(t: Table<K, V>, op: Op<K, V>) returns (r: Reply<V>)
    requires t.Valid() && (op.Resize? ==> op.request < TWO_TO_THE_32)
    modifies t, t.Arrays()
    ensures t.Valid() && forall o :: o in t.Arrays() ==> fresh(o) || o in old(t.Arrays())
    ensures Answers(old(t.contents), op, r, t.contents)
    ensures old(t.WithinBound() && |t.contents| < 0x4000_0000) ==> t.WithinBound()
  {
    match op {
      case Put(key, val, alloc) => r := ApplyPut(t, key, val, alloc);
      case Get(key) => r := ApplyGet(t, key);
      case Del(key) => ApplyDel(t, key); r := Done;
      case Clear => t.Clear(); r := Done;
      case Resize(request, alloc) =>
        var ret := t.Resize(request, alloc);
        r := Code(ret);
    }
  }

  method ApplyPut<K(==, 0, !new), V(0)>(t: Table<K, V>, key: K, val: V, alloc: Alloc) returns (r: Reply<V>)
    requires t.Valid()
    modifies t, t.Arrays()
    ensures t.Valid() && forall o :: o in t.Arrays() ==> fresh(o) || o in old(t.Arrays())
    ensures Answers(old(t.contents), Put(key, val, alloc), r, t.contents)
    ensures old(t.WithinBound() && |t.contents| < 0x4000_0000) ==> t.WithinBound()
  {
    if |t.contents| < 0x4000_0000 {
      t.FewKeysLeaveRoom();
    }
    var ret := t.PutValue(key, val, alloc);
    r := Code(ret);
  }

  method ApplyGet<K(==, 0, !new), V(0)>(t: Table<K, V>, key: K) returns (r: Reply<V>)
    requires t.Valid()
    ensures r == Found(if key in t.contents then Some(t.contents[key]) else None)
  {
    var x := t.Get(key);
    r := if x == t.nBuckets then Found(None) else Found(Some(t.vals[x]));
  }

  method ApplyDel<K(==, 0, !new), V(0)>(t: Table<K, V>, key: K)
    requires t.Valid()
    modifies t`size, t`layout, t`contents, t.flags
    ensures t.Valid() && t.contents == old(t.contents) - {key}
  {
    var x := t.Get(key);
    if x == t.nBuckets {
      RemoveAbsent(t.contents, key);
    }
    t.Delete(x);
  }

  ghost predicate IsHistory<K, V>(ops: seq<Op<K, V>>, replies: seq<Reply<V>>, maps: seq<map<K, V>>) {
    && |replies| == |ops| && |maps| == |ops| + 1 && maps[0] == map[]
    && forall i :: 0 <= i < |ops| ==> Answers(maps[i], ops[i], replies[i], maps[i + 1])
  }

  lemma HistoryStep<K, V>(ops: seq<Op<K, V>>, n: nat, replies: seq<Reply<V>>, maps: seq<map<K, V>>,
                          r: Reply<V>, m: map<K, V>)
    requires n < |ops| && IsHistory(ops[..n], replies, maps) && Answers(maps[n], ops[n], r, m)
    ensures IsHistory(ops[..n + 1], replies + [r], maps + [m])
  {
    var replies', maps' := replies + [r], maps + [m];
    forall i | 0 <= i < n + 1 ensures Answers(maps'[i], ops[..n + 1][i], replies'[i], maps'[i + 1]) {
      if i < n {
        assert Answers(maps[i], ops[..n][i], replies[i], maps[i + 1]);
      }
    }
  }

  /** The replies are those of a finite map that starts empty. */
  ghost predicate AnswersLikeMap<K(!new), V(!new)>(ops: seq<Op<K, V>>, replies: seq<Reply<V>>) {
    exists maps :: IsHistory(ops, replies, maps)
  }

  predicate RequestsFit<K, V>(ops: seq<Op<K, V>>) {
    forall i :: 0 <= i < |ops| && ops[i].Resize? ==> ops[i].request < TWO_TO_THE_32
  }

  /** A history of operations on an empty table, with the maps it goes through. The load stays within its
      bound as long as all of them have fewer than 2 to the 30 keys. */
  method ReplayOn<K(==, 0, !new), V(0, !new)>(t: Table<K, V>, ops: seq<Op<K, V>>)
    returns (replies: seq<Reply<V>>, ghost maps: seq<map<K, V>>)
    requires t.Valid() && t.contents == map[] && t.WithinBound() && RequestsFit(ops)
    modifies t, t.Arrays()
    ensures t.Valid() && IsHistory(ops, replies, maps) && t.contents == maps[|ops|]
    ensures FewKeys(maps) ==> t.WithinBound()
  {
    maps := [map[]];
    replies := [];
    for n := 0 to |ops|
      invariant t.Valid() && forall o :: o in t.Arrays() ==> fresh(o) || o in old(t.Arrays())
      invariant IsHistory(ops[..n], replies, maps) && t.contents == maps[n]
      invariant FewKeys(maps) ==> t.WithinBound()
    {
      assert FewKeys(maps) ==> |maps[n]| < 0x4000_0000;
      var r := Apply(t, ops[n]);
      HistoryStep(ops, n, replies, maps, r, t.contents);
      FewKeysBefore(maps, t.contents);
      replies, maps := replies + [r], maps + [t.contents];
    }
    assert ops[..|ops|] == ops;
  }

  ghost predicate FewKeys<K, V>(maps: seq<map<K, V>>) {
    forall i :: 0 <= i < |maps| ==> |maps[i]| < 0x4000_0000
  }

  lemma FewKeysBefore<K, V>(maps: seq<map<K, V>>, m: map<K, V>)
    ensures FewKeys(maps + [m]) ==> FewKeys(maps)
  {
    if FewKeys(maps + [m]) {
      forall i | 0 <= i < |maps| ensures |maps[i]| < 0x4000_0000 {
        assert (maps + [m])[i] == maps[i];
      }
    }
  }

  /** Every history from an empty table answers like a finite map, short of the overfull case. */
  method Replay<K(==, 0, !new), V(0, !new)>(hash: K -> nat, ops: seq<Op<K, V>>) returns (replies: seq<Reply<V>>)
    requires RequestsFit(ops)
    ensures AnswersLikeMap(ops, replies)
  {
    var t := new Table<K, V>(hash);
    ghost var maps;
    replies, maps := ReplayOn(t, ops);
  }

  /** The map that sends 0 to n - 1 to 0. */
  ghost predicate IsZeros(m: map<int, int>, n: nat) {
    |m| == n && forall k :: (k in m <==> 0 <= k < n) && (k in m ==> m[k] == 0)
  }

  lemma ZerosGrow(m: map<int, int>, n: nat)
    requires IsZeros(m, n)
    ensures n !in m && IsZeros(m[n := 0], n + 1)
  {
  }

  /** Puts of 0 to n - 1 into an empty table. */
  method Fill(t: Table<int, int>, n: nat)
    requires t.Valid() && t.contents == map[] && n <= MAX_BUCKETS
    modifies t, t.Arrays()
    ensures t.Valid() && IsZeros(t.contents, n) && forall o :: o in t.Arrays() ==> fresh(o) || o in old(t.Arrays())
  {
    for i := 0 to n
      invariant t.Valid() && forall o :: o in t.Arrays() ==> fresh(o) || o in old(t.Arrays())
      invariant IsZeros(t.contents, i)
    {
      ZerosGrow(t.contents, i);
      var _ := t.PutValue(i, 0, NO_FAILURE);
    }
  }

  /** One more put then reports that its key was present and overwrites the value of another. */
  method PutOneMore(t: Table<int, int>, key: int, val: int) returns (ret: int)
    requires t.Valid() && Overfull(t.contents, key)
    modifies t, t.Arrays()
    ensures t.Valid() && ret == 0 && Overwritten(old(t.contents), key, val, t.contents)
  {
    ghost var m := t.contents;
    ret := t.PutValue(key, val, NO_FAILURE);
    OverfullOverwrites(m, key, val, ret, t.contents);
  }

  /** The map did not get the key, and some other key has its value. */
  ghost predicate Overwritten<K, V>(m: map<K, V>, key: K, val: V, m': map<K, V>) {
    key !in m' && exists k :: k in m && m' == m[k := val]
  }

  lemma OverfullOverwrites<K, V>(m: map<K, V>, key: K, val: V, ret: int, m': map<K, V>)
    requires Overfull(m, key) && StoreResult(m, key, val, ret, false, m')
    ensures ret == 0 && Overwritten(m, key, val, m')
  {
    var k :| k in m && k != key && m' == m[k := val];
    assert key !in m';
  }

  /** So the overfull case is reached from an empty table, after 2 to the 31 puts of keys of their own, all
      of which are stored. */
  method FillUp(hash: int -> nat, key: int, val: int)
    returns (ret: int, found: bool, ghost full: map<int, int>, ghost after: map<int, int>)
    requires !(0 <= key < MAX_BUCKETS)
    ensures IsZeros(full, MAX_BUCKETS) && Overfull(full, key)
    ensures ret == 0 && !found && Overwritten(full, key, val, after)
  {
    var t := new Table<int, int>(hash);
    Fill(t, MAX_BUCKETS);
    full := t.contents;
    ret := PutOneMore(t, key, val);
    after := t.contents;
    var x := t.Get(key);
    found := x != t.nBuckets;
  }
}
