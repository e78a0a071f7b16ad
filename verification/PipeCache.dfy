/** The daemon's pipeline cache: 16 entries, found by hash, evicted round-robin unless pinned (get_pipe, unpin_all). */
module PipeCache {
  import opened Bytes

  const PCACHE: nat := 16

  /** What a pipeline is built from. */
  datatype Key = Key(spirv: seq<byte>, nbuf: nat)

  /** `pipe` is the compiled pipeline itself: the key it really was built from. */
  datatype Entry = Empty | Entry(pin: bool, hash: nat, slen: nat, nbuf: nat, pipe: Key)

  datatype Lookup = Found(idx: nat) | Exhausted | DriverFailed

  /** The hash tells apart the programs seen, at equal lengths. */
  ghost predicate Separates(hash: seq<byte> -> nat, seen: set<Key>) {
    forall a <- seen, b <- seen :: hash(a.spirv) == hash(b.spirv) && |a.spirv| == |b.spirv| ==> a.spirv == b.spirv
  }

  predicate Pinned(e: Entry) {
    e.Entry? && e.pin
  }

  /** An entry's fields describe the pipeline it holds. */
  predicate Describes(e: Entry, hash: seq<byte> -> nat) {
    e.Entry? ==> e.hash == hash(e.pipe.spirv) && e.slen == |e.pipe.spirv| && e.nbuf == e.pipe.nbuf
  }

  ghost predicate Consistent(pc: seq<Entry>, hash: seq<byte> -> nat, seen: set<Key>) {
    && |pc| == PCACHE
    && (forall i :: 0 <= i < PCACHE ==> Describes(pc[i], hash) && (pc[i].Entry? ==> pc[i].pipe in seen))
    && (forall i, j :: 0 <= i < j < PCACHE && pc[i].Entry? && pc[j].Entry? ==> pc[i].pipe != pc[j].pipe)
  }

  // ------------------------------------------------------------------ counting

  /** The keys of the pinned entries among the first n. */
  ghost function PinnedKeys(pc: seq<Entry>, n: nat): set<Key>
    requires n <= |pc|
  {
    set i | 0 <= i < n && Pinned(pc[i]) :: pc[i].pipe
  }

  lemma {:induction false} AtMost(pc: seq<Entry>, n: nat)
    requires n <= |pc|
    ensures |PinnedKeys(pc, n)| <= n
  {
    if n > 0 {
      AtMost(pc, n - 1);
      var last := if Pinned(pc[n - 1]) then {pc[n - 1].pipe} else {};
      assert PinnedKeys(pc, n) == PinnedKeys(pc, n - 1) + last;
    }
  }

  lemma {:induction false} AllDifferent(pc: seq<Entry>, n: nat)
    requires n <= |pc| && (forall i :: 0 <= i < n ==> Pinned(pc[i]))
    requires forall i, j :: 0 <= i < j < n && pc[i].Entry? && pc[j].Entry? ==> pc[i].pipe != pc[j].pipe
    ensures |PinnedKeys(pc, n)| == n
  {
    if n > 0 {
      AllDifferent(pc, n - 1);
      assert PinnedKeys(pc, n) == PinnedKeys(pc, n - 1) + {pc[n - 1].pipe};
    }
  }

  /** The t-th candidate of the round-robin search. */
  function Turn(next: nat, t: nat): (i: nat)
    ensures i < PCACHE
  {
    (next + t) % PCACHE
  }

  /** Entries that are pinned stay exactly as they are. */
  predicate KeepsPinned(before: seq<Entry>, after: seq<Entry>) {
    |before| == |after| && forall i :: 0 <= i < |before| && Pinned(before[i]) ==> after[i] == before[i]
  }

  class Cache {
    const hash: seq<byte> -> nat
    var pc: seq<Entry>
    var next: nat
    var hits: nat
    var misses: nat
    /** All keys asked for so far. */
    ghost var seen: set<Key>

    ghost predicate Valid()
      reads this
    {
      Consistent(pc, hash, seen) && next < PCACHE && Separates(hash, seen)
    }

    constructor (h: seq<byte> -> nat)
      ensures Valid() && hash == h && seen == {} && forall i :: 0 <= i < PCACHE ==> !Pinned(pc[i])
    {
      hash, pc, next, hits, misses, seen := h, seq(PCACHE, _ => Empty), 0, 0, 0, {};
    }

    /** The entry that holds the key, by hash, length and binding count. */
    method Find(k: Key) returns (idx: int)
      requires Valid() && k in seen
      ensures idx == -1 ==> forall i :: 0 <= i < PCACHE && pc[i].Entry? ==> pc[i].pipe != k
      ensures idx != -1 ==> 0 <= idx < PCACHE && pc[idx].Entry? && pc[idx].pipe == k
    {
      var h := hash(k.spirv);
      for i := 0 to PCACHE
        invariant forall j :: 0 <= j < i && pc[j].Entry? ==> pc[j].pipe != k
      {
        if pc[i].Entry? && pc[i].hash == h && pc[i].slen == |k.spirv| && pc[i].nbuf == k.nbuf { return i; }
      }
      return -1;
    }

    /** An unused entry, or else the next one in turn that is not pinned. */
    method Victim() returns (idx: int)
      requires Valid()
      ensures idx == -1 ==> forall i :: 0 <= i < PCACHE ==> Pinned(pc[i])
      ensures idx != -1 ==> 0 <= idx < PCACHE && !Pinned(pc[idx])
    {
      for i := 0 to PCACHE
        invariant forall j :: 0 <= j < i ==> pc[j].Entry?
      {
        if pc[i].Empty? { return i; }
      }
      for t := 0 to PCACHE
        invariant forall j :: 0 <= j < t ==> Pinned(pc[Turn(next, j)])
      {
        var cand := Turn(next, t);
        if !Pinned(pc[cand]) { return cand; }
      }
      forall i | 0 <= i < PCACHE ensures Pinned(pc[i]) {
        var j := if i >= next then i - next else i + PCACHE - next;
        assert Turn(next, j) == i;
      }
      return -1;
    }

    /** get_pipe */
    method GetPipe(k: Key) returns (r: Lookup)
      requires Valid() && Separates(hash, seen + {k})
      modifies this
      ensures Valid() && seen == old(seen) + {k} && KeepsPinned(old(pc), pc)
      ensures hits + misses == old(hits + misses) + 1
      ensures r.Found? ==> r.idx < PCACHE && Pinned(pc[r.idx]) && pc[r.idx].pipe == k
      ensures forall i :: 0 <= i < PCACHE && Pinned(pc[i]) ==> old(Pinned(pc[i])) || (r.Found? && i == r.idx)
      ensures r.Exhausted? ==> forall i :: 0 <= i < PCACHE ==> old(Pinned(pc[i])) && old(pc[i]).pipe != k
    {
      seen := seen + {k};
      var hit := Find(k);
      if hit >= 0 {
        hits := hits + 1;
        pc := pc[hit := pc[hit].(pin := true)];
        return Found(hit);
      }
      misses := misses + 1;
      var idx := Victim();
      if idx < 0 { return Exhausted; }
      if pc[idx].Entry? {
        next := (idx + 1) % PCACHE;
        pc := pc[idx := Empty];
      }
      var refused: bool := *;
      if refused { return DriverFailed; }
      pc := pc[idx := Entry(true, hash(k.spirv), |k.spirv|, k.nbuf, k)];
      return Found(idx);
    }

    /** unpin_all */
    method UnpinAll()
      requires Valid()
      modifies this`pc
      ensures Valid() && forall i :: 0 <= i < PCACHE ==> !Pinned(pc[i]) && (pc[i].Entry? <==> old(pc[i]).Entry?)
      ensures forall i :: 0 <= i < PCACHE && pc[i].Entry? ==> pc[i].pipe == old(pc[i]).pipe
    {
      ghost var before := pc;
      for i := 0 to PCACHE
        invariant |pc| == PCACHE
        invariant forall j :: 0 <= j < i ==> pc[j] == if before[j].Entry? then before[j].(pin := false) else Empty
        invariant forall j :: i <= j < PCACHE ==> pc[j] == before[j]
      {
        if pc[i].Entry? { pc := pc[i := pc[i].(pin := false)]; }
      }
    }

    /** The pinned entries are those of the stages looked up so far, and each stage's entry still holds its key. */
    ghost predicate Holding(keys: seq<Key>, idx: seq<nat>, s: nat)
      requires Valid() && s <= |keys| && |idx| == s
      reads this
    {
      && (forall i :: 0 <= i < s ==> idx[i] < PCACHE && Pinned(pc[idx[i]]) && pc[idx[i]].pipe == keys[i])
      && forall i :: 0 <= i < PCACHE && Pinned(pc[i]) ==> i in idx
    }

    lemma HeldKeys(keys: seq<Key>, idx: seq<nat>, s: nat)
      requires Valid() && s <= |keys| && |idx| == s && Holding(keys, idx, s)
      ensures PinnedKeys(pc, PCACHE) == set k <- keys[..s]
    {
      var held := PinnedKeys(pc, PCACHE);
      forall k | k in keys[..s] ensures k in held {
        var i :| 0 <= i < s && keys[..s][i] == k;
        assert Pinned(pc[idx[i]]);
      }
      forall k | k in held ensures k in keys[..s] {
        var i :| 0 <= i < PCACHE && Pinned(pc[i]) && pc[i].pipe == k;
        var j :| 0 <= j < |idx| && idx[j] == i;
        assert keys[..s][j] == k;
      }
    }

    /** The dispatch of one batch: look every stage's pipeline up, run them, unpin. What runs in stage i is the
        pipeline built from stage i's own program; the cache is exhausted exactly when the batch needs more than 16. */
    method Dispatch(keys: seq<Key>) returns (ok: bool, ran: seq<Key>, why: Lookup)
      requires Valid() && Separates(hash, seen + set k <- keys) && forall i :: 0 <= i < PCACHE ==> !Pinned(pc[i])
      modifies this
      ensures Valid() && (forall i :: 0 <= i < PCACHE ==> !Pinned(pc[i])) && seen <= old(seen) + set k <- keys
      ensures if ok then ran == keys else ran == []
      ensures ok ==> |(set k <- keys)| <= PCACHE
      ensures why.Exhausted? ==> !ok && |(set k <- keys)| > PCACHE
      ensures !ok ==> !why.Found?
    {
      var idx: seq<nat> := [];
      why := Found(0);
      ran := [];
      var s := 0;
      while s < |keys| && why.Found?
        invariant s <= |keys| && Valid() && seen <= old(seen) + set k <- keys
        invariant why.Found? ==> |idx| == s && Holding(keys, idx, s)
        invariant why.Exhausted? ==> |(set k <- keys)| > PCACHE
        decreases |keys| - s, why.Found?
      {
        why := LookUp(keys, idx, s, old(seen));
        if why.Found? {
          idx := idx + [why.idx];
          s := s + 1;
        }
      }
      ok := why.Found?;
      if ok {
        HeldKeys(keys, idx, s);
        AtMost(pc, PCACHE);
        assert keys[..s] == keys;
        for i := 0 to |keys|
          invariant ran == keys[..i] && Valid() && Holding(keys, idx, |keys|) && seen <= old(seen) + set k <- keys
        {
          ran := ran + [pc[idx[i]].pipe];
        }
      }
      UnpinAll();
    }

    /** One more stage. */
    method LookUp(keys: seq<Key>, idx: seq<nat>, s: nat, ghost start: set<Key>) returns (r: Lookup)
      requires Valid() && s < |keys| && |idx| == s && Holding(keys, idx, s)
      requires seen <= start + (set k <- keys) && Separates(hash, start + set k <- keys)
      modifies this
      ensures Valid() && seen <= start + set k <- keys
      ensures r.Found? ==> Holding(keys, idx + [r.idx], s + 1)
      ensures r.Exhausted? ==> |(set k <- keys)| > PCACHE
    {
      HeldKeys(keys, idx, s);
      ghost var before := pc;
      r := GetPipe(keys[s]);
      if r.Exhausted? {
        TooMany(before, keys, s);
      }
    }
  }

  lemma TooMany(pc: seq<Entry>, keys: seq<Key>, s: nat)
    requires |pc| == PCACHE && s < |keys| && PinnedKeys(pc, PCACHE) == set k <- keys[..s]
    requires forall i :: 0 <= i < PCACHE ==> Pinned(pc[i]) && pc[i].pipe != keys[s]
    requires forall i, j :: 0 <= i < j < PCACHE && pc[i].Entry? && pc[j].Entry? ==> pc[i].pipe != pc[j].pipe
    ensures |(set k <- keys)| > PCACHE
  {
    AllDifferent(pc, PCACHE);
    var held := PinnedKeys(pc, PCACHE);
    var all := set k <- keys;
    assert keys[s] !in held;
    assert held + {keys[s]} <= all;
    Smaller(held + {keys[s]}, all);
  }

  lemma Smaller(a: set<Key>, b: set<Key>)
    requires a <= b
    ensures |a| <= |b|
  {
    assert b == a + (b - a);
  }
}
