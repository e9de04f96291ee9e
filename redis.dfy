/**
 * The Redis commands the relay issues, as pure functions over a keyspace.
 * A key of each kind maps to its value; as in Redis, a set or hash that
 * loses its last element is deleted, and reading a missing key gives the
 * empty value. Store failures are not modelled.
 */
module Redis {
  import opened Common

  // ---- Sets (SADD, SREM, SMEMBERS, EXISTS) ----

  type SetSpace = map<string, set<string>>

  /** No set key is held with zero members. */
  ghost predicate SetsWellFormed(m: SetSpace) {
    forall k :: k in m ==> m[k] != {}
  }

  function SMembers(m: SetSpace, k: string): set<string> {
    if k in m then m[k] else {}
  }

  /** EXISTS on a set key. */
  predicate Exists(m: SetSpace, k: string) {
    k in m
  }

  /** SADD k v1 v2 ...: adding nothing leaves the key as it was. */
  function SAdd(m: SetSpace, k: string, vs: set<string>): SetSpace {
    if vs == {} then m else m[k := SMembers(m, k) + vs]
  }

  /** SREM k v: the key disappears with its last member. */
  function SRem(m: SetSpace, k: string, v: string): SetSpace {
    var rest := SMembers(m, k) - {v};
    if rest == {} then m - {k} else m[k := rest]
  }

  /** SADD and SREM touch one key, keep every set non-empty, and do what their names say. */
  lemma SetCommands(m: SetSpace, k: string, vs: set<string>, v: string)
    requires SetsWellFormed(m)
    ensures SetsWellFormed(SAdd(m, k, vs)) && SetsWellFormed(SRem(m, k, v))
    ensures SMembers(SAdd(m, k, vs), k) == SMembers(m, k) + vs
    ensures SMembers(SRem(m, k, v), k) == SMembers(m, k) - {v}
    ensures Exists(SRem(m, k, v), k) <==> SMembers(m, k) - {v} != {}
    ensures forall j :: j != k ==> SMembers(SAdd(m, k, vs), j) == SMembers(m, j) && SMembers(SRem(m, k, v), j) == SMembers(m, j)
  {
  }

  /** In a well-formed keyspace a set key exists exactly when it has members. */
  lemma ExistsIffMembers(m: SetSpace, k: string)
    requires SetsWellFormed(m)
    ensures Exists(m, k) <==> SMembers(m, k) != {}
  {
  }

  /** Adding members already present changes nothing. */
  lemma SAddIdempotent(m: SetSpace, k: string, vs: set<string>)
    ensures SAdd(SAdd(m, k, vs), k, vs) == SAdd(m, k, vs)
  {
  }

  /** Removing a member that was just added, and was not there before, restores the keyspace. */
  lemma SRemUndoesSAdd(m: SetSpace, k: string, v: string)
    requires SetsWellFormed(m) && v !in SMembers(m, k)
    ensures SRem(SAdd(m, k, {v}), k, v) == m
  {
    var r := SRem(SAdd(m, k, {v}), k, v);
    assert SMembers(m, k) + {v} - {v} == SMembers(m, k);
    if k in m {
      assert r == m[k := m[k]];
    } else {
      assert r.Keys == m.Keys;
    }
  }

  // ---- Hashes (HSET, HDEL, HGET, HKEYS) ----

  type HashSpace = map<string, map<string, string>>

  /** No hash key is held with zero fields. */
  ghost predicate HashesWellFormed(h: HashSpace) {
    forall k :: k in h ==> h[k] != map[]
  }

  function HGetAll(h: HashSpace, k: string): map<string, string> {
    if k in h then h[k] else map[]
  }

  function HKeys(h: HashSpace, k: string): set<string> {
    HGetAll(h, k).Keys
  }

  /** HGET k f: None stands for the redis.Nil error. */
  function HGet(h: HashSpace, k: string, f: string): Option<string> {
    if f in HGetAll(h, k) then Some(HGetAll(h, k)[f]) else None
  }

  function HSet(h: HashSpace, k: string, f: string, v: string): HashSpace {
    h[k := HGetAll(h, k)[f := v]]
  }

  /** HDEL k f: the key disappears with its last field. */
  function HDel(h: HashSpace, k: string, f: string): HashSpace {
    var rest := HGetAll(h, k) - {f};
    if rest == map[] then h - {k} else h[k := rest]
  }

  /** HSET and HDEL touch one field of one key and keep every hash non-empty. */
  lemma HashCommands(h: HashSpace, k: string, f: string, v: string)
    requires HashesWellFormed(h)
    ensures HashesWellFormed(HSet(h, k, f, v)) && HashesWellFormed(HDel(h, k, f))
    ensures HGet(HSet(h, k, f, v), k, f) == Some(v) && HGet(HDel(h, k, f), k, f) == None
    ensures forall g :: g != f ==> HGet(HSet(h, k, f, v), k, g) == HGet(h, k, g) && HGet(HDel(h, k, f), k, g) == HGet(h, k, g)
    ensures forall j :: j != k ==> HGetAll(HSet(h, k, f, v), j) == HGetAll(h, j) && HGetAll(HDel(h, k, f), j) == HGetAll(h, j)
  {
    assert HSet(h, k, f, v)[k] != map[] by { assert f in HSet(h, k, f, v)[k]; }
  }

  /** Setting a field to the value it already has changes nothing. */
  lemma HSetIdempotent(h: HashSpace, k: string, f: string, v: string)
    ensures HSet(HSet(h, k, f, v), k, f, v) == HSet(h, k, f, v)
  {
    assert HGetAll(h, k)[f := v][f := v] == HGetAll(h, k)[f := v];
  }

  /** Deleting a field that was just set, and was not there before, restores the keyspace. */
  lemma HDelUndoesHSet(h: HashSpace, k: string, f: string, v: string)
    requires HashesWellFormed(h) && f !in HKeys(h, k)
    ensures HDel(HSet(h, k, f, v), k, f) == h
  {
    var r := HDel(HSet(h, k, f, v), k, f);
    assert HGetAll(h, k)[f := v] - {f} == HGetAll(h, k);
    if k in h {
      assert r == h[k := h[k]];
    } else {
      assert r.Keys == h.Keys;
    }
  }

  // ---- Sorted sets (ZADD, ZRANGE) ----

  datatype Entry<T> = Entry(score: int, member: T)

  ghost predicate Sorted<T>(z: seq<Entry<T>>) {
    forall i, j :: 0 <= i < j < |z| ==> z[i].score <= z[j].score
  }

  /** Each member appears once: a sorted set holds a member at one score only. */
  ghost predicate UniqueMembers<T>(z: seq<Entry<T>>) {
    && (forall a, b :: a in z && b in z && a.member == b.member ==> a == b)
    && (forall a :: a in z ==> multiset(z)[a] == 1)
  }

  /** The entries of `z` other than the one holding `m`, in order. */
  function Without<T(==)>(z: seq<Entry<T>>, m: T): seq<Entry<T>>
    decreases |z|
  {
    if z == [] then []
    else if z[0].member == m then Without(z[1..], m)
    else [z[0]] + Without(z[1..], m)
  }

  /** Places `e` after every entry whose score is at most its own: ties keep arrival order. */
  function Insert<T>(z: seq<Entry<T>>, e: Entry<T>): seq<Entry<T>>
    decreases |z|
  {
    if z == [] || e.score < z[0].score then [e] + z
    else [z[0]] + Insert(z[1..], e)
  }

  /** ZADD k score m: the member is (re)placed at the given score. */
  function ZAdd<T(==)>(z: seq<Entry<T>>, score: int, m: T): seq<Entry<T>> {
    Insert(Without(z, m), Entry(score, m))
  }

  /** A score no greater than any in a sorted run can go in front of it. */
  lemma SortedCons<T>(x: Entry<T>, r: seq<Entry<T>>)
    requires Sorted(r)
    requires forall y :: y in multiset(r) ==> x.score <= y.score
    ensures Sorted([x] + r)
  {
    forall i, j | 0 <= i < j < |[x] + r| ensures ([x] + r)[i].score <= ([x] + r)[j].score {
      if i == 0 {
        assert ([x] + r)[j] == r[j - 1];
        assert r[j - 1] in multiset(r);
      } else {
        assert ([x] + r)[i] == r[i - 1] && ([x] + r)[j] == r[j - 1];
      }
    }
  }

  /** The head of a sorted run scores no more than anything after it. */
  lemma SortedHead<T>(z: seq<Entry<T>>)
    requires Sorted(z) && z != []
    ensures Sorted(z[1..])
    ensures forall y :: y in multiset(z[1..]) ==> z[0].score <= y.score
  {
    forall y | y in multiset(z[1..]) ensures z[0].score <= y.score {
      var i :| 0 <= i < |z[1..]| && z[1..][i] == y;
      assert z[i + 1] == y;
    }
  }

  /** Without keeps every entry not holding `m` as often as it occurred, and none holding `m`. */
  lemma {:induction false} WithoutCount<T>(z: seq<Entry<T>>, m: T, e: Entry<T>)
    ensures multiset(Without(z, m))[e] == (if e.member == m then 0 else multiset(z)[e])
    decreases |z|
  {
    if z != [] {
      assert z == [z[0]] + z[1..];
      WithoutCount(z[1..], m, e);
    }
  }

  /** Without drops exactly the entries holding `m` and keeps the order of the rest. */
  lemma {:induction false} WithoutSpec<T(!new)>(z: seq<Entry<T>>, m: T)
    ensures forall e :: e in multiset(Without(z, m)) <==> e in multiset(z) && e.member != m
    ensures multiset(Without(z, m)) <= multiset(z)
    ensures Sorted(z) ==> Sorted(Without(z, m))
    decreases |z|
  {
    if z != [] {
      assert z == [z[0]] + z[1..];
      WithoutSpec(z[1..], m);
      if Sorted(z) {
        SortedHead(z);
        if z[0].member != m {
          SortedCons(z[0], Without(z[1..], m));
        }
      }
    }
  }

  /** Insert adds exactly the one entry: the result is a permutation of the run plus `e`. */
  lemma {:induction false} InsertPermutes<T>(z: seq<Entry<T>>, e: Entry<T>)
    ensures multiset(Insert(z, e)) == multiset(z) + multiset{e}
    decreases |z|
  {
    if z != [] && e.score >= z[0].score {
      assert z == [z[0]] + z[1..];
      InsertPermutes(z[1..], e);
    }
  }

  /** Insert keeps a run sorted and adds exactly the one entry. */
  lemma {:induction false} InsertSpec<T>(z: seq<Entry<T>>, e: Entry<T>)
    requires Sorted(z)
    ensures Sorted(Insert(z, e))
    ensures multiset(Insert(z, e)) == multiset(z) + multiset{e}
    decreases |z|
  {
    InsertPermutes(z, e);
    if z == [] || e.score < z[0].score {
      if z != [] {
        SortedHead(z);
        assert z == [z[0]] + z[1..];
      }
      SortedCons(e, z);
    } else {
      SortedHead(z);
      InsertSpec(z[1..], e);
      SortedCons(z[0], Insert(z[1..], e));
    }
  }

  /**
   * ZADD keeps the set ordered by score with each member once; afterwards it
   * holds `m` at `score` and every other entry it held before.
   */
  lemma ZAddKeepsSortedSet<T(!new)>(z: seq<Entry<T>>, score: int, m: T)
    requires Sorted(z) && UniqueMembers(z)
    ensures Sorted(ZAdd(z, score, m)) && UniqueMembers(ZAdd(z, score, m))
    ensures forall e :: e in ZAdd(z, score, m) <==> e == Entry(score, m) || (e in z && e.member != m)
  {
    var w := Without(z, m);
    var e := Entry(score, m);
    var r := ZAdd(z, score, m);
    WithoutSpec(z, m);
    InsertSpec(w, e);
    assert multiset(r) == multiset(w) + multiset{e};
    assert e !in multiset(w);
    assert e !in w;
    forall a | a in r ensures multiset(r)[a] == 1 {
      assert a in multiset(r);
      if a != e {
        assert a in multiset(w);
        assert multiset(w)[a] <= multiset(z)[a];
        assert a in z;
      }
    }
    forall a, b | a in r && b in r && a.member == b.member ensures a == b {
      assert a in multiset(r) && b in multiset(r);
      assert a == e || a in multiset(w);
      assert b == e || b in multiset(w);
    }
    forall x ensures x in r <==> x == e || (x in z && x.member != m) {
      assert x in r <==> x in multiset(r);
      assert x in z <==> x in multiset(z);
    }
  }

  /** With a clock that does not go back, ZADD of a new member appends it. */
  lemma ZAddLatestAppends<T>(z: seq<Entry<T>>, score: int, m: T)
    requires Sorted(z)
    requires forall i :: 0 <= i < |z| ==> z[i].score <= score && z[i].member != m
    ensures ZAdd(z, score, m) == z + [Entry(score, m)]
  {
    WithoutAbsent(z, m);
    InsertLatest(z, Entry(score, m));
  }

  lemma {:induction false} WithoutAbsent<T>(z: seq<Entry<T>>, m: T)
    requires forall i :: 0 <= i < |z| ==> z[i].member != m
    ensures Without(z, m) == z
    decreases |z|
  {
    if z != [] {
      WithoutAbsent(z[1..], m);
      assert z == [z[0]] + z[1..];
    }
  }

  lemma {:induction false} InsertLatest<T>(z: seq<Entry<T>>, e: Entry<T>)
    requires Sorted(z)
    requires forall i :: 0 <= i < |z| ==> z[i].score <= e.score
    ensures Insert(z, e) == z + [e]
    decreases |z|
  {
    if z != [] {
      SortedHead(z);
      InsertLatest(z[1..], e);
      assert z == [z[0]] + z[1..];
    }
  }

  /** The members of a run of entries, in order. */
  function Members<T>(z: seq<Entry<T>>): (r: seq<T>)
    ensures |r| == |z| && forall i :: 0 <= i < |z| ==> r[i] == z[i].member
  {
    seq(|z|, i requires 0 <= i < |z| => z[i].member)
  }

  /**
   * ZRANGE k start stop: inclusive indexes, a negative index counts from the
   * end, and out-of-range indexes are clamped as Redis does.
   */
  function ZRange<T>(z: seq<Entry<T>>, start: int, stop: int): seq<T> {
    var n := |z|;
    var lo := if start < 0 then start + n else start;
    var hi := if stop < 0 then stop + n else stop;
    var lo := if lo < 0 then 0 else lo;
    if lo > hi || lo >= n then []
    else
      var hi := if hi >= n then n - 1 else hi;
      Members(z[lo..hi + 1])
  }

  function Min(a: int, b: int): int {
    if a <= b then a else b
  }

  /** For indexes 0 <= start <= stop, ZRANGE is the slice [start, stop + 1) cut to the set's length. */
  lemma ZRangeSlice<T>(z: seq<Entry<T>>, start: nat, stop: nat)
    requires start <= stop
    ensures ZRange(z, start, stop) == Members(z)[Min(start, |z|)..Min(stop + 1, |z|)]
  {
  }
}
