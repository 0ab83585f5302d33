/** A map from byte strings to byte strings that is read in key order.  */
module Keyspaces {
  import opened Hashing
  import opened ByteStrings

  datatype KV = KV(key: ByteString, value: ByteString)

  type KeySpace = map<ByteString, ByteString>

  datatype ScanOp = Set(key: ByteString, value: ByteString) | Unset(key: ByteString)

  /** A keyspace after a batch, applied in order. */
  function Run(m: KeySpace, ops: seq<ScanOp>): KeySpace
    decreases |ops|
  {
    if ops == [] then m
    else
      var before := Run(m, ops[..|ops| - 1]);
      match ops[|ops| - 1]
      case Set(k, v) => before[k := v]
      case Unset(k) => before - {k}
  }

  lemma {:induction false} RunConcat(m: KeySpace, a: seq<ScanOp>, b: seq<ScanOp>)
    ensures Run(m, a + b) == Run(Run(m, a), b)
    decreases |b|
  {
    if b == [] {
      assert a + b == a;
    } else {
      var n := |b| - 1;
      assert (a + b)[..|a + b| - 1] == a + b[..n];
      RunConcat(m, a, b[..n]);
    }
  }

  // ---------------------------------------------------------- sorted listings

  ghost predicate Ascending(kvs: seq<KV>)
  {
    forall i, j :: 0 <= i < j < |kvs| ==> Less(kvs[i].key, kvs[j].key)
  }

  /** kvs lists m: strictly ascending keys, every entry once. */
  ghost predicate Lists(kvs: seq<KV>, m: KeySpace)
  {
    Ascending(kvs) &&
    (forall i {:trigger kvs[i]} :: 0 <= i < |kvs| ==> kvs[i].key in m && m[kvs[i].key] == kvs[i].value) &&
    (forall k {:trigger k in m} :: k in m ==> exists i :: 0 <= i < |kvs| && kvs[i].key == k)
  }

  lemma {:induction false} EmptyListing(kvs: seq<KV>, m: KeySpace)
    requires Lists(kvs, m)
    ensures kvs == [] <==> m == map[]
  {
    if kvs != [] {
      assert kvs[0].key in m;
    }
  }

  lemma {:induction false} FirstIsLeast(kvs: seq<KV>, m: KeySpace, k: ByteString)
    requires Lists(kvs, m) && k in m
    ensures kvs != [] && kvs[0].key in m && m[kvs[0].key] == kvs[0].value && (k == kvs[0].key || Less(kvs[0].key, k))
  {
    hide Less;
    var i :| 0 <= i < |kvs| && kvs[i].key == k;
    assert kvs[0].key in m;
  }

  lemma {:induction false} TailListing(kvs: seq<KV>, m: KeySpace)
    requires Lists(kvs, m) && kvs != []
    ensures kvs[0].key in m && m[kvs[0].key] == kvs[0].value && Lists(kvs[1..], m - {kvs[0].key})
  {
    hide Less;
    var tail, k0 := kvs[1..], kvs[0].key;
    assert k0 in m;
    forall i | 0 <= i < |tail| ensures tail[i].key in m && tail[i].key != k0 && m[tail[i].key] == tail[i].value {
      assert tail[i] == kvs[i + 1];
      Trichotomy(k0, kvs[i + 1].key);
    }
    forall k | k in m && k != k0 ensures exists i :: 0 <= i < |tail| && tail[i].key == k {
      var i :| 0 <= i < |kvs| && kvs[i].key == k;
      assert tail[i - 1].key == k;
    }
  }

  lemma {:induction false} ConsListing(kv: KV, tail: seq<KV>, m: KeySpace)
    requires Lists(tail, m) && forall k :: k in m ==> Less(kv.key, k)
    ensures Lists([kv] + tail, m[kv.key := kv.value])
  {
    hide Less;
    var kvs, m' := [kv] + tail, m[kv.key := kv.value];
    Trichotomy(kv.key, kv.key);
    forall i, j | 0 <= i < j < |kvs| ensures Less(kvs[i].key, kvs[j].key) {
      assert kvs[j] == tail[j - 1];
    }
    forall i | 0 <= i < |kvs| ensures kvs[i].key in m' && m'[kvs[i].key] == kvs[i].value {
      if i > 0 {
        assert kvs[i] == tail[i - 1];
      }
    }
    forall k | k in m' ensures exists i :: 0 <= i < |kvs| && kvs[i].key == k {
      if k == kv.key {
        assert kvs[0].key == k;
      } else {
        var i :| 0 <= i < |tail| && tail[i].key == k;
        assert kvs[i + 1].key == k;
      }
    }
  }

  /** Two listings with the same keys run through them in the same order. */
  lemma {:induction false} SameKeysSameOrder(a: seq<KV>, b: seq<KV>, m: KeySpace, w: KeySpace)
    requires Lists(a, m) && Lists(b, w) && m.Keys == w.Keys
    ensures |a| == |b| && forall i :: 0 <= i < |a| ==> a[i].key == b[i].key
    decreases |a|
  {
    hide Lists, Less;
    EmptyListing(a, m);
    EmptyListing(b, w);
    if a == [] {
      assert w.Keys == {};
    } else {
      TailListing(a, m);
      assert a[0].key in w;
      FirstIsLeast(b, w, a[0].key);
      FirstIsLeast(a, m, b[0].key);
      Trichotomy(a[0].key, b[0].key);
      TailListing(b, w);
      SameKeysSameOrder(a[1..], b[1..], m - {a[0].key}, w - {b[0].key});
      forall i | 0 <= i < |a| ensures a[i].key == b[i].key {
        if i > 0 {
          assert a[i] == a[1..][i - 1] && b[i] == b[1..][i - 1];
        }
      }
    }
  }

  lemma {:induction false} LeastExists(s: set<ByteString>) returns (least: ByteString)
    requires s != {}
    ensures least in s && forall k :: k in s && k != least ==> Less(least, k)
    decreases |s|
  {
    hide Less;
    least :| least in s;
    var rest := s - {least};
    if rest == {} {
      assert s == {least};
    } else {
      var other := LeastExists(rest);
      Trichotomy(least, other);
      if Less(other, least) {
        least := other;
      } else {
        forall k | k in s && k != least ensures Less(least, k) {
          if k != other {
            LessTrans(least, other, k);
          }
        }
      }
    }
  }

  /** Every keyspace has a sorted listing. */
  lemma {:induction false} ListingExists(m: KeySpace) returns (kvs: seq<KV>)
    ensures Lists(kvs, m)
    decreases |m.Keys|
  {
    hide Less;
    if m == map[] {
      kvs := [];
    } else {
      assert m.Keys != {};
      var k := LeastExists(m.Keys);
      var rest := m - {k};
      assert rest.Keys == m.Keys - {k};
      var tail := ListingExists(rest);
      ConsListing(KV(k, m[k]), tail, rest);
      kvs := [KV(k, m[k])] + tail;
      assert rest[k := m[k]] == m;
    }
  }

  /** The entries of [start, end). */
  ghost function InRange(m: KeySpace, start: ByteString, end: ByteString): KeySpace
  {
    map k | k in m && Between(start, k, end) :: m[k]
  }

  /** An ascending front of the range: limit entries, or the whole of it if shorter. */
  ghost predicate FirstOf(kvs: seq<KV>, m: KeySpace, start: ByteString, end: ByteString, limit: nat)
  {
    |kvs| <= limit && Ascending(kvs) &&
    (forall i {:trigger kvs[i]} :: 0 <= i < |kvs| ==>
      kvs[i].key in InRange(m, start, end) && m[kvs[i].key] == kvs[i].value) &&
    (forall k {:trigger k in InRange(m, start, end)} :: k in InRange(m, start, end) ==>
      (exists i :: 0 <= i < |kvs| && kvs[i].key == k) ||
      (|kvs| == limit && (limit > 0 ==> Less(kvs[limit - 1].key, k))))
  }

  /** The part of a range after key last resumes at last followed by a zero byte. */
  lemma {:induction false} ResumeAfter(last: ByteString, k: ByteString)
    ensures !Less(k, last + [0]) <==> Less(last, k)
    decreases |last|
  {
    if |last| > 0 && |k| > 0 {
      assert (last + [0])[1..] == last[1..] + [0];
      ResumeAfter(last[1..], k[1..]);
    }
  }

  /** The entries after a key. */
  ghost function AfterKey(m: KeySpace, last: ByteString): KeySpace
  {
    map k | k in m && Less(last, k) :: m[k]
  }

  /** A chunk and the range resumed after it make up the range. */
  lemma {:induction false} ChunkSplits(kvs: seq<KV>, m: KeySpace, start: ByteString, end: ByteString, limit: nat)
    requires FirstOf(kvs, m, start, end, limit) && |kvs| > 0
    ensures InRange(m, kvs[|kvs| - 1].key + [0], end) == AfterKey(InRange(m, start, end), kvs[|kvs| - 1].key)
    ensures |kvs| < limit ==> InRange(m, kvs[|kvs| - 1].key + [0], end) == map[]
  {
    hide Less;
    var last := kvs[|kvs| - 1].key;
    assert last in InRange(m, start, end);
    forall k ensures k in InRange(m, last + [0], end) <==> k in InRange(m, start, end) && Less(last, k) {
      ResumeAfter(last, k);
      if Less(last, k) {
        LaterStays(start, last, k);
      }
    }
    if |kvs| < limit {
      forall k | k in InRange(m, start, end) ensures !Less(last, k) {
        var i :| 0 <= i < |kvs| && kvs[i].key == k;
        NotLater(kvs, i);
      }
    }
  }

  lemma {:induction false} LaterStays(start: ByteString, last: ByteString, k: ByteString)
    requires !Less(last, start) && Less(last, k)
    ensures !Less(k, start)
  {
    Trichotomy(k, start);
    if Less(k, start) {
      LessTrans(last, k, start);
    }
  }

  lemma {:induction false} NotLater(kvs: seq<KV>, i: nat)
    requires Ascending(kvs) && i < |kvs|
    ensures !Less(kvs[|kvs| - 1].key, kvs[i].key)
  {
    Trichotomy(kvs[i].key, kvs[|kvs| - 1].key);
  }

  // -------------------------------------------------------------- the backend

  method Least(s: set<ByteString>) returns (least: ByteString)
    requires s != {}
    ensures least in s && forall k :: k in s ==> !Less(k, least)
  {
    hide Less;
    least :| least in s;
    var rest := s - {least};
    Trichotomy(least, least);
    while rest != {}
      invariant rest <= s && least in s && forall k :: k in s && k !in rest ==> !Less(k, least)
    {
      var k :| k in rest;
      if Less(k, least) {
        forall x | x in s && x !in rest ensures !Less(x, k) {
          StillNotLess(x, least, k);
        }
        Trichotomy(k, k);
        least := k;
      }
      rest := rest - {k};
    }
  }

  lemma {:induction false} StillNotLess(x: ByteString, least: ByteString, k: ByteString)
    requires !Less(x, least) && Less(k, least)
    ensures !Less(x, k)
  {
    if Less(x, k) {
      LessTrans(x, k, least);
    }
  }

  /** The ordered backend; unless reliable, a call may fail without effect. */
  class Keyspace {
    const reliable: bool
    var entries: KeySpace

    constructor (reliable: bool)
      ensures this.reliable == reliable && entries == map[]
    {
      this.reliable := reliable;
      entries := map[];
    }

    /** A front of the range, in ascending order. */
    method Scan(start: ByteString, end: ByteString, limit: nat) returns (r: Result<seq<KV>>)
      ensures r.Err? ==> !reliable && r.error == ErrorKind.Backend
      ensures r.Ok? ==> FirstOf(r.value, entries, start, end, limit)
    {
      hide Less, Between;
      var fails: bool := *;
      if !reliable && fails {
        return Err(ErrorKind.Backend);
      }
      var rest := set k | k in entries && Between(start, k, end);
      var kvs: seq<KV> := [];
      while rest != {} && |kvs| < limit
        invariant |kvs| <= limit && Ascending(kvs)
        invariant forall k :: k in rest ==> k in entries && Between(start, k, end)
        invariant forall k :: k in rest && |kvs| > 0 ==> Less(kvs[|kvs| - 1].key, k)
        invariant forall i {:trigger kvs[i]} :: 0 <= i < |kvs| ==>
                  kvs[i].key in InRange(entries, start, end) && entries[kvs[i].key] == kvs[i].value
        invariant forall k {:trigger k in InRange(entries, start, end)} :: k in InRange(entries, start, end) ==>
                    k in rest || exists i :: 0 <= i < |kvs| && kvs[i].key == k
      {
        var k := Least(rest);
        AppendAscending(kvs, KV(k, entries[k]));
        forall x | x in rest && x != k ensures Less(k, x) {
          Trichotomy(k, x);
        }
        ghost var before := kvs;
        kvs := kvs + [KV(k, entries[k])];
        rest := rest - {k};
        assert kvs[|before|].key == k;
        assert forall i :: 0 <= i < |before| ==> kvs[i] == before[i];
      }
      return Ok(kvs);
    }

    /** All operations in order, or none. */
    method WriteBatch(ops: seq<ScanOp>) returns (ok: bool)
      modifies this
      ensures reliable ==> ok
      ensures entries == if ok then Run(old(entries), ops) else old(entries)
    {
      var fails: bool := *;
      ok := reliable || !fails;
      if ok {
        entries := Run(entries, ops);
      }
    }
  }

  lemma {:induction false} AppendAscending(kvs: seq<KV>, kv: KV)
    requires Ascending(kvs) && (|kvs| > 0 ==> Less(kvs[|kvs| - 1].key, kv.key))
    ensures Ascending(kvs + [kv])
  {
    hide Less;
    var out := kvs + [kv];
    forall i, j | 0 <= i < j < |out| ensures Less(out[i].key, out[j].key) {
      if j == |kvs| && i < j - 1 {
        LessTrans(kvs[i].key, kvs[|kvs| - 1].key, kv.key);
      }
    }
  }
}
