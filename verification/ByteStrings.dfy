/** Byte strings in lexicographic order, and the end of a prefix range.  */
module ByteStrings {
  import opened Hashing

  /** a sorts strictly before b. */
  predicate Less(a: ByteString, b: ByteString)
  {
    |b| > 0 && (|a| == 0 || a[0] < b[0] || (a[0] == b[0] && Less(a[1..], b[1..])))
  }

  /** k lies in the half-open range [start, end). */
  predicate Between(start: ByteString, k: ByteString, end: ByteString)
  {
    !Less(k, start) && Less(k, end)
  }

  /** Every string of the interval starts with p. */
  ghost predicate Inside(p: ByteString, start: ByteString, end: ByteString)
  {
    forall k {:trigger Between(start, k, end)} :: Between(start, k, end) ==> p <= k
  }

  lemma {:induction false} Trichotomy(a: ByteString, b: ByteString)
    ensures a != b <==> Less(a, b) || Less(b, a)
    ensures !(Less(a, b) && Less(b, a))
    decreases |a|
  {
    if |a| > 0 && |b| > 0 {
      assert a == [a[0]] + a[1..] && b == [b[0]] + b[1..];
      if a[0] == b[0] {
        Trichotomy(a[1..], b[1..]);
      }
    }
  }

  lemma {:induction false} LessTrans(a: ByteString, b: ByteString, c: ByteString)
    requires Less(a, b) && Less(b, c)
    ensures Less(a, c)
    decreases |a|
  {
    if |a| > 0 && a[0] == b[0] == c[0] {
      LessTrans(a[1..], b[1..], c[1..]);
    }
  }

  /** A common prefix does not matter. */
  lemma {:induction false} LessAfterPrefix(p: ByteString, a: ByteString, b: ByteString)
    ensures Less(p + a, p + b) <==> Less(a, b)
    decreases |p|
  {
    if p == [] {
      assert p + a == a && p + b == b;
    } else {
      assert (p + a)[1..] == p[1..] + a && (p + b)[1..] == p[1..] + b;
      LessAfterPrefix(p[1..], a, b);
    }
  }

  lemma {:induction false} PrefixFirst(p: ByteString, k: ByteString)
    requires p <= k
    ensures !Less(k, p)
  {
    assert k == p + k[|p|..] && p == p + [];
    LessAfterPrefix(p, k[|p|..], []);
  }

  /** Two strings that split after a common prefix compare by the bytes there. */
  lemma {:induction false} SplitLess(p: ByteString, a: ByteString, b: ByteString)
    requires p <= a && p <= b && |p| < |a| && |p| < |b| && a[|p|] < b[|p|]
    ensures Less(a, b) && !Less(b, a)
  {
    assert a == p + a[|p|..] && b == p + b[|p|..];
    LessAfterPrefix(p, a[|p|..], b[|p|..]);
    Trichotomy(a, b);
  }

  // ------------------------------------------------------------ prefix ranges

  /** Where the last byte below 0xFF sits. */
  ghost predicate LastRoom(b: ByteString, i: nat)
  {
    i < |b| && b[i] != 255 && forall j :: i < j < |b| ==> b[j] == 255
  }

  /** The bytes from the last position with room on, incremented there. */
  ghost function Bumped(b: ByteString, i: nat): ByteString
    requires LastRoom(b, i)
  {
    b[..i] + [b[i] + 1]
  }

  /** The smallest string above everything prefixed by b, if there is one. */
  method IncBytes(b: ByteString) returns (r: Option<ByteString>)
    ensures r.None? <==> forall j :: 0 <= j < |b| ==> b[j] == 255
    ensures r.Some? ==> forall k: ByteString :: Between(b, k, r.value) <==> b <= k
  {
    var out := new Byte[|b|](i requires 0 <= i < |b| => b[i]);
    var i := |b|;
    while i > 0
      invariant 0 <= i <= |b| && out[..] == b
      invariant forall j :: i <= j < |b| ==> b[j] == 255
    {
      i := i - 1;
      if out[i] != 255 {
        out[i] := out[i] + 1;
        assert out[..i + 1] == Bumped(b, i);
        forall k: ByteString ensures Between(b, k, Bumped(b, i)) <==> b <= k {
          BumpedBounds(b, i, k);
        }
        return Some(out[..i + 1]);
      }
    }
    return None;
  }

  /** A range up to the bumped prefix holds exactly the strings with that prefix. */
  lemma {:induction false} BumpedBounds(b: ByteString, i: nat, k: ByteString)
    requires LastRoom(b, i)
    ensures Between(b, k, Bumped(b, i)) <==> b <= k
  {
    var e := Bumped(b, i);
    if b <= k {
      PrefixFirst(b, k);
      assert b[..i] <= k && b[..i] <= e;
      SplitLess(b[..i], k, e);
    } else if Between(b, k, e) {
      NotBetween(b, i, k);
    }
  }

  /** The first place where k departs from b, if k does not extend b. */
  lemma {:induction false} FirstSplit(b: ByteString, k: ByteString) returns (j: nat)
    requires !(b <= k)
    ensures j < |b| && j <= |k| && b[..j] == k[..j] && (j < |k| ==> b[j] != k[j])
    decreases |b|
  {
    if |k| == 0 || b[0] != k[0] {
      return 0;
    }
    assert b == [b[0]] + b[1..] && k == [k[0]] + k[1..];
    j := FirstSplit(b[1..], k[1..]);
    assert b[..j + 1] == [b[0]] + b[1..][..j] && k[..j + 1] == [k[0]] + k[1..][..j];
    j := j + 1;
  }

  lemma {:induction false} NotBetween(b: ByteString, i: nat, k: ByteString)
    requires LastRoom(b, i) && !(b <= k)
    ensures !Between(b, k, Bumped(b, i))
  {
    var e := Bumped(b, i);
    var j := FirstSplit(b, k);
    var p := b[..j];
    assert p <= b && p <= k;
    if j == |k| {
      assert k == p && b == p + b[j..] && k == p + [];
      LessAfterPrefix(p, [], b[j..]);
    } else if k[j] < b[j] {
      SplitLess(p, k, b);
    } else if j < i {
      assert p <= e && e[j] == b[j];
      SplitLess(p, e, k);
    } else {
      assert j == i && p <= e && e == p + [b[i] + 1];
      if k[j] > b[i] + 1 {
        SplitLess(p, e, k);
      } else {
        assert e <= k;
        PrefixFirst(e, k);
      }
    }
  }
}
