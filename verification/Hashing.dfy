/** Paths, values and the ideal hash model of the ledger.

    A 256-bit path is the sequence of its 64 nibbles, most significant first.
    Every hash is the term that was hashed: two hashes are equal exactly when
    the tagged inputs are, which is what collision resistance together with the
    domain-separation tags gives the program.  */
module Hashing {

  /** Length of a whole path in nibbles. */
  const NIBBLES: nat := 64
  /** Length of a whole path in bits. */
  const MAX_DEPTH: nat := 256
  /** Child slots of a stored node. */
  const SLOTS: nat := 16

  type Nibble = n: int | 0 <= n < 16
  type Path = seq<Nibble>
  /** A whole 32-byte path. */
  type FullPath = p: Path | |p| == 64 witness seq(64, _ => 0)

  type Byte = b: int | 0 <= b < 256
  type ByteString = seq<Byte>

  /** A stored value: application bytes, or the 32 bytes of a history-chain head. */
  datatype Value = Bytes(bytes: ByteString) | Head(head: Digest)

  datatype Digest =
    | ZeroHash
    | Placeholder
    | LeafHash(leafPath: Path, vh: Digest)
    | NodeHash(left: Digest, right: Digest)
    | ValueMac(macPath: Path, plaintext: Value)
    | LinkHash(prevHead: Digest, prevRoot: Digest, linkVersion: nat)

  datatype Option<+T> = None | Some(value: T)

  datatype ErrorKind = Backend | Corrupted | Missing | Invalid | IndexPanic

  datatype Result<+T> = Ok(value: T) | Err(error: ErrorKind)

  function Lookup<K, V>(m: map<K, V>, k: K): Option<V>
  {
    if k in m then Some(m[k]) else None
  }

  /** Bit k of a nibble, most significant first. */
  predicate NibbleBit(n: Nibble, k: nat)
    requires k < 4
  {
    if k == 0 then n >= 8
    else if k == 1 then n % 8 >= 4
    else if k == 2 then n % 4 >= 2
    else n % 2 == 1
  }

  /** Bit i of a path, most significant first. */
  predicate Bit(path: Path, i: nat)
    requires i < 4 * |path|
  {
    NibbleBit(path[i / 4], i % 4)
  }

  /** Strict byte order of equally long paths. */
  predicate PathLess(a: Path, b: Path)
  {
    |a| > 0 && |b| > 0 && (a[0] < b[0] || (a[0] == b[0] && PathLess(a[1..], b[1..])))
  }

  /** The two paths agree on their first b bits. */
  ghost predicate SameBits(p: Path, q: Path, b: nat)
  {
    |p| == NIBBLES && |q| == NIBBLES && b <= MAX_DEPTH &&
    forall i: nat :: i < b ==> Bit(p, i) == Bit(q, i)
  }

  lemma {:induction false} NibbleFromBits(m: Nibble, n: Nibble)
    requires forall k: nat :: k < 4 ==> NibbleBit(m, k) == NibbleBit(n, k)
    ensures m == n
  {
    assert NibbleBit(m, 0) == NibbleBit(n, 0);
    assert NibbleBit(m, 1) == NibbleBit(n, 1);
    assert NibbleBit(m, 2) == NibbleBit(n, 2);
    assert NibbleBit(m, 3) == NibbleBit(n, 3);
  }

  /** Agreement on 4d bits is agreement on d nibbles. */
  lemma {:induction false} SameBitsNibbles(p: Path, q: Path, d: nat)
    requires |p| == NIBBLES && |q| == NIBBLES && d <= NIBBLES
    ensures SameBits(p, q, 4 * d) <==> p[..d] == q[..d]
  {
    if SameBits(p, q, 4 * d) {
      forall j | 0 <= j < d ensures p[j] == q[j] {
        forall k: nat | k < 4 ensures NibbleBit(p[j], k) == NibbleBit(q[j], k) {
          assert (4 * j + k) / 4 == j && (4 * j + k) % 4 == k;
          assert Bit(p, 4 * j + k) == Bit(q, 4 * j + k);
        }
        NibbleFromBits(p[j], q[j]);
      }
    }
    if p[..d] == q[..d] {
      forall i: nat | i < 4 * d ensures Bit(p, i) == Bit(q, i) {
        assert p[i / 4] == p[..d][i / 4] == q[..d][i / 4] == q[i / 4];
      }
    }
  }
}
