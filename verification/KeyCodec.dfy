/** The order-preserving key encoding of column values and tuples.  */
module KeyCodec {
  import opened Hashing
  import opened ByteStrings

  const TWO_63: nat := 0x8000_0000_0000_0000
  const TWO_64: nat := 0x1_0000_0000_0000_0000

  type Word = n: nat | n < 0x1_0000_0000_0000_0000
  type Int64 = i: int | -0x8000_0000_0000_0000 <= i < 0x8000_0000_0000_0000

  /** Column kinds; 32-bit and 64-bit floats share the 64-bit form. */
  datatype Kind = KInt | KUint | KFloat | KText | KDatetime

  /** A normalised non-NULL column value; floats by their bit pattern. */
  datatype Cell =
    | IntCell(i: Int64)
    | UintCell(u: Word)
    | FloatCell(bits: Word)
    | TextCell(text: ByteString)
    | TimeCell(nanos: Int64)

  function KindOf(c: Cell): Kind
  {
    match c
    case IntCell(_) => KInt
    case UintCell(_) => KUint
    case FloatCell(_) => KFloat
    case TextCell(_) => KText
    case TimeCell(_) => KDatetime
  }

  // ------------------------------------------------------- eight-byte words

  /** The k low bytes of n, most significant first. */
  function BigEndian(n: nat, k: nat): (b: ByteString)
    ensures |b| == k
  {
    if k == 0 then [] else BigEndian(n / 256, k - 1) + [n % 256]
  }

  ghost function Pow256(k: nat): nat
  {
    if k == 0 then 1 else 256 * Pow256(k - 1)
  }

  /** The number a byte string spells. */
  function FromBigEndian(b: ByteString): nat
    decreases |b|
  {
    if b == [] then 0 else 256 * FromBigEndian(b[..|b| - 1]) + b[|b| - 1]
  }

  lemma {:induction false} BigEndianRoundTrip(n: nat, k: nat)
    requires n < Pow256(k)
    ensures FromBigEndian(BigEndian(n, k)) == n
    decreases k
  {
    if k > 0 {
      assert n / 256 < Pow256(k - 1);
      BigEndianRoundTrip(n / 256, k - 1);
      assert BigEndian(n, k)[..k - 1] == BigEndian(n / 256, k - 1);
    }
  }

  /** Byte order is numeric order. */
  lemma {:induction false} BigEndianOrder(m: nat, n: nat, k: nat)
    requires m < n < Pow256(k)
    ensures Less(BigEndian(m, k), BigEndian(n, k))
    decreases k
  {
    if k > 0 {
      var a, b := BigEndian(m / 256, k - 1), BigEndian(n / 256, k - 1);
      if m / 256 == n / 256 {
        LessAfterPrefix(a, [m % 256], [n % 256]);
      } else {
        assert m / 256 < n / 256 < Pow256(k - 1);
        BigEndianOrder(m / 256, n / 256, k - 1);
        LessSameLength(a, b, [m % 256], [n % 256]);
      }
    }
  }

  /** Strings of equal length that differ decide whatever follows. */
  lemma {:induction false} LessSameLength(a: ByteString, b: ByteString, x: ByteString, y: ByteString)
    requires |a| == |b|
    ensures Less(a + x, b + y) <==> Less(a, b) || (a == b && Less(x, y))
    decreases |a|
  {
    if a == [] {
      assert a + x == x && b + y == y;
    } else {
      assert (a + x)[1..] == a[1..] + x && (b + y)[1..] == b[1..] + y;
      assert a == [a[0]] + a[1..] && b == [b[0]] + b[1..];
      LessSameLength(a[1..], b[1..], x, y);
    }
  }

  lemma {:induction false} EightBytes()
    ensures Pow256(8) == TWO_64
  {
    assert Pow256(2) == 65536;
    assert Pow256(4) == 65536 * 65536;
  }

  lemma {:induction false} WordOrder(m: Word, n: Word)
    ensures Less(BigEndian(m, 8), BigEndian(n, 8)) <==> m < n
    ensures BigEndian(m, 8) == BigEndian(n, 8) <==> m == n
    ensures FromBigEndian(BigEndian(m, 8)) == m
  {
    hide BigEndian, Pow256;
    EightBytes();
    BigEndianRoundTrip(m, 8);
    BigEndianRoundTrip(n, 8);
    Trichotomy(BigEndian(m, 8), BigEndian(n, 8));
    if m < n {
      BigEndianOrder(m, n, 8);
    } else if n < m {
      BigEndianOrder(n, m, 8);
    }
  }

  // ------------------------------------------------------- scalar encodings

  /** The two's complement bits of a signed integer. */
  function Bits(i: Int64): Word
  {
    if i < 0 then i + TWO_64 else i
  }

  /** Exclusive or with the top bit. */
  function FlipSign(w: Word): Word
  {
    if w < TWO_63 then w + TWO_63 else w - TWO_63
  }

  function EncInt64(i: Int64): ByteString
  {
    BigEndian(FlipSign(Bits(i)), 8)
  }

  function DecInt64(b: ByteString): Int64
    requires FromBigEndian(b) < TWO_64
  {
    var w := FlipSign(FromBigEndian(b));
    if w < TWO_63 then w else w - TWO_64
  }

  lemma {:induction false} IntOrder(a: Int64, b: Int64)
    ensures Less(EncInt64(a), EncInt64(b)) <==> a < b
    ensures EncInt64(a) == EncInt64(b) <==> a == b
    ensures FromBigEndian(EncInt64(a)) < TWO_64 && DecInt64(EncInt64(a)) == a
  {
    hide BigEndian, FromBigEndian;
    assert FlipSign(Bits(a)) == a + TWO_63 && FlipSign(Bits(b)) == b + TWO_63;
    WordOrder(FlipSign(Bits(a)), FlipSign(Bits(b)));
  }

  /** Complement of a 64-bit word. */
  function Complement(w: Word): Word
  {
    TWO_64 - 1 - w
  }

  /** The key bits of a float: complement negatives, set the top bit otherwise. */
  function FloatBits(bits: Word): Word
  {
    if bits >= TWO_63 then Complement(bits) else bits + TWO_63
  }

  function EncFloat64(bits: Word): ByteString
  {
    BigEndian(FloatBits(bits), 8)
  }

  function DecFloat64(b: ByteString): Word
    requires FromBigEndian(b) < TWO_64
  {
    var w := FromBigEndian(b);
    if w >= TWO_63 then w - TWO_63 else Complement(w)
  }

  /** totalOrder on bit patterns: negatives before positives, magnitudes growing
      away from zero, so -0 sorts before +0 and NaNs sit at the ends. */
  ghost predicate TotalLess(a: Word, b: Word)
  {
    if a >= TWO_63 then b < TWO_63 || b - TWO_63 < a - TWO_63
    else b < TWO_63 && a < b
  }

  lemma {:induction false} FloatOrder(a: Word, b: Word)
    ensures Less(EncFloat64(a), EncFloat64(b)) <==> TotalLess(a, b)
    ensures EncFloat64(a) == EncFloat64(b) <==> a == b
    ensures FromBigEndian(EncFloat64(a)) < TWO_64 && DecFloat64(EncFloat64(a)) == a
  {
    hide BigEndian, FromBigEndian;
    WordOrder(FloatBits(a), FloatBits(b));
  }

  // --------------------------------------------------------- escaped strings

  /** Zero bytes become 00 FF; 00 00 terminates. */
  function Escaped(data: ByteString): ByteString
  {
    if data == [] then [0, 0]
    else (if data[0] == 0 then [0, 255] else [data[0]]) + Escaped(data[1..])
  }

  ghost function EscapedBody(data: ByteString): ByteString
    decreases |data|
  {
    if data == [] then []
    else EscapedBody(data[..|data| - 1]) + if data[|data| - 1] == 0 then [0, 255] else [data[|data| - 1]]
  }

  method AppendEscaped(buf: ByteString, data: ByteString) returns (out: ByteString)
    ensures out == buf + Escaped(data)
  {
    out := buf;
    for i := 0 to |data|
      invariant out == buf + EscapedBody(data[..i])
    {
      assert data[..i + 1][..i] == data[..i];
      out := if data[i] == 0 then out + [0, 255] else out + [data[i]];
    }
    assert data[..|data|] == data;
    EscapedFromBody(data);
    out := out + [0, 0];
  }

  lemma {:induction false} BodyJoin(a: ByteString, b: ByteString)
    ensures EscapedBody(a) + Escaped(b) == Escaped(a + b)
    decreases |a|
  {
    if a == [] {
      assert a + b == b;
    } else {
      var n := |a| - 1;
      var rest := [a[n]] + b;
      BodyJoin(a[..n], rest);
      assert a[..n] + rest == a + b && rest[1..] == b;
    }
  }

  lemma {:induction false} EscapedFromBody(data: ByteString)
    ensures EscapedBody(data) + [0, 0] == Escaped(data)
  {
    assert Escaped([]) == [0, 0] && data + [] == data;
    BodyJoin(data, []);
  }

  /** Escaped strings compare like the strings, and the first to differ decides
      whatever follows. */
  lemma {:induction false} EscapedOrder(a: ByteString, b: ByteString, x: ByteString, y: ByteString)
    ensures Less(Escaped(a) + x, Escaped(b) + y) <==> Less(a, b) || (a == b && Less(x, y))
    decreases |a|
  {
    if a == [] && b == [] {
      LessAfterPrefix([0, 0], x, y);
    } else if a == [] {
      EscapedHead(b, y);
      assert (Escaped(a) + x)[0] == 0 && (Escaped(a) + x)[1] == 0;
    } else if b == [] {
      EscapedHead(a, x);
      assert (Escaped(b) + y)[0] == 0 && (Escaped(b) + y)[1] == 0;
    } else {
      EscapedOrderStep(a, b, x, y);
    }
  }

  lemma {:induction false} EscapedHead(a: ByteString, x: ByteString)
    requires a != []
    ensures Escaped(a) + x == (if a[0] == 0 then [0, 255] else [a[0]]) + (Escaped(a[1..]) + x)
  {
  }

  lemma {:induction false} EscapedOrderStep(a: ByteString, b: ByteString, x: ByteString, y: ByteString)
    requires a != [] && b != []
    ensures Less(Escaped(a) + x, Escaped(b) + y) <==> Less(a, b) || (a == b && Less(x, y))
    decreases |a|, 0
  {
    hide Escaped;
    EscapedHead(a, x);
    EscapedHead(b, y);
    var p, q := Escaped(a[1..]) + x, Escaped(b[1..]) + y;
    assert a == [a[0]] + a[1..] && b == [b[0]] + b[1..];
    if a[0] == b[0] {
      EscapedOrder(a[1..], b[1..], x, y);
      LessAfterPrefix(if a[0] == 0 then [0, 255] else [a[0]], p, q);
    }
  }

  // ------------------------------------------------------------------- cells

  function EncodeCell(c: Cell): ByteString
  {
    match c
    case IntCell(i) => EncInt64(i)
    case UintCell(u) => BigEndian(u, 8)
    case FloatCell(bits) => EncFloat64(bits)
    case TextCell(text) => Escaped(text)
    case TimeCell(nanos) => EncInt64(nanos)
  }

  /** The order of values of one kind. */
  ghost predicate CellLess(a: Cell, b: Cell)
  {
    match (a, b)
    case (IntCell(i), IntCell(j)) => i < j
    case (UintCell(i), UintCell(j)) => i < j
    case (FloatCell(i), FloatCell(j)) => TotalLess(i, j)
    case (TextCell(i), TextCell(j)) => Less(i, j)
    case (TimeCell(i), TimeCell(j)) => i < j
    case _ => false
  }

  /** One column: the encoding is self-delimiting and strictly order preserving. */
  lemma {:induction false} CellOrder(a: Cell, b: Cell, x: ByteString, y: ByteString)
    requires KindOf(a) == KindOf(b)
    ensures Less(EncodeCell(a) + x, EncodeCell(b) + y) <==> CellLess(a, b) || (a == b && Less(x, y))
  {
    hide BigEndian, Escaped, EncInt64, EncFloat64;
    match a {
      case IntCell(i) =>
        IntOrder(i, b.i);
        SameWidth(a, b, x, y);
      case UintCell(u) =>
        WordOrder(u, b.u);
        SameWidth(a, b, x, y);
      case FloatCell(bits) =>
        FloatOrder(bits, b.bits);
        SameWidth(a, b, x, y);
      case TextCell(text) =>
        EscapedOrder(text, b.text, x, y);
      case TimeCell(nanos) =>
        IntOrder(nanos, b.nanos);
        SameWidth(a, b, x, y);
    }
  }

  lemma {:induction false} SameWidth(a: Cell, b: Cell, x: ByteString, y: ByteString)
    requires KindOf(a) == KindOf(b) && !a.TextCell?
    ensures Less(EncodeCell(a) + x, EncodeCell(b) + y)
       <==> Less(EncodeCell(a), EncodeCell(b)) || (EncodeCell(a) == EncodeCell(b) && Less(x, y))
  {
    hide BigEndian, FromBigEndian, Less;
    LessSameLength(EncodeCell(a), EncodeCell(b), x, y);
  }

  /** Refuses a value of another kind. */
  method EncodeKeyCol(buf: ByteString, kind: Kind, c: Cell) returns (r: Result<ByteString>)
    ensures r == if KindOf(c) == kind then Ok(buf + EncodeCell(c)) else Err(Invalid)
  {
    if KindOf(c) != kind {
      return Err(Invalid);
    }
    if c.TextCell? {
      var out := AppendEscaped(buf, c.text);
      return Ok(out);
    }
    return Ok(buf + EncodeCell(c));
  }
}
