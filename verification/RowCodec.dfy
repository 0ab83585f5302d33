/** The row (value) codec: what is written decodes to the same row.  */
module RowCodec {
  import opened Hashing
  import opened KeyCodec
  import opened Tables

  // ----------------------------------------------------------------- varints

  /** Seven bits per byte, low bits first, the top bit marking continuation. */
  function Uvarint(n: nat): ByteString
  {
    if n < 128 then [n] else [n % 128 + 128] + Uvarint(n / 128)
  }

  /** The number at the front of b and its width; None when truncated or wider
      than 64 bits.  i counts the bytes already read. */
  function ReadUvarint(b: ByteString, i: nat): Option<(nat, nat)>
    decreases |b|
  {
    if b == [] || i >= 10 then None
    else if b[0] < 128 then
      if i == 9 && b[0] > 1 then None else Some((b[0], 1))
    else
      match ReadUvarint(b[1..], i + 1)
      case None => None
      case Some((n, width)) => Some((b[0] - 128 + 128 * n, width + 1))
  }

  /** What still fits in 64 bits after i bytes. */
  ghost function Room(i: nat): nat
    decreases 10 - i
  {
    if i >= 10 then 0 else if i == 9 then 2 else 128 * Room(i + 1)
  }

  lemma {:induction false} RoomAtStart()
    ensures Room(0) == TWO_64
  {
    assert Room(6) == 128 * 128 * 128 * 2;
    assert Room(3) == 128 * 128 * 128 * Room(6);
    assert Room(0) == 128 * 128 * 128 * Room(3);
  }

  lemma {:induction false} UvarintRoundTrip(n: nat, rest: ByteString, i: nat)
    requires n < Room(i)
    ensures ReadUvarint(Uvarint(n) + rest, i) == Some((n, |Uvarint(n)|))
    decreases n
  {
    var b := Uvarint(n) + rest;
    if n >= 128 {
      assert b[1..] == Uvarint(n / 128) + rest;
      assert n / 128 < Room(i + 1);
      UvarintRoundTrip(n / 128, rest, i + 1);
    }
  }

  lemma {:induction false} LengthRoundTrip(n: Word, rest: ByteString)
    ensures ReadUvarint(Uvarint(n) + rest, 0) == Some((n, |Uvarint(n)|))
  {
    hide Room, ReadUvarint, Uvarint;
    RoomAtStart();
    UvarintRoundTrip(n, rest, 0);
  }

  // -------------------------------------------------------------------- rows

  /** A value in row form: a NULL marker, then a word or a counted string. */
  function EncodeValue(s: Option<Cell>): ByteString
  {
    match s
    case None => [0]
    case Some(c) => [1] + if c.TextCell? then Uvarint(|c.text|) + c.text else EncodeCell(c)
  }

  function EncodedRow(row: Row): ByteString
    decreases |row|
  {
    if row == [] then [] else EncodedRow(row[..|row| - 1]) + EncodeValue(row[|row| - 1])
  }

  /** Strings are shorter than 2^64 bytes. */
  predicate Storable(row: Row)
  {
    forall i {:trigger row[i]} :: 0 <= i < |row| && row[i].Some? && row[i].value.TextCell? ==>
      |row[i].value.text| < TWO_64
  }

  /** The bytes of a row whose values have the kinds of their columns. */
  method EncodeRow(kinds: seq<Kind>, row: Row) returns (r: Result<ByteString>)
    ensures r == if Fits(row, kinds) then Ok(EncodedRow(row)) else Err(Invalid)
  {
    hide EncodeCell, Uvarint;
    if |row| != |kinds| {
      return Err(Invalid);
    }
    var buf: ByteString := [];
    for n := 0 to |kinds|
      invariant buf == EncodedRow(row[..n])
      invariant forall i {:trigger row[i]} :: 0 <= i < n && row[i].Some? ==> KindOf(row[i].value) == kinds[i]
    {
      assert row[..n + 1][..n] == row[..n];
      var v := row[n];
      if v.None? {
        buf := buf + [0];
      } else if KindOf(v.value) != kinds[n] {
        return Err(Invalid);
      } else if v.value.TextCell? {
        buf := buf + ([1] + (Uvarint(|v.value.text|) + v.value.text));
      } else {
        buf := buf + ([1] + EncodeCell(v.value));
      }
    }
    assert row[..|kinds|] == row;
    return Ok(buf);
  }

  /** Reads one column at off. */
  function DecodeValue(kind: Kind, data: ByteString, off: nat): (r: Result<(Option<Cell>, nat)>)
    requires off <= |data|
    ensures r.Err? ==> r.error == Corrupted
  {
    if off >= |data| then Err(Corrupted)
    else if data[off] == 0 then Ok((None, off + 1))
    else if data[off] != 1 then Err(Corrupted)
    else if kind == KText then DecodeText(data, off + 1)
    else if off + 9 > |data| then Err(Corrupted)
    else Ok((Some(DecodeWord(kind, data[off + 1..off + 9])), off + 9))
  }

  function DecodeText(data: ByteString, off: nat): (r: Result<(Option<Cell>, nat)>)
    requires off <= |data|
    ensures r.Err? ==> r.error == Corrupted
  {
    match ReadUvarint(data[off..], 0)
    case None => Err(Corrupted)
    case Some((n, width)) =>
      if off + width + n > |data| then Err(Corrupted)
      else Ok((Some(TextCell(data[off + width..off + width + n])), off + width + n))
  }

  lemma {:induction false} EightByteBound(b: ByteString)
    ensures FromBigEndian(b) < Pow256(|b|)
    decreases |b|
  {
    if b != [] {
      EightByteBound(b[..|b| - 1]);
    }
  }

  function DecodeWord(kind: Kind, b: ByteString): Cell
    requires |b| == 8
  {
    EightByteBound(b);
    EightBytes();
    match kind
    case KInt => IntCell(DecInt64(b))
    case KUint => UintCell(FromBigEndian(b))
    case KFloat => FloatCell(DecFloat64(b))
    case KText => TextCell(b)
    case KDatetime => TimeCell(DecInt64(b))
  }

  /** The columns decoded so far, or the first error. */
  ghost function Decoded(kinds: seq<Kind>, data: ByteString, n: nat): (r: Result<(Row, nat)>)
    requires n <= |kinds|
    ensures r.Ok? ==> r.value.1 <= |data| && |r.value.0| == n
    ensures r.Err? ==> r.error == Corrupted
    decreases n
  {
    if n == 0 then Ok(([], 0))
    else match Decoded(kinds, data, n - 1)
         case Err(e) => Err(e)
         case Ok((row, off)) =>
           match DecodeValue(kinds[n - 1], data, off)
           case Err(e) => Err(e)
           case Ok((v, next)) => Ok((row + [v], next))
  }

  /** A row from its bytes, all of which must be used. */
  method DecodeRow(kinds: seq<Kind>, data: ByteString) returns (r: Result<Row>)
    ensures r == match Decoded(kinds, data, |kinds|)
                 case Err(e) => Err(e)
                 case Ok((row, off)) => if off == |data| then Ok(row) else Err(Corrupted)
  {
    hide DecodeValue;
    var row: Row := [];
    var off := 0;
    for n := 0 to |kinds|
      invariant off <= |data| && Decoded(kinds, data, n) == Ok((row, off))
    {
      var v := DecodeValue(kinds[n], data, off);
      if v.Err? {
        FirstErrorStands(kinds, data, n + 1, |kinds|);
        return Err(v.error);
      }
      row, off := row + [v.value.0], v.value.1;
      assert Decoded(kinds, data, n + 1) == Ok((row, off));
    }
    if off != |data| {
      return Err(Corrupted);
    }
    return Ok(row);
  }

  lemma {:induction false} FirstErrorStands(kinds: seq<Kind>, data: ByteString, n: nat, last: nat)
    requires n <= last <= |kinds| && Decoded(kinds, data, n).Err?
    ensures Decoded(kinds, data, last) == Decoded(kinds, data, n)
    decreases last
  {
    if n < last {
      FirstErrorStands(kinds, data, n, last - 1);
    }
  }

  // -------------------------------------------------------------- round trip

  lemma {:induction false} WordRoundTrip(c: Cell)
    requires !c.TextCell?
    ensures |EncodeCell(c)| == 8 && DecodeWord(KindOf(c), EncodeCell(c)) == c
  {
    hide BigEndian, FromBigEndian, DecInt64, DecFloat64;
    match c {
      case IntCell(i) => IntOrder(i, i);
      case UintCell(u) => WordOrder(u, u);
      case FloatCell(bits) => FloatOrder(bits, bits);
      case TimeCell(nanos) => IntOrder(nanos, nanos);
    }
  }

  lemma {:induction false} TextRoundTrip(head: ByteString, text: ByteString, tail: ByteString)
    requires |text| < TWO_64
    ensures var data := head + (Uvarint(|text|) + text) + tail;
            DecodeText(data, |head|) == Ok((Some(TextCell(text)), |head| + |Uvarint(|text|) + text|))
  {
    hide Uvarint, ReadUvarint;
    var data, off := head + (Uvarint(|text|) + text) + tail, |head|;
    var width := |Uvarint(|text|)|;
    assert data[off..] == Uvarint(|text|) + (text + tail);
    LengthRoundTrip(|text|, text + tail);
    assert data[off + width..off + width + |text|] == text;
  }

  lemma {:induction false} ValueRoundTrip(kind: Kind, v: Option<Cell>, head: ByteString, tail: ByteString)
    requires v.Some? ==> KindOf(v.value) == kind && (v.value.TextCell? ==> |v.value.text| < TWO_64)
    ensures DecodeValue(kind, head + EncodeValue(v) + tail, |head|) == Ok((v, |head| + |EncodeValue(v)|))
  {
    hide EncodeCell, Uvarint, DecodeValue;
    if v.None? {
      NullDecodes(kind, head, tail);
    } else if v.value.TextCell? {
      TextDecodes(v.value.text, head, tail);
    } else {
      WordRoundTrip(v.value);
      WordDecodes(kind, v.value, EncodeCell(v.value), head, tail);
    }
  }

  lemma {:induction false} NullDecodes(kind: Kind, head: ByteString, tail: ByteString)
    ensures DecodeValue(kind, head + [0] + tail, |head|) == Ok((None, |head| + 1))
  {
    hide DecodeText, DecodeWord;
  }

  lemma {:induction false} TextDecodes(text: ByteString, head: ByteString, tail: ByteString)
    requires |text| < TWO_64
    ensures var enc := [1] + (Uvarint(|text|) + text);
            DecodeValue(KText, head + enc + tail, |head|) == Ok((Some(TextCell(text)), |head| + |enc|))
  {
    hide Uvarint, DecodeText, DecodeWord;
    TextRoundTrip(head + [1], text, tail);
    var body := Uvarint(|text|) + text;
    assert head + ([1] + body) + tail == head + [1] + body + tail;
  }

  lemma {:induction false} WordDecodes(kind: Kind, c: Cell, w: ByteString, head: ByteString, tail: ByteString)
    requires kind != KText && |w| == 8 && DecodeWord(kind, w) == c
    ensures DecodeValue(kind, head + ([1] + w) + tail, |head|) == Ok((Some(c), |head| + 9))
  {
    hide DecodeText, DecodeWord;
    var data := head + ([1] + w) + tail;
    assert data[|head|] == 1 && data[|head| + 1..|head| + 9] == w;
  }

  lemma {:induction false} DecodesPrefix(kinds: seq<Kind>, row: Row, tail: ByteString, n: nat)
    requires Fits(row, kinds) && Storable(row) && n <= |row|
    ensures Decoded(kinds, EncodedRow(row[..n]) + tail, n) == Ok((row[..n], |EncodedRow(row[..n])|))
    decreases n
  {
    hide DecodeValue, EncodeValue;
    if n > 0 {
      var v := row[n - 1];
      assert row[..n][..n - 1] == row[..n - 1] && row[..n] == row[..n - 1] + [v];
      var head := EncodedRow(row[..n - 1]);
      DecodesPrefix(kinds, row, EncodeValue(v) + tail, n - 1);
      assert head + (EncodeValue(v) + tail) == head + EncodeValue(v) + tail;
      ValueRoundTrip(kinds[n - 1], v, head, tail);
    }
  }

  /** What the encoder writes decodes to the same row. */
  lemma {:induction false} RowRoundTrip(kinds: seq<Kind>, row: Row)
    requires Fits(row, kinds) && Storable(row)
    ensures Decoded(kinds, EncodedRow(row), |kinds|) == Ok((row, |EncodedRow(row)|))
  {
    hide Decoded, EncodedRow;
    assert row[..|kinds|] == row && EncodedRow(row) + [] == EncodedRow(row);
    DecodesPrefix(kinds, row, [], |kinds|);
  }

  // --------------------------------------------------- what decodes was encoded

  lemma {:induction false} LowByte(m: nat, c: Byte)
    ensures (256 * m + c) / 256 == m && (256 * m + c) % 256 == c
  {
  }

  lemma {:induction false} SpelledBack(b: ByteString)
    ensures BigEndian(FromBigEndian(b), |b|) == b
    decreases |b|
  {
    if b != [] {
      var n := |b| - 1;
      SpelledBack(b[..n]);
      LowByte(FromBigEndian(b[..n]), b[n]);
      assert b == b[..n] + [b[n]];
    }
  }

  lemma {:induction false} WordSpelled(kind: Kind, b: ByteString)
    requires |b| == 8 && kind != KText
    ensures KindOf(DecodeWord(kind, b)) == kind && EncodeCell(DecodeWord(kind, b)) == b
  {
    hide BigEndian, FromBigEndian;
    EightByteBound(b);
    EightBytes();
    SpelledBack(b);
  }

  /** A length may be spelled with needless bytes, never with too few. */
  lemma {:induction false} LengthSpelled(b: ByteString, i: nat)
    requires ReadUvarint(b, i).Some?
    ensures var (n, width) := ReadUvarint(b, i).value;
            0 < width <= |b| && n < Room(i) && |Uvarint(n)| <= width &&
            (|Uvarint(n)| == width <==> b[..width] == Uvarint(n))
    decreases |b|
  {
    if b[0] >= 128 {
      LengthSpelled(b[1..], i + 1);
      var (n, width) := ReadUvarint(b[1..], i + 1).value;
      assert b[..width + 1] == [b[0]] + b[1..][..width];
      if n > 0 {
        assert Uvarint(b[0] - 128 + 128 * n) == [b[0]] + Uvarint(n);
      }
    } else {
      if i < 9 {
        RoomLeft(i);
      }
      assert b[..1] == [b[0]];
    }
  }

  lemma {:induction false} RoomLeft(i: nat)
    requires i < 9
    ensures Room(i) >= 128
    decreases 9 - i
  {
    if i < 8 {
      RoomLeft(i + 1);
    }
  }

  lemma {:induction false} ValueSpelled(kind: Kind, data: ByteString, off: nat)
    requires off <= |data| && DecodeValue(kind, data, off).Ok?
    ensures var (v, next) := DecodeValue(kind, data, off).value;
            off < next <= |data| && |EncodeValue(v)| <= next - off &&
            (|EncodeValue(v)| == next - off <==> data[off..next] == EncodeValue(v)) &&
            (v.Some? ==> KindOf(v.value) == kind && (v.value.TextCell? ==> |v.value.text| < TWO_64))
  {
    hide EncodeCell, Uvarint, ReadUvarint, DecodeWord, Room;
    var (v, next) := DecodeValue(kind, data, off).value;
    if data[off] == 0 {
      assert data[off..next] == [0];
    } else if kind == KText {
      TextSpelled(data, off + 1);
      assert data[off..next] == [1] + data[off + 1..next];
    } else {
      WordSpelled(kind, data[off + 1..next]);
      assert data[off..next] == [1] + data[off + 1..next];
    }
  }

  lemma {:induction false} TextSpelled(data: ByteString, off: nat)
    requires off <= |data| && DecodeText(data, off).Ok?
    ensures var (v, next) := DecodeText(data, off).value;
            off < next <= |data| && v.Some? && v.value.TextCell? && |v.value.text| < TWO_64 &&
            var enc := Uvarint(|v.value.text|) + v.value.text;
            |enc| <= next - off && (|enc| == next - off <==> data[off..next] == enc)
  {
    hide Uvarint, ReadUvarint, Room;
    var (n, width) := ReadUvarint(data[off..], 0).value;
    LengthSpelled(data[off..], 0);
    RoomAtStart();
    assert data[off..off + width + n] == data[off..][..width] + data[off + width..off + width + n];
  }

  /** What the decoder accepts is what the encoder writes, except that lengths may be
      spelled with needless bytes: the columns have their kinds, and encoding the row
      again gives the bytes back if and only if it does not shorten them. */
  lemma {:induction false} DecodedIsEncoded(kinds: seq<Kind>, data: ByteString, n: nat)
    requires n <= |kinds| && Decoded(kinds, data, n).Ok?
    ensures var (row, off) := Decoded(kinds, data, n).value;
            Fits(row, kinds[..n]) && Storable(row) && |EncodedRow(row)| <= off &&
            (EncodedRow(row) == data[..off] <==> |EncodedRow(row)| == off)
    decreases n
  {
    hide DecodeValue, EncodeValue;
    if n > 0 {
      DecodedIsEncoded(kinds, data, n - 1);
      var (row, off) := Decoded(kinds, data, n - 1).value;
      ValueSpelled(kinds[n - 1], data, off);
      var (v, next) := DecodeValue(kinds[n - 1], data, off).value;
      assert (row + [v])[..n - 1] == row;
      assert data[..next] == data[..off] + data[off..next];
      SplitEqual(EncodedRow(row), EncodeValue(v), data[..off], data[off..next]);
    }
  }

  lemma {:induction false} SplitEqual(a: ByteString, b: ByteString, x: ByteString, y: ByteString)
    requires |a| <= |x| && |b| <= |y| && (a == x <==> |a| == |x|) && (b == y <==> |b| == |y|)
    ensures a + b == x + y <==> |a + b| == |x + y|
  {
  }

  /** Rows are told apart by their stored bytes. */
  lemma {:induction false} RowBytesInjective(kinds: seq<Kind>, a: Row, b: Row)
    requires Fits(a, kinds) && Storable(a) && Fits(b, kinds) && Storable(b) && EncodedRow(a) == EncodedRow(b)
    ensures a == b
  {
    hide Decoded, EncodedRow;
    RowRoundTrip(kinds, a);
    RowRoundTrip(kinds, b);
  }
}
