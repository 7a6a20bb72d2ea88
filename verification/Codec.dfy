/** Fixed-width integer encodings and the two binary KeyValue codecs. */
module Codec {
  import opened Bytes
  import opened Revisions
  import opened MvccSpec

  const TWO32: int := 0x1_0000_0000
  const TWO63: int := 0x8000_0000_0000_0000
  const TWO64: int := 0x1_0000_0000_0000_0000

  predicate IsInt64(x: int) {
    -TWO63 <= x < TWO63
  }

  /** uint64(x) for an int64 x, and back. */
  function ToU64(x: int): nat {
    x % TWO64
  }

  function ToI64(u: nat): int {
    if u < TWO63 then u else u - TWO64
  }

  lemma I64RoundTrip(x: int)
    requires IsInt64(x)
    ensures ToU64(x) < TWO64 && ToI64(ToU64(x)) == x
  {
    if x < 0 {
      assert ToU64(x) == x + TWO64;
    }
  }

  lemma U64RoundTrip(u: nat)
    requires u < TWO64
    ensures IsInt64(ToI64(u)) && ToU64(ToI64(u)) == u
  {
  }

  // ---------------------------------------------------------------- big-endian

  function Pow256(n: nat): nat
  {
    if n == 0 then 1 else 256 * Pow256(n - 1)
  }

  function BE(v: nat, n: nat): (s: seq<byte>)
    ensures |s| == n
  {
    if n == 0 then [] else BE(v / 256, n - 1) + [v % 256]
  }

  function FromBE(s: seq<byte>): nat
  {
    if s == [] then 0 else FromBE(s[..|s| - 1]) * 256 + s[|s| - 1]
  }

  lemma {:induction false} BERoundTrip(v: nat, n: nat)
    requires v < Pow256(n)
    ensures FromBE(BE(v, n)) == v
  {
    if n > 0 {
      BERoundTrip(v / 256, n - 1);
      assert BE(v, n)[..n - 1] == BE(v / 256, n - 1);
    }
  }

  lemma {:induction false} FromBERoundTrip(s: seq<byte>)
    ensures FromBE(s) < Pow256(|s|) && BE(FromBE(s), |s|) == s
  {
    if s != [] {
      FromBERoundTrip(s[..|s| - 1]);
    }
  }

  lemma {:induction false} FromBECons(b: byte, s: seq<byte>)
    ensures FromBE([b] + s) == b * Pow256(|s|) + FromBE(s)
  {
    if s == [] {
      assert [b] + s == [b] && [b][..0] == [];
    } else {
      var n := |s| - 1;
      FromBECons(b, s[..n]);
      assert ([b] + s)[..|s|] == [b] + s[..n];
      calc {
        FromBE([b] + s);
        FromBE([b] + s[..n]) * 256 + s[n];
        (b * Pow256(n) + FromBE(s[..n])) * 256 + s[n];
        b * Pow256(|s|) + FromBE(s);
      }
    }
  }

  /** Big-endian bytes of equal length order as the numbers do. */
  lemma {:induction false} BEOrder(a: seq<byte>, b: seq<byte>)
    requires |a| == |b|
    ensures Less(a, b) <==> FromBE(a) < FromBE(b)
    ensures a == b <==> FromBE(a) == FromBE(b)
  {
    if a != [] {
      var x, y := a[1..], b[1..];
      assert a == [a[0]] + x && b == [b[0]] + y;
      BEOrder(x, y);
      FromBECons(a[0], x);
      FromBECons(b[0], y);
      FromBERoundTrip(x);
      FromBERoundTrip(y);
      var p := Pow256(|x|);
      if a[0] < b[0] {
        HighDigit(a[0], b[0], p, FromBE(x), FromBE(y));
      } else if b[0] < a[0] {
        HighDigit(b[0], a[0], p, FromBE(y), FromBE(x));
      }
    }
  }

  lemma HighDigit(a: nat, b: nat, p: nat, x: nat, y: nat)
    requires a < b && x < p && y < p
    ensures a * p + x < b * p + y
  {
    assert (a + 1) * p <= b * p;
  }

  lemma Pow256At()
    ensures Pow256(4) == TWO32 && Pow256(8) == TWO64
  {
    assert Pow256(1) == 256 && Pow256(2) == 65536 && Pow256(3) == 16777216 && Pow256(4) == TWO32;
    assert Pow256(5) == 256 * TWO32 && Pow256(6) == 65536 * TWO32 && Pow256(7) == 16777216 * TWO32;
  }

  // ---------------------------------------------------------------- little-endian

  function LE(v: nat, n: nat): (s: seq<byte>)
    ensures |s| == n
  {
    if n == 0 then [] else [v % 256] + LE(v / 256, n - 1)
  }

  function FromLE(s: seq<byte>): nat
  {
    if s == [] then 0 else s[0] + 256 * FromLE(s[1..])
  }

  lemma {:induction false} LERoundTrip(v: nat, n: nat)
    requires v < Pow256(n)
    ensures FromLE(LE(v, n)) == v
  {
    if n > 0 {
      LERoundTrip(v / 256, n - 1);
      assert LE(v, n)[1..] == LE(v / 256, n - 1);
    }
  }

  lemma {:induction false} FromLERoundTrip(s: seq<byte>)
    ensures FromLE(s) < Pow256(|s|) && LE(FromLE(s), |s|) == s
  {
    if s != [] {
      hide LE;
      FromLERoundTrip(s[1..]);
      LECons(s[0], FromLE(s[1..]), |s| - 1);
      assert s == [s[0]] + s[1..];
    } else {
      assert LE(FromLE(s), 0) == [];
    }
  }

  lemma LECons(b: byte, r: nat, n: nat)
    ensures LE(b + 256 * r, n + 1) == [b] + LE(r, n)
  {
    ByteAndRest(b, r);
  }

  lemma ByteAndRest(b: byte, r: nat)
    ensures (b + 256 * r) % 256 == b && (b + 256 * r) / 256 == r
  {
  }

  // ---------------------------------------------------------------- revisions

  predicate IsRev64(r: Revision) {
    0 <= r.main < TWO63 && 0 <= r.sub < TWO63
  }

  function RevBytes(r: Revision): (s: seq<byte>)
    ensures |s| == 16
  {
    BE(ToU64(r.main), 8) + BE(ToU64(r.sub), 8)
  }

  function ParseRev(b: seq<byte>): Revision
  {
    if |b| < 16 then Zero else Revision(ToI64(FromBE(b[..8])), ToI64(FromBE(b[8..16])))
  }

  lemma RevRoundTrip(r: Revision)
    requires IsInt64(r.main) && IsInt64(r.sub)
    ensures ParseRev(RevBytes(r)) == r
  {
    I64RoundTrip(r.main);
    I64RoundTrip(r.sub);
    Pow256At();
    BERoundTrip(ToU64(r.main), 8);
    BERoundTrip(ToU64(r.sub), 8);
    assert RevBytes(r)[..8] == BE(ToU64(r.main), 8) && RevBytes(r)[8..16] == BE(ToU64(r.sub), 8);
  }

  lemma ParseRevRoundTrip(b: seq<byte>)
    requires |b| == 16
    ensures RevBytes(ParseRev(b)) == b && IsInt64(ParseRev(b).main) && IsInt64(ParseRev(b).sub)
  {
    Pow256At();
    FromBERoundTrip(b[..8]);
    FromBERoundTrip(b[8..16]);
    U64RoundTrip(FromBE(b[..8]));
    U64RoundTrip(FromBE(b[8..16]));
    assert b == b[..8] + b[8..16];
  }

  lemma {:induction false} LessConcat(a: Key, b: Key, x: Key, y: Key)
    requires |a| == |b|
    ensures Less(a + x, b + y) <==> Less(a, b) || (a == b && Less(x, y))
  {
    LessIrreflexive(a);
    if a == [] {
      assert a + x == x && b + y == y;
    } else {
      assert (a + x)[1..] == a[1..] + x && (b + y)[1..] == b[1..] + y;
      LessConcat(a[1..], b[1..], x, y);
      assert a == [a[0]] + a[1..] && b == [b[0]] + b[1..];
    }
  }

  lemma BENumberOrder(v: nat, w: nat, n: nat)
    requires v < Pow256(n) && w < Pow256(n)
    ensures Less(BE(v, n), BE(w, n)) <==> v < w
    ensures BE(v, n) == BE(w, n) <==> v == w
  {
    BERoundTrip(v, n);
    BERoundTrip(w, n);
    BEOrder(BE(v, n), BE(w, n));
  }

  /** Encoded non-negative revisions sort in revision order. */
  lemma RevBytesOrder(r: Revision, s: Revision)
    requires IsRev64(r) && IsRev64(s)
    ensures Less(RevBytes(r), RevBytes(s)) <==> r.LessThan(s)
  {
    hide BE, Less, Pow256;
    Pow256At();
    BENumberOrder(r.main, s.main, 8);
    BENumberOrder(r.sub, s.sub, 8);
    LessConcat(BE(r.main, 8), BE(s.main, 8), BE(r.sub, 8), BE(s.sub, 8));
  }

  // ---------------------------------------------------------------- MVCC KeyValue codec

  /** What the Go types guarantee of a KeyValue, with lengths that fit in 32 bits. */
  predicate WellTyped(kv: KeyValue) {
    && |kv.key| < TWO32 && |kv.value| < TWO32
    && IsInt64(kv.createRev) && IsInt64(kv.modRev) && IsInt64(kv.version) && IsInt64(kv.lease)
  }

  function Header(kv: KeyValue): (s: seq<byte>)
    ensures |s| == 40
  {
    BE(|kv.key| % TWO32, 4) + BE(|kv.value| % TWO32, 4) + BE(ToU64(kv.createRev), 8) + BE(ToU64(kv.modRev), 8) +
    BE(ToU64(kv.version), 8) + BE(ToU64(kv.lease), 8)
  }

  /** [keyLen:4][valueLen:4][createRev:8][modRev:8][version:8][lease:8][key][value], big-endian. */
  function Encoding(kv: KeyValue): seq<byte> {
    Header(kv) + kv.key + kv.value
  }

  function I64At(data: seq<byte>, i: nat): int
    requires i + 8 <= |data|
  {
    ToI64(FromBE(data[i..i + 8]))
  }

  function Decoding(data: seq<byte>): Option<KeyValue>
  {
    if |data| < 40 then None
    else
      var keyLen, valueLen := FromBE(data[0..4]), FromBE(data[4..8]);
      if |data| < 40 + keyLen + valueLen then None
      else Some(KeyValue(data[40..40 + keyLen], data[40 + keyLen..40 + keyLen + valueLen],
                         I64At(data, 8), I64At(data, 16), I64At(data, 24), I64At(data, 32)))
  }

  /** The six fields of the header, each where Decode looks for it. */
  lemma HeaderFields(kv: KeyValue, data: seq<byte>)
    requires Header(kv) <= data
    ensures data[0..4] == BE(|kv.key| % TWO32, 4) && data[4..8] == BE(|kv.value| % TWO32, 4)
    ensures data[8..16] == BE(ToU64(kv.createRev), 8) && data[16..24] == BE(ToU64(kv.modRev), 8)
    ensures data[24..32] == BE(ToU64(kv.version), 8) && data[32..40] == BE(ToU64(kv.lease), 8)
  {
    hide BE, ToU64;
    var h := Header(kv);
    assert data[0..4] == h[0..4] && data[4..8] == h[4..8] && data[8..16] == h[8..16];
    assert data[16..24] == h[16..24] && data[24..32] == h[24..32] && data[32..40] == h[32..40];
  }

  lemma I64Field(x: int, data: seq<byte>, i: nat)
    requires IsInt64(x) && i + 8 <= |data| && data[i..i + 8] == BE(ToU64(x), 8)
    ensures I64At(data, i) == x
  {
    Pow256At();
    I64RoundTrip(x);
    BERoundTrip(ToU64(x), 8);
  }

  lemma LengthFields(kv: KeyValue, data: seq<byte>)
    requires Header(kv) <= data
    ensures FromBE(data[0..4]) == |kv.key| % TWO32 && FromBE(data[4..8]) == |kv.value| % TWO32
  {
    HeaderFields(kv, data);
    Pow256At();
    BERoundTrip(|kv.key| % TWO32, 4);
    BERoundTrip(|kv.value| % TWO32, 4);
  }

  /** Whatever the lengths, an encoded value decodes, and to its own version and create revision. */
  lemma EncodedVersion(kv: KeyValue)
    requires IsInt64(kv.version) && IsInt64(kv.createRev)
    ensures Decoding(Encoding(kv)).Some?
    ensures Decoding(Encoding(kv)).value.version == kv.version && Decoding(Encoding(kv)).value.createRev == kv.createRev
  {
    hide Header, FromBE, BE, ToU64, I64At;
    LengthFields(kv, Encoding(kv));
    HeaderFields(kv, Encoding(kv));
    I64Field(kv.version, Encoding(kv), 24);
    I64Field(kv.createRev, Encoding(kv), 8);
  }

  /** Decode inverts Encode, and ignores bytes after the value. */
  lemma DecodeEncode(kv: KeyValue, rest: seq<byte>)
    requires WellTyped(kv)
    ensures Decoding(Encoding(kv) + rest) == Some(kv)
  {
    hide Header, FromBE, I64At, BE, ToU64;
    var data := Encoding(kv) + rest;
    LengthFields(kv, data);
    HeaderFields(kv, data);
    I64Field(kv.createRev, data, 8);
    I64Field(kv.modRev, data, 16);
    I64Field(kv.version, data, 24);
    I64Field(kv.lease, data, 32);
    assert data[40..40 + |kv.key|] == kv.key;
    assert data[40 + |kv.key|..40 + |kv.key| + |kv.value|] == kv.value;
  }

  lemma FieldBytes(data: seq<byte>, i: nat)
    requires i + 8 <= |data|
    ensures IsInt64(I64At(data, i)) && BE(ToU64(I64At(data, i)), 8) == data[i..i + 8]
  {
    Pow256At();
    FromBERoundTrip(data[i..i + 8]);
    U64RoundTrip(FromBE(data[i..i + 8]));
  }

  /** Whatever Decode accepts is the encoding of the returned value, up to trailing bytes. */
  lemma EncodeDecode(data: seq<byte>)
    requires Decoding(data).Some?
    ensures WellTyped(Decoding(data).value) && Encoding(Decoding(data).value) <= data
  {
    hide FromBE, BE, ToU64, I64At, Pow256;
    var kv := Decoding(data).value;
    Pow256At();
    FromBERoundTrip(data[0..4]);
    FromBERoundTrip(data[4..8]);
    FieldBytes(data, 8);
    FieldBytes(data, 16);
    FieldBytes(data, 24);
    FieldBytes(data, 32);
    assert Header(kv) == data[0..4] + data[4..8] + data[8..16] + data[16..24] + data[24..32] + data[32..40];
    var n := 40 + |kv.key|;
    assert Encoding(kv) == data[..40] + data[40..n] + data[n..n + |kv.value|];
  }

  method PutBytes(buf: array<byte>, offset: nat, s: seq<byte>)
    requires offset + |s| <= buf.Length
    modifies buf
    ensures buf[..] == old(buf[..offset]) + s + old(buf[offset + |s|..])
    ensures buf[..offset + |s|] == old(buf[..offset]) + s
  {
    var i := 0;
    while i < |s|
      invariant 0 <= i <= |s|
      invariant buf[..] == old(buf[..offset]) + s[..i] + old(buf[offset + i..])
    {
      buf[offset + i] := s[i];
      i := i + 1;
    }
  }

  method PutHeader(buf: array<byte>, kv: KeyValue)
    requires 40 <= buf.Length
    modifies buf
    ensures buf[..40] == Header(kv)
  {
    hide BE, ToU64;
    PutBytes(buf, 0, BE(|kv.key| % TWO32, 4));
    PutBytes(buf, 4, BE(|kv.value| % TWO32, 4));
    PutBytes(buf, 8, BE(ToU64(kv.createRev), 8));
    PutBytes(buf, 16, BE(ToU64(kv.modRev), 8));
    PutBytes(buf, 24, BE(ToU64(kv.version), 8));
    PutBytes(buf, 32, BE(ToU64(kv.lease), 8));
  }

  method Encode(kv: KeyValue) returns (buf: array<byte>)
    ensures fresh(buf) && buf[..] == Encoding(kv)
  {
    hide Header;
    var size := 40 + |kv.key| + |kv.value|;
    buf := new byte[size](_ => 0);
    PutHeader(buf, kv);
    PutBytes(buf, 40, kv.key);
    PutBytes(buf, 40 + |kv.key|, kv.value);
    assert buf[..size] == buf[..];
  }

  method Decode(data: seq<byte>) returns (r: Option<KeyValue>)
    ensures r == Decoding(data)
  {
    hide FromBE, ToI64;
    if |data| < 40 {
      return None;
    }
    var offset := 0;
    var keyLen := FromBE(data[offset..offset + 4]);
    offset := offset + 4;
    var valueLen := FromBE(data[offset..offset + 4]);
    offset := offset + 4;
    if |data| < 40 + keyLen + valueLen {
      return None;
    }
    var createRev := ToI64(FromBE(data[offset..offset + 8]));
    offset := offset + 8;
    var modRev := ToI64(FromBE(data[offset..offset + 8]));
    offset := offset + 8;
    var version := ToI64(FromBE(data[offset..offset + 8]));
    offset := offset + 8;
    var lease := ToI64(FromBE(data[offset..offset + 8]));
    offset := offset + 8;
    var key := data[offset..offset + keyLen];
    offset := offset + keyLen;
    var value := data[offset..offset + valueLen];
    return Some(KeyValue(key, value, createRev, modRev, version, lease));
  }

  // ---------------------------------------------------------------- pooled KeyValue codec

  /** [keyLen:4][key][valueLen:4][value][createRev:8][modRev:8][version:8][lease:8], little-endian. */
  function PoolTail(kv: KeyValue): (s: seq<byte>)
    ensures |s| == 32
  {
    LE(ToU64(kv.createRev), 8) + LE(ToU64(kv.modRev), 8) + LE(ToU64(kv.version), 8) + LE(ToU64(kv.lease), 8)
  }

  function PoolEncoding(kv: KeyValue): seq<byte> {
    LE(|kv.key| % TWO32, 4) + kv.key + (LE(|kv.value| % TWO32, 4) + kv.value + PoolTail(kv))
  }

  /** This decoder checks only for eight bytes; beyond that a short buffer is a run-time panic. */
  datatype PoolResult = NoValue | Panic | Value(kv: KeyValue)

  function PoolI64(data: seq<byte>, i: nat): int
    requires i + 8 <= |data|
  {
    ToI64(FromLE(data[i..i + 8]))
  }

  function PoolDecoding(data: seq<byte>): PoolResult
  {
    if |data| < 8 then NoValue
    else
      var keyLen := FromLE(data[0..4]);
      if |data| < 8 + keyLen then Panic
      else
        var valueLen := FromLE(data[4 + keyLen..8 + keyLen]);
        var p := 8 + keyLen + valueLen;
        if |data| < p + 32 then Panic
        else Value(KeyValue(data[4..4 + keyLen], data[8 + keyLen..p], PoolI64(data, p), PoolI64(data, p + 8),
                            PoolI64(data, p + 16), PoolI64(data, p + 24)))
  }

  lemma LEField(v: nat, data: seq<byte>, i: nat, n: nat)
    requires v < Pow256(n) && i + n <= |data| && data[i..i + n] == LE(v, n)
    ensures FromLE(data[i..i + n]) == v
  {
    LERoundTrip(v, n);
  }

  lemma PoolI64Field(x: int, data: seq<byte>, i: nat)
    requires IsInt64(x) && i + 8 <= |data| && data[i..i + 8] == LE(ToU64(x), 8)
    ensures PoolI64(data, i) == x
  {
    Pow256At();
    I64RoundTrip(x);
    LEField(ToU64(x), data, i, 8);
  }

  /** Where the fields of an encoded value lie. */
  lemma PoolFields(kv: KeyValue, data: seq<byte>)
    requires WellTyped(kv) && data == PoolEncoding(kv)
    ensures var p := 8 + |kv.key| + |kv.value|;
            && |data| == p + 32
            && data[0..4] == LE(|kv.key|, 4) && data[4..4 + |kv.key|] == kv.key
            && data[4 + |kv.key|..8 + |kv.key|] == LE(|kv.value|, 4) && data[8 + |kv.key|..p] == kv.value
            && data[p..p + 8] == LE(ToU64(kv.createRev), 8) && data[p + 8..p + 16] == LE(ToU64(kv.modRev), 8)
            && data[p + 16..p + 24] == LE(ToU64(kv.version), 8) && data[p + 24..p + 32] == LE(ToU64(kv.lease), 8)
  {
    hide LE, ToU64;
    var a := LE(|kv.key|, 4) + kv.key;
    var b := a + LE(|kv.value|, 4) + kv.value;
    assert data == b + PoolTail(kv);
    var p := |b|;
    assert data[p..] == PoolTail(kv);
    assert data[p..p + 8] == PoolTail(kv)[0..8] && data[p + 8..p + 16] == PoolTail(kv)[8..16];
    assert data[p + 16..p + 24] == PoolTail(kv)[16..24] && data[p + 24..p + 32] == PoolTail(kv)[24..32];
  }

  lemma PoolDecodeEncode(kv: KeyValue)
    requires WellTyped(kv)
    ensures PoolDecoding(PoolEncoding(kv)) == Value(kv)
  {
    hide LE, ToU64, FromLE, Pow256, PoolI64, PoolEncoding;
    var data := PoolEncoding(kv);
    var p := 8 + |kv.key| + |kv.value|;
    PoolFields(kv, data);
    Pow256At();
    LEField(|kv.key|, data, 0, 4);
    LEField(|kv.value|, data, 4 + |kv.key|, 4);
    PoolI64Field(kv.createRev, data, p);
    PoolI64Field(kv.modRev, data, p + 8);
    PoolI64Field(kv.version, data, p + 16);
    PoolI64Field(kv.lease, data, p + 24);
  }

  lemma PoolFieldBytes(data: seq<byte>, i: nat)
    requires i + 8 <= |data|
    ensures IsInt64(PoolI64(data, i)) && LE(ToU64(PoolI64(data, i)), 8) == data[i..i + 8]
  {
    Pow256At();
    FromLERoundTrip(data[i..i + 8]);
    U64RoundTrip(FromLE(data[i..i + 8]));
  }

  /** The decoder panics on exactly the buffers of eight bytes or more that do not begin with an encoded value. */
  lemma PoolPanicsExactly(data: seq<byte>)
    ensures PoolDecoding(data).Panic? <==> 8 <= |data| && !exists kv :: WellTyped(kv) && PoolEncoding(kv) <= data
    ensures PoolDecoding(data).Value? ==> WellTyped(PoolDecoding(data).kv) && PoolEncoding(PoolDecoding(data).kv) <= data
  {
    if PoolDecoding(data).Value? {
      PoolAcceptsEncoding(data);
    } else if exists kv :: WellTyped(kv) && PoolEncoding(kv) <= data {
      var kv :| WellTyped(kv) && PoolEncoding(kv) <= data;
      PoolPrefix(kv, data);
    }
  }

  /** Every buffer of eight to thirty-nine bytes makes it panic: no encoded value is that short. */
  lemma ShortBuffersPanic(data: seq<byte>)
    requires 8 <= |data| < 40
    ensures PoolDecoding(data).Panic?
  {
  }

  lemma PoolAcceptsEncoding(data: seq<byte>)
    requires PoolDecoding(data).Value?
    ensures WellTyped(PoolDecoding(data).kv) && PoolEncoding(PoolDecoding(data).kv) <= data
  {
    hide LE, FromLE, ToU64, PoolI64, Pow256, PoolTail;
    var kv := PoolDecoding(data).kv;
    Pow256At();
    var k := 4 + |kv.key|;
    var p := k + 4 + |kv.value|;
    FromLERoundTrip(data[0..4]);
    FromLERoundTrip(data[k..k + 4]);
    PoolTailBytes(data, p, kv);
    FivePieces(data, k, p);
  }

  lemma PoolTailBytes(data: seq<byte>, p: nat, kv: KeyValue)
    requires p + 32 <= |data| && kv.createRev == PoolI64(data, p) && kv.modRev == PoolI64(data, p + 8)
    requires kv.version == PoolI64(data, p + 16) && kv.lease == PoolI64(data, p + 24)
    ensures PoolTail(kv) == data[p..p + 32]
    ensures IsInt64(kv.createRev) && IsInt64(kv.modRev) && IsInt64(kv.version) && IsInt64(kv.lease)
  {
    hide LE, FromLE, ToU64, PoolI64, Pow256;
    PoolFieldBytes(data, p);
    PoolFieldBytes(data, p + 8);
    PoolFieldBytes(data, p + 16);
    PoolFieldBytes(data, p + 24);
    FourPieces(data, p);
  }

  lemma FivePieces(data: seq<byte>, k: nat, p: nat)
    requires 4 <= k && k + 4 <= p && p + 32 <= |data|
    ensures data[0..4] + data[4..k] + (data[k..k + 4] + data[k + 4..p] + data[p..p + 32]) == data[..p + 32]
  {
  }

  lemma FourPieces(data: seq<byte>, p: nat)
    requires p + 32 <= |data|
    ensures data[p..p + 8] + data[p + 8..p + 16] + data[p + 16..p + 24] + data[p + 24..p + 32] == data[p..p + 32]
  {
  }

  /** Bytes after an encoded value change nothing. */
  lemma PoolPrefix(kv: KeyValue, data: seq<byte>)
    requires WellTyped(kv) && PoolEncoding(kv) <= data
    ensures PoolDecoding(data).Value?
  {
    hide LE, FromLE, ToU64, PoolI64, PoolEncoding;
    var enc := PoolEncoding(kv);
    PoolFields(kv, enc);
    PoolDecodeEncode(kv);
    var keyLen := FromLE(enc[0..4]);
    assert data[0..4] == enc[0..4];
    assert data[4 + keyLen..8 + keyLen] == enc[4 + keyLen..8 + keyLen];
  }

  method PoolEncode(kv: KeyValue) returns (buf: seq<byte>)
    ensures buf == PoolEncoding(kv)
  {
    hide LE, ToU64;
    buf := [];
    buf := buf + LE(|kv.key| % TWO32, 4);
    buf := buf + kv.key;
    buf := buf + LE(|kv.value| % TWO32, 4);
    buf := buf + kv.value;
    buf := buf + LE(ToU64(kv.createRev), 8);
    buf := buf + LE(ToU64(kv.modRev), 8);
    buf := buf + LE(ToU64(kv.version), 8);
    buf := buf + LE(ToU64(kv.lease), 8);
  }

  method PoolDecode(data: seq<byte>) returns (r: PoolResult)
    ensures r == PoolDecoding(data)
  {
    hide FromLE, ToI64;
    if |data| < 8 {
      return NoValue;
    }
    var offset := 0;
    var keyLen := FromLE(data[offset..offset + 4]);
    offset := offset + 4;
    if |data| < offset + keyLen + 4 {
      return Panic;
    }
    var key := data[offset..offset + keyLen];
    offset := offset + keyLen;
    var valueLen := FromLE(data[offset..offset + 4]);
    offset := offset + 4;
    if |data| < offset + valueLen + 32 {
      return Panic;
    }
    var value := data[offset..offset + valueLen];
    offset := offset + valueLen;
    return Value(KeyValue(key, value, ToI64(FromLE(data[offset..offset + 8])), ToI64(FromLE(data[offset + 8..offset + 16])),
                          ToI64(FromLE(data[offset + 16..offset + 24])), ToI64(FromLE(data[offset + 24..offset + 32]))));
  }

  // ---------------------------------------------------------------- the layouts, byte by byte

  /** Digit e of v in base 256, the lowest first. */
  function Digit(v: nat, e: nat): byte {
    if e == 0 then v % 256 else Digit(v / 256, e - 1)
  }

  lemma {:induction false} BEDigit(v: nat, n: nat, i: nat)
    requires i < n
    ensures BE(v, n)[i] == Digit(v, n - 1 - i)
  {
    if i < n - 1 {
      BEDigit(v / 256, n - 1, i);
    }
  }

  lemma {:induction false} LEDigit(v: nat, n: nat, i: nat)
    requires i < n
    ensures LE(v, n)[i] == Digit(v, i)
  {
    if i > 0 {
      LEDigit(v / 256, n - 1, i - 1);
    }
  }

  /** Lengths, create revision, modification revision, version and lease in this order, highest byte first;
      then the key and the value. */
  lemma EncodingLayout(kv: KeyValue, i: nat)
    ensures var b := Encoding(kv);
            && |b| == 40 + |kv.key| + |kv.value| && b[40..40 + |kv.key|] == kv.key && b[40 + |kv.key|..] == kv.value
            && (i < 4 ==> b[i] == Digit(|kv.key| % TWO32, 3 - i) && b[4 + i] == Digit(|kv.value| % TWO32, 3 - i))
            && (i < 8 ==> b[8 + i] == Digit(ToU64(kv.createRev), 7 - i) && b[16 + i] == Digit(ToU64(kv.modRev), 7 - i))
            && (i < 8 ==> b[24 + i] == Digit(ToU64(kv.version), 7 - i) && b[32 + i] == Digit(ToU64(kv.lease), 7 - i))
  {
    hide BE, Digit, ToU64;
    if i < 4 {
      BEDigit(|kv.key| % TWO32, 4, i);
      BEDigit(|kv.value| % TWO32, 4, i);
    }
    if i < 8 {
      BEDigit(ToU64(kv.createRev), 8, i);
      BEDigit(ToU64(kv.modRev), 8, i);
      BEDigit(ToU64(kv.version), 8, i);
      BEDigit(ToU64(kv.lease), 8, i);
    }
  }

  /** The pooled layout: each length before its field, the numbers in the same order behind them, lowest
      byte first. */
  lemma PoolLayout(kv: KeyValue, i: nat)
    ensures var b, v := PoolEncoding(kv), 4 + |kv.key|;
            var t := v + 4 + |kv.value|;
            && |b| == t + 32 && b[4..v] == kv.key && b[v + 4..t] == kv.value
            && (i < 4 ==> b[i] == Digit(|kv.key| % TWO32, i) && b[v + i] == Digit(|kv.value| % TWO32, i))
            && (i < 8 ==> b[t + i] == Digit(ToU64(kv.createRev), i) && b[t + 8 + i] == Digit(ToU64(kv.modRev), i))
            && (i < 8 ==> b[t + 16 + i] == Digit(ToU64(kv.version), i) && b[t + 24 + i] == Digit(ToU64(kv.lease), i))
  {
    hide LE, Digit, ToU64;
    if i < 4 {
      LEDigit(|kv.key| % TWO32, 4, i);
      LEDigit(|kv.value| % TWO32, 4, i);
    }
    if i < 8 {
      LEDigit(ToU64(kv.createRev), 8, i);
      LEDigit(ToU64(kv.modRev), 8, i);
      LEDigit(ToU64(kv.version), 8, i);
      LEDigit(ToU64(kv.lease), 8, i);
    }
  }

  /** A revision is its main number and then its sub number, highest byte first. */
  lemma RevLayout(r: Revision, i: nat)
    requires i < 8
    ensures RevBytes(r)[i] == Digit(ToU64(r.main), 7 - i) && RevBytes(r)[8 + i] == Digit(ToU64(r.sub), 7 - i)
  {
    BEDigit(ToU64(r.main), 8, i);
    BEDigit(ToU64(r.sub), 8, i);
  }
}
