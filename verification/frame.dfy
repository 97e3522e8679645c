/**
 * The frame codec of src/frame.rs: the opcode nibble table, the length field
 * (one byte, or a marker followed by 2 or 8 big-endian bytes), the cyclic XOR
 * masking of section 5.3 of RFC 6455, `parse_frame` and `pack_message`.
 *
 * The model follows the code, which departs from section 5.2 of RFC 6455:
 * one-byte lengths run up to 0xfd, the 16-bit length case advances the read
 * offset by 4, four key bytes are skipped even when the mask bit is clear, an
 * unmasked payload decodes as empty, and `pack_message` never writes its
 * masking key. Where the code indexes out of bounds (a panic) the model has a
 * precondition instead.
 */
module Frame {
  import opened Wrappers

  /** A `u8`. */
  type Byte = x: int | 0 <= x < 256

  /** `usize` on a 64-bit target. */
  type Usize = x: int | 0 <= x < 0x1_0000_0000_0000_0000

  /** The largest length `len_to_vec` encodes and `parse_frame` accepts, 2^63 - 1. */
  const MaxPayload: int := 0x7fff_ffff_ffff_ffff

  /** A masking key, `[u8; 4]`. */
  type Key = s: seq<Byte> | |s| == 4 witness [0, 0, 0, 0]

  datatype Opcode =
    | Cont | Text | Binary | NonControl(code: Byte)
    | Close | Ping | Pong | Control(code: Byte)

  /** The opcodes `byte_to_opcode` can produce: a reserved variant carries its own nibble. */
  predicate Canonical(op: Opcode)
  {
    match op
    case NonControl(n) => 0x3 <= n <= 0x7
    case Control(n) => 0xb <= n <= 0xf
    case _ => true
  }

  /** The control opcodes (close, ping, pong and the reserved 11-15). */
  predicate IsControl(op: Opcode)
  {
    op.Close? || op.Ping? || op.Pong? || op.Control?
  }

  // ---------------------------------------------------------------------------
  // Bit operations on a byte
  // ---------------------------------------------------------------------------

  /** 2 to the power `k`. */
  function Pow2(k: nat): (p: nat)
    ensures p >= 1
  {
    if k == 0 then 1 else 2 * Pow2(k - 1)
  }

  /** `(b >> k) & 1`. */
  function Bit(b: Byte, k: nat): int
    requires k < 8
  {
    (b / Pow2(k)) % 2
  }

  /** Bit 7 is set exactly in the upper half of the byte range. */
  lemma Bit7(b: Byte)
    ensures Bit(b, 7) == 1 <==> b >= 128
  {
    assert Pow2(7) == 128;
  }

  /** `b | 0x80` sets bit 7 and keeps the low seven bits. */
  lemma SetBit7Bits(b: Byte)
    ensures Bit(SetBit7(b), 7) == 1 && Low7(SetBit7(b)) == Low7(b)
  {
    Bit7(SetBit7(b));
  }

  /** Bit 3 is the high bit of the low nibble. */
  lemma Bit3(b: Byte)
    ensures Bit(b, 3) == 1 <==> b % 16 >= 8
  {
    assert Pow2(3) == 8;
    var q, r := b / 16, b % 16;
    assert b == 16 * q + r;
    assert b / 8 == 2 * q + r / 8;
  }

  /** `b & 0x0f`. */
  function LowNibble(b: Byte): Byte
  {
    b % 16
  }

  /** `b & 0x7f`. */
  function Low7(b: Byte): Byte
  {
    b % 128
  }

  /** `b | 0x80`. */
  function SetBit7(b: Byte): Byte
  {
    if b < 128 then b + 128 else b
  }

  /** `a ^ b` on the low `n` bits, one bit at a time from the least significant. */
  function XorBits(a: nat, b: nat, n: nat): (r: nat)
    ensures r < Pow2(n)
  {
    if n == 0 then 0 else (a % 2 + b % 2) % 2 + 2 * XorBits(a / 2, b / 2, n - 1)
  }

  /** `a ^ b`. */
  function Xor(a: Byte, b: Byte): Byte
  {
    XorBits(a, b, 8)
  }

  /** XOR with the same bits twice is the identity. */
  lemma {:induction false} XorBitsTwice(a: nat, k: nat, n: nat)
    requires a < Pow2(n)
    ensures XorBits(XorBits(a, k, n), k, n) == a
  {
    if n > 0 {
      var lo, hi := (a % 2 + k % 2) % 2, XorBits(a / 2, k / 2, n - 1);
      var r := XorBits(a, k, n);
      assert r == lo + 2 * hi;
      assert r % 2 == lo && r / 2 == hi;
      assert (lo + k % 2) % 2 == a % 2;
      assert a / 2 < Pow2(n - 1);
      XorBitsTwice(a / 2, k / 2, n - 1);
      assert XorBits(r, k, n) == a % 2 + 2 * (a / 2);
    }
  }

  /** XOR with the same byte twice is the identity. */
  lemma XorTwice(a: Byte, k: Byte)
    ensures Xor(Xor(a, k), k) == a
  {
    XorBitsTwice(a, k, 8);
  }

  // ---------------------------------------------------------------------------
  // Opcode table
  // ---------------------------------------------------------------------------

  /** `byte_to_opcode`: only the low nibble counts; its high bit marks a control opcode. */
  function ByteToOpcode(b: Byte): (op: Opcode)
    ensures Canonical(op)
    ensures IsControl(op) <==> Bit(b, 3) == 1
  {
    Bit3(b);
    var n := LowNibble(b);
    if n == 0x0 then Cont
    else if n == 0x1 then Text
    else if n == 0x2 then Binary
    else if n <= 0x7 then NonControl(n)
    else if n == 0x8 then Close
    else if n == 0x9 then Ping
    else if n == 0xa then Pong
    else Control(n)
  }

  /** `opcode_to_byte`: the nibble of each opcode; a reserved opcode gives back the one it carries. */
  function OpcodeToByte(op: Opcode): Byte
  {
    match op
    case Cont => 0x0
    case Text => 0x1
    case Binary => 0x2
    case NonControl(n) => n
    case Close => 0x8
    case Ping => 0x9
    case Pong => 0xa
    case Control(n) => n
  }

  /** A canonical opcode comes back from its nibble. */
  lemma OpcodeByteRoundTrip(op: Opcode)
    requires Canonical(op)
    ensures OpcodeToByte(op) <= 0x0f && ByteToOpcode(OpcodeToByte(op)) == op
  {
    match op
    case NonControl(n) => assert LowNibble(n) == n;
    case Control(n) => assert LowNibble(n) == n;
    case _ =>
  }

  /** Every byte's low nibble survives the trip through the opcode table. */
  lemma OpcodeRoundTrip(b: Byte)
    ensures OpcodeToByte(ByteToOpcode(b)) == LowNibble(b)
  {
  }

  // ---------------------------------------------------------------------------
  // Big-endian integers (the byteorder crate's BigEndian)
  // ---------------------------------------------------------------------------

  /** 256 to the power `n`. */
  function Pow256(n: nat): (p: nat)
    ensures p >= 1
  {
    if n == 0 then 1 else 256 * Pow256(n - 1)
  }

  /** The bounds of `u16` and `u64`. */
  lemma Pow256Values()
    ensures Pow256(2) == 0x1_0000
    ensures Pow256(8) == 0x1_0000_0000_0000_0000
  {
  }

  /** `x` as `n` bytes, most significant first. */
  function BeBytes(x: nat, n: nat): (s: seq<Byte>)
    requires x < Pow256(n)
    ensures |s| == n
    decreases n
  {
    if n == 0 then []
    else BeBytes(x / 256, n - 1) + [x % 256]
  }

  /** The unsigned number the bytes `s` spell, most significant first. */
  function BeValue(s: seq<Byte>): (v: nat)
    ensures v < Pow256(|s|)
  {
    if s == [] then 0
    else
      var high := BeValue(s[..|s| - 1]);
      assert high * 256 + 255 < Pow256(|s|) by {
        assert high + 1 <= Pow256(|s| - 1);
        assert (high + 1) * 256 <= Pow256(|s| - 1) * 256;
      }
      high * 256 + s[|s| - 1]
  }

  /** Bytes written from `x` read back as `x`. */
  lemma {:induction false} BeValueOfBytes(x: nat, n: nat)
    requires x < Pow256(n)
    ensures BeValue(BeBytes(x, n)) == x
    decreases n
  {
    if n > 0 {
      var s := BeBytes(x, n);
      var q, k := x / 256, x % 256;
      assert s[..n - 1] == BeBytes(q, n - 1);
      assert s[n - 1] == k;
      BeValueOfBytes(q, n - 1);
      assert BeValue(s) == q * 256 + k;
    }
  }

  /** The value read from `s`, written back with as many bytes, gives `s`. */
  lemma {:induction false} BeBytesOfValue(s: seq<Byte>)
    ensures BeBytes(BeValue(s), |s|) == s
  {
    if s != [] {
      var n := |s|;
      var high, low := BeValue(s[..n - 1]), s[n - 1];
      DivModByte(high, low);
      BeBytesOfValue(s[..n - 1]);
      assert s == s[..n - 1] + [low];
    }
  }

  /** Division by 256 splits off the low byte. */
  lemma DivModByte(q: nat, k: int)
    requires 0 <= k < 256
    ensures (q * 256 + k) / 256 == q && (q * 256 + k) % 256 == k
  {
  }

  /** `BigEndian::write_u16`. */
  function WriteU16(x: nat): (s: seq<Byte>)
    requires x < 0x1_0000
    ensures |s| == 2
  {
    Pow256Values();
    BeBytes(x, 2)
  }

  /** `BigEndian::read_u16` of the first two bytes. */
  function ReadU16(s: seq<Byte>): (x: nat)
    requires |s| >= 2
    ensures x < 0x1_0000
  {
    Pow256Values();
    BeValue(s[..2])
  }

  /** `BigEndian::write_u64`. */
  function WriteU64(x: nat): (s: seq<Byte>)
    requires x < 0x1_0000_0000_0000_0000
    ensures |s| == 8
  {
    Pow256Values();
    BeBytes(x, 8)
  }

  /** `BigEndian::read_u64` of the first eight bytes. */
  function ReadU64(s: seq<Byte>): (x: nat)
    requires |s| >= 8
    ensures x < 0x1_0000_0000_0000_0000
  {
    Pow256Values();
    BeValue(s[..8])
  }

  /** Reading back what was written gives the value that was written. */
  lemma WriteReadU16(x: nat)
    requires x < 0x1_0000
    ensures ReadU16(WriteU16(x)) == x
  {
    Pow256Values();
    BeValueOfBytes(x, 2);
    var s := WriteU16(x);
    assert s[..2] == s;
  }

  lemma WriteReadU64(x: nat)
    requires x < 0x1_0000_0000_0000_0000
    ensures ReadU64(WriteU64(x)) == x
  {
    Pow256Values();
    BeValueOfBytes(x, 8);
    var s := WriteU64(x);
    assert s[..8] == s;
  }

  /** Reading back what was written gives the bytes that were read. */
  lemma ReadWriteU16(s: seq<Byte>)
    requires |s| >= 2
    ensures WriteU16(ReadU16(s)) == s[..2]
  {
    Pow256Values();
    BeBytesOfValue(s[..2]);
  }

  lemma ReadWriteU64(s: seq<Byte>)
    requires |s| >= 8
    ensures WriteU64(ReadU64(s)) == s[..8]
  {
    Pow256Values();
    BeBytesOfValue(s[..8]);
  }

  // ---------------------------------------------------------------------------
  // Length field (len_to_vec)
  // ---------------------------------------------------------------------------

  /** The length field `len_to_vec` produces for `len`. */
  function LenField(len: Usize): Result<seq<Byte>>
  {
    if len <= 0xfd then Ok([len])
    else if len <= 0xffff then Ok([126] + WriteU16(len))
    else if len <= MaxPayload then Ok([127] + WriteU64(len))
    else Err("Too long")
  }

  /** The three shapes of the length field, and the error above 2^63 - 1. */
  lemma LenFieldShape(len: Usize)
    ensures LenField(len).Ok? <==> len <= MaxPayload
    ensures len > MaxPayload ==> LenField(len) == Err("Too long")
    ensures LenField(len).Ok? ==> |LenField(len).value| in {1, 3, 9}
    ensures len <= 0xfd ==> LenField(len) == Ok([len])
    ensures 0xfe <= len <= 0xffff ==>
      var f := LenField(len).value;
      |f| == 3 && f[0] == 126 && ReadU16(f[1..]) == len
    ensures 0x1_0000 <= len <= MaxPayload ==>
      var f := LenField(len).value;
      |f| == 9 && f[0] == 127 && ReadU64(f[1..]) == len
  {
    if 0xfe <= len <= 0xffff {
      assert LenField(len).value[1..] == WriteU16(len);
      WriteReadU16(len);
    } else if 0x1_0000 <= len <= MaxPayload {
      assert LenField(len).value[1..] == WriteU64(len);
      WriteReadU64(len);
    }
  }

  /** `len_to_vec`: pushes the marker, then the bytes of the big-endian buffer one by one. */
  method LenToVec(len: Usize) returns (r: Result<seq<Byte>>)
    ensures r == LenField(len)
  {
    var res: seq<Byte> := [];
    if len <= 0xfd {
      res := res + [len];
      assert res == [len];
    } else if len <= 0xffff {
      var buf := WriteU16(len);
      res := res + [126];
      res := Extend(res, buf);
      assert res == [126] + WriteU16(len);
    } else if len <= MaxPayload {
      var buf := WriteU64(len);
      res := res + [127];
      res := Extend(res, buf);
      assert res == [127] + WriteU64(len);
    } else {
      return Err("Too long");
    }
    return Ok(res);
  }

  /** The length field at the boundary lengths. */
  lemma LenFieldSmallExamples()
    ensures LenField(0) == Ok([0])
    ensures LenField(125) == Ok([125])
    ensures LenField(126) == Ok([126])
    ensures LenField(0xfd) == Ok([0xfd])
  {
  }

  /** The 16-bit length field at its two ends. */
  lemma LenField16Examples()
    ensures LenField(0xfe) == Ok([126, 0x00, 0xfe])
    ensures LenField(0xffff) == Ok([126, 0xff, 0xff])
  {
    Pow256Values();
    assert BeBytes(0, 0) == [];
    assert BeBytes(0, 1) == [0];
    assert BeBytes(0xfe, 2) == [0, 0xfe];
    assert BeBytes(0xff, 1) == [0xff];
    assert BeBytes(0xffff, 2) == [0xff, 0xff];
    assert WriteU16(0xfe) == [0, 0xfe];
    assert WriteU16(0xffff) == [0xff, 0xff];
    assert LenField(0xfe) == Ok([126] + WriteU16(0xfe));
    assert [126] + WriteU16(0xfe) == [126, 0, 0xfe];
    assert LenField(0xffff) == Ok([126] + WriteU16(0xffff));
    assert [126] + WriteU16(0xffff) == [126, 0xff, 0xff];
  }

  /** The 64-bit length field at its first length. */
  lemma LenField64Example()
    ensures LenField(0x1_0000) == Ok([127, 0, 0, 0, 0, 0, 1, 0, 0])
  {
    Pow256Values();
    assert BeBytes(0, 0) == [];
    assert BeBytes(0, 1) == [0];
    assert BeBytes(0, 2) == [0, 0];
    assert BeBytes(0, 3) == [0, 0, 0];
    assert BeBytes(0, 4) == [0, 0, 0, 0];
    assert BeBytes(0, 5) == [0, 0, 0, 0, 0];
    assert BeBytes(1, 6) == [0, 0, 0, 0, 0, 1];
    assert BeBytes(0x100, 7) == [0, 0, 0, 0, 0, 1, 0];
    assert BeBytes(0x1_0000, 8) == [0, 0, 0, 0, 0, 1, 0, 0];
    assert WriteU64(0x1_0000) == [0, 0, 0, 0, 0, 1, 0, 0];
    assert LenField(0x1_0000) == Ok([127] + WriteU64(0x1_0000));
    assert [127] + WriteU64(0x1_0000) == [127, 0, 0, 0, 0, 0, 1, 0, 0];
  }

  // ---------------------------------------------------------------------------
  // Masking
  // ---------------------------------------------------------------------------

  /** Cyclic XOR of `data` with a 4-byte key. */
  function Mask(data: seq<Byte>, key: Key): (r: seq<Byte>)
    ensures |r| == |data|
  {
    seq(|data|, i requires 0 <= i < |data| => Xor(data[i], key[i % 4]))
  }

  /** Masking twice with the same key gives the data back, the empty sequence included. */
  lemma MaskInvolution(data: seq<Byte>, key: Key)
    ensures Mask(Mask(data, key), key) == data
  {
    forall i | 0 <= i < |data|
      ensures Mask(Mask(data, key), key)[i] == data[i]
    {
      XorTwice(data[i], key[i % 4]);
    }
  }

  /** `for b in data { v.push(b) }`. */
  method Extend(v: seq<Byte>, data: seq<Byte>) returns (w: seq<Byte>)
    ensures w == v + data
  {
    w := v;
    for i := 0 to |data|
      invariant w == v + data[..i]
    {
      w := w + [data[i]];
    }
    assert data[..|data|] == data;
  }

  /** `for i in 0..data.len() { v.push(data[i] ^ key[i % 4]) }`. */
  method ExtendMasked(v: seq<Byte>, data: seq<Byte>, key: Key) returns (w: seq<Byte>)
    ensures w == v + Mask(data, key)
  {
    w := v;
    for i := 0 to |data|
      invariant |w| == |v| + i
      invariant w[..|v|] == v
      invariant forall j :: 0 <= j < i ==> w[|v| + j] == Xor(data[j], key[j % 4])
    {
      w := w + [Xor(data[i], key[i % 4])];
    }
  }

  // ---------------------------------------------------------------------------
  // parse_frame
  // ---------------------------------------------------------------------------

  /** The mask bit of byte 1. */
  predicate Masked(buf: seq<Byte>)
    requires |buf| >= 2
  {
    Bit(buf[1], 7) == 1
  }

  /** RSV1, RSV2 and RSV3 of byte 0 are all clear. */
  predicate ReservedClear(buf: seq<Byte>)
    requires |buf| >= 1
  {
    Bit(buf[0], 6) == 0 && Bit(buf[0], 5) == 0 && Bit(buf[0], 4) == 0
  }

  /** The buffer holds the length field that byte 1 announces. */
  predicate HeaderReadable(buf: seq<Byte>)
  {
    && |buf| >= 2
    && (Low7(buf[1]) == 126 ==> |buf| >= 4)
    && (Low7(buf[1]) == 127 ==> |buf| >= 10)
  }

  /** The payload length `parse_frame` reads from the length field. */
  function PayloadLen(buf: seq<Byte>): Usize
    requires HeaderReadable(buf)
  {
    var field := Low7(buf[1]);
    if field <= 125 then field
    else if field == 126 then ReadU16(buf[2..])
    else ReadU64(buf[2..])
  }

  /**
   * The offset where `parse_frame` reads the masking key, just past the length
   * field as it counts it: the 16-bit case moves on by 4, not 2.
   */
  function KeyOffset(buf: seq<Byte>): nat
    requires HeaderReadable(buf)
  {
    var field := Low7(buf[1]);
    if field <= 125 then 2
    else if field == 126 then 2 + 4
    else 2 + 8
  }

  /**
   * `parse_frame` does not index out of bounds: the length field is there; for
   * a length it accepts, the masking key is there when the mask bit is set, and,
   * when no reserved bit is set, so is the payload after four key bytes, which
   * are skipped whether or not the frame is masked.
   */
  predicate Parsable(buf: seq<Byte>)
  {
    && HeaderReadable(buf)
    && (PayloadLen(buf) <= MaxPayload ==>
         && (Masked(buf) ==> KeyOffset(buf) + 4 <= |buf|)
         && (ReservedClear(buf) ==> KeyOffset(buf) + 4 + PayloadLen(buf) <= |buf|))
  }

  /** The payload of an accepted frame: unmasked with the key if the mask bit is set, else empty. */
  function Payload(buf: seq<Byte>): seq<Byte>
    requires Parsable(buf) && PayloadLen(buf) <= MaxPayload && ReservedClear(buf)
  {
    var start, len := KeyOffset(buf), PayloadLen(buf);
    if Masked(buf) then Mask(buf[start + 4 .. start + 4 + len], buf[start .. start + 4]) else []
  }

  /** What `parse_frame` returns. */
  function Decode(buf: seq<Byte>): Result<(Opcode, seq<Byte>)>
    requires Parsable(buf)
  {
    if MaxPayload < PayloadLen(buf) then Err("")
    else if !ReservedClear(buf) then Err("Unknown ext format")
    else Ok((ByteToOpcode(LowNibble(buf[0])), Payload(buf)))
  }

  /** The loop of `parse_frame` that copies the four key bytes at `start` into `[0u8; 4]`. */
  method ReadMaskingKey(buf: seq<Byte>, start: nat) returns (key: Key)
    requires start + 4 <= |buf|
    ensures key == buf[start .. start + 4]
  {
    var maskingKey := new Byte[4](_ => 0);
    for i := 0 to 4
      invariant maskingKey[..i] == buf[start .. start + i]
    {
      maskingKey[i] := buf[start + i];
    }
    key := maskingKey[..];
  }

  /** `parse_frame`: fills the masking key and the result vector in loops. */
  method ParseFrame(buf: seq<Byte>) returns (r: Result<(Opcode, seq<Byte>)>)
    requires Parsable(buf)
    ensures r == Decode(buf)
  {
    var b0 := buf[0];
    var rsv1, rsv2, rsv3 := Bit(b0, 6), Bit(b0, 5), Bit(b0, 4);
    var opcode := ByteToOpcode(LowNibble(b0));
    var b1 := buf[1];
    var mask := Bit(b1, 7);
    var payloadLen: Usize, start: nat;
    var field := Low7(b1);
    if field <= 125 {
      payloadLen, start := field, 2;
    } else if field == 126 {
      payloadLen, start := ReadU16(buf[2..]), 2 + 4;
    } else {
      payloadLen, start := ReadU64(buf[2..]), 2 + 8;
    }
    assert payloadLen == PayloadLen(buf) && start == KeyOffset(buf);
    if MaxPayload < payloadLen {
      return Err("");
    }
    var key: Key := [0, 0, 0, 0];
    if mask == 1 {
      key := ReadMaskingKey(buf, start);
    }
    ghost var keyStart := start;
    start := start + 4;
    if !(rsv1 == 0 && rsv2 == 0 && rsv3 == 0) {
      return Err("Unknown ext format");
    }
    var app := buf[start .. start + payloadLen];
    var result: seq<Byte> := [];
    if mask == 1 {
      result := ExtendMasked(result, app, key);
      assert result == Mask(app, key);
      assert key == buf[keyStart .. keyStart + 4];
    }
    assert app == buf[keyStart + 4 .. keyStart + 4 + payloadLen];
    assert result == Payload(buf);
    return Ok((opcode, result));
  }

  /** `parse_frame` fails exactly when a reserved bit is set or the length is too large. */
  lemma DecodeErrors(buf: seq<Byte>)
    requires Parsable(buf)
    ensures Decode(buf).Ok? <==>
      (Bit(buf[0], 6) == 0 && Bit(buf[0], 5) == 0 && Bit(buf[0], 4) == 0
       && PayloadLen(buf) <= MaxPayload)
    ensures PayloadLen(buf) > MaxPayload ==> Decode(buf) == Err("")
    ensures PayloadLen(buf) <= MaxPayload && !ReservedClear(buf) ==>
      Decode(buf) == Err("Unknown ext format")
  {
  }

  /**
   * A successful `parse_frame`: the opcode comes from the low nibble; a masked
   * payload is `len` bytes unmasked with the four bytes at the key offset; an
   * unmasked payload is empty.
   */
  lemma DecodeSuccess(buf: seq<Byte>)
    requires Parsable(buf) && Decode(buf).Ok?
    ensures Decode(buf).value.0 == ByteToOpcode(LowNibble(buf[0]))
    ensures !Masked(buf) ==> Decode(buf).value.1 == []
    ensures Masked(buf) ==>
      var payload, start := Decode(buf).value.1, KeyOffset(buf);
      && |payload| == PayloadLen(buf)
      && forall i :: 0 <= i < |payload| ==> payload[i] == Xor(buf[start + 4 + i], buf[start + i % 4])
  {
  }

  /**
   * The length round trip: the field `len_to_vec` writes for `len` reads back
   * as `len`, whatever byte 0, the mask bit and the bytes after it are, when
   * `len` is at most 125 or at least 0xfe.
   */
  lemma LengthRoundTrip(len: Usize, buf: seq<Byte>)
    requires len <= 125 || 0xfe <= len <= MaxPayload
    requires var f := LenField(len).value;
      && |buf| >= 1 + |f|
      && Low7(buf[1]) == Low7(f[0])
      && buf[2 .. 1 + |f|] == f[1..]
    ensures HeaderReadable(buf)
    ensures PayloadLen(buf) == len
  {
    var f := LenField(len).value;
    LenFieldShape(len);
    if 0xfe <= len <= 0xffff {
      assert buf[2..][..2] == buf[2..4] == f[1..];
      assert f[1..][..2] == f[1..];
    } else if 0x1_0000 <= len {
      assert buf[2..][..8] == buf[2..10] == f[1..];
      assert f[1..][..8] == f[1..];
    }
  }

  /**
   * Lengths 128 to 0xfd collide with the mask bit: their one-byte field reads
   * back as a masked frame of length `len - 128`.
   */
  lemma LengthCollision(len: Usize, buf: seq<Byte>)
    requires 128 <= len <= 0xfd
    requires |buf| >= 2 && buf[1] == LenField(len).value[0]
    ensures HeaderReadable(buf) && Masked(buf)
    ensures PayloadLen(buf) == len - 128 && KeyOffset(buf) == 2
  {
  }

  /**
   * Lengths 126 and 127 collide with the markers: their one-byte field makes
   * the bytes after it read as a 16- or 64-bit length.
   */
  lemma LengthMarkerCollision(len: Usize, buf: seq<Byte>)
    requires len == 126 || len == 127
    requires |buf| >= 10 && buf[1] == LenField(len).value[0]
    ensures len == 126 ==> PayloadLen(buf) == ReadU16(buf[2..]) && KeyOffset(buf) == 6
    ensures len == 127 ==> PayloadLen(buf) == ReadU64(buf[2..]) && KeyOffset(buf) == 10
  {
  }

  // ---------------------------------------------------------------------------
  // pack_message
  // ---------------------------------------------------------------------------

  /** Byte 0 of every packed frame: `0x8 << 4 | opcode_to_byte(Text)`, FIN and Text. */
  const TextHeader: Byte := 0x8 * 16 + OpcodeToByte(Text)

  /** The frame `pack_message` builds: FIN and Text, the length field, then the payload. */
  function Packed(msg: seq<Byte>, mask: Option<Key>): seq<Byte>
    requires |msg| <= MaxPayload
  {
    var field := LenField(|msg|).value;
    match mask
    case Some(m) => [TextHeader, SetBit7(field[0])] + field[1..] + Mask(msg, m)
    case None => [TextHeader] + field + msg
  }

  /** `pack_message`: pushes the header byte, the length field and the payload one byte at a time. */
  method PackMessage(msg: seq<Byte>, mask: Option<Key>) returns (r: Result<seq<Byte>>)
    requires |msg| <= MaxPayload
    ensures r == Ok(Packed(msg, mask))
  {
    var frame: seq<Byte> := [];
    var len := |msg|;
    frame := frame + [0x8 * 16 + OpcodeToByte(Text)];
    assert frame == [TextHeader];
    var field := LenToVec(len);
    frame := Extend(frame, field.value);
    assert field.value == LenField(len).value;
    match mask {
      case Some(m) =>
        frame := frame[1 := SetBit7(frame[1])];
        assert frame == [TextHeader, SetBit7(field.value[0])] + field.value[1..];
        frame := ExtendMasked(frame, msg, m);
        assert frame == Packed(msg, mask);
      case None =>
        frame := Extend(frame, msg);
        assert frame == Packed(msg, mask);
    }
    return Ok(frame);
  }

  /**
   * Byte 0 of a packed frame is FIN plus Text with no reserved bit, and the
   * frame is that byte, the length field and exactly `|msg|` payload bytes:
   * no masking key is ever written.
   */
  lemma PackedHeader(msg: seq<Byte>, mask: Option<Key>)
    requires |msg| <= MaxPayload
    ensures var frame, field := Packed(msg, mask), LenField(|msg|).value;
      && |frame| == 1 + |field| + |msg|
      && frame[0] == 0x81
      && Bit(frame[0], 7) == 1
      && Bit(frame[0], 6) == 0 && Bit(frame[0], 5) == 0 && Bit(frame[0], 4) == 0
      && ByteToOpcode(LowNibble(frame[0])) == Text
  {
    assert Bit(0x81, 7) == 1 && Bit(0x81, 6) == 0 && Bit(0x81, 5) == 0 && Bit(0x81, 4) == 0;
    assert ByteToOpcode(LowNibble(0x81)) == Text;
  }

  /**
   * The length field of a packed frame follows byte 0, the low seven bits of
   * byte 1 unchanged by the mask bit.
   */
  lemma PackedLengthField(msg: seq<Byte>, mask: Option<Key>)
    requires |msg| <= MaxPayload
    ensures var frame, field := Packed(msg, mask), LenField(|msg|).value;
      && |frame| >= 1 + |field|
      && Low7(frame[1]) == Low7(field[0])
      && frame[2 .. 1 + |field|] == field[1..]
  {
    var field := LenField(|msg|).value;
    match mask
    case Some(m) =>
      var frame := [TextHeader, SetBit7(field[0])] + field[1..] + Mask(msg, m);
      assert Packed(msg, mask) == frame;
      SetBit7Bits(field[0]);
      assert frame[2 .. 1 + |field|] == field[1..];
    case None =>
      var frame := [TextHeader] + field + msg;
      assert Packed(msg, mask) == frame;
      assert frame[2 .. 1 + |field|] == field[1..];
  }

  /**
   * The payload of a frame packed with a key: the mask bit is set and payload
   * byte `i` is `msg[i] ^ m[i % 4]`.
   */
  lemma PackedMaskedPayload(msg: seq<Byte>, m: Key)
    requires |msg| <= MaxPayload
    ensures var frame, field := Packed(msg, Some(m)), LenField(|msg|).value;
      && Bit(frame[1], 7) == 1
      && forall i :: 0 <= i < |msg| ==> frame[1 + |field| + i] == Xor(msg[i], m[i % 4])
  {
    var field := LenField(|msg|).value;
    var frame := [TextHeader, SetBit7(field[0])] + field[1..] + Mask(msg, m);
    assert Packed(msg, Some(m)) == frame;
    SetBit7Bits(field[0]);
    assert frame[1 + |field| ..] == Mask(msg, m);
  }

  /** Without a key the length field and the payload are written unchanged. */
  lemma PackedPlainPayload(msg: seq<Byte>)
    requires |msg| <= MaxPayload
    ensures var frame, field := Packed(msg, None), LenField(|msg|).value;
      && frame[1] == field[0]
      && frame[1 + |field| ..] == msg
  {
    var field := LenField(|msg|).value;
    var frame := [TextHeader] + field + msg;
    assert Packed(msg, None) == frame;
    assert frame[1 + |field| ..] == msg;
  }

  /**
   * A frame from `pack_message` whose length is at most 125 or at least 0xfe
   * cannot be given back to `parse_frame`: the decoder skips four key bytes
   * (and two more in the 16-bit case) that the encoder never wrote, so the
   * payload slice runs past the end of the buffer.
   */
  lemma PackedNeverParses(msg: seq<Byte>, mask: Option<Key>)
    requires |msg| <= 125 || 0xfe <= |msg| <= MaxPayload
    ensures !Parsable(Packed(msg, mask))
  {
    var frame := Packed(msg, mask);
    PackedHeader(msg, mask);
    PackedLengthField(msg, mask);
    LengthRoundTrip(|msg|, frame);
    LenFieldShape(|msg|);
    assert ReservedClear(frame);
  }

  /**
   * An unmasked frame of length 128 to 0xfd does parse, but as a masked frame
   * of length `len - 128` whose key is the first four message bytes.
   */
  lemma MidLengthPackParses(msg: seq<Byte>)
    requires 128 <= |msg| <= 0xfd
    ensures Parsable(Packed(msg, None))
    ensures Decode(Packed(msg, None)) == Ok((Text, Mask(msg[4 .. |msg| - 124], msg[..4])))
  {
    var frame := Packed(msg, None);
    LengthCollision(|msg|, frame);
    assert frame[2..6] == msg[..4];
    assert frame[6 .. 6 + |msg| - 128] == msg[4 .. |msg| - 124];
  }

  // ---------------------------------------------------------------------------
  // Worked examples
  // ---------------------------------------------------------------------------

  /** "Hello" unmasked is cut short by the four skipped key bytes. */
  lemma UnmaskedHelloPanics()
    ensures !Parsable([0x81, 0x05, 0x48, 0x65, 0x6c, 0x6c, 0x6f])
  {
  }

  /** "Hello" masked with the key `m` decodes to Text "Hello". */
  lemma MaskedHello(m: Key)
    ensures var hello: seq<Byte> := [0x48, 0x65, 0x6c, 0x6c, 0x6f];
      var buf := [0x81, 0x85] + m + Mask(hello, m);
      Parsable(buf) && Decode(buf) == Ok((Text, hello))
  {
    var hello: seq<Byte> := [0x48, 0x65, 0x6c, 0x6c, 0x6f];
    var buf := [0x81, 0x85] + m + Mask(hello, m);
    assert buf[0] == 0x81 && buf[1] == 0x85;
    assert Bit(0x85, 7) == 1 && Low7(0x85) == 5;
    assert PayloadLen(buf) == 5 && KeyOffset(buf) == 2;
    assert Parsable(buf);
    assert buf[2..6] == m;
    assert buf[6..11] == Mask(hello, m);
    MaskInvolution(hello, m);
  }

  /** "Hi" unmasked packs as `81 02 48 69`. */
  lemma PackHi()
    ensures Packed([0x48, 0x69], None) == [0x81, 0x02, 0x48, 0x69]
  {
  }

  /** RSV1 set: `parse_frame` reports an unknown extension. */
  lemma ReservedBitRejected()
    ensures Parsable([0xc1, 0x00]) && Decode([0xc1, 0x00]) == Err("Unknown ext format")
  {
  }
}
