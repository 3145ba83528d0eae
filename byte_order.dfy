/** `LittleEndian` over `ByteOrdered` for `u32` and `i32`
    (src/lib.rs:76-135): a value is stored as its four bytes, least
    significant first, in the two's complement layout for `i32`. */
module ByteOrder {
  import opened Types

  /** The integer types `ByteOrdered` is implemented for. */
  datatype IntKind = U32 | I32

  /** The values of the Rust type `kind`. */
  predicate InRange(kind: IntKind, i: int)
  {
    match kind
    case U32 => 0 <= i <= U32_MAX
    case I32 => I32_MIN <= i <= I32_MAX
  }

  /** The 32-bit pattern of `i`, as an unsigned number (two's complement for
      negative values). */
  function Bits(i: int): (u: int)
    ensures 0 <= u <= U32_MAX
  {
    i % 0x1_0000_0000
  }

  /** `to_le_bytes`: the four bytes of the bit pattern, least significant
      first; `serialize_le` writes them as they are. */
  function EncodeLe(kind: IntKind, i: int): (r: Bytes)
    requires InRange(kind, i)
    ensures |r| == 4
  {
    var u := Bits(i);
    [u % 256, u / 256 % 256, u / 256 / 256 % 256, u / 256 / 256 / 256 % 256]
  }

  /** The unsigned number four bytes stand for, least significant first. */
  function Unsigned(b: Bytes): (u: int)
    requires |b| == 4
    ensures 0 <= u <= U32_MAX
  {
    b[0] as int + 256 * (b[1] as int + 256 * (b[2] as int + 256 * b[3] as int))
  }

  /** `from_le_bytes` on four bytes. */
  function FromLeBytes(kind: IntKind, b: Bytes): (i: int)
    requires |b| == 4
  {
    var u := Unsigned(b);
    if kind == I32 && u > I32_MAX then u - 0x1_0000_0000 else u
  }

  /** `deserialize_le`: reads the four bytes as a `[u8; 4]` tuple, whose
      decoding fails with `invalid_length` at the index where the input ran
      out, and reassembles them. */
  function DecodeLe(kind: IntKind, s: Bytes): (r: Result<Decoded>)
    ensures r.Ok? <==> |s| >= 4
    ensures r.Ok? ==> r.value.value.Int? && InRange(kind, r.value.value.i)
    ensures r.Ok? ==> r.value.rest == s[4..]
    ensures r.Err? ==> r.error == InvalidLength(|s|)
  {
    if |s| < 4 then Err(InvalidLength(|s|))
    else
      var i := FromLeBytes(kind, s[..4]);
      Ok(Decoded(Int(i), s[4..]))
  }

  lemma ByteSplit(x: int)
    requires 0 <= x
    ensures x == x % 256 + 256 * (x / 256)
    ensures 0 <= x / 256 <= x
  {
  }

  lemma ByteJoin(lo: int, hi: int)
    requires 0 <= lo < 256 && 0 <= hi
    ensures (lo + 256 * hi) % 256 == lo && (lo + 256 * hi) / 256 == hi
  {
  }

  /** The four bytes of a 32-bit pattern reassemble to the pattern. */
  lemma Reassemble(u: int)
    requires 0 <= u <= U32_MAX
    ensures u % 256 + 256 * (u / 256 % 256 + 256 * (u / 256 / 256 % 256 + 256 * (u / 256 / 256 / 256 % 256))) == u
  {
    var a := u / 256;
    var b := a / 256;
    var c := b / 256;
    ByteSplit(u);
    ByteSplit(a);
    ByteSplit(b);
    assert c < 256;
    assert b % 256 + 256 * c == b;
    assert a % 256 + 256 * b == a;
  }

  /** The bit pattern of a value in range tells its sign apart for `i32`:
      patterns above `i32::MAX` are the negative values. */
  lemma BitsInRange(kind: IntKind, i: int)
    requires InRange(kind, i)
    ensures kind == I32 && Bits(i) > I32_MAX ==> Bits(i) - 0x1_0000_0000 == i
    ensures !(kind == I32 && Bits(i) > I32_MAX) ==> Bits(i) == i
  {
    if i < 0 {
      assert Bits(i) == i + 0x1_0000_0000;
    }
  }

  /** Reassembling the bytes written for `i` gives back `i`, and decoding
      consumes exactly those four bytes. */
  lemma RoundTrip(kind: IntKind, i: int, rest: Bytes)
    requires InRange(kind, i)
    ensures DecodeLe(kind, EncodeLe(kind, i) + rest) == Ok(Decoded(Int(i), rest))
  {
    var e := EncodeLe(kind, i);
    var s := e + rest;
    assert s[..4] == e && s[4..] == rest;
    assert Unsigned(e) == Bits(i) by {
      Reassemble(Bits(i));
    }
    BitsInRange(kind, i);
  }

  /** Writing back a decoded integer reproduces the four bytes it was read
      from: no bit pattern is lost or normalised. */
  lemma BytesRoundTrip(kind: IntKind, s: Bytes)
    requires |s| >= 4
    ensures EncodeLe(kind, DecodeLe(kind, s).value.value.i) == s[..4]
  {
    var u := Unsigned(s[..4]);
    var i := DecodeLe(kind, s).value.value.i;
    assert Bits(i) == u;
    ByteJoin(s[0], s[1] as int + 256 * (s[2] as int + 256 * s[3] as int));
    ByteJoin(s[1], s[2] as int + 256 * s[3] as int);
    ByteJoin(s[2], s[3]);
    assert s[3] % 256 == s[3];
  }

  /** `0x01020304u32` is stored as `04 03 02 01`. */
  lemma ExampleU32()
    ensures EncodeLe(U32, 0x0102_0304) == [0x04, 0x03, 0x02, 0x01]
    ensures DecodeLe(U32, [0x04, 0x03, 0x02, 0x01]) == Ok(Decoded(Int(0x0102_0304), []))
  {
  }

  /** `-2i32` is stored in two's complement as `FE FF FF FF`. */
  lemma ExampleI32()
    ensures EncodeLe(I32, -2) == [0xFE, 0xFF, 0xFF, 0xFF]
    ensures DecodeLe(I32, [0xFE, 0xFF, 0xFF, 0xFF]) == Ok(Decoded(Int(-2), []))
  {
    assert Bits(-2) == 0xFFFF_FFFE;
    var b: Bytes := [0xFE, 0xFF, 0xFF, 0xFF];
    assert b[..4] == b;
    assert Unsigned(b) == 0xFFFF_FFFE;
  }
}
