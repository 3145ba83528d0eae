# raw-seeders codec combinators in Dafny

A model of the binary codec combinators of the `raw-seeders` crate
(`src/lib.rs`). They are serde "seeders": each is a small configuration
value that supplies both a `DeserializeSeed` and a `Serialize` view. That
makes it possible to describe raw binary layouts field by field:

- `Literal(bytes)` is a fixed magic byte string;
- `LittleEndian` is a `u32` or `i32` stored as four little-endian bytes;
- `TryAsU32(repr)` and `TryAsI32(repr)` store a `usize` through a 32-bit
  codec, with checked casts;
- `Tuple::of(item)` is a fixed-capacity array;
- `TupleN(n, item)` is a `Vec` with a configured count;
- `Seq(item)` is a `Vec` read until its items stop;
- `LengthPrefixed(length, item)` is a `Vec` preceded by its length.

The serde engine is replaced by a packed byte stream, and every combinator
becomes a pair of functions:

- `Combinators.Encode(codec, value)` gives the bytes or an error.
- `Combinators.Decode(codec, input)` gives the value and the unread input,
  or an error.

The packed stream has no framing. A container ends when the input ends, and
a value's bytes are just its fields' bytes in order. The element streams of
`Tuple`, `TupleN` and `Seq` follow the source closely: an `iter::from_fn`
closure turns an item error into `None` and stores it in a captured `error`
variable.

- `Tuple` and `Seq` never read that variable. A failing item in a `Tuple`
  shows up as `invalid_length`. In a `Seq` it just ends the sequence.
- `TupleN` returns the stored error first.

These quirks are modelled as written and stated as lemmas.

Files and modules:

- `types.dfy` (`Types`): bytes, integer limits (`usize` is 64 bits), the
  error kinds, values, and `Option`/`Result`.
- `literal.dfy` (`Literals`): `Literal`, including its `visit_seq` loop as
  a method.
- `byte_order.dfy` (`ByteOrder`): `LittleEndian` / `ByteOrdered` for `u32`
  and `i32`.
- `casts.dfy` (`Casts`): the `usize` implementations of `TryAsU32able` and
  `TryAsI32able`.
- `combinators.dfy` (`Combinators`): the codec datatype, its types, and the
  encoder and decoder.
- `laws.dfy` (`Laws`):
  - the round trips: decode of encode, and encode of decode;
  - the length and error rules of each container.
- `visitors.dfy` (`Visitors`): the step-by-step `visit_seq` and `from` loops
  and the element-writing `to` loops as methods. Each is proved to compute
  exactly what `Combinators` specifies.

Encoding through `Tuple` does not compare the container's length with the
array capacity. `SerTupleable::to` writes whatever elements the container
has (src/lib.rs:285-294, 338-351), although the combinator's purpose
suggests a length-mismatch error. The model follows the code, and
`Laws.TupleEncodeIgnoresCapacity` states it.

## Model

| member | source | states |
|---|---|---|
| Literals.Decode | src/lib.rs:36-72 | a successful read yields `()` and consumes exactly the literal's bytes |
| Literals.VisitSeq | src/lib.rs:54-67 | the `for` loop with its early returns computes exactly `Literals.Decode` |
| Literals.DecodeOk | src/lib.rs:54-67 | decoding succeeds if and only if the input starts with the literal, and then leaves everything after it |
| Literals.DecodeMismatch | src/lib.rs:59-64 | at the first differing index, decoding fails with `invalid_value` carrying the received and the expected byte |
| Literals.DecodeShort | src/lib.rs:55-58 | input that is a proper prefix of the literal fails with `invalid_length` at the index where it ran out |
| Literals.RoundTrip | src/lib.rs:28-35 | `Literal::serialize` writes exactly the literal's bytes, and decoding the literal's own encoding, followed by anything, succeeds and leaves exactly what followed |
| ByteOrder.EncodeLe | src/lib.rs:119-135 | `to_le_bytes` writes exactly four bytes |
| ByteOrder.DecodeLe | src/lib.rs:91-100 | reading succeeds if and only if four bytes are available; it yields an in-range integer and consumes exactly four bytes; otherwise `invalid_length` of the bytes available |
| ByteOrder.RoundTrip | src/lib.rs:119-135 | `from_le_bytes(to_le_bytes(i)) == i` for every `u32` and `i32`, consuming exactly four bytes |
| ByteOrder.BytesRoundTrip | src/lib.rs:119-135 | writing back a decoded integer reproduces the four bytes it was read from |
| ByteOrder.ExampleU32 | src/lib.rs:128-135 | `0x01020304u32` is stored as `04 03 02 01`, and reads back |
| ByteOrder.ExampleI32 | src/lib.rs:119-126 | `-2i32` is stored in two's complement as `FE FF FF FF`, and reads back |
| Casts.ToU32 | src/lib.rs:826-828 | `u32(usize)` succeeds with the same number if and only if it is at most `u32::MAX`; otherwise `Overflow` |
| Casts.FromU32 | src/lib.rs:823-825 | `usize(u32)` always succeeds on a 64-bit target |
| Casts.ToI32 | src/lib.rs:888-890 | `i32(usize)` succeeds with the same number if and only if it is at most `i32::MAX`; otherwise `Overflow` |
| Casts.FromI32 | src/lib.rs:885-887 | `usize(i32)` succeeds with the same number if and only if it is non-negative; otherwise `Underflow` |
| Casts.U32RoundTrip | src/lib.rs:822-829 | a `usize` that fits a `u32` reads back unchanged |
| Casts.U32Restores | src/lib.rs:822-829 | a stored `u32` is written back as the same `u32` |
| Casts.I32RoundTrip | src/lib.rs:884-891 | a `usize` that fits an `i32` reads back unchanged |
| Casts.I32Restores | src/lib.rs:884-891 | a stored non-negative `i32` is written back as the same `i32` |
| Combinators.Encode | src/lib.rs:28-875 | the `serialize` of every modelled combinator (`Literal`, `LittleEndian`, `Tuple`, `TupleN`, `Seq`, `LengthPrefixed`, `TryAsU32`, `TryAsI32`): encoding succeeds exactly on the codec's domain (`Encodable`); `Literal` writes exactly its bytes; `TryAsU32`/`TryAsI32` encode through the checked cast |
| Combinators.EncodeItems | src/lib.rs:342-350 | the element loop of every `to` succeeds if and only if every element can be encoded |
| Combinators.EncodeTupleN | src/lib.rs:431-445 | succeeds if and only if the configured count equals the container's length and every element encodes; a count mismatch is reported before any element is written |
| Combinators.Decode | src/lib.rs:36-860 | the `deserialize` of every modelled combinator (`Literal`, `LittleEndian`, `Tuple`, `TupleN`, `Seq`, `LengthPrefixed`, `TryAsU32`, `TryAsI32`): a successful decode yields a value of the codec's Rust type and never consumes more input than it was given |
| Combinators.DecodeTupleN | src/lib.rs:395-420 | a successful `TupleN` read yields a `Vec` of exactly the configured count, of the item type |
| Combinators.ReadN | src/lib.rs:264-273 | the `take(n)` stream delivers at most `n` items and consumes no more than its input |
| Combinators.ReadAll | src/lib.rs:575-584 | the unbounded `Seq` stream delivers at most one item per input byte |
| Combinators.ReadNTyped | src/lib.rs:262-274 | every item the `take(n)` stream delivers has the item codec's type |
| Combinators.ReadAllTyped | src/lib.rs:574-586 | every item the `Seq` stream delivers has the item codec's type |
| Laws.RoundTrip | src/lib.rs:242-279 | for every delimited codec and every value in its domain, decoding its encoding followed by anything gives the value back and leaves exactly what followed |
| Laws.ItemsRoundTrip | src/lib.rs:395-420 | `Tuple` and `TupleN` read back what they wrote, leaving what followed |
| Laws.LengthPrefixedRoundTrip | src/lib.rs:692-712 | `LengthPrefixed` reads back what it wrote: the prefix gives the count, and exactly that many items follow |
| Laws.SeqRoundTrip | src/lib.rs:574-586 | `Seq` reads back its encoding when that encoding is the whole input |
| Laws.EncodeOfDecode | src/lib.rs:242-279 | whatever any codec decodes, re-encoding it gives back exactly the bytes consumed |
| Laws.SeqReencodes | src/lib.rs:574-586 | `Seq` decoding never fails, and re-encoding its result reproduces the bytes it consumed |
| Laws.LengthPrefixedReencodes | src/lib.rs:731-753 | re-encoding a decoded `LengthPrefixed` value writes the same prefix and items it was read from |
| Laws.ReadNPrefix | src/lib.rs:264-273 | over the encodings of `k <= n` items, the `take(n)` stream delivers exactly those items and then continues on what follows |
| Laws.ReadAllPrefix | src/lib.rs:575-584 | over the encodings of some items, the `Seq` stream delivers exactly those items and then continues on what follows |
| Laws.ReadNExact | src/lib.rs:401-411 | `take(k)` over the encodings of `k` items delivers them, with no stored error, leaving what followed |
| Laws.TupleTruncated | src/lib.rs:326-333 | a `Tuple` of capacity `N` over the encodings of fewer than `N` items fails with `invalid_length` of the items read |
| Laws.TupleSwallowsItemError | src/lib.rs:263-273 | when an item fails inside a `Tuple`, the item's error is dropped and `invalid_length` of the items read so far is returned |
| Laws.TupleNPropagatesItemError | src/lib.rs:401-412 | when an item fails inside a `TupleN`, that item's own error is returned |
| Laws.TupleNStoredError | src/lib.rs:412 | any error the `TupleN` item stream stored is the result |
| Laws.TupleNTruncated | src/lib.rs:413-415 | a `TupleN(n, _)` over the encodings of fewer than `n` items fails with `invalid_length` of the items read |
| Laws.TupleNStopsAtCount | src/lib.rs:409-419 | `TupleN(k, _)` reads exactly `k` items and leaves whatever follows for the enclosing layout |
| Laws.SeqSwallowsItemError | src/lib.rs:575-585 | a failing item just ends a `Seq`: the items before it are returned and the failing input is left unread |
| Laws.LengthPrefixedTruncated | src/lib.rs:696-711 | a prefix that announces more items than follow fails with `invalid_length` of the items present |
| Laws.LengthPrefixedDecodes | src/lib.rs:696-711 | the layout reads the length field, then exactly that many items through `TupleN` |
| Laws.LengthPrefixedBody | src/lib.rs:696-711 | after the length field, `LengthPrefixed` behaves as `TupleN` with the decoded count |
| Laws.LengthPrefixedLayout | src/lib.rs:735-751 | a `LengthPrefixed` encoding is the length codec's encoding of the element count followed by the elements' encodings |
| Laws.TupleEncodeIgnoresCapacity | src/lib.rs:285-294 | encoding through `Tuple` writes the container's elements like `Seq` does, without comparing their count with the capacity |
| Laws.TupleReencodes | src/lib.rs:326-333 | a decoded array re-encodes to the bytes it was read from |
| Laws.TupleNReencodes | src/lib.rs:431-445 | a decoded `TupleN` vector passes the count check and re-encodes to the bytes it was read from |
| Visitors.NextElement | src/lib.rs:265-271 | `next_element_seed` yields `None` exactly at the end of the input, and otherwise the item codec's result |
| Visitors.VisitTuple | src/lib.rs:262-274 | the `from_fn`/`take` closure with its unread `error` and the `while !vec.is_full()` loop compute exactly `Combinators.Decode` of the `Tuple` |
| Visitors.VisitTupleN | src/lib.rs:395-420 | the `TupleN` visitor computes exactly `Combinators.DecodeTupleN` |
| Visitors.CollectTupleN | src/lib.rs:401-411 | collecting the `take(n)` stream yields exactly the items, rest and stored error of `Combinators.ReadN` |
| Visitors.VisitSeq | src/lib.rs:574-586 | the `Seq` visitor computes exactly `Combinators.Decode` of the `Seq` |
| Visitors.CollectSeq | src/lib.rs:629-634 | collecting the unbounded stream yields exactly the items, rest and stored error of `Combinators.ReadAll` |
| Visitors.WriteElements | src/lib.rs:505-514 | the `for element in ..` loop of every `to` yields exactly `Combinators.EncodeItems`, stopping at the first element error |

## Left out

- `IEEE754`, `Windows1252` and `SerdeLike` are not part of this model. Floating-point and code-page conversion fall
  outside the integer and container layouts modelled here.
- The serde engine is replaced by a packed byte stream:
  - no framing, length headers or self-description;
  - `serialize_bytes` of four integer bytes and the `[u8; 4]` tuple that
    `deserialize_le` reads back are taken as the same four bytes;
  - likewise, the literal's bytes written as a `[u8]` sequence
    (`Literal::serialize`) and the `deserialize_tuple(len, ..)` that
    `Literal` reads them with are taken as the same bytes, which
    `Literals.RoundTrip` relies on;
  - the stream signals the end of a sequence exactly when the input is used
    up.
- An item whose decoding fails is taken to consume no input. What a real
  deserializer has consumed at that point is left out.
- `Combinators.ReadAll` and `Visitors.CollectSeq` stop at an item that
  decodes without consuming input. The source would collect that item
  forever; the model ends the sequence instead, so that it terminates.
- `usize` is fixed at 64 bits (`Types.USIZE_MAX`). On a 32-bit target,
  `usize(u32)` is still total, but `u32(usize)` could never overflow.
- Error messages (`expecting` texts and `format!` strings) are not
  modelled. Errors are kept by kind and by the numbers they carry
  (`Types.Error`). The `ser::Error::custom` / `de::Error::custom` of the casts and of `TupleN` is
  modelled as `Overflow`, `Underflow` or `CountMismatch`.
- The `Seeder`/`DeSeeder`/`SerSeeder` plumbing (`seed`, `seeded`, boxing)
  and the `seed`/`seeded` derive macros are left out. `LengthPrefixedLayout`
  is modelled by its effect: the length field followed by a `TupleN` body.
- `trace!` logging is left out because it has no effect on results.
- `Laws.SeqRoundTrip`: holds only when the `Seq` encoding is the whole
  input, because a `Seq` reads until the input ends.
- `Laws.RoundTrip`: stated for delimited codecs (`Laws.Delimited`).
  Containers of items that encode to no bytes cannot find their own end in
  an unframed stream.
