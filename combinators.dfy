/** The codec combinators of src/lib.rs as one description datatype, with
    the encoder and decoder each combinator pairs, over the packed byte
    stream of module Types.

    Element streams. `Tuple`, `TupleN` and `Seq` read their items through
    the engine's `SeqAccess::next_element_seed`. In the packed stream that
    call yields `None` (end of sequence) exactly when the input is used up,
    and otherwise decodes one item with the item codec; an item that fails
    leaves the input where it was. The decoders wrap it in an
    `iter::from_fn` closure that turns an error into `None` and stores the
    error in a captured `error` variable; `Stream.error` is that variable. */
module Combinators {
  import opened Types
  import Literals
  import ByteOrder
  import Casts

  /** The Rust types the combinators are instantiated at. */
  datatype Ty =
    | UnitT
    | U32T
    | I32T
    | UsizeT
      /** `[Item; capacity]`, decoded by `Tuple` (`DeTupleable` for arrays) */
    | ArrayT(capacity: nat, elem: Ty)
      /** `Vec<Item>` */
    | VecT(elem: Ty)

  /** A codec configuration ("seeder"): a value built once by the caller
      and reused for every call. */
  datatype Codec =
      /** `Literal(bytes)` */
    | Literal(bytes: Bytes)
      /** `LittleEndian` at `u32` or `i32` */
    | LittleEndian(kind: ByteOrder.IntKind)
      /** `TryAsU32(repr)`: a `usize` stored through a `u32` codec */
    | TryAsU32(repr: Codec)
      /** `TryAsI32(repr)`: a `usize` stored through an `i32` codec */
    | TryAsI32(repr: Codec)
      /** `Tuple::of(item)` at an array type of the given capacity */
    | Tuple(capacity: nat, item: Codec)
      /** `TupleN(count, item)` */
    | TupleN(count: nat, item: Codec)
      /** `Seq(item)` */
    | Seq(item: Codec)
      /** `LengthPrefixed(length, item)` */
    | LengthPrefixed(length: Codec, item: Codec)

  /** The type a codec reads and writes, or `None` where the Rust trait
      bounds would reject the configuration (an inner codec of the wrong
      type, a capacity or count that is not a `usize`). */
  function TypeOf(c: Codec): Option<Ty>
  {
    match c
    case Literal(_) => Some(UnitT)
    case LittleEndian(kind) => Some(if kind == ByteOrder.U32 then U32T else I32T)
    case TryAsU32(repr) => if TypeOf(repr) == Some(U32T) then Some(UsizeT) else None
    case TryAsI32(repr) => if TypeOf(repr) == Some(I32T) then Some(UsizeT) else None
    case Tuple(cap, item) =>
      if cap <= USIZE_MAX && TypeOf(item).Some? then Some(ArrayT(cap, TypeOf(item).value)) else None
    case TupleN(n, item) =>
      if n <= USIZE_MAX && TypeOf(item).Some? then Some(VecT(TypeOf(item).value)) else None
    case Seq(item) =>
      if TypeOf(item).Some? then Some(VecT(TypeOf(item).value)) else None
    case LengthPrefixed(length, item) =>
      if TypeOf(length) == Some(UsizeT) && TypeOf(item).Some? then Some(VecT(TypeOf(item).value)) else None
  }

  predicate WellTyped(c: Codec)
  {
    TypeOf(c).Some?
  }

  /** `v` is a value of the Rust type `t`: integers within the type's range,
      arrays of exactly their capacity. */
  predicate HasType(v: Value, t: Ty)
    decreases t, 0, 0
  {
    match t
    case UnitT => v.Unit?
    case U32T => v.Int? && 0 <= v.i <= U32_MAX
    case I32T => v.Int? && I32_MIN <= v.i <= I32_MAX
    case UsizeT => v.Int? && 0 <= v.i <= USIZE_MAX
    case ArrayT(cap, elem) => v.List? && |v.items| == cap && HasTypeAll(v.items, elem)
    case VecT(elem) => v.List? && HasTypeAll(v.items, elem)
  }

  /** Every element of `xs` is a value of type `t`. */
  predicate HasTypeAll(xs: seq<Value>, t: Ty)
    decreases t, 1, |xs|
  {
    xs == [] || (HasType(xs[0], t) && HasTypeAll(xs[1..], t))
  }

  /** What the encoders accept of a value of type `t`. The encode side of
      `Tuple` takes any `AsRef<[Item]>`, so a container of any length
      conforms to an array type; every container length is a `usize`. */
  predicate Conforms(v: Value, t: Ty)
    decreases t, 0, 0
  {
    match t
    case UnitT => v.Unit?
    case U32T => v.Int? && 0 <= v.i <= U32_MAX
    case I32T => v.Int? && I32_MIN <= v.i <= I32_MAX
    case UsizeT => v.Int? && 0 <= v.i <= USIZE_MAX
    case ArrayT(_, elem) => v.List? && |v.items| <= USIZE_MAX && ConformsAll(v.items, elem)
    case VecT(elem) => v.List? && |v.items| <= USIZE_MAX && ConformsAll(v.items, elem)
  }

  /** Every element of `xs` is accepted by the encoders of type `t`. */
  predicate ConformsAll(xs: seq<Value>, t: Ty)
    decreases t, 1, |xs|
  {
    xs == [] || (Conforms(xs[0], t) && ConformsAll(xs[1..], t))
  }

  /** The values a codec can write: every `usize` stored through
      `TryAsU32` / `TryAsI32` fits the field, and every `TupleN` count
      agrees with its container. */
  predicate Encodable(c: Codec, v: Value)
    decreases c, 0, 0
  {
    match c
    case Literal(_) => true
    case LittleEndian(_) => true
    case TryAsU32(repr) => v.Int? && v.i <= U32_MAX && Encodable(repr, v)
    case TryAsI32(repr) => v.Int? && v.i <= I32_MAX && Encodable(repr, v)
    case Tuple(_, item) => v.List? && EncodableAll(item, v.items)
    case TupleN(n, item) => v.List? && |v.items| == n && EncodableAll(item, v.items)
    case Seq(item) => v.List? && EncodableAll(item, v.items)
    case LengthPrefixed(length, item) =>
      v.List? && Encodable(length, Int(|v.items|)) && EncodableAll(item, v.items)
  }

  /** `item` can write every element of `xs`. */
  predicate EncodableAll(item: Codec, xs: seq<Value>)
    decreases item, 1, |xs|
  {
    xs == [] || (Encodable(item, xs[0]) && EncodableAll(item, xs[1..]))
  }

  // ---------------------------------------------------------------- encode

  /** The `serialize` of each combinator's seeded view. Encoding succeeds
      exactly on the codec's domain. */
  function Encode(c: Codec, v: Value): (r: Result<Bytes>)
    requires WellTyped(c) && Conforms(v, TypeOf(c).value)
    ensures r.Ok? <==> Encodable(c, v)
    decreases c, 0, 0
  {
    match c
    case Literal(bytes) => Ok(bytes)
    case LittleEndian(kind) => Ok(ByteOrder.EncodeLe(kind, v.i))
    case TryAsU32(repr) =>
      (match Casts.ToU32(v.i)
       case Err(e) => Err(e)
       case Ok(u) => Encode(repr, Int(u)))
    case TryAsI32(repr) =>
      (match Casts.ToI32(v.i)
       case Err(e) => Err(e)
       case Ok(i) => Encode(repr, Int(i)))
    case Tuple(_, item) => EncodeItems(item, v.items)
    case TupleN(n, item) => EncodeTupleN(n, item, v.items)
    case Seq(item) => EncodeItems(item, v.items)
    case LengthPrefixed(length, item) =>
      match Encode(length, Int(|v.items|))
      case Err(e) => Err(e)
      case Ok(prefix) =>
        match EncodeTupleN(|v.items|, item, v.items)
        case Err(e) => Err(e)
        case Ok(body) => Ok(prefix + body)
  }

  /** `SerTupleable::to` / `SerTupleNable::to` / `SerSeqable::to`: each
      element through the item codec, in index order, stopping at the first
      element that fails. */
  function EncodeItems(item: Codec, xs: seq<Value>): (r: Result<Bytes>)
    requires WellTyped(item) && ConformsAll(xs, TypeOf(item).value)
    ensures r.Ok? <==> EncodableAll(item, xs)
    decreases item, 1, |xs|
  {
    if xs == [] then Ok([])
    else
      match Encode(item, xs[0])
      case Err(e) => Err(e)
      case Ok(head) =>
        match EncodeItems(item, xs[1..])
        case Err(e) => Err(e)
        case Ok(tail) => Ok(head + tail)
  }

  /** `TupleNSeeded::serialize`: the configured count is checked against
      the container's length before any element is written. */
  function EncodeTupleN(n: nat, item: Codec, xs: seq<Value>): (r: Result<Bytes>)
    requires WellTyped(item) && ConformsAll(xs, TypeOf(item).value)
    ensures r.Ok? <==> n == |xs| && EncodableAll(item, xs)
    ensures n != |xs| ==> r == Err(CountMismatch(n, |xs|))
    decreases item, 2, 0
  {
    if n != |xs| then Err(CountMismatch(n, |xs|)) else EncodeItems(item, xs)
  }

  // ---------------------------------------------------------------- decode

  /** The elements an item stream delivered, the input after the last of
      them, and what the closure stored in `error`. */
  datatype Stream = Stream(items: seq<Value>, rest: Bytes, error: Option<Error>)

  /** `Stream` with `xs` delivered before it. */
  function Prepend(xs: seq<Value>, st: Stream): Stream
  {
    Stream(xs + st.items, st.rest, st.error)
  }

  /** The `DeserializeSeed::deserialize` of each combinator. A successful
      decode yields a value of the codec's type and leaves no more input
      than it was given (that it consumes a prefix, and which one, is
      `Laws.EncodeOfDecode`). */
  function Decode(c: Codec, s: Bytes): (r: Result<Decoded>)
    requires WellTyped(c)
    ensures r.Ok? ==> HasType(r.value.value, TypeOf(c).value) && |r.value.rest| <= |s|
    decreases c, 0, 0
  {
    match c
    case Literal(bytes) => Literals.Decode(bytes, s)
    case LittleEndian(kind) => ByteOrder.DecodeLe(kind, s)
    case TryAsU32(repr) =>
      (match Decode(repr, s)
       case Err(e) => Err(e)
       case Ok(d) => Ok(Decoded(Int(Casts.FromU32(d.value.i)), d.rest)))
    case TryAsI32(repr) =>
      (match Decode(repr, s)
       case Err(e) => Err(e)
       case Ok(d) =>
         match Casts.FromI32(d.value.i)
         case Err(e) => Err(e)
         case Ok(n) => Ok(Decoded(Int(n), d.rest)))
    case Tuple(cap, item) =>
      ReadNTyped(item, s, cap);
      var st := ReadN(item, s, cap);
      if |st.items| == cap then Ok(Decoded(List(st.items), st.rest))
      else Err(InvalidLength(|st.items|))
    case TupleN(n, item) => DecodeTupleN(n, item, s)
    case Seq(item) =>
      ReadAllTyped(item, s);
      var st := ReadAll(item, s);
      Ok(Decoded(List(st.items), st.rest))
    case LengthPrefixed(length, item) =>
      match Decode(length, s)
      case Err(e) => Err(e)
      case Ok(d) =>
        DecodeTupleN(d.value.i, item, d.rest)
  }

  /** `iter::from_fn(..).take(n)` over the item stream, drained until it
      first yields `None`: at most `n` items, fewer when the input runs out
      or an item fails (the error then goes to `error`). */
  function ReadN(item: Codec, s: Bytes, n: nat): (st: Stream)
    requires WellTyped(item)
    ensures |st.items| <= n && |st.rest| <= |s|
    decreases item, 1, n, 0
  {
    if n == 0 || s == [] then Stream([], s, None)
    else
      match Decode(item, s)
      case Err(e) => Stream([], s, Some(e))
      case Ok(d) =>
        Prepend([d.value], ReadN(item, d.rest, n - 1))
  }

  /** `iter::from_fn(..)` without a bound, as `Seq` collects it: items until
      the input runs out or an item fails. An item that decodes without
      consuming any input ends the stream here; the source would go on
      yielding it forever. Each item delivered consumes at least one byte. */
  function ReadAll(item: Codec, s: Bytes): (st: Stream)
    requires WellTyped(item)
    ensures |st.items| <= |s| && |st.rest| <= |s|
    decreases item, 1, |s|, 0
  {
    if s == [] then Stream([], s, None)
    else
      match Decode(item, s)
      case Err(e) => Stream([], s, Some(e))
      case Ok(d) =>
        if |d.rest| == |s| then Stream([], s, None)
        else
          Prepend([d.value], ReadAll(item, d.rest))
  }

  /** The `TupleN` visitor: at most `n` items; a stored item error is
      returned first, then a short count is a length error. */
  function DecodeTupleN(n: nat, item: Codec, s: Bytes): (r: Result<Decoded>)
    requires WellTyped(item)
    ensures r.Ok? ==> HasType(r.value.value, VecT(TypeOf(item).value)) && |r.value.rest| <= |s|
    ensures r.Ok? ==> |r.value.value.items| == n
    decreases item, 2, 0
  {
    ReadNTyped(item, s, n);
    var st := ReadN(item, s, n);
    if st.error.Some? then Err(st.error.value)
    else if |st.items| != n then Err(InvalidLength(|st.items|))
    else Ok(Decoded(List(st.items), st.rest))
  }

  /** Every item a `take(n)` stream delivers has the item codec's type. */
  lemma {:induction false} ReadNTyped(item: Codec, s: Bytes, n: nat)
    requires WellTyped(item)
    ensures HasTypeAll(ReadN(item, s, n).items, TypeOf(item).value)
    decreases item, 1, n, 1
  {
    if n > 0 && s != [] && Decode(item, s).Ok? {
      var d := Decode(item, s).value;
      var tail := ReadN(item, d.rest, n - 1);
      ReadNTyped(item, d.rest, n - 1);
      assert ([d.value] + tail.items)[1..] == tail.items;
    }
  }

  /** Every item `Seq`'s stream delivers has the item codec's type. */
  lemma {:induction false} ReadAllTyped(item: Codec, s: Bytes)
    requires WellTyped(item)
    ensures HasTypeAll(ReadAll(item, s).items, TypeOf(item).value)
    decreases item, 1, |s|, 1
  {
    if s != [] && Decode(item, s).Ok? && |Decode(item, s).value.rest| < |s| {
      var d := Decode(item, s).value;
      var tail := ReadAll(item, d.rest);
      ReadAllTyped(item, d.rest);
      assert ([d.value] + tail.items)[1..] == tail.items;
    }
  }
}
