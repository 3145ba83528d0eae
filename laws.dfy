/** What the combinators promise when composed: decoding an encoding gives
    the value back, re-encoding a decoded value gives the bytes back, and
    the length and error rules of `Tuple`, `TupleN`, `Seq` and
    `LengthPrefixed`. */
module Laws {
  import opened Types
  import Literals
  import ByteOrder
  import opened Combinators

  /** `v` is a value of `c`'s type that `c` can write. */
  predicate InDomain(c: Codec, v: Value)
  {
    WellTyped(c) && HasType(v, TypeOf(c).value) && Conforms(v, TypeOf(c).value) && Encodable(c, v)
  }

  /** Every element of `xs` is in `item`'s domain. */
  predicate AllInDomain(item: Codec, xs: seq<Value>)
  {
    WellTyped(item) && HasTypeAll(xs, TypeOf(item).value)
    && ConformsAll(xs, TypeOf(item).value) && EncodableAll(item, xs)
  }

  /** Every value `c` writes takes at least one byte. */
  predicate NonEmpty(c: Codec)
  {
    match c
    case Literal(bytes) => |bytes| > 0
    case LittleEndian(_) => true
    case TryAsU32(repr) => NonEmpty(repr)
    case TryAsI32(repr) => NonEmpty(repr)
    case Tuple(cap, item) => cap > 0 && NonEmpty(item)
    case TupleN(n, item) => n > 0 && NonEmpty(item)
    case Seq(_) => false
    case LengthPrefixed(length, _) => NonEmpty(length)
  }

  /** The decoder of `c` finds the end of its own encoding, whatever
      follows it. A `Seq` reads until the input runs out, and a container
      cannot tell an empty item from the end of its input. */
  predicate Delimited(c: Codec)
  {
    match c
    case Literal(_) => true
    case LittleEndian(_) => true
    case TryAsU32(repr) => Delimited(repr)
    case TryAsI32(repr) => Delimited(repr)
    case Tuple(_, item) => Delimited(item) && NonEmpty(item)
    case TupleN(_, item) => Delimited(item) && NonEmpty(item)
    case Seq(_) => false
    case LengthPrefixed(length, item) => Delimited(length) && Delimited(item) && NonEmpty(item)
  }

  lemma ListInDomain(c: Codec, v: Value)
    requires InDomain(c, v) && v.List?
    requires c.Tuple? || c.TupleN? || c.Seq? || c.LengthPrefixed?
    ensures AllInDomain(c.item, v.items)
  {
  }

  lemma EncodeItemsCons(item: Codec, xs: seq<Value>)
    requires |xs| > 0 && WellTyped(item) && ConformsAll(xs, TypeOf(item).value)
    requires EncodeItems(item, xs).Ok?
    ensures Encode(item, xs[0]).Ok? && EncodeItems(item, xs[1..]).Ok?
    ensures EncodeItems(item, xs).value == Encode(item, xs[0]).value + EncodeItems(item, xs[1..]).value
  {
  }

  /** The encoding of every value of a `NonEmpty` codec has a byte. */
  lemma {:induction false} EncodeNonEmpty(c: Codec, v: Value)
    requires InDomain(c, v) && NonEmpty(c)
    ensures |Encode(c, v).value| > 0
    decreases c
  {
    match c
    case Literal(_) =>
    case LittleEndian(_) =>
    case TryAsU32(repr) =>
      assert InDomain(repr, v);
      EncodeNonEmpty(repr, v);
    case TryAsI32(repr) =>
      assert InDomain(repr, v);
      EncodeNonEmpty(repr, v);
    case Tuple(_, item) =>
      ListInDomain(c, v);
      EncodeItemsCons(item, v.items);
      EncodeNonEmpty(item, v.items[0]);
    case TupleN(_, item) =>
      ListInDomain(c, v);
      EncodeItemsCons(item, v.items);
      EncodeNonEmpty(item, v.items[0]);
    case LengthPrefixed(length, _) =>
      var n := Int(|v.items|);
      assert InDomain(length, n);
      EncodeNonEmpty(length, n);
  }

  /** One step of the `take(n)` item stream: a decoded item is delivered and
      the stream goes on after it. */
  lemma ReadNCons(item: Codec, s: Bytes, n: nat, d: Decoded)
    requires WellTyped(item) && n > 0 && s != [] && Decode(item, s) == Ok(d)
    ensures ReadN(item, s, n) == Prepend([d.value], ReadN(item, d.rest, n - 1))
  {
  }

  /** An item that fails ends the `take(n)` stream, and its error is the
      one stored. */
  lemma ReadNFails(item: Codec, s: Bytes, n: nat)
    requires WellTyped(item) && n > 0 && s != [] && Decode(item, s).Err?
    ensures ReadN(item, s, n) == Stream([], s, Some(Decode(item, s).error))
  {
  }

  /** An item that fails ends `Seq`'s item stream, and its error is the
      one stored. */
  lemma ReadAllFails(item: Codec, s: Bytes)
    requires WellTyped(item) && s != [] && Decode(item, s).Err?
    ensures ReadAll(item, s) == Stream([], s, Some(Decode(item, s).error))
  {
  }

  /** One step of `Seq`'s item stream, for an item that consumed input. */
  lemma ReadAllCons(item: Codec, s: Bytes, d: Decoded)
    requires WellTyped(item) && s != [] && Decode(item, s) == Ok(d) && |d.rest| < |s|
    ensures ReadAll(item, s) == Prepend([d.value], ReadAll(item, d.rest))
  {
  }

  lemma PrependPrepend(a: seq<Value>, b: seq<Value>, st: Stream)
    ensures Prepend(a, Prepend(b, st)) == Prepend(a + b, st)
  {
    assert a + (b + st.items) == (a + b) + st.items;
  }

  /** Decoding the first of a list of encoded items delivers it and leaves
      the encodings of the others, which are shorter. */
  lemma HeadRoundTrip(item: Codec, xs: seq<Value>, rest: Bytes)
    requires WellTyped(item) && Delimited(item) && NonEmpty(item) && AllInDomain(item, xs)
    requires |xs| > 0
    ensures EncodeItems(item, xs).Ok? && EncodeItems(item, xs[1..]).Ok?
    ensures |EncodeItems(item, xs[1..]).value| < |EncodeItems(item, xs).value|
    ensures Decode(item, EncodeItems(item, xs).value + rest)
         == Ok(Decoded(xs[0], EncodeItems(item, xs[1..]).value + rest))
    decreases item, 2, 0
  {
    EncodeItemsCons(item, xs);
    var head := Encode(item, xs[0]).value;
    var tail := EncodeItems(item, xs[1..]).value;
    assert EncodeItems(item, xs).value + rest == head + (tail + rest);
    EncodeNonEmpty(item, xs[0]);
    RoundTrip(item, xs[0], tail + rest);
  }

  /** Decoding items one after another from `s` delivers `xs`, each item
      consuming at least one byte, and leaves `rest`. */
  predicate Chain(item: Codec, xs: seq<Value>, s: Bytes, rest: Bytes)
    requires WellTyped(item)
    decreases |xs|
  {
    if xs == [] then s == rest
    else
      s != [] && Decode(item, s).Ok? && Decode(item, s).value.value == xs[0]
      && |Decode(item, s).value.rest| < |s|
      && Chain(item, xs[1..], Decode(item, s).value.rest, rest)
  }

  /** The encodings of `xs`, then `rest`, decode item by item to `xs`. */
  lemma {:induction false} ChainOf(item: Codec, xs: seq<Value>, rest: Bytes)
    requires WellTyped(item) && Delimited(item) && NonEmpty(item) && AllInDomain(item, xs)
    ensures EncodeItems(item, xs).Ok?
    ensures Chain(item, xs, EncodeItems(item, xs).value + rest, rest)
    decreases item, 3, |xs|
  {
    if xs == [] {
      assert EncodeItems(item, xs).value + rest == rest;
    } else {
      HeadRoundTrip(item, xs, rest);
      ChainOf(item, xs[1..], rest);
    }
  }

  /** An item stream over a chain of items delivers them and then goes on
      reading what follows the chain. */
  lemma {:induction false} ReadNChain(item: Codec, xs: seq<Value>, s: Bytes, rest: Bytes, m: nat)
    requires WellTyped(item) && Chain(item, xs, s, rest)
    ensures ReadN(item, s, |xs| + m) == Prepend(xs, ReadN(item, rest, m))
    decreases |xs|
  {
    if xs == [] {
      assert s == rest && |xs| + m == m;
      assert xs + ReadN(item, rest, m).items == ReadN(item, rest, m).items;
    } else {
      ReadNChain(item, xs[1..], Decode(item, s).value.rest, rest, m);
      ReadNStep(item, xs, s, rest, m);
    }
  }

  /** The inductive step of `ReadNChain`: the first item of a chain, then
      the stream over the rest of it. */
  lemma ReadNStep(item: Codec, xs: seq<Value>, s: Bytes, rest: Bytes, m: nat)
    requires WellTyped(item) && xs != [] && Chain(item, xs, s, rest)
    requires ReadN(item, Decode(item, s).value.rest, |xs[1..]| + m)
          == Prepend(xs[1..], ReadN(item, rest, m))
    ensures ReadN(item, s, |xs| + m) == Prepend(xs, ReadN(item, rest, m))
  {
    var d := Decode(item, s).value;
    var after := ReadN(item, rest, m);
    var tail := ReadN(item, d.rest, |xs[1..]| + m);
    assert Prepend([xs[0]], tail) == Prepend(xs, after) by {
      assert [xs[0]] + xs[1..] == xs;
      PrependPrepend([xs[0]], xs[1..], after);
    }
    assert ReadN(item, s, |xs| + m) == Prepend([xs[0]], tail) by {
      assert d.value == xs[0] && |xs| + m - 1 == |xs[1..]| + m;
      ReadNCons(item, s, |xs| + m, d);
    }
  }

  /** `Seq`'s item stream over a chain of items delivers them and then goes
      on reading what follows the chain. */
  lemma {:induction false} ReadAllChain(item: Codec, xs: seq<Value>, s: Bytes, rest: Bytes)
    requires WellTyped(item) && Chain(item, xs, s, rest)
    ensures ReadAll(item, s) == Prepend(xs, ReadAll(item, rest))
    decreases |xs|
  {
    if xs == [] {
      assert xs + ReadAll(item, rest).items == ReadAll(item, rest).items;
    } else {
      var d := Decode(item, s).value;
      var after := ReadAll(item, rest);
      var tail := ReadAll(item, d.rest);
      assert tail == Prepend(xs[1..], after) by {
        ReadAllChain(item, xs[1..], d.rest, rest);
      }
      assert Prepend([xs[0]], tail) == Prepend(xs, after) by {
        assert [xs[0]] + xs[1..] == xs;
        PrependPrepend([xs[0]], xs[1..], after);
      }
      ReadAllCons(item, s, d);
    }
  }

  /** An item stream over the encodings of `xs` followed by `rest` delivers
      exactly `xs` and then goes on reading `rest`. */
  lemma ReadNPrefix(item: Codec, xs: seq<Value>, rest: Bytes, n: nat)
    requires WellTyped(item) && Delimited(item) && NonEmpty(item) && AllInDomain(item, xs)
    requires |xs| <= n
    ensures EncodeItems(item, xs).Ok?
    ensures ReadN(item, EncodeItems(item, xs).value + rest, n) == Prepend(xs, ReadN(item, rest, n - |xs|))
    decreases item, 4, 0
  {
    ChainOf(item, xs, rest);
    ReadNChain(item, xs, EncodeItems(item, xs).value + rest, rest, n - |xs|);
  }

  /** `Seq`'s item stream over the encodings of `xs` followed by `rest`
      delivers exactly `xs` and then goes on reading `rest`. */
  lemma ReadAllPrefix(item: Codec, xs: seq<Value>, rest: Bytes)
    requires WellTyped(item) && Delimited(item) && NonEmpty(item) && AllInDomain(item, xs)
    ensures EncodeItems(item, xs).Ok?
    ensures ReadAll(item, EncodeItems(item, xs).value + rest) == Prepend(xs, ReadAll(item, rest))
  {
    ChainOf(item, xs, rest);
    ReadAllChain(item, xs, EncodeItems(item, xs).value + rest, rest);
  }

  /** A `take(|xs|)` item stream over the encodings of `xs` delivers
      exactly `xs`, stops before `rest` and stores no error. */
  lemma ReadNExact(item: Codec, xs: seq<Value>, rest: Bytes)
    requires WellTyped(item) && Delimited(item) && NonEmpty(item) && AllInDomain(item, xs)
    ensures EncodeItems(item, xs).Ok?
    ensures ReadN(item, EncodeItems(item, xs).value + rest, |xs|) == Stream(xs, rest, None)
    decreases item, 5, 0
  {
    assert ReadN(item, rest, 0) == Stream([], rest, None);
    assert xs + [] == xs;
    ReadNPrefix(item, xs, rest, |xs|);
  }

  /** Round trip: decoding the encoding of a value, followed by anything,
      gives the value back and leaves exactly what followed. */
  lemma {:induction false} RoundTrip(c: Codec, v: Value, rest: Bytes)
    requires InDomain(c, v) && Delimited(c)
    ensures Encode(c, v).Ok?
    ensures Decode(c, Encode(c, v).value + rest) == Ok(Decoded(v, rest))
    decreases c, 1, 0
  {
    match c
    case Literal(bytes) =>
      Literals.RoundTrip(bytes, rest);
    case LittleEndian(kind) =>
      ByteOrder.RoundTrip(kind, v.i, rest);
    case TryAsU32(repr) =>
      assert InDomain(repr, v);
      RoundTrip(repr, v, rest);
    case TryAsI32(repr) =>
      assert InDomain(repr, v);
      RoundTrip(repr, v, rest);
    case Tuple(_, _) =>
      ItemsRoundTrip(c, v, rest);
    case TupleN(_, _) =>
      ItemsRoundTrip(c, v, rest);
    case LengthPrefixed(length, item) =>
      LengthPrefixedRoundTrip(length, item, v, rest);
  }

  /** Decoding `c` over `Encode(c, v)` followed by `rest` gives back `v`
      and leaves `rest`. */
  predicate ReadsBack(c: Codec, v: Value, rest: Bytes)
    requires WellTyped(c) && Conforms(v, TypeOf(c).value)
  {
    Encode(c, v).Ok? && Decode(c, Encode(c, v).value + rest) == Ok(Decoded(v, rest))
  }

  /** The round trip of `Tuple` and `TupleN`: their count of items is read
      back from their encodings. */
  lemma ItemsRoundTrip(c: Codec, v: Value, rest: Bytes)
    requires c.Tuple? || c.TupleN?
    requires InDomain(c, v) && Delimited(c)
    ensures ReadsBack(c, v, rest)
    decreases c, 0, 0
  {
    var xs := v.items;
    var e := EncodeItems(c.item, xs).value;
    assert ReadN(c.item, e + rest, |xs|) == Stream(xs, rest, None) by {
      ListInDomain(c, v);
      ReadNExact(c.item, xs, rest);
    }
    ItemsEncode(c, xs);
    assert List(xs) == v;
  }

  lemma LengthPrefixedRoundTrip(length: Codec, item: Codec, v: Value, rest: Bytes)
    requires InDomain(LengthPrefixed(length, item), v) && Delimited(LengthPrefixed(length, item))
    ensures ReadsBack(LengthPrefixed(length, item), v, rest)
    decreases LengthPrefixed(length, item), 0, 0
  {
    var c := LengthPrefixed(length, item);
    var xs := v.items;
    var n := |xs|;
    var body := EncodeItems(item, xs).value;
    var prefix := Encode(length, Int(n)).value;
    assert Encode(c, v) == Ok(prefix + body) by {
      assert List(xs) == v;
      LengthPrefixedEncodes(length, item, xs);
    }
    assert Decode(c, prefix + body + rest) == Ok(Decoded(v, rest)) by {
      assert prefix + body + rest == prefix + (body + rest);
      assert Decode(length, prefix + (body + rest)) == Ok(Decoded(Int(n), body + rest)) by {
        assert InDomain(length, Int(n));
        RoundTrip(length, Int(n), body + rest);
      }
      assert ReadN(item, body + rest, n) == Stream(xs, rest, None) by {
        ListInDomain(c, v);
        ReadNExact(item, xs, rest);
      }
      LengthPrefixedDecodes(length, item, prefix + (body + rest), n, body + rest);
      assert List(xs) == v;
    }
  }

  /** `LengthPrefixed` reads the length field, then exactly that many
      items. */
  lemma LengthPrefixedDecodes(length: Codec, item: Codec, s: Bytes, n: nat, mid: Bytes)
    requires WellTyped(LengthPrefixed(length, item))
    requires Decode(length, s) == Ok(Decoded(Int(n), mid))
    requires ReadN(item, mid, n).error.None? && |ReadN(item, mid, n).items| == n
    ensures Decode(LengthPrefixed(length, item), s)
         == Ok(Decoded(List(ReadN(item, mid, n).items), ReadN(item, mid, n).rest))
  {
  }

  /** `Seq` round trip: at the end of the input a `Seq` of delimited,
      non-empty items reads back exactly the items written. */
  lemma SeqRoundTrip(item: Codec, v: Value)
    requires InDomain(Seq(item), v) && Delimited(item) && NonEmpty(item)
    ensures Encode(Seq(item), v).Ok?
    ensures Decode(Seq(item), Encode(Seq(item), v).value) == Ok(Decoded(v, []))
  {
    ListInDomain(Seq(item), v);
    var e := EncodeItems(item, v.items).value;
    assert e + [] == e;
    assert v.items + [] == v.items;
    assert ReadAll(item, []) == Stream([], [], None);
    ReadAllPrefix(item, v.items, []);
  }

  /** A successful decode of `s` by `c` re-encodes to exactly the bytes it
      consumed. */
  predicate Reencodes(c: Codec, s: Bytes)
    requires WellTyped(c) && Decode(c, s).Ok?
  {
    var d := Decode(c, s).value;
    Conforms(d.value, TypeOf(c).value) && Encode(c, d.value).Ok? && Encode(c, d.value).value + d.rest == s
  }

  /** Byte-exact round trip: a successful decode consumed a prefix of its
      input, and re-encoding the decoded value reproduces exactly that
      prefix (every codec here writes one canonical form). */
  lemma {:induction false} EncodeOfDecode(c: Codec, s: Bytes)
    requires WellTyped(c) && |s| <= USIZE_MAX && Decode(c, s).Ok?
    ensures Conforms(Decode(c, s).value.value, TypeOf(c).value)
    ensures Encode(c, Decode(c, s).value.value).Ok?
    ensures Encode(c, Decode(c, s).value.value).value + Decode(c, s).value.rest == s
    decreases c, 1, 0
  {
    match c
    case Literal(bytes) =>
      assert s[..|bytes|] + s[|bytes|..] == s;
      Literals.DecodeOk(bytes, s);
    case LittleEndian(kind) =>
      assert s[..4] + s[4..] == s;
      ByteOrder.BytesRoundTrip(kind, s);
    case TryAsU32(repr) =>
      EncodeOfDecode(repr, s);
    case TryAsI32(repr) =>
      EncodeOfDecode(repr, s);
    case Tuple(cap, item) =>
      TupleReencodes(cap, item, s);
    case TupleN(n, item) =>
      TupleNReencodes(n, item, s);
    case Seq(item) =>
      SeqReencodes(item, s);
    case LengthPrefixed(length, item) =>
      LengthPrefixedReencodes(length, item, s);
  }

  lemma TupleReencodes(cap: nat, item: Codec, s: Bytes)
    requires WellTyped(Tuple(cap, item)) && |s| <= USIZE_MAX && Decode(Tuple(cap, item), s).Ok?
    ensures Reencodes(Tuple(cap, item), s)
    decreases Tuple(cap, item), 0, 0
  {
    var st := ReadN(item, s, cap);
    assert Decode(Tuple(cap, item), s) == Ok(Decoded(List(st.items), st.rest));
    assert ConformsAll(st.items, TypeOf(item).value) && EncodeItems(item, st.items).Ok?
        && EncodeItems(item, st.items).value + st.rest == s by {
      ReadNEncodes(item, s, cap);
    }
    ItemsEncode(Tuple(cap, item), st.items);
  }

  lemma TupleNReencodes(n: nat, item: Codec, s: Bytes)
    requires WellTyped(TupleN(n, item)) && |s| <= USIZE_MAX && Decode(TupleN(n, item), s).Ok?
    ensures Reencodes(TupleN(n, item), s)
    decreases TupleN(n, item), 0, 0
  {
    var st := ReadN(item, s, n);
    assert Decode(TupleN(n, item), s) == Ok(Decoded(List(st.items), st.rest)) && |st.items| == n;
    assert ConformsAll(st.items, TypeOf(item).value) && EncodeItems(item, st.items).Ok?
        && EncodeItems(item, st.items).value + st.rest == s by {
      ReadNEncodes(item, s, n);
    }
    ItemsEncode(TupleN(n, item), st.items);
  }

  lemma SeqReencodes(item: Codec, s: Bytes)
    requires WellTyped(Seq(item)) && |s| <= USIZE_MAX
    ensures Decode(Seq(item), s).Ok? && Reencodes(Seq(item), s)
    decreases Seq(item), 0, 0
  {
    var st := ReadAll(item, s);
    assert Decode(Seq(item), s) == Ok(Decoded(List(st.items), st.rest));
    assert ConformsAll(st.items, TypeOf(item).value) && EncodeItems(item, st.items).Ok?
        && EncodeItems(item, st.items).value + st.rest == s by {
      ReadAllEncodes(item, s);
    }
    ItemsEncode(Seq(item), st.items);
  }

  /** `Tuple`, `Seq` and a `TupleN` of the right count write a container
      as its items, one after the other. */
  lemma ItemsEncode(c: Codec, xs: seq<Value>)
    requires c.Tuple? || c.Seq? || (c.TupleN? && c.count == |xs|)
    requires WellTyped(c) && |xs| <= USIZE_MAX && ConformsAll(xs, TypeOf(c.item).value)
    ensures Conforms(List(xs), TypeOf(c).value)
    ensures Encode(c, List(xs)) == EncodeItems(c.item, xs)
  {
  }

  lemma LengthPrefixedReencodes(length: Codec, item: Codec, s: Bytes)
    requires WellTyped(LengthPrefixed(length, item)) && |s| <= USIZE_MAX
    requires Decode(LengthPrefixed(length, item), s).Ok?
    ensures Reencodes(LengthPrefixed(length, item), s)
    decreases LengthPrefixed(length, item), 0, 0
  {
    var dl := Decode(length, s).value;
    var st := ReadN(item, dl.rest, dl.value.i);
    LengthPrefixedSplit(length, item, s, dl, st);
    assert Encode(length, dl.value).Ok? && Encode(length, dl.value).value + dl.rest == s by {
      EncodeOfDecode(length, s);
    }
    assert ConformsAll(st.items, TypeOf(item).value) && EncodeItems(item, st.items).Ok?
        && EncodeItems(item, st.items).value + st.rest == dl.rest by {
      ReadNEncodes(item, dl.rest, dl.value.i);
    }
    assert |st.items| <= USIZE_MAX by {
      assert TypeOf(length) == Some(UsizeT);
    }
    LengthPrefixedEncodesInto(length, item, st.items, s, dl.rest, st.rest);
  }

  /** A length field followed by items, each the encoding of its part, is
      the `LengthPrefixed` encoding of the items. */
  lemma LengthPrefixedEncodesInto(length: Codec, item: Codec, xs: seq<Value>, s: Bytes, mid: Bytes, rest: Bytes)
    requires WellTyped(LengthPrefixed(length, item)) && |xs| <= USIZE_MAX
    requires Encode(length, Int(|xs|)).Ok? && Encode(length, Int(|xs|)).value + mid == s
    requires ConformsAll(xs, TypeOf(item).value) && EncodeItems(item, xs).Ok?
    requires EncodeItems(item, xs).value + rest == mid
    ensures Conforms(List(xs), TypeOf(LengthPrefixed(length, item)).value)
    ensures Encode(LengthPrefixed(length, item), List(xs)).Ok?
    ensures Encode(LengthPrefixed(length, item), List(xs)).value + rest == s
  {
    VecConforms(xs, TypeOf(item).value);
    LengthPrefixedEncodes(length, item, xs);
    Concat3(Encode(length, Int(|xs|)).value, EncodeItems(item, xs).value, rest, mid, s);
  }

  /** Bytes `a`, then `b`, then `c`, where `b + c` is `mid` and `a + mid`
      is `s`, are `s`. */
  lemma Concat3(a: Bytes, b: Bytes, c: Bytes, mid: Bytes, s: Bytes)
    requires b + c == mid && a + mid == s
    ensures a + b + c == s
  {
    assert a + b + c == a + (b + c);
  }

  /** A container whose elements conform to `t` conforms to `Vec<t>`. */
  lemma VecConforms(xs: seq<Value>, t: Ty)
    requires |xs| <= USIZE_MAX && ConformsAll(xs, t)
    ensures Conforms(List(xs), VecT(t))
  {
  }

  /** `LengthPrefixed` writes its length field, then the items. */
  lemma LengthPrefixedEncodes(length: Codec, item: Codec, xs: seq<Value>)
    requires WellTyped(LengthPrefixed(length, item)) && |xs| <= USIZE_MAX
    requires ConformsAll(xs, TypeOf(item).value)
    requires Encode(length, Int(|xs|)).Ok? && EncodeItems(item, xs).Ok?
    ensures Encode(LengthPrefixed(length, item), List(xs))
         == Ok(Encode(length, Int(|xs|)).value + EncodeItems(item, xs).value)
  {
  }

  /** How a successful `LengthPrefixed` decode and its re-encoding split
      into the length field and the items. */
  lemma LengthPrefixedSplit(length: Codec, item: Codec, s: Bytes, dl: Decoded, st: Stream)
    requires WellTyped(LengthPrefixed(length, item)) && Decode(LengthPrefixed(length, item), s).Ok?
    requires Decode(length, s) == Ok(dl) && st == ReadN(item, dl.rest, dl.value.i)
    ensures Decode(LengthPrefixed(length, item), s) == Ok(Decoded(List(st.items), st.rest))
    ensures |st.items| == dl.value.i && dl.value == Int(|st.items|)
  {
  }

  /** The items a `take(n)` stream delivers re-encode to exactly the input
      it consumed. */
  lemma {:induction false} ReadNEncodes(item: Codec, s: Bytes, n: nat)
    requires WellTyped(item) && |s| <= USIZE_MAX
    ensures ConformsAll(ReadN(item, s, n).items, TypeOf(item).value)
    ensures EncodeItems(item, ReadN(item, s, n).items).Ok?
    ensures EncodeItems(item, ReadN(item, s, n).items).value + ReadN(item, s, n).rest == s
    decreases item, 2, n
  {
    if n == 0 || s == [] {
    } else if Decode(item, s).Err? {
    } else {
      var d := Decode(item, s).value;
      var tail := ReadN(item, d.rest, n - 1);
      assert ReadN(item, s, n) == Prepend([d.value], tail) by {
        ReadNCons(item, s, n, d);
      }
      assert Conforms(d.value, TypeOf(item).value) && Encode(item, d.value).Ok?
          && Encode(item, d.value).value + d.rest == s by {
        EncodeOfDecode(item, s);
      }
      ReadNEncodes(item, d.rest, n - 1);
      StreamEncodes(item, s, d, tail);
    }
  }

  lemma {:induction false} ReadAllEncodes(item: Codec, s: Bytes)
    requires WellTyped(item) && |s| <= USIZE_MAX
    ensures ConformsAll(ReadAll(item, s).items, TypeOf(item).value)
    ensures EncodeItems(item, ReadAll(item, s).items).Ok?
    ensures EncodeItems(item, ReadAll(item, s).items).value + ReadAll(item, s).rest == s
    decreases item, 2, |s|
  {
    if s == [] {
    } else if Decode(item, s).Err? {
    } else if |Decode(item, s).value.rest| == |s| {
    } else {
      var d := Decode(item, s).value;
      var tail := ReadAll(item, d.rest);
      ReadAllCons(item, s, d);
      EncodeOfDecode(item, s);
      ReadAllEncodes(item, d.rest);
      StreamEncodes(item, s, d, tail);
    }
  }

  /** One item re-encoded in front of a re-encoded stream. */
  lemma StreamEncodes(item: Codec, s: Bytes, d: Decoded, tail: Stream)
    requires WellTyped(item)
    requires Conforms(d.value, TypeOf(item).value) && Encode(item, d.value).Ok?
    requires Encode(item, d.value).value + d.rest == s
    requires ConformsAll(tail.items, TypeOf(item).value) && EncodeItems(item, tail.items).Ok?
    requires EncodeItems(item, tail.items).value + tail.rest == d.rest
    ensures ConformsAll(Prepend([d.value], tail).items, TypeOf(item).value)
    ensures EncodeItems(item, Prepend([d.value], tail).items).Ok?
    ensures EncodeItems(item, Prepend([d.value], tail).items).value + tail.rest == s
  {
    var xs := [d.value] + tail.items;
    assert xs[0] == d.value && xs[1..] == tail.items;
    var e := Encode(item, d.value).value;
    var et := EncodeItems(item, tail.items).value;
    assert EncodeItems(item, xs).value == e + et;
    assert e + et + tail.rest == e + (et + tail.rest);
  }

  // ------------------------------------------- length and error handling

  /** `Tuple`: after `|xs| < capacity` complete items the input runs out,
      and decoding fails with `invalid_length(|xs|)`. */
  lemma TupleTruncated(cap: nat, item: Codec, xs: seq<Value>)
    requires WellTyped(Tuple(cap, item)) && Delimited(item) && NonEmpty(item) && AllInDomain(item, xs)
    requires |xs| < cap
    ensures EncodeItems(item, xs).Ok?
    ensures Decode(Tuple(cap, item), EncodeItems(item, xs).value) == Err(InvalidLength(|xs|))
  {
    var e := EncodeItems(item, xs).value;
    assert e + [] == e;
    assert ReadN(item, [], cap - |xs|) == Stream([], [], None);
    ReadNPrefix(item, xs, [], cap);
  }

  /** `Tuple` never reports an item's own error: an item that fails after
      `|xs|` good ones ends the stream, and the array comes up short. */
  lemma TupleSwallowsItemError(cap: nat, item: Codec, xs: seq<Value>, s: Bytes)
    requires WellTyped(Tuple(cap, item)) && Delimited(item) && NonEmpty(item) && AllInDomain(item, xs)
    requires |xs| < cap && s != [] && Decode(item, s).Err?
    ensures EncodeItems(item, xs).Ok?
    ensures Decode(Tuple(cap, item), EncodeItems(item, xs).value + s) == Err(InvalidLength(|xs|))
  {
    ReadNFails(item, s, cap - |xs|);
    ReadNPrefix(item, xs, s, cap);
  }

  /** `TupleN` returns the error of an item that fails after `|xs|` good
      ones, unchanged. */
  lemma TupleNPropagatesItemError(n: nat, item: Codec, xs: seq<Value>, s: Bytes)
    requires WellTyped(TupleN(n, item)) && Delimited(item) && NonEmpty(item) && AllInDomain(item, xs)
    requires |xs| < n && s != [] && Decode(item, s).Err?
    ensures EncodeItems(item, xs).Ok?
    ensures Decode(TupleN(n, item), EncodeItems(item, xs).value + s) == Err(Decode(item, s).error)
  {
    var input := EncodeItems(item, xs).value + s;
    assert ReadN(item, input, n).error == Some(Decode(item, s).error) by {
      ReadNFails(item, s, n - |xs|);
      ReadNPrefix(item, xs, s, n);
    }
    TupleNStoredError(n, item, input);
  }

  /** Whatever error the item stream stored is the error `TupleN` returns. */
  lemma TupleNStoredError(n: nat, item: Codec, s: Bytes)
    requires WellTyped(TupleN(n, item)) && ReadN(item, s, n).error.Some?
    ensures Decode(TupleN(n, item), s) == Err(ReadN(item, s, n).error.value)
  {
  }

  /** `TupleN` over input that holds only `|xs| < n` complete items fails
      with `invalid_length(|xs|)`; nothing partial is returned. */
  lemma TupleNTruncated(n: nat, item: Codec, xs: seq<Value>)
    requires WellTyped(TupleN(n, item)) && Delimited(item) && NonEmpty(item) && AllInDomain(item, xs)
    requires |xs| < n
    ensures EncodeItems(item, xs).Ok?
    ensures Decode(TupleN(n, item), EncodeItems(item, xs).value) == Err(InvalidLength(|xs|))
  {
    var e := EncodeItems(item, xs).value;
    assert e + [] == e;
    assert ReadN(item, [], n - |xs|) == Stream([], [], None);
    ReadNPrefix(item, xs, [], n);
  }

  /** `TupleN` takes no more than `n` items: whatever follows them is left
      for the next field. */
  lemma TupleNStopsAtCount(item: Codec, xs: seq<Value>, rest: Bytes)
    requires WellTyped(item) && |xs| <= USIZE_MAX && Delimited(item) && NonEmpty(item) && AllInDomain(item, xs)
    ensures EncodeItems(item, xs).Ok?
    ensures Decode(TupleN(|xs|, item), EncodeItems(item, xs).value + rest) == Ok(Decoded(List(xs), rest))
  {
    ReadNExact(item, xs, rest);
  }

  /** `Seq` never fails: an item that fails after `|xs|` good ones ends the
      sequence, which comes back with those `|xs|` items. */
  lemma SeqSwallowsItemError(item: Codec, xs: seq<Value>, s: Bytes)
    requires WellTyped(item) && Delimited(item) && NonEmpty(item) && AllInDomain(item, xs)
    requires s != [] && Decode(item, s).Err?
    ensures EncodeItems(item, xs).Ok?
    ensures Decode(Seq(item), EncodeItems(item, xs).value + s) == Ok(Decoded(List(xs), s))
  {
    assert xs + [] == xs;
    ReadAllFails(item, s);
    ReadAllPrefix(item, xs, s);
  }

  /** `LengthPrefixed` whose length field claims `n` items while only
      `|xs| < n` follow fails with `invalid_length(|xs|)`. */
  lemma LengthPrefixedTruncated(length: Codec, item: Codec, n: nat, xs: seq<Value>)
    requires WellTyped(LengthPrefixed(length, item)) && Delimited(length)
    requires Delimited(item) && NonEmpty(item) && AllInDomain(item, xs)
    requires InDomain(length, Int(n)) && |xs| < n
    ensures Encode(length, Int(n)).Ok? && EncodeItems(item, xs).Ok?
    ensures Decode(LengthPrefixed(length, item), Encode(length, Int(n)).value + EncodeItems(item, xs).value)
         == Err(InvalidLength(|xs|))
  {
    var body := EncodeItems(item, xs).value;
    assert ReadN(item, body, n) == Stream(xs, [], None) by {
      assert body + [] == body && xs + [] == xs;
      assert ReadN(item, [], n - |xs|) == Stream([], [], None);
      ReadNPrefix(item, xs, [], n);
    }
    assert DecodeTupleN(n, item, body) == Err(InvalidLength(|xs|));
    var prefix := Encode(length, Int(n)).value;
    assert Decode(length, prefix + body) == Ok(Decoded(Int(n), body)) by {
      RoundTrip(length, Int(n), body);
    }
    LengthPrefixedBody(length, item, prefix + body, n, body);
  }

  /** After its length field, `LengthPrefixed` decodes as a `TupleN` of
      the count the field holds. */
  lemma LengthPrefixedBody(length: Codec, item: Codec, s: Bytes, n: nat, mid: Bytes)
    requires WellTyped(LengthPrefixed(length, item))
    requires Decode(length, s) == Ok(Decoded(Int(n), mid))
    ensures Decode(LengthPrefixed(length, item), s) == DecodeTupleN(n, item, mid)
  {
  }

  /** The layout of `LengthPrefixed`: the length field for the container's
      length, then the items with no further framing, exactly as a `Seq`
      writes them. */
  lemma LengthPrefixedLayout(length: Codec, item: Codec, v: Value)
    requires InDomain(LengthPrefixed(length, item), v)
    ensures Encode(LengthPrefixed(length, item), v).Ok?
    ensures Encode(length, Int(|v.items|)).Ok? && Encode(Seq(item), v).Ok?
    ensures Encode(LengthPrefixed(length, item), v).value
         == Encode(length, Int(|v.items|)).value + Encode(Seq(item), v).value
  {
  }

  /** The encode side of `Tuple` does not check the capacity: it writes
      whatever elements the container has, exactly as `Seq` does. */
  lemma TupleEncodeIgnoresCapacity(cap: nat, item: Codec, v: Value)
    requires WellTyped(Tuple(cap, item)) && Conforms(v, TypeOf(Tuple(cap, item)).value)
    ensures Encode(Tuple(cap, item), v) == Encode(Seq(item), v)
  {
  }
}
