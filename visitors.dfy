/** The step-by-step code behind the container combinators: the `visit_seq`
    of `Tuple`, `TupleN` and `Seq` with the `from_fn` closure that stores an
    item error in a local `error` variable, `DeTupleable::from`'s `while`
    loop that fills an `ArrayVec`, and the `for` loop of every `to` that
    writes elements. Each method is proved to compute the value that
    `Combinators` specifies, so the laws proved there hold of it. */
module Visitors {
  import opened Types
  import opened Combinators
  import Laws

  /** `SeqAccess::next_element_seed` over the packed stream: `None` at the
      end of the input, otherwise the item codec's result on what is left. */
  function NextElement(item: Codec, input: Bytes): (r: Result<Option<Decoded>>)
    requires WellTyped(item)
    ensures r == Ok(None) <==> input == []
    ensures r.Ok? && r.value.Some? ==> Decode(item, input) == Ok(r.value.value)
    ensures r.Err? ==> input != [] && Decode(item, input) == Err(r.error)
  {
    if input == [] then Ok(None)
    else
      match Decode(item, input)
      case Err(e) => Err(e)
      case Ok(d) => Ok(Some(d))
  }

  /** `TupleSeed`'s `visit_seq` together with `DeTupleable::from`: pull
      items from the `take(capacity)` stream until the array is full; the
      first `None` fails with `invalid_length` of the items so far. The
      closure's `error` is written and never read, so an item error also
      surfaces as `invalid_length`. */
  method VisitTuple(cap: nat, item: Codec, s: Bytes) returns (r: Result<Decoded>)
    requires WellTyped(Tuple(cap, item))
    ensures r == Decode(Tuple(cap, item), s)
  {
    var error: Option<Error> := None;
    var input := s;
    var vec: seq<Value> := [];
    while |vec| < cap
      invariant |vec| <= cap
      invariant ReadN(item, s, cap) == Prepend(vec, ReadN(item, input, cap - |vec|))
      decreases cap - |vec|
    {
      var next := NextElement(item, input);
      match next {
        case Err(e) =>
          error := Some(e);
          ReadNEnds(item, s, cap, vec, input, e);
          return Err(InvalidLength(|vec|));
        case Ok(None) =>
          ReadNExhausted(item, s, cap, vec, input);
          return Err(InvalidLength(|vec|));
        case Ok(Some(d)) =>
          ReadNAdvance(item, s, cap, vec, input, d);
          vec := vec + [d.value];
          input := d.rest;
      }
    }
    assert ReadN(item, s, cap) == Stream(vec, input, None) by {
      Delivered(vec, input, None);
    }
    return Ok(Decoded(List(vec), input));
  }

  /** `TupleNSeed`'s `visit_seq`: collect the `take(n)` stream, then return
      a stored item error first, and only after it a short count as
      `invalid_length`. */
  method VisitTupleN(n: nat, item: Codec, s: Bytes) returns (r: Result<Decoded>)
    requires WellTyped(item)
    ensures r == DecodeTupleN(n, item, s)
  {
    var vec, input, error := CollectTupleN(n, item, s);
    if error.Some? {
      return Err(error.value);
    }
    if n != |vec| {
      return Err(InvalidLength(|vec|));
    }
    return Ok(Decoded(List(vec), input));
  }

  /** `Vec::from` over `TupleN`'s `take(n)` stream: collect items until the
      first `None`. Returns them, the input after them and what the closure
      stored in `error`. */
  method CollectTupleN(n: nat, item: Codec, s: Bytes) returns (vec: seq<Value>, input: Bytes, error: Option<Error>)
    requires WellTyped(item)
    ensures Stream(vec, input, error) == ReadN(item, s, n)
  {
    error := None;
    input := s;
    vec := [];
    var ended := false;
    while !ended && |vec| < n
      invariant |vec| <= n
      invariant !ended ==> error == None
      invariant !ended ==> ReadN(item, s, n) == Prepend(vec, ReadN(item, input, n - |vec|))
      invariant ended ==> ReadN(item, s, n) == Stream(vec, input, error)
      decreases n - |vec|, if ended then 0 else 1
    {
      var next := NextElement(item, input);
      match next {
        case Err(e) =>
          error := Some(e);
          ReadNEnds(item, s, n, vec, input, e);
          ended := true;
        case Ok(None) =>
          ReadNExhausted(item, s, n, vec, input);
          ended := true;
        case Ok(Some(d)) =>
          ReadNAdvance(item, s, n, vec, input, d);
          vec := vec + [d.value];
          input := d.rest;
      }
    }
    if !ended {
      Delivered(vec, input, error);
    }
  }

  /** `SeqSeed`'s `visit_seq`: the collected items, whatever stopped the
      stream. The closure's `error` is written and never read, so an item
      error just ends the sequence. */
  method VisitSeq(item: Codec, s: Bytes) returns (r: Result<Decoded>)
    requires WellTyped(item)
    ensures r == Decode(Seq(item), s)
  {
    var vec, input, error := CollectSeq(item, s);
    return Ok(Decoded(List(vec), input));
  }

  /** `Vec::from` over `Seq`'s unbounded stream: collect items until the
      first `None`. An item that consumes no input also ends it here (the
      source would collect it forever). */
  method CollectSeq(item: Codec, s: Bytes) returns (vec: seq<Value>, input: Bytes, error: Option<Error>)
    requires WellTyped(item)
    ensures Stream(vec, input, error) == ReadAll(item, s)
  {
    error := None;
    input := s;
    vec := [];
    var ended := false;
    while !ended
      invariant !ended ==> error == None
      invariant !ended ==> ReadAll(item, s) == Prepend(vec, ReadAll(item, input))
      invariant ended ==> ReadAll(item, s) == Stream(vec, input, error)
      decreases if ended then 0 else |input| + 1
    {
      var next := NextElement(item, input);
      match next {
        case Err(e) =>
          error := Some(e);
          assert ReadAll(item, s) == Stream(vec, input, error) by {
            Laws.ReadAllFails(item, input);
            Delivered(vec, input, error);
          }
          ended := true;
        case Ok(None) =>
          assert ReadAll(item, s) == Stream(vec, input, error) by {
            Delivered(vec, input, error);
          }
          ended := true;
        case Ok(Some(d)) =>
          if |d.rest| == |input| {
            assert ReadAll(item, s) == Stream(vec, input, error) by {
              Delivered(vec, input, error);
            }
            ended := true;
          } else {
            ReadAllAdvance(item, s, vec, input, d);
            vec := vec + [d.value];
            input := d.rest;
          }
      }
    }
  }

  /** A stream that delivers nothing more, after `vec`. */
  lemma Delivered(vec: seq<Value>, input: Bytes, error: Option<Error>)
    ensures Prepend(vec, Stream([], input, error)) == Stream(vec, input, error)
  {
    assert vec + [] == vec;
  }

  /** An item that fails ends a `take(n)` stream after `vec`, storing its
      error. */
  lemma ReadNEnds(item: Codec, s: Bytes, n: nat, vec: seq<Value>, input: Bytes, e: Error)
    requires WellTyped(item) && |vec| < n && input != [] && Decode(item, input) == Err(e)
    requires ReadN(item, s, n) == Prepend(vec, ReadN(item, input, n - |vec|))
    ensures ReadN(item, s, n) == Stream(vec, input, Some(e))
  {
    Laws.ReadNFails(item, input, n - |vec|);
    Delivered(vec, input, Some(e));
  }

  /** The end of the input ends a `take(n)` stream after `vec`. */
  lemma ReadNExhausted(item: Codec, s: Bytes, n: nat, vec: seq<Value>, input: Bytes)
    requires WellTyped(item) && |vec| <= n && input == []
    requires ReadN(item, s, n) == Prepend(vec, ReadN(item, input, n - |vec|))
    ensures ReadN(item, s, n) == Stream(vec, input, None)
  {
    Delivered(vec, input, None);
  }

  /** One more item delivered by a `take(n)` stream. */
  lemma ReadNAdvance(item: Codec, s: Bytes, n: nat, vec: seq<Value>, input: Bytes, d: Decoded)
    requires WellTyped(item) && |vec| < n && input != [] && Decode(item, input) == Ok(d)
    requires ReadN(item, s, n) == Prepend(vec, ReadN(item, input, n - |vec|))
    ensures ReadN(item, s, n) == Prepend(vec + [d.value], ReadN(item, d.rest, n - |vec + [d.value]|))
  {
    var left := n - |vec|;
    assert n - |vec + [d.value]| == left - 1;
    Laws.ReadNCons(item, input, left, d);
    Laws.PrependPrepend(vec, [d.value], ReadN(item, d.rest, left - 1));
  }

  /** One more item delivered by `Seq`'s stream. */
  lemma ReadAllAdvance(item: Codec, s: Bytes, vec: seq<Value>, input: Bytes, d: Decoded)
    requires WellTyped(item) && input != [] && Decode(item, input) == Ok(d) && |d.rest| < |input|
    requires ReadAll(item, s) == Prepend(vec, ReadAll(item, input))
    ensures ReadAll(item, s) == Prepend(vec + [d.value], ReadAll(item, d.rest))
  {
    Laws.ReadAllCons(item, input, d);
    Laws.PrependPrepend(vec, [d.value], ReadAll(item, d.rest));
  }

  /** The bytes written so far followed by the result of writing the rest. */
  function Then(out: Bytes, r: Result<Bytes>): Result<Bytes>
  {
    match r
    case Err(e) => Err(e)
    case Ok(tail) => Ok(out + tail)
  }

  /** The `to` of every container: `serialize_element` for each element in
      order, returning the first error. */
  method WriteElements(item: Codec, xs: seq<Value>) returns (r: Result<Bytes>)
    requires WellTyped(item) && ConformsAll(xs, TypeOf(item).value)
    ensures r == EncodeItems(item, xs)
  {
    var out: Bytes := [];
    assert xs[0..] == xs;
    ThenEmpty(EncodeItems(item, xs));
    for k := 0 to |xs|
      invariant ConformsAll(xs[k..], TypeOf(item).value)
      invariant EncodeItems(item, xs) == Then(out, EncodeItems(item, xs[k..]))
    {
      assert xs[k..][0] == xs[k] && xs[k..][1..] == xs[k + 1..];
      var element := Encode(item, xs[k]);
      match element {
        case Err(e) =>
          return Err(e);
        case Ok(bytes) =>
          ThenThen(out, bytes, EncodeItems(item, xs[k + 1..]));
          out := out + bytes;
      }
    }
    assert xs[|xs|..] == [];
    assert out + [] == out;
    return Ok(out);
  }

  lemma ThenEmpty(r: Result<Bytes>)
    ensures Then([], r) == r
  {
    if r.Ok? {
      assert [] + r.value == r.value;
    }
  }

  lemma ThenThen(out: Bytes, head: Bytes, r: Result<Bytes>)
    ensures Then(out, Then(head, r)) == Then(out + head, r)
  {
    if r.Ok? {
      assert out + (head + r.value) == (out + head) + r.value;
    }
  }
}
