/** `Literal`: a fixed byte string that is written unconditionally and
    checked byte by byte when read (src/lib.rs:16-72). */
module Literals {
  import opened Types

  /** Decoding after the first `i` bytes of the literal have matched. */
  function DecodeFrom(lit: Bytes, s: Bytes, i: nat): (r: Result<Decoded>)
    requires i <= |lit| && i <= |s|
    ensures r.Ok? ==> r.value.value == Unit && |lit| <= |s| && r.value.rest == s[|lit|..]
    decreases |lit| - i
  {
    if i == |lit| then Ok(Decoded(Unit, s[i..]))
    else if i == |s| then Err(InvalidLength(i))
    else if s[i] != lit[i] then Err(InvalidValue(s[i], lit[i]))
    else DecodeFrom(lit, s, i + 1)
  }

  /** `Literal::deserialize`: `()` after the literal's bytes, or the error
      at the first index where the input runs out or differs. */
  function Decode(lit: Bytes, s: Bytes): (r: Result<Decoded>)
    ensures r.Ok? ==> r.value.value == Unit && |lit| <= |s| && r.value.rest == s[|lit|..]
  {
    DecodeFrom(lit, s, 0)
  }

  /** `visit_seq`: the `for` loop over the literal with its early returns. */
  method VisitSeq(lit: Bytes, s: Bytes) returns (r: Result<Decoded>)
    ensures r == Decode(lit, s)
  {
    for i := 0 to |lit|
      invariant i <= |s|
      invariant DecodeFrom(lit, s, i) == Decode(lit, s)
    {
      if i == |s| {
        return Err(InvalidLength(i));
      }
      var received := s[i];
      if lit[i] != received {
        return Err(InvalidValue(received, lit[i]));
      }
    }
    return Ok(Decoded(Unit, s[|lit|..]));
  }

  lemma {:induction false} DecodeFromMatches(lit: Bytes, s: Bytes, i: nat)
    requires i <= |lit| && i <= |s| && s[..i] == lit[..i]
    ensures DecodeFrom(lit, s, i).Ok? <==> |lit| <= |s| && s[..|lit|] == lit
    ensures DecodeFrom(lit, s, i).Ok? ==> DecodeFrom(lit, s, i).value.rest == s[|lit|..]
    decreases |lit| - i
  {
    if i == |lit| {
      assert s[..|lit|] == lit[..i] == lit;
    } else if i == |s| {
    } else if s[i] != lit[i] {
    } else {
      assert s[..i + 1] == s[..i] + [s[i]];
      assert lit[..i + 1] == lit[..i] + [lit[i]];
      DecodeFromMatches(lit, s, i + 1);
    }
  }

  /** Decoding succeeds exactly when the input starts with the literal, and
      then leaves everything after it. */
  lemma DecodeOk(lit: Bytes, s: Bytes)
    ensures Decode(lit, s).Ok? <==> |lit| <= |s| && s[..|lit|] == lit
    ensures Decode(lit, s).Ok? ==> Decode(lit, s).value == Decoded(Unit, s[|lit|..])
  {
    DecodeFromMatches(lit, s, 0);
  }

  lemma {:induction false} DecodeFromMismatch(lit: Bytes, s: Bytes, i: nat, k: nat)
    requires i <= k < |lit| && k < |s|
    requires s[..k] == lit[..k] && s[k] != lit[k]
    ensures DecodeFrom(lit, s, i) == Err(InvalidValue(s[k], lit[k]))
    decreases k - i
  {
    if i < k {
      assert s[..k][i] == s[i] && lit[..k][i] == lit[i];
      DecodeFromMismatch(lit, s, i + 1, k);
    }
  }

  /** At the first index `k` where the input differs from the literal,
      decoding fails with the byte received there (and the one expected). */
  lemma DecodeMismatch(lit: Bytes, s: Bytes, k: nat)
    requires k < |lit| && k < |s|
    requires s[..k] == lit[..k] && s[k] != lit[k]
    ensures Decode(lit, s) == Err(InvalidValue(s[k], lit[k]))
  {
    DecodeFromMismatch(lit, s, 0, k);
  }

  lemma {:induction false} DecodeFromShort(lit: Bytes, s: Bytes, i: nat)
    requires i <= |s| < |lit| && s == lit[..|s|]
    ensures DecodeFrom(lit, s, i) == Err(InvalidLength(|s|))
    decreases |s| - i
  {
    if i < |s| {
      assert lit[..|s|][i] == lit[i];
      DecodeFromShort(lit, s, i + 1);
    }
  }

  /** Input that is a proper prefix of the literal fails with
      `invalid_length` at the index where it ran out. */
  lemma DecodeShort(lit: Bytes, s: Bytes)
    requires |s| < |lit| && s == lit[..|s|]
    ensures Decode(lit, s) == Err(InvalidLength(|s|))
  {
    DecodeFromShort(lit, s, 0);
  }

  /** Decoding the literal's own encoding (`Literal::serialize` writes
      exactly its bytes), followed by anything, succeeds and consumes exactly
      the literal. */
  lemma RoundTrip(lit: Bytes, rest: Bytes)
    ensures Decode(lit, lit + rest) == Ok(Decoded(Unit, rest))
  {
    var s := lit + rest;
    assert s[..|lit|] == lit;
    assert s[|lit|..] == rest;
    DecodeOk(lit, s);
  }
}
