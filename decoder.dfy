/** The decoder: `decode_term`, `decode_iterable` and `decode`. Every step
    returns the decoded value with the bytes it left unread, and the next
    step starts from those. The functions say what each call returns; the
    methods follow the source's loops and are proved to return the same. */
module Decoder {
  import opened Wire
  import opened Terms

  /** Python's `t[:1] == b'j'`. */
  predicate StartsWithNil(t: seq<byte>) { |t| > 0 && t[0] == NIL }

  /** Python's `body.split(b"\x00")[0]`: the bytes before the first NUL. */
  function BeforeNul(s: seq<byte>): (r: seq<byte>)
    ensures |r| <= |s| && r == s[..|r|]
    ensures forall k :: 0 <= k < |r| ==> r[k] != 0
    ensures |r| < |s| ==> s[|r|] == 0
  {
    if s == [] || s[0] == 0 then [] else [s[0]] + BeforeNul(s[1..])
  }

  // ---- the branches of decode_term that do not recurse; `s` starts with the tag

  function DecodedSmallInt(s: seq<byte>): (r: Result<(Value, seq<byte>)>)
    requires |s| >= 1
    ensures r.Ok? ==> IsSuffix(r.value.1, s)
  {
    if |s| < 2 then Err(IncompleteSmallInt) else Ok((Int(s[1]), s[2..]))
  }

  function DecodedInt(s: seq<byte>): (r: Result<(Value, seq<byte>)>)
    requires |s| >= 1
    ensures r.Ok? ==> IsSuffix(r.value.1, s)
  {
    if |s| < 5 then Err(IncompleteInt(|s| - 1)) else Ok((Int(UnpackSigned4(s[1..5])), s[5..]))
  }

  /** The header of a bignum: the declared magnitude length, the sign byte,
      and the bytes the magnitude is read from. For LARGE_BIG_EXT the source
      takes these from offset 4, which is the last byte of the length field,
      and not from offset 6, after the sign byte. */
  function BignumHeader(s: seq<byte>): Result<(nat, byte, seq<byte>)>
    requires |s| >= 1
  {
    if s[0] == SMALL_BIGNUM then
      if |s| < 3 then Err(TruncatedHeader) else Ok((s[1] as nat, s[2], s[3..]))
    else
      if |s| < 6 then Err(TruncatedHeader) else Ok((Unpack4(s[1..5]), s[5], s[4..]))
  }

  /** The value of a bignum: the first `length` bytes of `tail` (all of it
      when it is shorter) as a little-endian magnitude, negated when the sign
      byte is not zero; the rest of `tail` is left unread. */
  function BignumValue(length: nat, sign: byte, tail: seq<byte>): (r: (Value, seq<byte>)) {
    var m: int := FromLittleEndian(Slice(tail, 0, length));
    var n := if length != 0 && sign != 0 then -m else m;
    (Int(n), Drop(tail, length))
  }

  function DecodedBignum(s: seq<byte>): (r: Result<(Value, seq<byte>)>)
    requires |s| >= 1
    ensures r.Ok? ==> IsSuffix(r.value.1, s)
  {
    match BignumHeader(s)
    case Err(e) => Err(e)
    case Ok((length, sign, tail)) => Ok(BignumValue(length, sign, tail))
  }

  function DecodedFloat(s: seq<byte>, ff: FloatCodec): (r: Result<(Value, seq<byte>)>)
    requires |s| >= 1
    ensures r.Ok? ==> IsSuffix(r.value.1, s)
  {
    if |s| < 32 then Err(IncompleteFloat(|s| - 1))
    else
      match ff.parse(BeforeNul(s[1..32]))
      case None => Err(InvalidFloatText)
      case Some(bits) => Ok((Float(bits), s[32..]))
  }

  function DecodedNewFloat(s: seq<byte>): (r: Result<(Value, seq<byte>)>)
    requires |s| >= 1
    ensures r.Ok? ==> IsSuffix(r.value.1, s)
  {
    if |s| < 9 then Err(IncompleteNewFloat(|s| - 1)) else Ok((Float(s[1..9]), s[9..]))
  }

  /** STRING_EXT. The source returns the bytes from offset `length` on as the
      rest, not those after the body at offset `3 + length`. Its check that
      `length` is at most 65535 cannot fail on a 2-byte field and is left out. */
  function DecodedString(s: seq<byte>): (r: Result<(Value, seq<byte>)>)
    requires |s| >= 1
    ensures r.Ok? ==> IsSuffix(r.value.1, s)
  {
    if |s| < 3 then Err(TruncatedHeader)
    else
      var length := Unpack2(s[1..3]);
      var body := Slice(s, 3, length + 3);
      if length > |body| then Err(IncompleteString(length, |body|))
      else Ok((Text(body), s[length..]))
  }

  function DecodedBinary(s: seq<byte>): (r: Result<(Value, seq<byte>)>)
    requires |s| >= 1
    ensures r.Ok? ==> IsSuffix(r.value.1, s)
  {
    if |s| < 5 then Err(TruncatedHeader)
    else
      var length := Unpack4(s[1..5]) + 5;
      var body := Slice(s, 5, length);
      if length > MAX_U32 then Err(InvalidBinaryLength(length))
      else if length > |body| + 5 then Err(IncompleteBinary(length, |body|))
      else Ok((Text(body), s[length..]))
  }

  function DecodedAtom(s: seq<byte>): (r: Result<(Value, seq<byte>)>)
    requires |s| >= 1
    ensures r.Ok? ==> IsSuffix(r.value.1, s)
  {
    if |s| < 3 then Err(TruncatedHeader)
    else
      var atomLength := Unpack2(s[1..3]) + 3;
      var name := Slice(s, 3, atomLength);
      if atomLength > |name| + 3 then Err(IncompleteAtom(atomLength, |name|))
      else Ok((Text([COLON] + name), s[atomLength..]))
  }

  // ---- the recursive part

  /** What `decode_term` returns for `s`: the first term and the bytes after
      it, which are always a suffix of `s`. The checks that a 1-byte or 4-byte
      arity is at most 255 or 2^32-1 cannot fail and are left out. */
  function Decoded(s: seq<byte>, ff: FloatCodec): (r: Result<(Value, seq<byte>)>)
    ensures r.Ok? ==> IsSuffix(r.value.1, s)
    decreases |s|, 0
  {
    if |s| == 0 then Err(InvalidTermType)
    else
      var tag := s[0];
      if tag == SMALL_INT then DecodedSmallInt(s)
      else if tag == INT then DecodedInt(s)
      else if tag == SMALL_BIGNUM || tag == LARGE_BIGNUM then DecodedBignum(s)
      else if tag == FLOAT then DecodedFloat(s, ff)
      else if tag == NEW_FLOAT then DecodedNewFloat(s)
      else if tag == STRING then DecodedString(s)
      else if tag == BINARY then DecodedBinary(s)
      else if tag == SMALL_TUPLE then
        if |s| < 2 then Err(TruncatedHeader)
        else
          match DecodedIterable(s[1], s[2..], ff)
          case Err(e) => Err(e)
          case Ok((vs, t)) =>
            SuffixTransitive(t, s[2..], s);
            Ok((Tuple(vs), t))
      else if tag == LARGE_TUPLE || tag == LIST then
        if |s| < 5 then Err(TruncatedHeader)
        else
          match DecodedIterable(Unpack4(s[1..5]), s[5..], ff)
          case Err(e) => Err(e)
          case Ok((vs, t)) =>
            SuffixTransitive(t, s[5..], s);
            Ok((if tag == LIST then List(vs) else Tuple(vs), t))
      else if tag == ATOM then DecodedAtom(s)
      else if tag == NIL then Ok((List([]), s[1..]))
      else Err(InvalidTermType)
  }

  /** The first `n` terms of `src`, each decoded from where the one before it
      stopped, and the bytes after the last; or the error of the first term
      that cannot be decoded. */
  function DecodedElements(n: nat, src: seq<byte>, ff: FloatCodec): (r: Result<(seq<Value>, seq<byte>)>)
    ensures r.Ok? ==> |r.value.0| == n && IsSuffix(r.value.1, src)
    decreases |src|, 1, n
  {
    if n == 0 then Ok(([], src))
    else
      match DecodedElements(n - 1, src, ff)
      case Err(e) => Err(e)
      case Ok((vs, t)) =>
        match Decoded(t, ff)
        case Err(e) => Err(e)
        case Ok((v, rest)) =>
          SuffixTransitive(rest, t, src);
          Ok((vs + [v], rest))
  }

  /** What `decode_iterable` returns: the `n` elements, and then one NIL byte
      skipped if the rest starts with one, whatever the container. */
  function DecodedIterable(n: nat, src: seq<byte>, ff: FloatCodec): (r: Result<(seq<Value>, seq<byte>)>)
    ensures r.Ok? ==> |r.value.0| == n && IsSuffix(r.value.1, src)
    decreases |src|, 2
  {
    match DecodedElements(n, src, ff)
    case Err(e) => Err(e)
    case Ok((vs, t)) =>
      if StartsWithNil(t) then
        SuffixTransitive(t[1..], t, src);
        Ok((vs, t[1..]))
      else Ok((vs, t))
  }

  /** `decode_term` picks its branch by the first byte alone. */
  lemma DecodedByTag(s: seq<byte>, ff: FloatCodec)
    requires |s| > 0
    ensures s[0] == SMALL_INT ==> Decoded(s, ff) == DecodedSmallInt(s)
    ensures s[0] == INT ==> Decoded(s, ff) == DecodedInt(s)
    ensures s[0] == SMALL_BIGNUM || s[0] == LARGE_BIGNUM ==> Decoded(s, ff) == DecodedBignum(s)
    ensures s[0] == FLOAT ==> Decoded(s, ff) == DecodedFloat(s, ff)
    ensures s[0] == NEW_FLOAT ==> Decoded(s, ff) == DecodedNewFloat(s)
    ensures s[0] == STRING ==> Decoded(s, ff) == DecodedString(s)
    ensures s[0] == BINARY ==> Decoded(s, ff) == DecodedBinary(s)
    ensures s[0] == ATOM ==> Decoded(s, ff) == DecodedAtom(s)
    ensures s[0] == NIL ==> Decoded(s, ff) == Ok((List([]), s[1..]))
  {
  }

  /** Decoding one more element, from where the others stopped. */
  lemma DecodedElementsSnoc(n: nat, src: seq<byte>, vs: seq<Value>, t: seq<byte>,
                            v: Value, rest: seq<byte>, ff: FloatCodec)
    requires DecodedElements(n, src, ff) == Ok((vs, t))
    requires Decoded(t, ff) == Ok((v, rest))
    ensures DecodedElements(n + 1, src, ff) == Ok((vs + [v], rest))
  {
  }

  /** After the elements, `decode_iterable` skips one NIL byte if there is
      one, and takes nothing else. */
  lemma IterableAfterElements(n: nat, src: seq<byte>, vs: seq<Value>, t: seq<byte>, ff: FloatCodec)
    requires DecodedElements(n, src, ff) == Ok((vs, t))
    ensures StartsWithNil(t) ==> DecodedIterable(n, src, ff) == Ok((vs, t[1..]))
    ensures !StartsWithNil(t) ==> DecodedIterable(n, src, ff) == Ok((vs, t))
  {
  }

  /** SMALL_TUPLE_EXT: the 1-byte arity, then the elements, as a tuple. */
  lemma SmallTupleDecoding(s: seq<byte>, vs: seq<Value>, t: seq<byte>, ff: FloatCodec)
    requires |s| >= 2 && s[0] == SMALL_TUPLE
    requires DecodedIterable(s[1], s[2..], ff) == Ok((vs, t))
    ensures Decoded(s, ff) == Ok((Tuple(vs), t))
  {
  }

  /** LARGE_TUPLE_EXT: the 4-byte arity, then the elements, as a tuple. */
  lemma LargeTupleDecoding(s: seq<byte>, src: seq<byte>, vs: seq<Value>, t: seq<byte>, ff: FloatCodec)
    requires |s| >= 5 && s[0] == LARGE_TUPLE && s[5..] == src
    requires DecodedIterable(Unpack4(s[1..5]), src, ff) == Ok((vs, t))
    ensures Decoded(s, ff) == Ok((Tuple(vs), t))
  {
  }

  /** LIST_EXT: the count, then the elements, as a list. */
  lemma ListDecoding(s: seq<byte>, src: seq<byte>, vs: seq<Value>, t: seq<byte>, ff: FloatCodec)
    requires |s| >= 5 && s[0] == LIST && s[5..] == src
    requires DecodedIterable(Unpack4(s[1..5]), src, ff) == Ok((vs, t))
    ensures Decoded(s, ff) == Ok((List(vs), t))
  {
  }

  /** No byte at all, or a tag the decoder does not know, is an invalid term
      type; COMPRESSED is among the unknown ones. */
  lemma UnknownTagRejected(s: seq<byte>, ff: FloatCodec)
    requires |s| == 0 || !KnownTag(s[0])
    ensures Decoded(s, ff) == Err(InvalidTermType)
  {
  }

  /** SMALL_INTEGER_EXT needs its one byte. */
  lemma SmallIntDecoding(s: seq<byte>, ff: FloatCodec)
    requires |s| >= 1 && s[0] == SMALL_INT
    ensures Decoded(s, ff).Ok? <==> |s| >= 2
    ensures Decoded(s, ff).Ok? ==> Decoded(s, ff).value == (Int(s[1]), s[2..])
    ensures Decoded(s, ff).Err? ==> Decoded(s, ff).error == IncompleteSmallInt
  {
    DecodedByTag(s, ff);
  }

  /** INTEGER_EXT needs its four bytes and reads them as a signed 32-bit number. */
  lemma IntDecoding(s: seq<byte>, ff: FloatCodec)
    requires |s| >= 1 && s[0] == INT
    ensures Decoded(s, ff).Ok? <==> |s| >= 5
    ensures Decoded(s, ff).Ok? ==>
              && Decoded(s, ff).value.0 == Int(UnpackSigned4(s[1..5]))
              && -0x8000_0000 <= Decoded(s, ff).value.0.i < 0x8000_0000
              && Decoded(s, ff).value.1 == s[5..]
    ensures Decoded(s, ff).Err? ==> Decoded(s, ff).error == IncompleteInt(|s| - 1)
  {
    DecodedByTag(s, ff);
  }

  /** FLOAT_EXT needs its 31 bytes; the text before the first NUL is parsed. */
  lemma FloatDecoding(s: seq<byte>, ff: FloatCodec)
    requires |s| >= 1 && s[0] == FLOAT
    ensures |s| < 32 ==> Decoded(s, ff) == Err(IncompleteFloat(|s| - 1))
    ensures |s| >= 32 ==>
              && (Decoded(s, ff).Ok? <==> ff.parse(BeforeNul(s[1..32])).Some?)
              && (Decoded(s, ff).Ok? ==>
                    Decoded(s, ff).value == (Float(ff.parse(BeforeNul(s[1..32])).value), s[32..]))
  {
    DecodedByTag(s, ff);
  }

  /** NEW_FLOAT_EXT needs its eight IEEE bytes. */
  lemma NewFloatDecoding(s: seq<byte>, ff: FloatCodec)
    requires |s| >= 1 && s[0] == NEW_FLOAT
    ensures Decoded(s, ff).Ok? <==> |s| >= 9
    ensures Decoded(s, ff).Ok? ==> Decoded(s, ff).value == (Float(s[1..9]), s[9..])
    ensures Decoded(s, ff).Err? ==> Decoded(s, ff).error == IncompleteNewFloat(|s| - 1)
  {
    DecodedByTag(s, ff);
  }

  /** ATOM_EXT succeeds exactly when all the declared name bytes are there,
      and gives an atom: the name with the colon in front. */
  lemma AtomDecoding(s: seq<byte>, ff: FloatCodec)
    requires |s| >= 3 && s[0] == ATOM
    ensures var length := Unpack2(s[1..3]);
            && (Decoded(s, ff).Ok? <==> |s| >= length + 3)
            && (Decoded(s, ff).Ok? ==>
                  && Decoded(s, ff).value == (Text([COLON] + s[3..length + 3]), s[length + 3..])
                  && IsAtom(Decoded(s, ff).value.0))
            && (Decoded(s, ff).Err? ==> Decoded(s, ff).error == IncompleteAtom(length + 3, |s| - 3))
  {
    DecodedByTag(s, ff);
    var length := Unpack2(s[1..3]);
    if |s| >= length + 3 {
      assert Slice(s, 3, length + 3) == s[3..length + 3];
    }
  }

  /** BINARY_EXT succeeds exactly when the declared length plus the five
      header bytes passes the 32-bit check and all the body bytes are there. */
  lemma BinaryDecoding(s: seq<byte>, ff: FloatCodec)
    requires |s| >= 5 && s[0] == BINARY
    ensures var length := Unpack4(s[1..5]);
            && (Decoded(s, ff).Ok? <==> length + 5 <= MAX_U32 && |s| >= length + 5)
            && (Decoded(s, ff).Ok? ==> Decoded(s, ff).value == (Text(s[5..length + 5]), s[length + 5..]))
            && (length + 5 > MAX_U32 ==> Decoded(s, ff) == Err(InvalidBinaryLength(length + 5)))
            && (length + 5 <= MAX_U32 && |s| < length + 5 ==>
                  Decoded(s, ff) == Err(IncompleteBinary(length + 5, |s| - 5)))
  {
    DecodedByTag(s, ff);
    var length := Unpack4(s[1..5]);
    if |s| >= length + 5 {
      assert Slice(s, 5, length + 5) == s[5..length + 5];
    }
  }

  /** A bignum decodes whenever its header is there, however few magnitude
      bytes follow, and its magnitude is below 256 to the declared length. */
  lemma BignumDecoding(s: seq<byte>, ff: FloatCodec)
    requires |s| >= 1 && (s[0] == SMALL_BIGNUM || s[0] == LARGE_BIGNUM)
    ensures var head := if s[0] == SMALL_BIGNUM then 3 else 6;
            (Decoded(s, ff).Ok? <==> |s| >= head)
    ensures Decoded(s, ff).Ok? ==>
              var length := if s[0] == SMALL_BIGNUM then s[1] as nat else Unpack4(s[1..5]);
              Decoded(s, ff).value.0.Int? && Abs(Decoded(s, ff).value.0.i) < Pow256(length)
  {
    DecodedByTag(s, ff);
    var header := BignumHeader(s);
    if header.Ok? {
      var (length, sign, tail) := header.value;
      var bytes := Slice(tail, 0, length);
      assert |bytes| <= length;
      PowMonotone(|bytes|, length);
    }
  }

  /** When the bytes run out before the `n`-th element, the missing element
      is an invalid term type. */
  lemma MissingElement(k: nat, n: nat, src: seq<byte>, vs: seq<Value>, ff: FloatCodec)
    requires k < n && DecodedElements(k, src, ff) == Ok((vs, []))
    ensures DecodedIterable(n, src, ff) == Err(InvalidTermType)
  {
    assert Decoded([], ff) == Err(InvalidTermType);
    assert DecodedElements(k + 1, src, ff) == Err(InvalidTermType);
    ElementsFirstError(k + 1, n, src, ff);
  }

  /** `decode`: check the version byte, decode one term, drop the rest. */
  function Decode(s: seq<byte>, ff: FloatCodec): (r: Result<Value>)
    ensures (|s| == 0 || s[0] != MAGIC) ==> r == Err(InvalidVersion)
    ensures |s| > 0 && s[0] == MAGIC ==>
              && (r.Ok? <==> Decoded(s[1..], ff).Ok?)
              && (r.Ok? ==> r.value == Decoded(s[1..], ff).value.0)
              && (r.Err? ==> r.error == Decoded(s[1..], ff).error)
  {
    if |s| == 0 || s[0] != MAGIC then Err(InvalidVersion)
    else
      match Decoded(s[1..], ff)
      case Err(e) => Err(e)
      case Ok((v, _)) => Ok(v)
  }

  // ---- the source's loops

  /** The fold `for i in tail[length-1::-1]: n = (n << 8) | i`: the bytes are
      taken from the last of the first `length` down to the first, and
      `(n << 8) | i` is `n * 256 + i` for a byte `i`. */
  method FoldMagnitude(tail: seq<byte>, length: nat) returns (n: nat)
    ensures n == FromLittleEndian(Slice(tail, 0, length))
  {
    var top := Min(length, |tail|);
    ghost var bytes := tail[..top];
    assert bytes == Slice(tail, 0, length);
    n := 0;
    var k := top;
    while k > 0
      invariant 0 <= k <= top
      invariant n == FromLittleEndian(bytes[k..])
    {
      k := k - 1;
      assert bytes[k..][1..] == bytes[k + 1..];
      n := n * 256 + tail[k];
    }
  }

  /** The bignum branch of `decode_term`, with the fold loop. */
  method DecodeBignum(s: seq<byte>) returns (r: Result<(Value, seq<byte>)>)
    requires |s| >= 1
    ensures r == DecodedBignum(s)
  {
    var header := BignumHeader(s);
    if header.Err? {
      return Err(header.error);
    }
    var (length, sign, tail) := header.value;
    var n: int := 0;
    if length != 0 {
      n := FoldMagnitude(tail, length);
      if sign != 0 {
        n := -n;
      }
    }
    r := Ok((Int(n), Drop(tail, length)));
  }

  /** `decode_term`: dispatch on the tag byte. */
  method DecodeTerm(s: seq<byte>, ff: FloatCodec) returns (r: Result<(Value, seq<byte>)>)
    ensures r == Decoded(s, ff)
    decreases |s|, 0
  {
    if |s| == 0 {
      return Err(InvalidTermType);
    }
    var tag := s[0];
    if tag == SMALL_INT {
      r := DecodedSmallInt(s);
    } else if tag == INT {
      r := DecodedInt(s);
    } else if tag == SMALL_BIGNUM || tag == LARGE_BIGNUM {
      r := DecodeBignum(s);
    } else if tag == FLOAT {
      r := DecodedFloat(s, ff);
    } else if tag == NEW_FLOAT {
      r := DecodedNewFloat(s);
    } else if tag == STRING {
      r := DecodedString(s);
    } else if tag == BINARY {
      r := DecodedBinary(s);
    } else if tag == SMALL_TUPLE {
      if |s| < 2 {
        return Err(TruncatedHeader);
      }
      var objects := DecodeIterable(s[1], s[2..], ff);
      if objects.Err? {
        return Err(objects.error);
      }
      r := Ok((Tuple(objects.value.0), objects.value.1));
    } else if tag == LARGE_TUPLE || tag == LIST {
      if |s| < 5 {
        return Err(TruncatedHeader);
      }
      var objects := DecodeIterable(Unpack4(s[1..5]), s[5..], ff);
      if objects.Err? {
        return Err(objects.error);
      }
      var (vs, t) := objects.value;
      r := Ok((if tag == LIST then List(vs) else Tuple(vs), t));
    } else if tag == ATOM {
      r := DecodedAtom(s);
    } else if tag == NIL {
      r := Ok((List([]), s[1..]));
    } else {
      r := Err(InvalidTermType);
    }
  }

  /** `decode_iterable`: an array of `length` slots filled by index, the
      source slice advanced after each element, then one NIL byte skipped if
      one follows. */
  method DecodeIterable(length: nat, src: seq<byte>, ff: FloatCodec) returns (r: Result<(seq<Value>, seq<byte>)>)
    ensures r == DecodedIterable(length, src, ff)
    decreases |src|, 2
  {
    var objects := new Value[length](_ => Int(0));
    var source := src;
    var i := 0;
    while i < length
      invariant 0 <= i <= length
      invariant DecodedElements(i, src, ff) == Ok((objects[..i], source))
    {
      var term := DecodeTerm(source, ff);
      ElementStep(i, length, src, objects[..i], source, ff);
      if term.Err? {
        return Err(term.error);
      }
      var (v, rest) := term.value;
      ghost var front := objects[..i];
      objects[i] := v;
      assert objects[..i + 1] == front + [v];
      source := rest;
      i := i + 1;
    }
    assert objects[..] == objects[..length];
    IterableAfterElements(length, src, objects[..], source, ff);
    r := Ok((objects[..], if StartsWithNil(source) then source[1..] else source));
  }

  /** One turn of the element loop: an element that decodes from where the
      others stopped is added to them, and one that does not ends
      `decode_iterable` with its error. */
  lemma ElementStep(i: nat, n: nat, src: seq<byte>, vs: seq<Value>, t: seq<byte>, ff: FloatCodec)
    requires i < n && DecodedElements(i, src, ff) == Ok((vs, t))
    ensures Decoded(t, ff).Ok? ==>
              DecodedElements(i + 1, src, ff) == Ok((vs + [Decoded(t, ff).value.0], Decoded(t, ff).value.1))
    ensures Decoded(t, ff).Err? ==> DecodedIterable(n, src, ff) == Err(Decoded(t, ff).error)
  {
    if Decoded(t, ff).Err? {
      ElementsFirstError(i + 1, n, src, ff);
    }
  }

  /** Once the first `k` elements cannot be decoded, neither can the first
      `n`, with the same error: the first failing element decides. */
  lemma {:induction false} ElementsFirstError(k: nat, n: nat, src: seq<byte>, ff: FloatCodec)
    requires k <= n && DecodedElements(k, src, ff).Err?
    ensures DecodedIterable(n, src, ff) == Err(DecodedElements(k, src, ff).error)
    ensures DecodedElements(n, src, ff) == DecodedElements(k, src, ff)
    decreases n - k
  {
    if k < n {
      ElementsFirstError(k + 1, n, src, ff);
    }
  }
}
