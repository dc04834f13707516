/** The encoder: `encode_term` and `encode`. The functions say what each
    call returns; the methods follow the source's loops and are proved to
    return the same. */
module Encoder {
  import opened Wire
  import opened Terms

  /** Integers: SMALL_INTEGER_EXT for 0..255, INTEGER_EXT for the rest of the
      signed 32-bit range, otherwise a bignum. */
  function EncodedInt(i: int): Result<seq<byte>> {
    if 0 <= i <= 255 then Ok([SMALL_INT] + [i])
    else if -0x8000_0000 <= i <= 0x7FFF_FFFF then Ok([INT] + PackSigned4(i))
    else EncodedBignum(i)
  }

  /** A bignum: tag, length, sign byte, magnitude. */
  function EncodedBignum(i: int): Result<seq<byte>> {
    var sign: byte := if i >= 0 then 0 else 1;
    var body := LittleEndian(Abs(i));
    if |body| <= 255 then Ok([SMALL_BIGNUM] + [|body|] + [sign] + body)
    else if |body| <= MAX_U32 then Ok([LARGE_BIGNUM] + Pack4(|body|) + [sign] + body)
    else Err(InvalidBignumLength(|body|))
  }

  /** The layout of an encoded integer: one byte after SMALL_INTEGER_EXT for
      0..255, four bytes of two's complement after INTEGER_EXT for the rest of
      the signed 32-bit range, and otherwise a bignum. */
  lemma IntLayout(i: int)
    ensures EncodedInt(i).Ok? <==> |LittleEndian(Abs(i))| <= MAX_U32
    ensures 0 <= i <= 255 ==>
              var r := EncodedInt(i).value; |r| == 2 && r[0] == SMALL_INT && r[1] == i
    ensures !(0 <= i <= 255) && -0x8000_0000 <= i < 0x8000_0000 ==>
              var r := EncodedInt(i).value; |r| == 5 && r[0] == INT && UnpackSigned4(r[1..]) == i
    ensures !(-0x8000_0000 <= i < 0x8000_0000) ==> EncodedInt(i) == EncodedBignum(i)
  {
    if !(0 <= i <= 255) && -0x8000_0000 <= i < 0x8000_0000 {
      ByteLengthBound(Abs(i), 4);
      var r := [INT] + PackSigned4(i);
      assert r[1..] == PackSigned4(i);
    }
  }

  /** The layout of a bignum: a sign byte (0 when non-negative, 1 otherwise)
      and the little-endian magnitude, behind a 1-byte length in SMALL_BIG_EXT
      when the magnitude has at most 255 bytes, behind a 4-byte length in
      LARGE_BIG_EXT when it has at most 2^32-1, and an error beyond. */
  lemma BignumLayout(i: int)
    ensures var body := LittleEndian(Abs(i));
            var r := EncodedBignum(i);
            var head := if |body| <= 255 then 3 else 6;
            && (r.Ok? <==> |body| <= MAX_U32)
            && (r.Ok? ==>
                  && |r.value| == head + |body|
                  && r.value[0] == (if |body| <= 255 then SMALL_BIGNUM else LARGE_BIGNUM)
                  && (if |body| <= 255 then r.value[1] == |body| else Unpack4(r.value[1..5]) == |body|)
                  && r.value[head - 1] == (if i >= 0 then 0 else 1)
                  && r.value[head..] == body)
  {
    var sign: byte := if i >= 0 then 0 else 1;
    var body := LittleEndian(Abs(i));
    if |body| <= 255 {
      var r := [SMALL_BIGNUM] + [|body|] + [sign] + body;
      assert r[3..] == body;
    } else if |body| <= MAX_U32 {
      var r := [LARGE_BIGNUM] + Pack4(|body|) + [sign] + body;
      assert r[1..5] == Pack4(|body|);
      assert r[6..] == body;
    }
  }

  /** The 31-byte FLOAT_EXT field: the formatted text padded with NUL bytes.
      As in Python, `b"\x00" * n` with negative `n` adds nothing, so a text
      longer than 31 bytes is written whole. */
  function FloatField(text: seq<byte>): (r: seq<byte>)
    ensures |r| == if |text| <= 31 then 31 else |text|
    ensures r[..|text|] == text
    ensures forall k :: |text| <= k < |r| ==> r[k] == 0
  {
    text + seq(if |text| <= 31 then 31 - |text| else 0, _ => 0)
  }

  /** Byte strings: the atom or binary branch of `encode_term`. */
  function EncodedByteString(b: seq<byte>): Result<seq<byte>> {
    if StartsWithColon(b) then
      var name := b[1..];
      if |name| == 0 then Err(InvalidAtomLength(0))
      else if |name| > 255 then Err(InvalidAtomLength(|name|))
      else Ok([ATOM] + Pack2(|name|) + name)
    else if |b| <= MAX_U32 then Ok([BINARY] + Pack4(|b|) + b)
    else Err(InvalidBinaryLength(|b|))
  }

  /** A byte string starting with ':' is an atom whose name, without the
      colon, must have 1 to 255 bytes; any other one, the empty one too, is a
      binary of at most 2^32-1 bytes. Text follows the same rule on its UTF-8
      bytes. */
  lemma ByteStringLayout(v: Value, ff: FloatCodec)
    requires v.Text? || v.Bytes?
    ensures var b := if v.Text? then v.utf8 else v.data;
            var r := Encoded(v, ff);
            && (StartsWithColon(b) ==>
                  && (r.Ok? <==> 1 <= |b| - 1 <= 255)
                  && (r.Ok? ==> r.value == [ATOM] + Pack2(|b| - 1) + b[1..])
                  && (r.Err? ==> r.error == InvalidAtomLength(|b| - 1)))
            && (!StartsWithColon(b) ==>
                  && (r.Ok? <==> |b| <= MAX_U32)
                  && (r.Ok? ==> r.value == [BINARY] + Pack4(|b|) + b)
                  && (r.Err? ==> r.error == InvalidBinaryLength(|b|)))
  {
  }

  /** The arity header of a tuple or set. */
  function TupleHeader(n: nat): Result<seq<byte>> {
    if n <= 255 then Ok([SMALL_TUPLE] + [n])
    else if n <= MAX_U32 then Ok([LARGE_TUPLE] + Pack4(n))
    else Err(InvalidTupleLength(n))
  }

  /** The header, then the elements, failing with the header's error first. */
  function Then(header: Result<seq<byte>>, body: Result<seq<byte>>): Result<seq<byte>> {
    if header.Err? then header
    else if body.Err? then body
    else Ok(header.value + body.value)
  }

  /** What `encode_term` returns for `v`. */
  function Encoded(v: Value, ff: FloatCodec): (r: Result<seq<byte>>)
    ensures r.Ok? ==> |r.value| > 0 && (r.value[0] == NIL <==> v == List([]))
    decreases v
  {
    match v
    case Int(i) => EncodedInt(i)
    case Float(bits) => Ok([FLOAT] + FloatField(ff.format(bits)))
    case Bytes(b) => EncodedByteString(b)
    case Text(t) => EncodedByteString(t)
    case Tuple(es) => Then(TupleHeader(|es|), EncodedElements(es, ff))
    case Set(es) => Then(TupleHeader(|es|), EncodedElements(es, ff))
    case List(es) =>
      if |es| == 0 then Ok([NIL])
      else if |es| <= MAX_U32 then
        match EncodedElements(es, ff)
        case Err(e) => Err(e)
        case Ok(body) => Ok([LIST] + Pack4(|es|) + body + [NIL])
      else Err(InvalidListLength(|es|))
    case Unsupported => Err(UnknownDatatype)
  }

  /** The element encodings one after the other, or the error of the first
      element that cannot be encoded. */
  function EncodedElements(es: seq<Value>, ff: FloatCodec): (r: Result<seq<byte>>)
    ensures r.Ok? ==> |r.value| >= |es|
    decreases es
  {
    if es == [] then Ok([])
    else
      match EncodedElements(es[..|es| - 1], ff)
      case Err(e) => Err(e)
      case Ok(front) =>
        match Encoded(es[|es| - 1], ff)
        case Err(e) => Err(e)
        case Ok(last) => Ok(front + last)
  }

  /** Once a prefix of the elements fails, encoding all of them fails with
      the same error: the first failing element decides. */
  lemma {:induction false} ElementsFirstError(es: seq<Value>, k: nat, ff: FloatCodec)
    requires k <= |es| && EncodedElements(es[..k], ff).Err?
    ensures EncodedElements(es, ff) == EncodedElements(es[..k], ff)
    decreases |es| - k
  {
    if k < |es| {
      assert es[..k + 1][..k] == es[..k];
      ElementsFirstError(es, k + 1, ff);
    } else {
      assert es[..k] == es;
    }
  }

  /** One turn of the element loop: an element that encodes extends the
      encoding of the ones before it, and one that fails decides the error
      of the whole sequence. */
  lemma AppendStep(es: seq<Value>, i: nat, ff: FloatCodec)
    requires i < |es| && EncodedElements(es[..i], ff).Ok?
    ensures Encoded(es[i], ff).Ok? ==>
              EncodedElements(es[..i + 1], ff) == Ok(EncodedElements(es[..i], ff).value + Encoded(es[i], ff).value)
    ensures Encoded(es[i], ff).Err? ==> EncodedElements(es, ff) == Err(Encoded(es[i], ff).error)
  {
    assert es[..i + 1][..i] == es[..i];
    if Encoded(es[i], ff).Err? {
      ElementsFirstError(es, i + 1, ff);
    }
  }

  /** `encode`: the version byte, then the term. */
  function Encode(v: Value, ff: FloatCodec): (r: Result<seq<byte>>)
    ensures r.Ok? <==> Encoded(v, ff).Ok?
    ensures r.Ok? ==> |r.value| >= 1 && r.value[0] == MAGIC && r.value[1..] == Encoded(v, ff).value
    ensures r.Err? ==> r.error == Encoded(v, ff).error
  {
    match Encoded(v, ff)
    case Err(e) => Err(e)
    case Ok(body) => Ok([MAGIC] + body)
  }

  // ---- the source's loops

  /** The shift loop that writes the magnitude byte by byte: `term & 0xff`
      and `term >>= 8` are `% 256` and `/ 256` on a non-negative number. */
  method EncodeMagnitude(m: nat) returns (body: seq<byte>)
    ensures body == LittleEndian(m)
  {
    body := [];
    var t := m;
    while t != 0
      invariant body + LittleEndian(t) == LittleEndian(m)
      decreases t
    {
      var low: byte := t % 256;
      var high := t / 256;
      assert LittleEndian(t) == [low] + LittleEndian(high);
      body := body + [low];
      t := high;
    }
  }

  /** `encode_term`: dispatch on the type of the value. */
  method EncodeTerm(v: Value, ff: FloatCodec) returns (r: Result<seq<byte>>)
    ensures r == Encoded(v, ff)
    decreases v, 2
  {
    match v
    case Int(i) =>
      r := EncodeInt(i);
    case Float(bits) =>
      r := Ok([FLOAT] + FloatField(ff.format(bits)));
    case Bytes(b) =>
      r := EncodedByteString(b);
    case Text(t) =>
      // the source encodes the text to UTF-8 and dispatches again on the bytes
      r := EncodedByteString(t);
    case Tuple(_) =>
      r := EncodeTuple(v, ff);
    case Set(_) =>
      r := EncodeTuple(v, ff);
    case List(_) =>
      r := EncodeList(v, ff);
    case Unsupported =>
      r := Err(UnknownDatatype);
  }

  /** The integer branch of `encode_term`, with the shift loop for bignums. */
  method EncodeInt(i: int) returns (r: Result<seq<byte>>)
    ensures r == EncodedInt(i)
  {
    if 0 <= i <= 255 {
      r := Ok([SMALL_INT] + [i]);
    } else if -0x8000_0000 <= i <= 0x7FFF_FFFF {
      r := Ok([INT] + PackSigned4(i));
    } else {
      var sign: byte := if i >= 0 then 0 else 1;
      var body := EncodeMagnitude(Abs(i));
      var length := |body|;
      if length <= 255 {
        r := Ok([SMALL_BIGNUM] + [length] + [sign] + body);
      } else if length <= MAX_U32 {
        r := Ok([LARGE_BIGNUM] + Pack4(length) + [sign] + body);
      } else {
        r := Err(InvalidBignumLength(length));
      }
    }
  }

  /** The tuple-and-set branch of `encode_term`: the arity header, then the
      elements. */
  method EncodeTuple(v: Value, ff: FloatCodec) returns (r: Result<seq<byte>>)
    requires v.Tuple? || v.Set?
    ensures r == Encoded(v, ff)
    decreases v, 1
  {
    assert Encoded(v, ff) == Then(TupleHeader(|v.elems|), EncodedElements(v.elems, ff));
    var header := TupleHeader(|v.elems|);
    if header.Err? {
      return header;
    }
    r := AppendElements(v, header.value, ff);
  }

  /** The list branch of `encode_term`: the empty list is NIL alone; any
      other list is the count, the elements, and a closing NIL. */
  method EncodeList(v: Value, ff: FloatCodec) returns (r: Result<seq<byte>>)
    requires v.List?
    ensures r == Encoded(v, ff)
    decreases v, 1
  {
    var es := v.elems;
    if |es| == 0 {
      return Ok([NIL]);
    } else if |es| > MAX_U32 {
      return Err(InvalidListLength(|es|));
    }
    var body := AppendElements(v, Pack4(|es|), ff);
    if body.Err? {
      return Err(body.error);
    }
    assert [LIST] + body.value + [NIL] == [LIST] + Pack4(|es|) + EncodedElements(es, ff).value + [NIL];
    r := Ok([LIST] + body.value + [NIL]);
  }

  /** The loop `for item in term: content += encode_term(item)` shared by the
      tuple and list branches: each element's encoding is appended in order,
      and the first element that fails ends the loop with its error. */
  method AppendElements(v: Value, content0: seq<byte>, ff: FloatCodec) returns (r: Result<seq<byte>>)
    requires v.Tuple? || v.Set? || v.List?
    ensures r.Ok? <==> EncodedElements(v.elems, ff).Ok?
    ensures r.Ok? ==> r.value == content0 + EncodedElements(v.elems, ff).value
    ensures r.Err? ==> r.error == EncodedElements(v.elems, ff).error
    decreases v, 0
  {
    var es := v.elems;
    var content := content0;
    var i := 0;
    while i < |es|
      invariant 0 <= i <= |es|
      invariant EncodedElements(es[..i], ff).Ok?
      invariant content == content0 + EncodedElements(es[..i], ff).value
    {
      var item := EncodeTerm(es[i], ff);
      AppendStep(es, i, ff);
      if item.Err? {
        return Err(item.error);
      }
      content := content + item.value;
      i := i + 1;
    }
    assert es[..i] == es;
    r := Ok(content);
  }
}
