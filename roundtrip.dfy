/** How `decode` and `encode` fit together. Decoding an encoding gives the
    value back in the form the decoder produces (text for byte strings, tuples
    for sets), provided the value stays clear of the codec's quirks: a bignum
    that would need LARGE_BIG_EXT, a binary whose length plus five overflows
    the 32-bit check, a float text that is not 31 bytes of NUL-free ASCII
    parsed back to the same double, and a tuple followed directly by a NIL
    byte, which `decode_iterable` swallows. Each quirk has its own lemma. */
module RoundTrip {
  import opened Wire
  import opened Terms
  import opened Encoder
  import opened Decoder

  // ---- the form the decoder produces

  /** A value the decoder can produce: no bytes (they come back as text) and
      no sets (they come back as tuples), at any depth. */
  predicate Normal(v: Value) decreases v {
    match v
    case Bytes(_) => false
    case Set(_) => false
    case Tuple(es) => forall k :: 0 <= k < |es| ==> Normal(es[k])
    case List(es) => forall k :: 0 <= k < |es| ==> Normal(es[k])
    case _ => true
  }

  /** `v` as the decoder gives it back. */
  function Norm(v: Value): (r: Value) decreases v {
    match v
    case Bytes(b) => Text(b)
    case Tuple(es) => Tuple(NormAll(es))
    case Set(es) => Tuple(NormAll(es))
    case List(es) => List(NormAll(es))
    case _ => v
  }

  function NormAll(es: seq<Value>): (r: seq<Value>)
    ensures |r| == |es|
    decreases es
  {
    if es == [] then [] else NormAll(es[..|es| - 1]) + [Norm(es[|es| - 1])]
  }

  /** Each element is normalised on its own. */
  lemma {:induction false} NormAllAt(es: seq<Value>, k: nat)
    requires k < |es|
    ensures NormAll(es)[k] == Norm(es[k])
    decreases es
  {
    var n := |es| - 1;
    if k < n {
      NormAllAt(es[..n], k);
    }
  }

  /** Normalising gives a normal value, and leaves a normal value as it is. */
  lemma {:induction false} NormIsNormal(v: Value)
    ensures Normal(Norm(v))
    ensures Normal(v) ==> Norm(v) == v
    decreases v
  {
    match v
    case Tuple(es) => NormAllIsNormal(es);
    case Set(es) => NormAllIsNormal(es);
    case List(es) => NormAllIsNormal(es);
    case _ =>
  }

  lemma {:induction false} NormAllIsNormal(es: seq<Value>)
    ensures forall k :: 0 <= k < |es| ==> Normal(NormAll(es)[k])
    ensures (forall k :: 0 <= k < |es| ==> Normal(es[k])) ==> NormAll(es) == es
    decreases es
  {
    forall k | 0 <= k < |es|
      ensures Normal(NormAll(es)[k]) && (Normal(es[k]) ==> NormAll(es)[k] == es[k])
    {
      NormAllAt(es, k);
      NormIsNormal(es[k]);
    }
  }

  /** Whatever the decoder returns is normal. */
  lemma {:induction false} DecodedIsNormal(s: seq<byte>, ff: FloatCodec)
    ensures Decoded(s, ff).Ok? ==> Normal(Decoded(s, ff).value.0)
    decreases |s|, 0
  {
    if |s| >= 2 && s[0] == SMALL_TUPLE {
      IterableIsNormal(s[1], s[2..], ff);
    } else if |s| >= 5 && (s[0] == LARGE_TUPLE || s[0] == LIST) {
      IterableIsNormal(Unpack4(s[1..5]), s[5..], ff);
    }
  }

  lemma {:induction false} IterableIsNormal(n: nat, src: seq<byte>, ff: FloatCodec)
    ensures DecodedIterable(n, src, ff).Ok? ==>
              forall k :: 0 <= k < n ==> Normal(DecodedIterable(n, src, ff).value.0[k])
    decreases |src|, 2
  {
    ElementsAreNormal(n, src, ff);
  }

  lemma {:induction false} ElementsAreNormal(n: nat, src: seq<byte>, ff: FloatCodec)
    ensures DecodedElements(n, src, ff).Ok? ==>
              forall k :: 0 <= k < n ==> Normal(DecodedElements(n, src, ff).value.0[k])
    decreases |src|, 1, n
  {
    if n > 0 {
      ElementsAreNormal(n - 1, src, ff);
      var front := DecodedElements(n - 1, src, ff);
      if front.Ok? {
        DecodedIsNormal(front.value.1, ff);
      }
    }
  }

  // ---- which values the encoder accepts

  predicate ByteStringEncodable(b: seq<byte>) {
    if StartsWithColon(b) then 1 <= |b| - 1 <= 255 else |b| <= MAX_U32
  }

  /** The values `encode_term` accepts: integers whose magnitude fits in
      2^32-1 bytes, every float, atoms with 1 to 255 name bytes, binaries of
      at most 2^32-1 bytes, and containers of at most 2^32-1 such values. */
  predicate Encodable(v: Value) decreases v {
    match v
    case Int(i) => |LittleEndian(Abs(i))| <= MAX_U32
    case Float(_) => true
    case Bytes(b) => ByteStringEncodable(b)
    case Text(t) => ByteStringEncodable(t)
    case Tuple(es) => |es| <= MAX_U32 && forall k :: 0 <= k < |es| ==> Encodable(es[k])
    case Set(es) => |es| <= MAX_U32 && forall k :: 0 <= k < |es| ==> Encodable(es[k])
    case List(es) => |es| <= MAX_U32 && forall k :: 0 <= k < |es| ==> Encodable(es[k])
    case Unsupported => false
  }

  /** `encode_term` succeeds exactly on the encodable values. */
  lemma {:induction false} EncodableIff(v: Value, ff: FloatCodec)
    ensures Encoded(v, ff).Ok? <==> Encodable(v)
    decreases v
  {
    match v
    case Int(i) => IntLayout(i);
    case Bytes(_) => ByteStringLayout(v, ff);
    case Text(_) => ByteStringLayout(v, ff);
    case Tuple(es) => ElementsEncodableIff(es, ff);
    case Set(es) => ElementsEncodableIff(es, ff);
    case List(es) => ElementsEncodableIff(es, ff);
    case _ =>
  }

  lemma {:induction false} ElementsEncodableIff(es: seq<Value>, ff: FloatCodec)
    ensures EncodedElements(es, ff).Ok? <==> forall k :: 0 <= k < |es| ==> Encodable(es[k])
    decreases es
  {
    if es != [] {
      var front := es[..|es| - 1];
      ElementsEncodableIff(front, ff);
      EncodableIff(es[|es| - 1], ff);
      assert forall k :: 0 <= k < |front| ==> front[k] == es[k];
      if !Encodable(es[|es| - 1]) {
        assert !(forall k :: 0 <= k < |es| ==> Encodable(es[k]));
      }
    }
  }

  // ---- which values come back

  /** The values whose encoding decodes back to them (in normal form). */
  predicate Decodable(v: Value, ff: FloatCodec) decreases v {
    match v
    case Int(i) => |LittleEndian(Abs(i))| <= 255
    case Float(bits) => FloatTextFits(ff.format(bits)) && ff.parse(ff.format(bits)) == Some(bits)
    case Bytes(b) => ByteStringDecodable(b)
    case Text(t) => ByteStringDecodable(t)
    case Tuple(es) => |es| <= MAX_U32 && forall k :: 0 <= k < |es| ==> Decodable(es[k], ff)
    case Set(es) => |es| <= MAX_U32 && forall k :: 0 <= k < |es| ==> Decodable(es[k], ff)
    case List(es) => |es| <= MAX_U32 && forall k :: 0 <= k < |es| ==> Decodable(es[k], ff)
    case Unsupported => false
  }

  /** A float text that the 31-byte FLOAT_EXT field holds and that splitting
      at the first NUL gives back whole. */
  predicate FloatTextFits(text: seq<byte>) {
    |text| <= 31 && forall k :: 0 <= k < |text| ==> text[k] != 0
  }

  /** An atom with 1 to 255 name bytes, or a binary whose length plus the
      five header bytes passes the decoder's 32-bit check. */
  predicate ByteStringDecodable(b: seq<byte>) {
    if StartsWithColon(b) then 1 <= |b| - 1 <= 255 else |b| + 5 <= MAX_U32
  }

  /** Whether the byte after the `i`-th element is a NIL byte: the next
      element is the empty list, or, after the last one, `last` says. */
  predicate NilFollows(es: seq<Value>, i: nat, last: bool) {
    if i + 1 < |es| then es[i + 1] == List([]) else last
  }

  /** Whether decoding `v` takes a NIL byte that follows its encoding. A
      tuple or set does: its `decode_iterable` skips one. A non-empty list
      does when its last element does: that element takes the list's own
      NIL, and the list's `decode_iterable` then takes the next one. */
  predicate Absorbs(v: Value) decreases v {
    match v
    case Tuple(_) => true
    case Set(_) => true
    case List(es) => |es| > 0 && Absorbs(es[|es| - 1])
    case _ => false
  }

  /** What decoding leaves of `rest` after the encoding of `v`. */
  function After(v: Value, rest: seq<byte>): seq<byte> {
    if Absorbs(v) && StartsWithNil(rest) then rest[1..] else rest
  }

  /** What decoding leaves of `rest` after the encodings of `es`. */
  function ElementsAfter(es: seq<Value>, rest: seq<byte>): seq<byte> {
    if es == [] then rest else After(es[|es| - 1], rest)
  }

  /** The `i`-th element does not take a NIL byte that follows it. */
  predicate KeepsNext(es: seq<Value>, i: nat, last: bool)
    requires i < |es|
  {
    !(NilFollows(es, i, last) && Absorbs(es[i]))
  }

  /** The elements of a container, the last of them followed by bytes that
      start with a NIL byte exactly when `nilAfter`, are each decodable and
      fit what follows them, and none but the last takes a NIL byte that
      follows it. */
  predicate ElementsFit(es: seq<Value>, nilAfter: bool, ff: FloatCodec) {
    && (forall k :: 0 <= k < |es| ==> Decodable(es[k], ff))
    && (forall i :: 0 <= i < |es| ==> Fits(es[i], NilFollows(es, i, nilAfter)))
    && (forall i :: 0 <= i < |es| - 1 ==> KeepsNext(es, i, nilAfter))
  }

  /** `v` decodes back, from its encoding followed by bytes that start with
      a NIL byte exactly when `nilNext`, when no element inside it takes a
      NIL byte that belongs to the next element or to the bytes after its
      container. The one exception is the last element of a list, which may
      take the list's own NIL. */
  predicate Fits(v: Value, nilNext: bool) decreases v {
    match v
    case Tuple(es) =>
      forall i :: 0 <= i < |es| ==> Fits(es[i], NilFollows(es, i, nilNext)) && KeepsNext(es, i, nilNext)
    case Set(es) =>
      forall i :: 0 <= i < |es| ==> Fits(es[i], NilFollows(es, i, nilNext)) && KeepsNext(es, i, nilNext)
    case List(es) =>
      forall i :: 0 <= i < |es| ==> Fits(es[i], NilFollows(es, i, true)) && (i + 1 < |es| ==> KeepsNext(es, i, true))
    case _ => true
  }

  // ---- the round trip

  /** Splitting at the first NUL gives back a NUL-free text when what
      follows it is empty or starts with a NUL. */
  lemma {:induction false} BeforeNulOfPadded(text: seq<byte>, pad: seq<byte>)
    requires forall k :: 0 <= k < |text| ==> text[k] != 0
    requires pad == [] || pad[0] == 0
    ensures BeforeNul(text + pad) == text
  {
    if text != [] {
      assert (text + pad)[1..] == text[1..] + pad;
      BeforeNulOfPadded(text[1..], pad);
      assert [text[0]] + text[1..] == text;
    } else {
      assert text + pad == pad;
    }
  }

  /** Splitting a padded FLOAT_EXT field at its first NUL gives the text. */
  lemma BeforeNulOfField(text: seq<byte>)
    requires FloatTextFits(text)
    ensures BeforeNul(FloatField(text)) == text
  {
    var pad: seq<byte> := seq(31 - |text|, _ => 0);
    assert FloatField(text) == text + pad;
    BeforeNulOfPadded(text, pad);
  }

  lemma IntRoundTrip(i: int, rest: seq<byte>, ff: FloatCodec)
    requires |LittleEndian(Abs(i))| <= 255
    ensures EncodedInt(i).Ok?
    ensures Decoded(EncodedInt(i).value + rest, ff) == Ok((Int(i), rest))
  {
    IntLayout(i);
    var e := EncodedInt(i).value;
    var s := e + rest;
    if 0 <= i <= 255 {
      assert s[2..] == rest;
    } else if -0x8000_0000 <= i < 0x8000_0000 {
      assert s[1..5] == e[1..] && s[5..] == rest;
    } else {
      var body := LittleEndian(Abs(i));
      var sign: byte := if i >= 0 then 0 else 1;
      assert e == [SMALL_BIGNUM] + [|body|] + [sign] + body;
      var tail := s[3..];
      assert tail == body + rest;
      assert Slice(tail, 0, |body|) == body;
      LittleEndianInverse(Abs(i));
      var length: nat := |body|;
      assert BignumHeader(s) == Ok((length, sign, tail));
      assert Drop(tail, |body|) == rest;
    }
  }

  lemma FloatRoundTrip(bits: seq<byte>, rest: seq<byte>, ff: FloatCodec)
    requires Decodable(Float(bits), ff)
    ensures Encoded(Float(bits), ff).Ok?
    ensures Decoded(Encoded(Float(bits), ff).value + rest, ff) == Ok((Float(bits), rest))
  {
    var text := ff.format(bits);
    var field := FloatField(text);
    var s := [FLOAT] + field + rest;
    BeforeNulOfField(text);
    assert s[1..32] == field && s[32..] == rest;
  }

  lemma AtomRoundTrip(b: seq<byte>, rest: seq<byte>, ff: FloatCodec)
    requires StartsWithColon(b) && 1 <= |b| - 1 <= 255
    ensures EncodedByteString(b).Ok?
    ensures Decoded(EncodedByteString(b).value + rest, ff) == Ok((Text(b), rest))
  {
    var name := b[1..];
    var s := [ATOM] + Pack2(|name|) + name + rest;
    assert EncodedByteString(b).value + rest == s;
    assert s[1..3] == Pack2(|name|);
    assert Slice(s, 3, |name| + 3) == name;
    assert s[|name| + 3..] == rest;
    assert [COLON] + name == b;
    DecodedByTag(s, ff);
  }

  lemma BinaryRoundTrip(b: seq<byte>, rest: seq<byte>, ff: FloatCodec)
    requires !StartsWithColon(b) && |b| + 5 <= MAX_U32
    ensures EncodedByteString(b).Ok?
    ensures Decoded(EncodedByteString(b).value + rest, ff) == Ok((Text(b), rest))
  {
    var s := [BINARY] + Pack4(|b|) + b + rest;
    assert EncodedByteString(b).value + rest == s;
    assert s[1..5] == Pack4(|b|);
    assert Slice(s, 5, |b| + 5) == b;
    assert s[|b| + 5..] == rest;
    DecodedByTag(s, ff);
  }

  lemma ByteStringRoundTrip(v: Value, rest: seq<byte>, ff: FloatCodec)
    requires (v.Text? || v.Bytes?) && Decodable(v, ff)
    ensures Encoded(v, ff).Ok?
    ensures Decoded(Encoded(v, ff).value + rest, ff) == Ok((Norm(v), rest))
  {
    var b := if v.Text? then v.utf8 else v.data;
    assert Encoded(v, ff) == EncodedByteString(b) && Norm(v) == Text(b);
    if StartsWithColon(b) {
      AtomRoundTrip(b, rest, ff);
    } else {
      BinaryRoundTrip(b, rest, ff);
    }
  }

  /** Decoding the encoding of a decodable value that fits what follows it
      gives the normalised value, and stops where the encoding ends or, for
      a value that absorbs one, after the NIL byte that follows it. */
  lemma {:induction false} TermRoundTrip(v: Value, rest: seq<byte>, ff: FloatCodec)
    requires Decodable(v, ff) && Fits(v, StartsWithNil(rest))
    ensures Encoded(v, ff).Ok?
    ensures Decoded(Encoded(v, ff).value + rest, ff) == Ok((Norm(v), After(v, rest)))
    decreases v, 2
  {
    match v
    case Int(i) => IntRoundTrip(i, rest, ff);
    case Float(bits) => FloatRoundTrip(bits, rest, ff);
    case Bytes(_) => ByteStringRoundTrip(v, rest, ff);
    case Text(_) => ByteStringRoundTrip(v, rest, ff);
    case Tuple(_) => TupleRoundTrip(v, rest, ff);
    case Set(_) => TupleRoundTrip(v, rest, ff);
    case List(_) => ListRoundTrip(v, rest, ff);
  }

  lemma {:induction false} TupleRoundTrip(v: Value, rest: seq<byte>, ff: FloatCodec)
    requires (v.Tuple? || v.Set?) && Decodable(v, ff) && Fits(v, StartsWithNil(rest))
    ensures Encoded(v, ff).Ok?
    ensures Decoded(Encoded(v, ff).value + rest, ff) == Ok((Norm(v), After(v, rest)))
    decreases v, 1
  {
    var es := v.elems;
    TupleFitsElements(v, rest, ff);
    ElementsRoundTrip(es, rest, ff);
    var src := EncodedElements(es, ff).value + rest;
    IterableAfterElements(|es|, src, NormAll(es), rest, ff);
    TupleBytes(v, rest, ff);
    if |es| <= 255 {
      SmallTupleDecoding(Encoded(v, ff).value + rest, NormAll(es), After(v, rest), ff);
    } else {
      LargeTupleDecoding(Encoded(v, ff).value + rest, src, NormAll(es), After(v, rest), ff);
    }
  }

  /** The elements of a fitting tuple or set fit what follows them, and the
      last of them leaves the bytes after the tuple untouched. */
  lemma TupleFitsElements(v: Value, rest: seq<byte>, ff: FloatCodec)
    requires (v.Tuple? || v.Set?) && Decodable(v, ff) && Fits(v, StartsWithNil(rest))
    ensures ElementsFit(v.elems, StartsWithNil(rest), ff) && ElementsAfter(v.elems, rest) == rest
  {
    var es := v.elems;
    if es != [] {
      assert KeepsNext(es, |es| - 1, StartsWithNil(rest));
    }
  }

  /** The elements of a fitting non-empty list fit what follows them, the
      list's own NIL included, and the last of them leaves that NIL exactly
      when it does not absorb one. */
  lemma ListFitsElements(v: Value, rest: seq<byte>, ff: FloatCodec)
    requires v.List? && v.elems != [] && Decodable(v, ff) && Fits(v, StartsWithNil(rest))
    ensures var es := v.elems;
            var closed := [NIL] + rest;
            && ElementsFit(es, StartsWithNil(closed), ff)
            && ElementsAfter(es, closed) == if Absorbs(es[|es| - 1]) then rest else closed
  {
    var es := v.elems;
    var closed := [NIL] + rest;
    assert StartsWithNil(closed) && closed[1..] == rest;
    forall i | 0 <= i < |es|
      ensures Fits(es[i], NilFollows(es, i, true)) && (i < |es| - 1 ==> KeepsNext(es, i, true))
    {
    }
  }

  /** Where the parts of an encoded tuple or set lie. */
  lemma TupleBytes(v: Value, rest: seq<byte>, ff: FloatCodec)
    requires (v.Tuple? || v.Set?) && |v.elems| <= MAX_U32 && EncodedElements(v.elems, ff).Ok?
    ensures Encoded(v, ff).Ok?
    ensures var s := Encoded(v, ff).value + rest;
            var n := |v.elems|;
            var src := EncodedElements(v.elems, ff).value + rest;
            && (n <= 255 ==> |s| >= 2 && s[0] == SMALL_TUPLE && s[1] == n && s[2..] == src)
            && (n > 255 ==> |s| >= 5 && s[0] == LARGE_TUPLE && Unpack4(s[1..5]) == n && s[5..] == src)
  {
    var n := |v.elems|;
    var body := EncodedElements(v.elems, ff).value;
    var header := TupleHeader(n).value;
    assert Encoded(v, ff).value == header + body;
    HeaderSplit(header, body + rest);
    assert header + body + rest == header + (body + rest);
  }

  lemma {:induction false} ListRoundTrip(v: Value, rest: seq<byte>, ff: FloatCodec)
    requires v.List? && Decodable(v, ff) && Fits(v, StartsWithNil(rest))
    ensures Encoded(v, ff).Ok?
    ensures Decoded(Encoded(v, ff).value + rest, ff) == Ok((Norm(v), After(v, rest)))
    decreases v, 1
  {
    var es := v.elems;
    if es == [] {
      assert ([NIL] + rest)[1..] == rest;
      assert NormAll(es) == [];
    } else {
      ListFitsElements(v, rest, ff);
      ElementsRoundTrip(es, [NIL] + rest, ff);
      ListOfElements(v, rest, ff);
    }
  }

  /** A non-empty list whose elements decode back, followed by the list's
      own NIL, decodes back itself. */
  lemma ListOfElements(v: Value, rest: seq<byte>, ff: FloatCodec)
    requires v.List? && v.elems != [] && |v.elems| <= MAX_U32
    requires var closed := [NIL] + rest;
             && EncodedElements(v.elems, ff).Ok?
             && DecodedElements(|v.elems|, EncodedElements(v.elems, ff).value + closed, ff)
                  == Ok((NormAll(v.elems), ElementsAfter(v.elems, closed)))
             && ElementsAfter(v.elems, closed) == if Absorbs(v.elems[|v.elems| - 1]) then rest else closed
    ensures Encoded(v, ff).Ok?
    ensures Decoded(Encoded(v, ff).value + rest, ff) == Ok((Norm(v), After(v, rest)))
  {
    var es := v.elems;
    var closed := [NIL] + rest;
    var src := EncodedElements(es, ff).value + closed;
    IterableAfterElements(|es|, src, NormAll(es), ElementsAfter(es, closed), ff);
    ListBytes(v, rest, ff);
    ListDecoding(Encoded(v, ff).value + rest, src, NormAll(es), After(v, rest), ff);
  }

  /** Where the parts of an encoded non-empty list lie. */
  lemma ListBytes(v: Value, rest: seq<byte>, ff: FloatCodec)
    requires v.List? && 0 < |v.elems| <= MAX_U32 && EncodedElements(v.elems, ff).Ok?
    ensures Encoded(v, ff).Ok?
    ensures var s := Encoded(v, ff).value + rest;
            && |s| >= 5 && s[0] == LIST && Unpack4(s[1..5]) == |v.elems|
            && s[5..] == EncodedElements(v.elems, ff).value + ([NIL] + rest)
  {
    var n := |v.elems|;
    var body := EncodedElements(v.elems, ff).value;
    var header := [LIST] + Pack4(n);
    assert Encoded(v, ff).value + rest == header + (body + ([NIL] + rest));
    HeaderSplit(header, body + ([NIL] + rest));
  }

  /** The elements' encodings, one after the other and followed by `rest`,
      decode to the normalised elements and leave `rest`, less the NIL byte
      the last element may absorb. */
  lemma {:induction false} ElementsRoundTrip(es: seq<Value>, rest: seq<byte>, ff: FloatCodec)
    requires ElementsFit(es, StartsWithNil(rest), ff)
    ensures EncodedElements(es, ff).Ok?
    ensures DecodedElements(|es|, EncodedElements(es, ff).value + rest, ff)
              == Ok((NormAll(es), ElementsAfter(es, rest)))
    decreases es, 0
  {
    if es != [] {
      var n := |es| - 1;
      var front := es[..n];
      LastFits(es, rest, ff);
      TermRoundTrip(es[n], rest, ff);
      var l := Encoded(es[n], ff).value;
      FrontFits(es, rest, ff);
      ElementsRoundTrip(front, l + rest, ff);
      var f := EncodedElements(front, ff).value;
      EncodedElementsSnoc(es, ff);
      DecodedElementsAppend(n, f, l, rest, NormAll(front), Norm(es[n]), After(es[n], rest), ff);
    }
  }

  /** The encodings of all the elements are those of the first ones followed
      by that of the last. */
  lemma EncodedElementsSnoc(es: seq<Value>, ff: FloatCodec)
    requires es != []
    requires EncodedElements(es[..|es| - 1], ff).Ok? && Encoded(es[|es| - 1], ff).Ok?
    ensures EncodedElements(es, ff).Ok?
    ensures EncodedElements(es, ff).value
              == EncodedElements(es[..|es| - 1], ff).value + Encoded(es[|es| - 1], ff).value
  {
  }

  /** The last element fits the bytes after all of them. */
  lemma LastFits(es: seq<Value>, rest: seq<byte>, ff: FloatCodec)
    requires es != [] && ElementsFit(es, StartsWithNil(rest), ff)
    ensures Decodable(es[|es| - 1], ff) && Fits(es[|es| - 1], StartsWithNil(rest))
  {
    assert NilFollows(es, |es| - 1, StartsWithNil(rest)) == StartsWithNil(rest);
  }

  /** What follows each of the first elements is the same whether the last
      one is counted among them or only its encoding follows them; and so
      the first elements leave the encoding of the last untouched. */
  lemma FrontFits(es: seq<Value>, rest: seq<byte>, ff: FloatCodec)
    requires es != [] && Encoded(es[|es| - 1], ff).Ok?
    requires ElementsFit(es, StartsWithNil(rest), ff)
    ensures var front := es[..|es| - 1];
            var after := Encoded(es[|es| - 1], ff).value + rest;
            ElementsFit(front, StartsWithNil(after), ff) && ElementsAfter(front, after) == after
  {
    var last := es[|es| - 1];
    var after := Encoded(last, ff).value + rest;
    assert StartsWithNil(after) == (last == List([]));
    var front := es[..|es| - 1];
    forall i | 0 <= i < |front|
      ensures Fits(front[i], NilFollows(front, i, StartsWithNil(after)))
      ensures i < |front| - 1 ==> KeepsNext(front, i, StartsWithNil(after))
    {
      assert front[i] == es[i];
      assert NilFollows(front, i, StartsWithNil(after)) == NilFollows(es, i, StartsWithNil(rest));
      if i < |front| - 1 {
        assert KeepsNext(es, i, StartsWithNil(rest));
      }
    }
    if front != [] {
      assert KeepsNext(es, |front| - 1, StartsWithNil(rest));
    }
  }

  /** The encoding of one more element, placed between the others' and
      `rest`, adds its value to theirs. */
  lemma DecodedElementsAppend(n: nat, f: seq<byte>, l: seq<byte>, rest: seq<byte>,
                              vs: seq<Value>, v: Value, t: seq<byte>, ff: FloatCodec)
    requires DecodedElements(n, f + (l + rest), ff) == Ok((vs, l + rest))
    requires Decoded(l + rest, ff) == Ok((v, t))
    ensures DecodedElements(n + 1, f + l + rest, ff) == Ok((vs + [v], t))
  {
    assert f + l + rest == f + (l + rest);
    DecodedElementsSnoc(n, f + (l + rest), vs, l + rest, v, t, ff);
  }

  /** `decode(encode(v))` gives `v` back in normal form for every decodable
      value that fits the end of the buffer. */
  lemma DecodeEncode(v: Value, ff: FloatCodec)
    requires Decodable(v, ff) && Fits(v, false)
    ensures Encode(v, ff).Ok?
    ensures Decode(Encode(v, ff).value, ff) == Ok(Norm(v))
  {
    TermRoundTrip(v, [], ff);
    var e := Encode(v, ff).value;
    assert e[1..] == Encoded(v, ff).value + [];
  }

  /** No quirk applies to a decodable value that is not a container, so it
      comes back after anything at all. */
  lemma ScalarDecodeEncode(v: Value, rest: seq<byte>, ff: FloatCodec)
    requires Decodable(v, ff) && !v.Tuple? && !v.Set? && !v.List?
    ensures Decoded(Encoded(v, ff).value + rest, ff) == Ok((Norm(v), rest))
  {
    TermRoundTrip(v, rest, ff);
  }

  /** A list whose last element is a tuple comes back: the tuple takes the
      list's own NIL byte and the list takes none. */
  lemma ListEndingInTupleRoundTrip(ff: FloatCodec)
    ensures Encode(List([Tuple([Int(1)])]), ff).Ok?
    ensures Decode(Encode(List([Tuple([Int(1)])]), ff).value, ff) == Ok(List([Tuple([Int(1)])]))
  {
    var t := Tuple([Int(1)]);
    var v := List([t]);
    assert Decodable(Int(1), ff) by { assert LittleEndian(1) == [1]; }
    assert Fits(t, NilFollows([t], 0, true));
    assert Fits(v, false);
    DecodeEncode(v, ff);
    NormIsNormal(v);
  }

  // ---- the quirks

  /** STRING_EXT hands back the bytes from offset `length` on as the rest,
      which starts inside the header or body and not after the body. */
  lemma StringRestQuirk(ff: FloatCodec)
    ensures Decoded([STRING, 0, 1, 97], ff) == Ok((Text([97]), [0, 1, 97]))
  {
    assert Slice([STRING, 0, 1, 97], 3, 4) == [97];
  }

  /** A well-formed STRING_EXT of any length decodes to its body, with the
      rest taken from offset `length`. */
  lemma StringDecoding(s: seq<byte>, ff: FloatCodec)
    requires |s| >= 3 && s[0] == STRING
    ensures var length := Unpack2(s[1..3]);
            && (Decoded(s, ff).Ok? <==> |s| >= length + 3)
            && (Decoded(s, ff).Ok? ==> Decoded(s, ff).value == (Text(s[3..length + 3]), s[length..]))
  {
    var length := Unpack2(s[1..3]);
    if |s| >= length + 3 {
      assert Slice(s, 3, length + 3) == s[3..length + 3];
    }
  }

  /** LARGE_BIG_EXT reads its sign and magnitude from offset 4, the last byte
      of the length field: a one-byte magnitude 5 with sign 0 comes back as
      1, the low length byte, with the sign and the magnitude left over. */
  lemma LargeBignumQuirk(ff: FloatCodec)
    ensures Decoded([LARGE_BIGNUM, 0, 0, 0, 1, 0, 5], ff) == Ok((Int(1), [0, 5]))
  {
    var s: seq<byte> := [LARGE_BIGNUM, 0, 0, 0, 1, 0, 5];
    assert s[1..5] == [0, 0, 0, 1] && s[4..] == [1, 0, 5];
    assert Unpack4(s[1..5]) == 1;
    assert Slice(s[4..], 0, 1) == [1];
    assert FromLittleEndian([1]) == 1;
  }

  /** Every integer the encoder writes as LARGE_BIG_EXT is read back out of
      step: the decoder stops two bytes short of the end of the magnitude. */
  lemma LargeBignumLeavesTwoBytes(i: int, rest: seq<byte>, ff: FloatCodec)
    requires 255 < |LittleEndian(Abs(i))| <= MAX_U32
    ensures var body := LittleEndian(Abs(i));
            && EncodedInt(i).Ok?
            && Decoded(EncodedInt(i).value + rest, ff).Ok?
            && Decoded(EncodedInt(i).value + rest, ff).value.1 == body[|body| - 2..] + rest
  {
    var body := LittleEndian(Abs(i));
    ByteLengthBound(Abs(i), 4);
    IntLayout(i);
    BignumLayout(i);
    var e := EncodedInt(i).value;
    var s := e + rest;
    assert s[1..5] == e[1..5];
    DecodedByTag(s, ff);
    var length := |body|;
    assert Decoded(s, ff) == Ok(BignumValue(length, s[5], s[4..]));
    assert s[4..][length..] == s[4 + length..];
    assert s[4 + length..] == e[4 + length..] + rest;
    assert e[4 + length..] == body[length - 2..];
  }

  /** A bignum whose magnitude is cut short is not rejected: the bytes that
      are there make up the value. */
  lemma TruncatedBignumQuirk(ff: FloatCodec)
    ensures Decoded([SMALL_BIGNUM, 5, 0, 1], ff) == Ok((Int(1), []))
  {
    var s: seq<byte> := [SMALL_BIGNUM, 5, 0, 1];
    assert s[3..] == [1];
    assert Slice([1], 0, 5) == [1];
    assert FromLittleEndian([1]) == 1;
  }

  /** An ATOM_EXT with an empty name decodes to ":", which the encoder refuses. */
  lemma EmptyAtomQuirk(ff: FloatCodec)
    ensures Decoded([ATOM, 0, 0], ff) == Ok((Text([COLON]), []))
    ensures Encoded(Text([COLON]), ff) == Err(InvalidAtomLength(0))
  {
    var s: seq<byte> := [ATOM, 0, 0];
    assert s[1..3] == [0, 0];
    assert Slice(s, 3, 3) == [];
    assert [COLON] + Slice(s, 3, 3) == [COLON];
    assert s[3..] == [];
    DecodedByTag(s, ff);
  }

  /** An empty tuple followed by a NIL byte takes that byte as its own. */
  lemma EmptyTupleTakesNil(ff: FloatCodec)
    ensures Decoded([SMALL_TUPLE, 0, NIL], ff) == Ok((Tuple([]), []))
  {
    var s: seq<byte> := [SMALL_TUPLE, 0, NIL];
    assert s[2..] == [NIL] && [NIL][1..] == [];
    assert DecodedIterable(0, [NIL], ff) == Ok(([], []));
  }

  /** A nested empty tuple swallows the NIL that encodes the empty list after
      it, so the outer tuple runs out of elements. */
  lemma NilAfterTupleQuirk(ff: FloatCodec)
    ensures Encode(Tuple([Tuple([]), List([])]), ff).Ok?
    ensures Encode(Tuple([Tuple([]), List([])]), ff).value == [MAGIC, SMALL_TUPLE, 2, SMALL_TUPLE, 0, NIL]
    ensures Decode([MAGIC, SMALL_TUPLE, 2, SMALL_TUPLE, 0, NIL], ff) == Err(InvalidTermType)
  {
    var es := [Tuple([]), List([])];
    var inner: seq<byte> := [SMALL_TUPLE, 0];
    var nil: seq<byte> := [NIL];
    assert TupleHeader(0).value == inner;
    assert Encoded(Tuple([]), ff).value == inner + [];
    assert EncodedElements([Tuple([])], ff).value == [] + inner by {
      assert [Tuple([])][..0] == [];
    }
    assert Encoded(List([]), ff).value == nil;
    assert es[..1] == [Tuple([])];
    assert EncodedElements(es, ff).value == inner + nil;
    var src: seq<byte> := [SMALL_TUPLE, 0, NIL];
    EmptyTupleTakesNil(ff);
    assert DecodedElements(0, src, ff) == Ok(([], src));
    assert DecodedElements(1, src, ff).Ok?;
    assert DecodedElements(1, src, ff).value.1 == [];
    assert DecodedElements(2, src, ff) == Err(InvalidTermType);
    var s: seq<byte> := [MAGIC, SMALL_TUPLE, 2, SMALL_TUPLE, 0, NIL];
    var t := s[1..];
    assert t[0] == SMALL_TUPLE && t[1] == 2 && t[2..] == src;
    assert DecodedIterable(2, src, ff) == Err(InvalidTermType);
    assert Decoded(t, ff) == Err(InvalidTermType);
  }

  /** A binary of 2^32-5 bytes or more is encoded, but its decoded length
      with the five header bytes fails the 32-bit check. */
  lemma LongBinaryQuirk(b: seq<byte>, rest: seq<byte>, ff: FloatCodec)
    requires !StartsWithColon(b) && MAX_U32 < |b| + 5 && |b| <= MAX_U32
    ensures Encoded(Bytes(b), ff).Ok?
    ensures Decoded(Encoded(Bytes(b), ff).value + rest, ff) == Err(InvalidBinaryLength(|b| + 5))
  {
    ByteStringLayout(Bytes(b), ff);
    var s := Encoded(Bytes(b), ff).value + rest;
    assert s[1..5] == Pack4(|b|);
  }

  // ---- encodings the repository's tests expect

  lemma EncodeIntExample(ff: FloatCodec)
    ensures Encode(Int(300), ff).Ok? && Encode(Int(300), ff).value == [MAGIC, INT, 0, 0, 1, 44]
  {
    assert Pack2(0) == [0, 0] && Pack2(300) == [1, 44];
    assert PackSigned4(300) == [0, 0, 1, 44];
  }

  lemma EncodeBignumExample(ff: FloatCodec)
    ensures Encode(Int(4294967295), ff).Ok?
    ensures Encode(Int(4294967295), ff).value == [MAGIC, SMALL_BIGNUM, 4, 0, 255, 255, 255, 255]
  {
    assert LittleEndian(255) == [255];
    assert LittleEndian(65535) == [255, 255];
    assert LittleEndian(16777215) == [255, 255, 255];
    assert LittleEndian(4294967295) == [255, 255, 255, 255];
    assert EncodedInt(4294967295) == EncodedBignum(4294967295);
  }

  lemma EncodeNegativeBignumExample(ff: FloatCodec)
    ensures Encode(Int(-4294967296), ff).Ok?
    ensures Encode(Int(-4294967296), ff).value == [MAGIC, SMALL_BIGNUM, 5, 1, 0, 0, 0, 0, 1]
  {
    assert LittleEndian(1) == [1];
    assert LittleEndian(256) == [0, 1];
    assert LittleEndian(65536) == [0, 0, 1];
    assert LittleEndian(16777216) == [0, 0, 0, 1];
    assert LittleEndian(4294967296) == [0, 0, 0, 0, 1];
    assert EncodedInt(-4294967296) == EncodedBignum(-4294967296);
  }

  lemma EncodeEmptyListExample(ff: FloatCodec)
    ensures Encode(List([]), ff).Ok? && Encode(List([]), ff).value == [MAGIC, NIL]
  {
    assert Encoded(List([]), ff) == Ok([NIL]);
  }

  lemma EncodeListExample(ff: FloatCodec)
    ensures Encode(List([Int(1), Int(2), Int(3)]), ff).Ok?
    ensures Encode(List([Int(1), Int(2), Int(3)]), ff).value
              == [MAGIC, LIST, 0, 0, 0, 3, SMALL_INT, 1, SMALL_INT, 2, SMALL_INT, 3, NIL]
  {
    var es := [Int(1), Int(2), Int(3)];
    var one: seq<byte> := [SMALL_INT, 1];
    var two: seq<byte> := [SMALL_INT, 1, SMALL_INT, 2];
    var body: seq<byte> := [SMALL_INT, 1, SMALL_INT, 2, SMALL_INT, 3];
    var a: seq<byte> := [SMALL_INT, 2];
    var b: seq<byte> := [SMALL_INT, 3];
    assert EncodedInt(1).value == one && EncodedInt(2).value == a && EncodedInt(3).value == b;
    assert Encoded(Int(1), ff) == Ok(one);
    assert Encoded(Int(2), ff) == Ok(a);
    assert Encoded(Int(3), ff) == Ok(b);
    var empty: seq<byte> := [];
    assert es[..1][..0] == [] && es[..1][0] == Int(1);
    assert EncodedElements(es[..1][..0], ff) == Ok(empty);
    EncodedElementsSnoc(es[..1], ff);
    assert empty + one == one;
    assert es[..2][..1] == es[..1] && es[..2][1] == Int(2);
    EncodedElementsSnoc(es[..2], ff);
    assert one + a == two && two + b == body;
    assert es[..2] == es[..|es| - 1];
    EncodedElementsSnoc(es, ff);
    assert EncodedElements(es, ff).value == body;
    assert Pack4(3) == [0, 0, 0, 3];
  }

  /** The decoding in the other direction: a negative SMALL_BIG_EXT. */
  lemma DecodeNegativeBignumExample(ff: FloatCodec)
    ensures Decode([MAGIC, SMALL_BIGNUM, 5, 1, 0, 0, 0, 0, 1], ff) == Ok(Int(-4294967296))
  {
    var s: seq<byte> := [SMALL_BIGNUM, 5, 1, 0, 0, 0, 0, 1];
    var whole: seq<byte> := [MAGIC] + s;
    assert whole == [MAGIC, SMALL_BIGNUM, 5, 1, 0, 0, 0, 0, 1];
    assert whole[1..] == s;
    var bytes: seq<byte> := [0, 0, 0, 0, 1];
    assert s[3..] == bytes;
    assert BignumHeader(s) == Ok((5, 1, bytes));
    assert Slice(bytes, 0, 5) == bytes;
    MagnitudeExample(bytes);
    assert BignumValue(5, 1, bytes) == (Int(-4294967296), []);
    DecodedByTag(s, ff);
  }

  lemma MagnitudeExample(bytes: seq<byte>)
    requires bytes == [0, 0, 0, 0, 1]
    ensures FromLittleEndian(bytes) == 4294967296
  {
    var b1: seq<byte> := [1];
    var b2: seq<byte> := [0, 1];
    var b3: seq<byte> := [0, 0, 1];
    var b4: seq<byte> := [0, 0, 0, 1];
    assert b1[1..] == [] && FromLittleEndian(b1) == 1;
    assert b2[1..] == b1 && FromLittleEndian(b2) == 256;
    assert b3[1..] == b2 && FromLittleEndian(b3) == 65536;
    assert b4[1..] == b3 && FromLittleEndian(b4) == 16777216;
    assert bytes[1..] == b4;
  }
}
