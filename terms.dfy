/** The host side of the codec: the Python values it encodes and decodes,
    its errors, and the convention that a string starting with a colon stands
    for an atom. */
module Terms {
  import opened Wire

  /** A Python value as the codec dispatches on it. */
  datatype Value =
    | Int(i: int)               // int (Python 2 long too); bool is not an int here
    | Float(bits: seq<byte>)    // float, known by its 8 big-endian IEEE-754 bytes
    | Bytes(data: seq<byte>)    // bytes
    | Text(utf8: seq<byte>)     // str, known by its UTF-8 encoding
    | Tuple(elems: seq<Value>)  // tuple
    | Set(elems: seq<Value>)    // set, in its iteration order
    | List(elems: seq<Value>)   // list
    | Unsupported               // any other type: bool, None, dict, ...

  /** The exceptions the codec raises, one per message. */
  datatype Error =
    | UnknownDatatype                         // encode: no rule for the type
    | InvalidBignumLength(length: nat)        // encode: magnitude over 2^32-1 bytes
    | InvalidAtomLength(length: nat)          // encode: atom name empty or over 255 bytes
    | InvalidBinaryLength(length: nat)        // encode and decode of BINARY_EXT lengths
    | InvalidTupleLength(length: nat)         // encode: more than 2^32-1 elements
    | InvalidListLength(length: nat)          // encode: more than 2^32-1 elements
    | IncompleteSmallInt                      // decode: SMALL_INTEGER_EXT without its byte
    | IncompleteInt(got: nat)                 // decode: INTEGER_EXT with fewer than 4 bytes
    | IncompleteFloat(got: nat)               // decode: FLOAT_EXT with fewer than 31 bytes
    | IncompleteNewFloat(got: nat)            // decode: NEW_FLOAT_EXT with fewer than 8 bytes
    | IncompleteString(expected: nat, got: nat)
    | IncompleteBinary(expected: nat, got: nat)
    | IncompleteAtom(expected: nat, got: nat) // decode: "Invalid ATOM_EXT length: expected .., got .."
    | InvalidFloatText                        // decode: float() refuses the FLOAT_EXT text
    | TruncatedHeader                         // decode: a length, arity or sign field is cut short
    | InvalidTermType                         // decode: unknown tag, or no byte at all
    | InvalidVersion                          // decode: the buffer does not start with 131
    | InvalidValue                            // atom helpers: wrong kind of argument

  datatype Result<T> = Ok(value: T) | Err(error: Error) {
    predicate IsFailure() { Err? }
    function PropagateFailure<U>(): Result<U> requires Err? { Err(error) }
    function Extract(): T requires Ok? { value }
  }

  datatype Option<T> = None | Some(value: T)

  /** Floating-point numerics the codec leaves to Python: `format` is
      `"{0:.20e}".format(x).encode()` on the double with these IEEE bytes, and
      `parse` is `float()` on an ASCII text, None where `float()` raises. */
  datatype FloatCodec = FloatCodec(format: seq<byte> -> seq<byte>, parse: seq<byte> -> Option<seq<byte>>)

  predicate StartsWithColon(s: seq<byte>) { |s| > 0 && s[0] == COLON }

  /** The bytes of a string: the UTF-8 of a text, the contents of bytes. */
  function Payload(v: Value): seq<byte>
    requires v.Text? || v.Bytes?
  {
    if v.Text? then v.utf8 else v.data
  }

  /** `is_atom`: a string (text or bytes) is an atom when it starts with ':'. */
  predicate IsAtom(v: Value): (b: bool)
    ensures b ==> (v.Text? || v.Bytes?) && |Payload(v)| >= 1 && Payload(v)[0] == COLON
    ensures (v.Text? || v.Bytes?) && StartsWithColon(Payload(v)) ==> b
  {
    match v
    case Text(t) => StartsWithColon(t)
    case Bytes(b) => StartsWithColon(b)
    case _ => false
  }

  /** `binary_to_atom`: put the sigil in front of a string that is not yet an
      atom; anything else is an invalid value. */
  function BinaryToAtom(v: Value): (r: Result<Value>)
    ensures r.Ok? <==> (v.Text? || v.Bytes?) && !IsAtom(v)
    ensures r.Ok? ==> IsAtom(r.value) && r.value.Text? == v.Text?
    ensures r.Ok? ==> Payload(r.value) == [COLON] + Payload(v)
    ensures r.Err? ==> r.error == InvalidValue
  {
    match v
    case Text(t) => if StartsWithColon(t) then Err(InvalidValue) else Ok(Text([COLON] + t))
    case Bytes(b) => if StartsWithColon(b) then Err(InvalidValue) else Ok(Bytes([COLON] + b))
    case _ => Err(InvalidValue)
  }

  /** `atom_to_binary`: strip the sigil from an atom; anything else is an
      invalid value. */
  function AtomToBinary(v: Value): (r: Result<Value>)
    ensures r.Ok? <==> IsAtom(v)
    ensures r.Ok? ==> (r.value.Text? || r.value.Bytes?) && r.value.Text? == v.Text?
    ensures r.Ok? ==> [COLON] + Payload(r.value) == Payload(v)
    ensures r.Err? ==> r.error == InvalidValue
  {
    match v
    case Text(t) => if StartsWithColon(t) then Ok(Text(t[1..])) else Err(InvalidValue)
    case Bytes(b) => if StartsWithColon(b) then Ok(Bytes(b[1..])) else Err(InvalidValue)
    case _ => Err(InvalidValue)
  }

  /** Turning a plain string into an atom and back gives the string again. */
  lemma AtomOfBinaryRoundTrip(v: Value)
    requires (v.Text? || v.Bytes?) && !IsAtom(v)
    ensures BinaryToAtom(v).Ok? && AtomToBinary(BinaryToAtom(v).value) == Ok(v)
  {
    match v
    case Text(t) => assert ([COLON] + t)[1..] == t;
    case Bytes(b) => assert ([COLON] + b)[1..] == b;
  }

  /** Stripping an atom and putting the sigil back gives the atom again, as
      long as the stripped name does not itself start with ':'. */
  lemma BinaryOfAtomRoundTrip(v: Value)
    requires IsAtom(v) && !IsAtom(AtomToBinary(v).value)
    ensures BinaryToAtom(AtomToBinary(v).value) == Ok(v)
  {
    match v
    case Text(t) => assert [COLON] + t[1..] == t;
    case Bytes(b) => assert [COLON] + b[1..] == b;
  }
}
