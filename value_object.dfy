/** The kernel's value objects: the tuple-struct wrappers generated by
    `tuple_value_object_with_simple_error!` and
    `tuple_value_object_requiring_error_definition!`, the enum wrapper of
    `enum_value_object_with_simple_error!`, and the `Display` / `FromStr`
    pair that `define_id_with_uuid!` adds to a UUID identifier. */
module ValueObject {
  import opened Wrappers

  /** A 128-bit UUID, as its numeric value. */
  type Uuid = n: nat | n < 0x1_0000_0000_0000_0000_0000_0000_0000_0000

  /** The error enum every `tuple_value_object_with_simple_error!` instance declares. */
  datatype ValueObjectError<V> = InvalidValue(value: V) | ParseError(message: string)

  /** `pub struct $name($value)`. The macro makes a distinct type per
      instance; the phantom `Kind` parameter keeps `BookId`, `UserId`, ...
      apart in the same way. `inner` is the struct's field `.0`. */
  datatype TupleValueObject<Kind, V> = TupleValueObject(inner: V)

  /** `TryFrom<$value> for $name`: the constructor never rejects a value. */
  function TryFrom<K, V>(value: V): (r: Result<TupleValueObject<K, V>, ValueObjectError<V>>)
    ensures r.Success? && r.value.inner == value
  {
    Success(TupleValueObject(value))
  }

  /** `ValueObject::inner_ref`: the wrapped value, which rebuilds the same object. */
  function InnerRef<K, V>(vo: TupleValueObject<K, V>): (v: V)
    ensures TryFrom<K, V>(v) == Success(vo)
  {
    vo.inner
  }

  /** `ValueObject::into_inner`: gives up the wrapper and returns the wrapped value. */
  function IntoInner<K, V>(vo: TupleValueObject<K, V>): (v: V)
    ensures v == InnerRef(vo)
    ensures TryFrom<K, V>(v) == Success(vo)
  {
    vo.inner
  }

  /** Wrapping and then unwrapping gives the original value back. */
  lemma IntoInnerTryFrom<K, V>(value: V)
    ensures IntoInner(TryFrom<K, V>(value).value) == value
    ensures InnerRef(TryFrom<K, V>(value).value) == value
  {
  }

  /** The derived `PartialEq` compares the single field: two value objects
      are equal exactly when their wrapped values are. */
  lemma EqualIffInnerEqual<K, V>(a: TupleValueObject<K, V>, b: TupleValueObject<K, V>)
    ensures a == b <==> InnerRef(a) == InnerRef(b)
  {
  }

  /** The only enum value object of the kernel (`UserRole`, default `User`). */
  datatype UserRole = Admin | User {
    /** `inner_ref` of an enum value object is the identity. */
    function InnerRef(): (r: UserRole)
      ensures r == this
    {
      this
    }

    /** `into_inner` of an enum value object is the identity. */
    function IntoInner(): (r: UserRole)
      ensures r == this
    {
      this
    }
  }

  // ---------------------------------------------------------------------
  // Hexadecimal text, as `Uuid::as_simple().encode_lower` writes it and
  // `Uuid::parse_str` reads it.

  function Pow16(k: nat): (p: nat)
    ensures p >= 1
  {
    if k == 0 then 1 else 16 * Pow16(k - 1)
  }

  /** 16^32 = 2^128: 32 hexadecimal digits hold exactly a UUID. */
  lemma Pow16Of32()
    ensures Pow16(32) == 0x1_0000_0000_0000_0000_0000_0000_0000_0000
  {
    assert Pow16(8) == 0x1_0000_0000;
    assert Pow16(16) == 0x1_0000_0000_0000_0000;
    assert Pow16(24) == 0x1_0000_0000_0000_0000_0000_0000;
  }

  predicate IsLowerHexDigit(c: char) {
    '0' <= c <= '9' || 'a' <= c <= 'f'
  }

  /** The value of one hexadecimal digit, either case; None for any other character. */
  function DigitValue(c: char): (d: Option<nat>)
    ensures d.Some? ==> d.value < 16
  {
    if '0' <= c <= '9' then Some(c as nat - '0' as nat)
    else if 'a' <= c <= 'f' then Some(c as nat - 'a' as nat + 10)
    else if 'A' <= c <= 'F' then Some(c as nat - 'A' as nat + 10)
    else None
  }

  const LOWER_HEX_DIGITS: string := "0123456789abcdef"

  function LowerHexChar(d: nat): (c: char)
    requires d < 16
    ensures IsLowerHexDigit(c) && DigitValue(c) == Some(d)
  {
    LOWER_HEX_DIGITS[d]
  }

  /** The last `k` hexadecimal digits of `n`, most significant first, lower case. */
  function EncodeLowerHex(n: nat, k: nat): (s: string)
    ensures |s| == k
    ensures forall i :: 0 <= i < |s| ==> IsLowerHexDigit(s[i])
  {
    if k == 0 then [] else EncodeLowerHex(n / 16, k - 1) + [LowerHexChar(n % 16)]
  }

  /** The value of a string of hexadecimal digits; None if any character is not one. */
  function DecodeHex(s: string): (r: Option<nat>)
    ensures r.Some? ==> r.value < Pow16(|s|)
    ensures r.Some? <==> forall i :: 0 <= i < |s| ==> DigitValue(s[i]).Some?
  {
    if s == [] then Some(0)
    else
      match (DecodeHex(s[..|s| - 1]), DigitValue(s[|s| - 1]))
      case (Some(high), Some(low)) => Some(16 * high + low)
      case _ => None
  }

  lemma {:induction false} DecodeEncodeHex(n: nat, k: nat)
    requires n < Pow16(k)
    ensures DecodeHex(EncodeLowerHex(n, k)) == Some(n)
  {
    if k > 0 {
      var s := EncodeLowerHex(n, k);
      assert n / 16 < Pow16(k - 1);
      DecodeEncodeHex(n / 16, k - 1);
      assert s[..|s| - 1] == EncodeLowerHex(n / 16, k - 1);
      assert DigitValue(s[|s| - 1]) == Some(n % 16);
    }
  }

  // ---------------------------------------------------------------------
  // `define_id_with_uuid!`: Display and FromStr of an identifier.

  /** `Display`: the simple form of the UUID, 32 lower-case hexadecimal digits, no hyphens. */
  function Display<K>(id: TupleValueObject<K, Uuid>): (s: string)
    ensures |s| == 32
    ensures forall i :: 0 <= i < |s| ==> IsLowerHexDigit(s[i])
  {
    EncodeLowerHex(id.inner, 32)
  }

  /** 8-4-4-4-12 hexadecimal digits separated by hyphens. */
  predicate HyphenatedText(s: string)
  {
    && |s| == 36
    && s[8] == '-' && s[13] == '-' && s[18] == '-' && s[23] == '-'
    && forall i :: 0 <= i < 36 && i !in {8, 13, 18, 23} ==> DigitValue(s[i]).Some?
  }

  /** Reads the hyphenated form: the 32 digits around the hyphens. */
  function ParseHyphenated(s: string): (r: Option<Uuid>)
    requires |s| == 36
    ensures r.Some? <==> HyphenatedText(s)
  {
    if s[8] == '-' && s[13] == '-' && s[18] == '-' && s[23] == '-' then
      var digits := s[..8] + s[9..13] + s[14..18] + s[19..23] + s[24..];
      assert forall i :: 0 <= i < 36 && i !in {8, 13, 18, 23} ==>
        s[i] == digits[if i < 8 then i else if i < 13 then i - 1 else if i < 18 then i - 2 else if i < 23 then i - 3 else i - 4];
      assert forall k :: 0 <= k < 32 ==>
        digits[k] == s[if k < 8 then k else if k < 12 then k + 1 else if k < 16 then k + 2 else if k < 20 then k + 3 else k + 4];
      ParseSimple(digits)
    else None
  }

  /** 32 hexadecimal digits. */
  function ParseSimple(s: string): (r: Option<Uuid>)
    requires |s| == 32
    ensures r.Some? <==> forall i :: 0 <= i < 32 ==> DigitValue(s[i]).Some?
  {
    match DecodeHex(s)
    case Some(n) => Pow16Of32(); Some(n)
    case None => None
  }

  /** The textual forms `Uuid::parse_str` accepts: simple, hyphenated,
      braced and URN; hexadecimal digits in either case. */
  function ParseUuid(s: string): (r: Option<Uuid>)
    ensures |s| !in {32, 36, 38, 45} ==> r.None?
    ensures r.Some? <==>
              || (|s| == 32 && forall i :: 0 <= i < 32 ==> DigitValue(s[i]).Some?)
              || HyphenatedText(s)
              || (|s| == 38 && s[0] == '{' && s[37] == '}' && HyphenatedText(s[1..37]))
              || (|s| == 45 && s[..9] == "urn:uuid:" && HyphenatedText(s[9..]))
  {
    if |s| == 32 then ParseSimple(s)
    else if |s| == 36 then ParseHyphenated(s)
    else if |s| == 38 && s[0] == '{' && s[37] == '}' then ParseHyphenated(s[1..37])
    else if |s| == 45 && s[..9] == "urn:uuid:" then ParseHyphenated(s[9..])
    else None
  }

  /** `FromStr`: a UUID text becomes an identifier; anything else is a `ParseError`. */
  function FromStr<K>(s: string): (r: Result<TupleValueObject<K, Uuid>, ValueObjectError<Uuid>>)
    ensures r.Success? <==> ParseUuid(s).Some?
    ensures r.Success? ==> r.value.inner == ParseUuid(s).value
    ensures r.Failure? ==> r.error.ParseError?
  {
    match ParseUuid(s)
    case Some(u) => Success(TupleValueObject(u))
    case None => Failure(ParseError("invalid UUID"))
  }

  /** What `Display` writes, `FromStr` reads back as the same identifier. */
  lemma FromStrDisplay<K>(id: TupleValueObject<K, Uuid>)
    ensures FromStr<K>(Display(id)) == Success(id)
  {
    Pow16Of32();
    DecodeEncodeHex(id.inner, 32);
  }

  /** Distinct identifiers are displayed differently. */
  lemma DisplayInjective<K>(a: TupleValueObject<K, Uuid>, b: TupleValueObject<K, Uuid>)
    ensures Display(a) == Display(b) ==> a == b
  {
    FromStrDisplay(a);
    FromStrDisplay(b);
  }
}
