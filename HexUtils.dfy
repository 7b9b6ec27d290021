/** The two-digit hexadecimal rendering of a byte used by the byte-array tag's text form.
    The source's `HexUtils.byteToHex` is not part of this model; it is taken to produce the two
    lower-case hexadecimal digits of the byte's unsigned (two's-complement) value. */
module HexUtils {
  import opened Wrappers
  import opened JavaLang

  predicate IsHexDigit(c: char) {
    '0' <= c <= '9' || 'a' <= c <= 'f'
  }

  /** The lower-case hexadecimal digit for `d`. */
  function HexDigit(d: nat): (c: char)
    requires d < 16
    ensures IsHexDigit(c)
  {
    if d < 10 then (('0' as int) + d) as char else (('a' as int) + d - 10) as char
  }

  /** The value of a hexadecimal digit, or None for any other character. */
  function HexValue(c: char): (r: Option<nat>)
    ensures r.Some? <==> IsHexDigit(c)
    ensures r.Some? ==> r.value < 16 && HexDigit(r.value) == c
  {
    if '0' <= c <= '9' then Some(c as int - '0' as int)
    else if 'a' <= c <= 'f' then Some(c as int - 'a' as int + 10)
    else None
  }

  /** The byte's value read as unsigned, 0 to 255. */
  function Unsigned(b: int8): (u: nat)
    ensures u < 256 && (u == b as int || u == b as int + 256)
  {
    if b < 0 then b as int + 256 else b as int
  }

  function ByteToHex(b: int8): (r: string)
    ensures |r| == 2 && IsHexDigit(r[0]) && IsHexDigit(r[1])
    ensures HexValue(r[0]).value * 16 + HexValue(r[1]).value == Unsigned(b)
  {
    var u := Unsigned(b);
    [HexDigit(u / 16), HexDigit(u % 16)]
  }

  /** Reads two hexadecimal digits back into a signed byte. */
  function HexToByte(hi: char, lo: char): (r: Option<int8>)
    ensures r.Some? <==> IsHexDigit(hi) && IsHexDigit(lo)
  {
    match (HexValue(hi), HexValue(lo))
    case (Some(h), Some(l)) =>
      var u := h * 16 + l;
      Some(if u >= 128 then (u as int - 256) as int8 else u as int8)
    case _ => None
  }

  lemma ByteHexRoundTrip(b: int8)
    ensures HexToByte(ByteToHex(b)[0], ByteToHex(b)[1]) == Some(b)
  {
  }
}
