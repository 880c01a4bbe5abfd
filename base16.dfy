/** The Base16 half of the codec: the upper-case hexadecimal alphabet of
    section 8 of RFC 4648, the encoder and the decoder with its
    character-to-value lookup. As for Base64, each operation is a method
    with the loop of `b16encode` or `b16decode`, proved equal to a function that describes
    its output. */
module Base16 {
  import opened Common
  import opened PyInt

  /** The 16 symbols; symbol v stands for the four-bit value v. */
  const Lookup16: string := "0123456789ABCDEF"

  /** The value of one input character for the decoder: 0..9 for the digits,
      10..15 for the upper-case letters A to F, and -1 for every other
      character, lower-case letters included. */
  function HexValue(c: char): (v: int)
    ensures -1 <= v < 16
  {
    if 'A' <= c <= 'F' then c as int - 'A' as int + 10
    else if '0' <= c <= '9' then c as int - '0' as int
    else -1
  }

  // ---------------------------------------------------------------------
  // Encoding. As in Base64, the table is a parameter and the encoder proper
  // is HexEncoding(Lookup16, s).
  // ---------------------------------------------------------------------

  /** The symbols of the first i bytes of s, two per byte: the high four bits
      first, then the low four bits. */
  function HexEncoding(b16chars: string, s: seq<ByteChar>, i: nat): string
    requires |b16chars| == 16 && i <= |s|
  {
    if i == 0 then []
    else HexEncoding(b16chars, s, i - 1) + [b16chars[s[i - 1] as int / 16], b16chars[s[i - 1] as int % 16]]
  }

  /** The encoding loop: two symbols appended per byte. The shift right by
      four and the mask with 0b1111 of a value 0..255 are its quotient and
      remainder by 16. */
  method B16Encode(input: seq<ByteChar>) returns (encoded: string)
    ensures encoded == HexEncoding(Lookup16, input, |input|)
  {
    var b16chars := Lookup16;
    var length := |input|;
    var out: string := [];
    for i := 0 to length
      invariant out == HexEncoding(b16chars, input, i)
    {
      var strByte := input[i] as int;
      var hi := strByte / 16;
      var lo := strByte % 16;
      out := out + [b16chars[hi]];
      out := out + [b16chars[lo]];
      assert out == HexEncoding(b16chars, input, i) + [b16chars[hi], b16chars[lo]];
    }
    encoded := out;
  }

  // ---------------------------------------------------------------------
  // Decoding
  // ---------------------------------------------------------------------

  /** The byte a pair of values gives: `chr` of the high value shifted left
      by four or-ed with the low value, which is rejected when that is
      negative, that is when either character has no value (PairByte). */
  function PackPair(hi: int, lo: int): (r: Result<ByteChar>)
    requires -1 <= hi < 16 && -1 <= lo < 16
    ensures r.Ok? <==> 0 <= hi && 0 <= lo
    ensures r.Err? ==> r.error == InvalidCharacter
    ensures r.Ok? ==> r.value as int / 16 == hi && r.value as int % 16 == lo
  {
    if hi < 0 || lo < 0 then Err(InvalidCharacter) else Ok(Chr(hi * 16 + lo))
  }

  /** The value `(hi << 4) | lo` the loop passes to `chr`: the sum of the two
      parts when both have a value, and negative, so rejected by `chr`, when
      either is -1. */
  lemma {:induction false} PairByte(hi: int, lo: int)
    requires -1 <= hi < 16 && -1 <= lo < 16
    ensures BitOr(hi * 16, lo) < 0 <==> hi < 0 || lo < 0
    ensures 0 <= hi && 0 <= lo ==> BitOr(hi * 16, lo) == hi * 16 + lo < 256
  {
    if lo < 0 {
      BitOrMinusOne(hi * 16);
    } else {
      BitOrLow(hi, 16, lo);
    }
  }

  /** The bytes of the pairs of t from position i on; the first pair with a
      character that has no value rejects the call. */
  function DecodePairs(t: string, i: nat): Result<seq<ByteChar>>
    decreases |t| - i
  {
    if i + 2 > |t| then Ok([])
    else
      match PackPair(HexValue(t[i]), HexValue(t[i + 1]))
      case Err(e) => Err(e)
      case Ok(x) => PrependOk([x], DecodePairs(t, i + 2))
  }

  /** The result of decoding t: rejected outright unless its length is even. */
  function HexDecoding(t: string): Result<seq<ByteChar>>
  {
    if |t| % 2 != 0 then Err(InvalidLength) else DecodePairs(t, 0)
  }

  /** The decoding loop: one byte per pair of characters. A pair that `chr`
      rejects ends the call with no output. */
  method B16Decode(input: string) returns (r: Result<seq<ByteChar>>)
    ensures r == HexDecoding(input)
  {
    var n := |input|;
    if n % 2 != 0 {
      return Err(InvalidLength);
    }
    var out: seq<ByteChar> := [];
    var i := 0;
    ghost var k, pairs := 0, n / 2;
    assert HexDecoding(input) == PrependOk(out, DecodePairs(input, i)) by {
      if DecodePairs(input, i).Ok? {
        assert out + DecodePairs(input, i).value == DecodePairs(input, i).value;
      }
    }
    while i < n
      invariant 0 <= k <= pairs && i == 2 * k && n == 2 * pairs
      invariant HexDecoding(input) == PrependOk(out, DecodePairs(input, i))
    {
      var hi := HexValue(input[i]);
      var lo := HexValue(input[i + 1]);
      var v := BitOr(hi * 16, lo);
      PairByte(hi, lo);
      if v < 0 {
        return Err(InvalidCharacter);
      }
      var rest := DecodePairs(input, i + 2);
      assert rest.Ok? ==> out + [Chr(v)] + rest.value == out + ([Chr(v)] + rest.value);
      out := out + [Chr(v)];
      i, k := i + 2, k + 1;
    }
    assert DecodePairs(input, i) == Ok([]);
    assert out + [] == out;
    return Ok(out);
  }
}
