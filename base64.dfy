/** The Base64 half of the codec: the alphabet of section 4 of RFC 4648, the
    character-to-value lookup, the encoder and the decoder. Each operation is a
    method with the loop of `b64encode` or `b64decode`, proved equal to a function that
    describes its output group by group. */
module Base64 {
  import opened Common
  import opened PyInt

  /** The 64 data symbols; symbol v stands for the six-bit value v. The string
      is written as its four ranges joined together. */
  const Lookup: string := "ABCDEFGHIJKLMNOPQRSTUVWXYZ" + "abcdefghijklmnopqrstuvwxyz" + "0123456789" + "+/"

  /** The value of one input character: its position in Lookup, 0 for the
      padding character `=`, and -1 for every other character (the lemmas
      AsciiToValueOfLookup and AsciiToValueInvalid relate it to Lookup). */
  function AsciiToValue(c: char): (v: int)
    ensures -1 <= v < 64
    ensures c == '=' ==> v == 0
  {
    if c == '=' then 0
    else if 'A' <= c <= 'Z' then c as int - 'A' as int
    else if 'a' <= c <= 'z' then c as int - 'a' as int + 26
    else if '0' <= c <= '9' then c as int - '0' as int + 52
    else if c == '+' then 62
    else if c == '/' then 63
    else -1
  }

  // ---------------------------------------------------------------------
  // Encoding. The encoder reads its symbols from a local alias `b64chars` of
  // the table; the functions below take that table as a parameter, and the
  // encoder proper is Encoding(Lookup, s).
  // ---------------------------------------------------------------------

  /** The four symbols of a full group: the 24 bits of x, y, z cut into four
      six-bit values, most significant first. */
  function EncodeTriple(b64chars: string, x: ByteChar, y: ByteChar, z: ByteChar): (r: string)
    requires |b64chars| == 64
    ensures |r| == 4
    ensures r[0] in b64chars && r[1] in b64chars && r[2] in b64chars && r[3] in b64chars
  {
    var a, b, c := x as int, y as int, z as int;
    [b64chars[a / 4], b64chars[(a * 16) % 64 + b / 16], b64chars[(b * 4) % 64 + c / 64], b64chars[c % 64]]
  }

  /** The last group when one or two bytes are left over after position end:
      the missing bits are zero and the group is filled up to four symbols
      with `=`. */
  function EncodeTail(b64chars: string, s: seq<ByteChar>, end: nat): (r: string)
    requires |b64chars| == 64 && end < |s| <= end + 2
    ensures |r| == 4 && r[0] in b64chars && r[1] in b64chars && r[3] == '='
    ensures end == |s| - 1 ==> r[2] == '='
    ensures end < |s| - 1 ==> r[2] in b64chars
  {
    var a := s[end] as int;
    if end == |s| - 1 then
      [b64chars[a / 4], b64chars[(a * 16) % 64], '=', '=']
    else
      var b := s[end + 1] as int;
      [b64chars[a / 4], b64chars[(a * 16) % 64 + b / 16], b64chars[(b * 4) % 64], '=']
  }

  /** The symbols of the groups of three bytes ending at i, i - 3, i - 6, ...;
      when i is a multiple of three, of all the whole groups in s[..i]. */
  function EncodeGroups(b64chars: string, s: seq<ByteChar>, i: nat): string
    requires |b64chars| == 64 && i <= |s|
  {
    if i < 3 then []
    else EncodeGroups(b64chars, s, i - 3) + EncodeTriple(b64chars, s[i - 3], s[i - 2], s[i - 1])
  }

  /** The Base64 text of s: its whole groups of three bytes, then the padded
      tail group when one or two bytes are left over. */
  function Encoding(b64chars: string, s: seq<ByteChar>): string
    requires |b64chars| == 64
  {
    var end := |s| - |s| % 3;
    EncodeGroups(b64chars, s, end) + (if end < |s| then EncodeTail(b64chars, s, end) else [])
  }

  /** One pass of the encoding loop at position i, written the way the loop
      computes it: the symbol positions are in range, and appending the four
      symbols one at a time extends the groups before i by the group at i. */
  lemma EncodeStep(b64chars: string, s: seq<ByteChar>, i: nat, out: string)
    requires |b64chars| == 64 && i + 3 <= |s| && out == EncodeGroups(b64chars, s, i)
    ensures var si, si1, si2 := s[i] as int, s[i + 1] as int, s[i + 2] as int;
      && 0 <= (si * 16) % 64 + si1 / 16 < 64 && 0 <= (si1 * 4) % 64 + si2 / 64 < 64
      && out + [b64chars[si / 4]] + [b64chars[(si * 16) % 64 + si1 / 16]]
             + [b64chars[(si1 * 4) % 64 + si2 / 64]] + [b64chars[si2 % 64]]
         == EncodeGroups(b64chars, s, i + 3)
  {
    var si, si1, si2 := s[i] as int, s[i + 1] as int, s[i + 2] as int;
    var q := EncodeTriple(b64chars, s[i], s[i + 1], s[i + 2]);
    assert out + [q[0]] + [q[1]] + [q[2]] + [q[3]] == out + q;
  }

  /** The rest of the encoding loop, after the whole groups: with one byte
      left over, two symbols and two `=`; with two, three symbols and one
      `=`; with none, nothing. */
  lemma EncodeFinish(b64chars: string, s: seq<ByteChar>, end: nat, out: string)
    requires |b64chars| == 64 && end == |s| - |s| % 3 && out == EncodeGroups(b64chars, s, end)
    ensures end == |s| ==> out == Encoding(b64chars, s)
    ensures end == |s| - 1 ==>
      var si := s[end] as int;
      out + [b64chars[si / 4]] + [b64chars[(si * 16) % 64]] + ['='] + ['='] == Encoding(b64chars, s)
    ensures end == |s| - 2 ==>
      var si, si1 := s[end] as int, s[end + 1] as int;
      && 0 <= (si * 16) % 64 + si1 / 16 < 64
      && out + [b64chars[si / 4]] + [b64chars[(si * 16) % 64 + si1 / 16]] + [b64chars[(si1 * 4) % 64]] + ['=']
         == Encoding(b64chars, s)
    ensures end == |s| || end == |s| - 1 || end == |s| - 2
  {
    if end < |s| {
      var q := EncodeTail(b64chars, s, end);
      assert out + [q[0]] + [q[1]] + [q[2]] + [q[3]] == out + q;
    }
  }

  /** The encoding loop over the table b64chars: four symbols appended per
      three bytes, then the padded tail group if bytes are left over. */
  method EncodeWith(b64chars: string, input: seq<ByteChar>) returns (encoded: string)
    requires |b64chars| == 64
    ensures encoded == Encoding(b64chars, input)
  {
    var length := |input|;
    var out: string := [];
    var end := length - length % 3;
    var i := 0;
    ghost var k, groups := 0, length / 3;
    while i < end
      invariant 0 <= k <= groups && i == 3 * k && end == 3 * groups
      invariant out == EncodeGroups(b64chars, input, i)
    {
      EncodeStep(b64chars, input, i, out);
      var si, si1, si2 := input[i] as int, input[i + 1] as int, input[i + 2] as int;
      out := out + [b64chars[si / 4]];
      out := out + [b64chars[(si * 16) % 64 + si1 / 16]];
      out := out + [b64chars[(si1 * 4) % 64 + si2 / 64]];
      out := out + [b64chars[si2 % 64]];
      i, k := i + 3, k + 1;
    }
    assert i == end;
    EncodeFinish(b64chars, input, end, out);
    if end < length {
      var si := input[end] as int;
      out := out + [b64chars[si / 4]];
      if end == length - 1 {
        out := out + [b64chars[(si * 16) % 64]];
        out := out + ['='];
      } else if end == length - 2 {
        var si1 := input[end + 1] as int;
        out := out + [b64chars[(si * 16) % 64 + si1 / 16]];
        out := out + [b64chars[(si1 * 4) % 64]];
      }
      out := out + ['='];
    }
    encoded := out;
  }

  /** Base64-encodes a byte string with the table Lookup. */
  method B64Encode(input: seq<ByteChar>) returns (encoded: string)
    ensures encoded == Encoding(Lookup, input)
  {
    encoded := EncodeWith(Lookup, input);
  }

  // ---------------------------------------------------------------------
  // Decoding
  // ---------------------------------------------------------------------

  /** What one pass of the decoding loop emits, and whether the loop stops
      after it. */
  datatype Group = Group(bytes: seq<ByteChar>, last: bool)

  /** The three byte values a decoding pass assembles from four six-bit
      values (each a shift left or-ed with a shift right) are the plain sums
      of the two parts, and so fit in a byte. */
  lemma PackBounds(a: int, b: int, c: int, d: int)
    requires 0 <= a < 64 && 0 <= b < 64 && 0 <= c < 64 && 0 <= d < 64
    ensures BitOr(a * 4, b / 16) == a * 4 + b / 16 < 256
    ensures BitOr((b % 16) * 16, c / 4) == (b % 16) * 16 + c / 4 < 256
    ensures BitOr((c % 4) * 64, d) == (c % 4) * 64 + d < 256
  {
    BitOrLow(a, 4, b / 16);
    BitOrLow(b % 16, 16, c / 4);
    BitOrLow(c % 4, 64, d);
  }

  /** One group of four characters. Any character without a value rejects the
      call. Otherwise the four six-bit values are put back together into
      three bytes, each made of the low bits of one value above the high bits
      of the next; a `=` in the third place stops after the first byte, a `=`
      in the fourth place after the second. A `=` is worth 0 wherever it is.
      The loop joins the two parts of a byte with `|`; here they are added,
      which PackBounds shows is the same. */
  function DecodeQuad(c0: char, c1: char, c2: char, c3: char): (r: Result<Group>)
    ensures r.Ok? <==> AsciiToValue(c0) >= 0 && AsciiToValue(c1) >= 0 && AsciiToValue(c2) >= 0 && AsciiToValue(c3) >= 0
    ensures r.Err? ==> r.error == InvalidCharacter
    ensures r.Ok? ==> (r.value.last <==> c2 == '=' || c3 == '=')
    ensures r.Ok? ==> |r.value.bytes| == (if c2 == '=' then 1 else if c3 == '=' then 2 else 3)
    ensures r.Ok? ==> r.value.bytes[0] as int / 4 == AsciiToValue(c0)
    ensures r.Ok? && |r.value.bytes| == 3 ==> r.value.bytes[2] as int % 64 == AsciiToValue(c3)
  {
    var a, b, c, d := AsciiToValue(c0), AsciiToValue(c1), AsciiToValue(c2), AsciiToValue(c3);
    if !(a >= 0 && b >= 0 && c >= 0 && d >= 0) then Err(InvalidCharacter)
    else
      var x := Chr(a * 4 + b / 16);
      if c2 == '=' then Ok(Group([x], true))
      else
        var y := Chr((b % 16) * 16 + c / 4);
        if c3 == '=' then Ok(Group([x, y], true))
        else Ok(Group([x, y, Chr((c % 4) * 64 + d)], false))
  }

  /** The groups of t from position i on, up to and including the first group
      that stops the loop; the groups after it are never looked at. */
  function DecodeGroups(t: string, i: nat): Result<seq<ByteChar>>
    decreases |t| - i
  {
    if i + 4 > |t| then Ok([])
    else
      match DecodeQuad(t[i], t[i + 1], t[i + 2], t[i + 3])
      case Err(e) => Err(e)
      case Ok(g) => if g.last then Ok(g.bytes) else PrependOk(g.bytes, DecodeGroups(t, i + 4))
  }

  /** The result of decoding t: rejected outright unless its length is a
      multiple of four. */
  function Decoding(t: string): Result<seq<ByteChar>>
  {
    if |t| % 4 != 0 then Err(InvalidLength) else DecodeGroups(t, 0)
  }

  /** Whether the four characters at position i of t all have a value. */
  predicate ValidAt(t: string, i: nat)
    requires i + 4 <= |t|
  {
    AsciiToValue(t[i]) >= 0 && AsciiToValue(t[i + 1]) >= 0 && AsciiToValue(t[i + 2]) >= 0 && AsciiToValue(t[i + 3]) >= 0
  }

  /** Appending a group's bytes one at a time, then what decoding the rest
      gives. */
  lemma PrependBytes(prefix: seq<ByteChar>, x: ByteChar, y: ByteChar, z: ByteChar, rest: Result<seq<ByteChar>>)
    ensures PrependOk(prefix, Ok([x])) == Ok(prefix + [x])
    ensures PrependOk(prefix, Ok([x, y])) == Ok(prefix + [x] + [y])
    ensures PrependOk(prefix, PrependOk([x, y, z], rest)) == PrependOk(prefix + [x] + [y] + [z], rest)
  {
    assert prefix + [x] + [y] == prefix + [x, y];
    if rest.Ok? {
      assert prefix + ([x, y, z] + rest.value) == prefix + [x] + [y] + [z] + rest.value;
    }
  }

  /** One pass of the decoding loop at position i, after `prefix` has been
      emitted, written the way the loop computes it: a character without a
      value rejects the call, a `=` in the third or fourth place ends the
      output after one or two more bytes, and otherwise three bytes are
      followed by the groups from i + 4 on. */
  lemma DecodeStep(t: string, i: nat, prefix: seq<ByteChar>)
    requires i + 4 <= |t|
    ensures !ValidAt(t, i) ==> PrependOk(prefix, DecodeGroups(t, i)) == Err(InvalidCharacter)
    ensures ValidAt(t, i) ==>
      var a, b := AsciiToValue(t[i]), AsciiToValue(t[i + 1]);
      var c, d := AsciiToValue(t[i + 2]), AsciiToValue(t[i + 3]);
      var x, y, z := BitOr(a * 4, b / 16), BitOr((b % 16) * 16, c / 4), BitOr((c % 4) * 64, d);
      && 0 <= x < 256 && 0 <= y < 256 && 0 <= z < 256
      && (if t[i + 2] == '=' then
            PrependOk(prefix, DecodeGroups(t, i)) == Ok(prefix + [Chr(x)])
          else if t[i + 3] == '=' then
            PrependOk(prefix, DecodeGroups(t, i)) == Ok(prefix + [Chr(x)] + [Chr(y)])
          else
            PrependOk(prefix, DecodeGroups(t, i)) == PrependOk(prefix + [Chr(x)] + [Chr(y)] + [Chr(z)], DecodeGroups(t, i + 4)))
  {
    if ValidAt(t, i) {
      var a, b, c, d := AsciiToValue(t[i]), AsciiToValue(t[i + 1]), AsciiToValue(t[i + 2]), AsciiToValue(t[i + 3]);
      PackBounds(a, b, c, d);
      PrependBytes(prefix, Chr(BitOr(a * 4, b / 16)), Chr(BitOr((b % 16) * 16, c / 4)), Chr(BitOr((c % 4) * 64, d)), DecodeGroups(t, i + 4));
    }
  }

  /** Decodes four characters per pass, appending one to three bytes, and
      leaves the loop at the first group with `=` in its third or fourth
      place. A rejected group ends the call with no output. */
  method B64Decode(input: string) returns (r: Result<seq<ByteChar>>)
    ensures r == Decoding(input)
  {
    var n := |input|;
    if n % 4 != 0 {
      return Err(InvalidLength);
    }
    var out: seq<ByteChar> := [];
    var i := 0;
    ghost var k, groups := 0, n / 4;
    assert Decoding(input) == PrependOk(out, DecodeGroups(input, i)) by {
      if DecodeGroups(input, i).Ok? {
        assert out + DecodeGroups(input, i).value == DecodeGroups(input, i).value;
      }
    }
    while i < n
      invariant 0 <= k <= groups && i == 4 * k && n == 4 * groups
      invariant Decoding(input) == PrependOk(out, DecodeGroups(input, i))
    {
      var a := AsciiToValue(input[i]);
      var b := AsciiToValue(input[i + 1]);
      var c := AsciiToValue(input[i + 2]);
      var d := AsciiToValue(input[i + 3]);
      DecodeStep(input, i, out);
      if !(a >= 0 && b >= 0 && c >= 0 && d >= 0) {
        return Err(InvalidCharacter);
      }
      out := out + [Chr(BitOr(a * 4, b / 16))];
      if input[i + 2] == '=' {
        assert Decoding(input) == Ok(out);
        break;
      }
      out := out + [Chr(BitOr((b % 16) * 16, c / 4))];
      if input[i + 3] == '=' {
        assert Decoding(input) == Ok(out);
        break;
      }
      out := out + [Chr(BitOr((c % 4) * 64, d))];
      i, k := i + 4, k + 1;
    }
    if i == n {
      assert DecodeGroups(input, i) == Ok([]);
      assert out + [] == out;
    }
    return Ok(out);
  }
}
