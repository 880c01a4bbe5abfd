/** What the Base64 codec promises, proved about the functions that describe
    its encoder and decoder: the character lookup inverts the table, the
    output has the advertised length, alphabet and padding, decoding an
    encoding gives back the bytes, a text without padding is accepted exactly
    when it is made of whole groups of table symbols, and nothing after a
    padded group is read. */
module Base64Laws {
  import opened Common
  import opened PyInt
  import opened Base64

  /** A run of consecutive characters: its j-th character is j past its
      first. */
  predicate Consecutive(r: string)
  {
    forall j :: 0 <= j < |r| ==> r[j] as int == r[0] as int + j
  }

  lemma UpperConsecutive()
    ensures Consecutive("ABCDEFGHIJKLMNOPQRSTUVWXYZ")
  {
  }

  lemma LowerConsecutive()
    ensures Consecutive("abcdefghijklmnopqrstuvwxyz")
  {
  }

  lemma DigitsConsecutive()
    ensures Consecutive("0123456789")
  {
  }

  /** The symbol of each value: its place in one of the four ranges that make
      up the table. */
  lemma LookupRanges(v: int)
    requires 0 <= v < 64
    ensures v < 26 ==> Lookup[v] as int == 'A' as int + v
    ensures 26 <= v < 52 ==> Lookup[v] as int == 'a' as int + (v - 26)
    ensures 52 <= v < 62 ==> Lookup[v] as int == '0' as int + (v - 52)
    ensures v == 62 ==> Lookup[v] == '+'
    ensures v == 63 ==> Lookup[v] == '/'
  {
    var upper, lower, digits := "ABCDEFGHIJKLMNOPQRSTUVWXYZ", "abcdefghijklmnopqrstuvwxyz", "0123456789";
    UpperConsecutive();
    LowerConsecutive();
    DigitsConsecutive();
    assert Lookup == upper + lower + digits + "+/";
    if v < 26 {
      assert Lookup[v] == upper[v];
    } else if v < 52 {
      assert Lookup[v] == lower[v - 26];
    } else if v < 62 {
      assert Lookup[v] == digits[v - 52];
    }
  }

  /** The lookup gives every symbol of the table its position in it. */
  lemma {:induction false} AsciiToValueOfLookup(v: int)
    requires 0 <= v < 64
    ensures AsciiToValue(Lookup[v]) == v
  {
    LookupRanges(v);
  }

  /** A character with a value other than the padding character is the
      table's symbol for that value. */
  lemma {:induction false} LookupOfAsciiToValue(c: char)
    requires AsciiToValue(c) >= 0 && c != '='
    ensures Lookup[AsciiToValue(c)] == c
  {
    LookupRanges(AsciiToValue(c));
  }

  /** The padding character is not one of the 64 symbols. */
  lemma {:induction false} PadNotInLookup()
    ensures '=' !in Lookup
  {
    forall v | 0 <= v < 64
      ensures Lookup[v] != '='
    {
      LookupRanges(v);
    }
  }

  /** Exactly the characters outside the table other than `=` have no value. */
  lemma {:induction false} AsciiToValueInvalid(c: char)
    ensures AsciiToValue(c) == -1 <==> c != '=' && c !in Lookup
  {
    if AsciiToValue(c) >= 0 && c != '=' {
      LookupOfAsciiToValue(c);
    }
    if c in Lookup {
      var v :| 0 <= v < 64 && Lookup[v] == c;
      AsciiToValueOfLookup(v);
    }
  }

  // ---------------------------------------------------------------------
  // Shape of the encoding
  // ---------------------------------------------------------------------

  /** Four symbols per whole group. */
  lemma {:induction false} EncodeGroupsLength(t: string, s: seq<ByteChar>, n: nat)
    requires |t| == 64 && 3 * n <= |s|
    ensures |EncodeGroups(t, s, 3 * n)| == 4 * n
  {
    if n > 0 {
      EncodeGroupsLength(t, s, n - 1);
      assert 3 * n - 3 == 3 * (n - 1);
    }
  }

  /** Encoding more whole groups only appends symbols. */
  lemma {:induction false} EncodeGroupsPrefix(t: string, s: seq<ByteChar>, m: nat, n: nat)
    requires |t| == 64 && m <= n && 3 * n <= |s|
    ensures EncodeGroups(t, s, 3 * m) <= EncodeGroups(t, s, 3 * n)
    decreases n
  {
    if m < n {
      EncodeGroupsPrefix(t, s, m, n - 1);
      assert 3 * n - 3 == 3 * (n - 1);
    }
  }

  /** Group j of the first n whole groups sits at positions 4j to 4j + 3. */
  lemma {:induction false} EncodeGroupsAt(t: string, s: seq<ByteChar>, n: nat, j: nat)
    requires |t| == 64 && 3 * n <= |s| && j < n
    ensures |EncodeGroups(t, s, 3 * n)| == 4 * n
    ensures EncodeGroups(t, s, 3 * n)[4 * j..4 * j + 4] == EncodeTriple(t, s[3 * j], s[3 * j + 1], s[3 * j + 2])
  {
    EncodeGroupsLength(t, s, n);
    EncodeGroupsLength(t, s, j);
    EncodeGroupsLength(t, s, j + 1);
    EncodeGroupsPrefix(t, s, j + 1, n);
    var whole := EncodeGroups(t, s, 3 * n);
    var upTo := EncodeGroups(t, s, 3 * (j + 1));
    var before := EncodeGroups(t, s, 3 * j);
    var q := EncodeTriple(t, s[3 * j], s[3 * j + 1], s[3 * j + 2]);
    assert 3 * (j + 1) - 3 == 3 * j;
    assert upTo == before + q;
    assert upTo == whole[..4 * j + 4];
    assert upTo[4 * j..] == q;
  }

  lemma FourTimes(k: int)
    ensures (4 * k) % 4 == 0
  {
  }

  /** Counting started groups of three. */
  lemma CeilThird(n: nat)
    ensures n - n % 3 == 3 * (n / 3)
    ensures (n + 2) / 3 == n / 3 + (if n % 3 == 0 then 0 else 1)
  {
  }

  /** The encoding of n bytes has four symbols for every started group of
      three: 4 * ceil(n / 3). */
  lemma {:induction false} EncodingLength(t: string, s: seq<ByteChar>)
    requires |t| == 64
    ensures |Encoding(t, s)| == 4 * ((|s| + 2) / 3)
    ensures |Encoding(t, s)| % 4 == 0
  {
    EncodingParts(t, s);
    CeilThird(|s|);
    var n := |s| / 3;
    var tail := if 3 * n < |s| then EncodeTail(t, s, 3 * n) else [];
    assert |tail| == if 3 * n < |s| then 4 else 0;
    var k := (|s| + 2) / 3;
    assert |Encoding(t, s)| == 4 * k;
    FourTimes(k);
  }

  /** Splitting three bytes into four six-bit values and packing them back
      gives the three bytes again. With y and z zero this also covers the
      groups of one and two bytes that end an encoding. */
  lemma SextetsRoundTrip(x: int, y: int, z: int)
    requires 0 <= x < 256 && 0 <= y < 256 && 0 <= z < 256
    ensures (x * 16) % 64 + y / 16 < 64 && (y * 4) % 64 + z / 64 < 64
    ensures x / 4 * 4 + ((x * 16) % 64 + y / 16) / 16 == x
    ensures (((x * 16) % 64 + y / 16) % 16) * 16 + ((y * 4) % 64 + z / 64) / 4 == y
    ensures (((y * 4) % 64 + z / 64) % 4) * 64 + z % 64 == z
  {
    assert (x * 16) % 64 == (x % 4) * 16;
    assert ((x * 16) % 64 + y / 16) / 16 == x % 4;
    assert ((x * 16) % 64 + y / 16) % 16 == y / 16;
    assert (y * 4) % 64 == (y % 16) * 4;
    assert ((y * 4) % 64 + z / 64) / 4 == y % 16;
    assert ((y * 4) % 64 + z / 64) % 4 == z / 64;
  }

  /** A table of 64 symbols that the decoder reads back: every symbol has
      its own position as value, and none is the pad. */
  predicate ReadBack(t: string)
  {
    |t| == 64 && forall v :: 0 <= v < 64 ==> AsciiToValue(t[v]) == v && t[v] != '='
  }

  /** The standard table is read back. */
  lemma {:induction false} LookupReadBack()
    ensures ReadBack(Lookup)
  {
    PadNotInLookup();
    forall v | 0 <= v < 64
      ensures AsciiToValue(Lookup[v]) == v && Lookup[v] != '='
    {
      AsciiToValueOfLookup(v);
      assert Lookup[v] in Lookup;
    }
  }

  /** Four symbols of a table that is read back, none of them a pad, decode
      to the three bytes they pack. */
  lemma {:induction false} DecodeSymbols(t: string, a: int, b: int, c: int, d: int)
    requires ReadBack(t)
    requires 0 <= a < 64 && 0 <= b < 64 && 0 <= c < 64 && 0 <= d < 64
    ensures a * 4 + b / 16 < 256 && (b % 16) * 16 + c / 4 < 256 && (c % 4) * 64 + d < 256
    ensures DecodeQuad(t[a], t[b], t[c], t[d])
         == Ok(Group([Chr(a * 4 + b / 16), Chr((b % 16) * 16 + c / 4), Chr((c % 4) * 64 + d)], false))
  {
    assert AsciiToValue(t[a]) == a && AsciiToValue(t[b]) == b;
    assert AsciiToValue(t[c]) == c && AsciiToValue(t[d]) == d;
    assert t[c] != '=' && t[d] != '=';
  }

  /** A group of four symbols written for three bytes decodes to those
      bytes, and decoding goes on. */
  lemma {:induction false} DecodeWholeGroup(t: string, x: ByteChar, y: ByteChar, z: ByteChar)
    requires ReadBack(t)
    ensures var q := EncodeTriple(t, x, y, z);
      DecodeQuad(q[0], q[1], q[2], q[3]) == Ok(Group([x, y, z], false))
  {
    var q := EncodeTriple(t, x, y, z);
    var i, j, k := x as int, y as int, z as int;
    var a, b, c, d := i / 4, (i * 16) % 64 + j / 16, (j * 4) % 64 + k / 64, k % 64;
    SextetsRoundTrip(i, j, k);
    DecodeSymbols(t, a, b, c, d);
    assert q == [t[a], t[b], t[c], t[d]];
    assert Chr(a * 4 + b / 16) == x;
    assert Chr((b % 16) * 16 + c / 4) == y;
    assert Chr((c % 4) * 64 + d) == z;
  }

  /** The padded group written for one byte x decodes to x alone. */
  lemma {:induction false} DecodeOneByteGroup(t: string, x: ByteChar)
    requires ReadBack(t)
    ensures var i := x as int;
      DecodeQuad(t[i / 4], t[(i * 16) % 64], '=', '=') == Ok(Group([x], true))
  {
    var i := x as int;
    var a, b := i / 4, (i * 16) % 64;
    SextetsRoundTrip(i, 0, 0);
    assert AsciiToValue(t[a]) == a && AsciiToValue(t[b]) == b;
    assert Chr(a * 4 + b / 16) == x;
  }

  /** The padded group written for two bytes x, y decodes to x, y. */
  lemma {:induction false} DecodeTwoByteGroup(t: string, x: ByteChar, y: ByteChar)
    requires ReadBack(t)
    ensures var i, j := x as int, y as int;
      && (i * 16) % 64 + j / 16 < 64
      && DecodeQuad(t[i / 4], t[(i * 16) % 64 + j / 16], t[(j * 4) % 64], '=') == Ok(Group([x, y], true))
  {
    var i, j := x as int, y as int;
    var a, b, c := i / 4, (i * 16) % 64 + j / 16, (j * 4) % 64;
    SextetsRoundTrip(i, j, 0);
    assert AsciiToValue(t[a]) == a && AsciiToValue(t[b]) == b && AsciiToValue(t[c]) == c;
    assert t[c] != '=';
    assert Chr(a * 4 + b / 16) == x;
    assert Chr((b % 16) * 16 + c / 4) == y;
  }

  /** The padded group that ends an encoding decodes to the one or two bytes
      it was written for, and decoding stops there. */
  lemma {:induction false} DecodeTailGroup(t: string, s: seq<ByteChar>, end: nat)
    requires ReadBack(t) && end < |s| <= end + 2
    ensures var q := EncodeTail(t, s, end);
      DecodeQuad(q[0], q[1], q[2], q[3]) == Ok(Group(s[end..], true))
  {
    if end == |s| - 1 {
      DecodeOneByteGroup(t, s[end]);
      assert s[end..] == [s[end]];
    } else {
      DecodeTwoByteGroup(t, s[end], s[end + 1]);
      assert s[end..] == [s[end], s[end + 1]];
    }
  }

  /** A group that does not stop the decoder puts its bytes in front of what
      the groups after it give. */
  lemma GroupGoesOn(e: string, i: nat, q: string, bytes: seq<ByteChar>)
    requires i + 4 <= |e| && |q| == 4 && e[i..i + 4] == q
    requires DecodeQuad(q[0], q[1], q[2], q[3]) == Ok(Group(bytes, false))
    ensures DecodeGroups(e, i) == PrependOk(bytes, DecodeGroups(e, i + 4))
  {
    assert e[i] == q[0] && e[i + 1] == q[1] && e[i + 2] == q[2] && e[i + 3] == q[3];
  }

  /** A group that stops the decoder gives its bytes and nothing more. */
  lemma GroupStops(e: string, i: nat, q: string, bytes: seq<ByteChar>)
    requires i + 4 <= |e| && |q| == 4 && e[i..i + 4] == q
    requires DecodeQuad(q[0], q[1], q[2], q[3]) == Ok(Group(bytes, true))
    ensures DecodeGroups(e, i) == Ok(bytes)
  {
    assert e[i] == q[0] && e[i + 1] == q[1] && e[i + 2] == q[2] && e[i + 3] == q[3];
  }

  /** The bytes of s from i on are the three at i followed by the rest. */
  lemma SplitThree(s: seq<ByteChar>, j: nat)
    requires 3 * j + 3 <= |s|
    ensures s[3 * j..] == [s[3 * j], s[3 * j + 1], s[3 * j + 2]] + s[3 * (j + 1)..]
  {
    assert 3 * (j + 1) == 3 * j + 3;
    assert s[3 * j..][3..] == s[3 * j + 3..];
  }

  /** The encoding of s is its whole groups followed by the padded group,
      if any, with four symbols per whole group. */
  lemma {:induction false} EncodingParts(t: string, s: seq<ByteChar>)
    requires |t| == 64
    ensures 3 * (|s| / 3) == |s| - |s| % 3
    ensures |EncodeGroups(t, s, 3 * (|s| / 3))| == 4 * (|s| / 3)
    ensures Encoding(t, s) == EncodeGroups(t, s, 3 * (|s| / 3))
      + (if 3 * (|s| / 3) < |s| then EncodeTail(t, s, 3 * (|s| / 3)) else [])
  {
    CeilThird(|s|);
    EncodeGroupsLength(t, s, |s| / 3);
  }

  /** Group j of the encoding of s, a whole group, is the four symbols
      written for bytes 3j to 3j + 2. */
  lemma {:induction false} EncodingGroup(t: string, s: seq<ByteChar>, j: nat)
    requires |t| == 64 && j < |s| / 3
    ensures 4 * j + 4 <= |Encoding(t, s)|
    ensures Encoding(t, s)[4 * j..4 * j + 4] == EncodeTriple(t, s[3 * j], s[3 * j + 1], s[3 * j + 2])
  {
    var n := |s| / 3;
    var e := Encoding(t, s);
    var whole := EncodeGroups(t, s, 3 * n);
    EncodingParts(t, s);
    EncodeGroupsAt(t, s, n, j);
    assert e[..4 * n] == whole;
    assert e[4 * j..4 * j + 4] == whole[4 * j..4 * j + 4];
  }

  /** Group j of the encoding of s, a whole group, decodes to bytes 3j to
      3j + 2 and hands on to group j + 1. */
  lemma {:induction false} DecodeEncodingStep(t: string, s: seq<ByteChar>, j: nat)
    requires ReadBack(t) && j < |s| / 3
    ensures DecodeGroups(Encoding(t, s), 4 * j)
         == PrependOk([s[3 * j], s[3 * j + 1], s[3 * j + 2]], DecodeGroups(Encoding(t, s), 4 * (j + 1)))
  {
    var q := EncodeTriple(t, s[3 * j], s[3 * j + 1], s[3 * j + 2]);
    EncodingGroup(t, s, j);
    DecodeWholeGroup(t, s[3 * j], s[3 * j + 1], s[3 * j + 2]);
    GroupGoesOn(Encoding(t, s), 4 * j, q, [s[3 * j], s[3 * j + 1], s[3 * j + 2]]);
    assert 4 * (j + 1) == 4 * j + 4;
  }

  /** What is left of the encoding of s after its whole groups decodes to
      the bytes left over after them. */
  lemma {:induction false} DecodeEncodingLast(t: string, s: seq<ByteChar>)
    requires ReadBack(t)
    ensures DecodeGroups(Encoding(t, s), 4 * (|s| / 3)) == Ok(s[3 * (|s| / 3)..])
  {
    var n := |s| / 3;
    var e := Encoding(t, s);
    EncodingParts(t, s);
    if 3 * n < |s| {
      var q := EncodeTail(t, s, 3 * n);
      assert e[4 * n..4 * n + 4] == q;
      assert DecodeQuad(q[0], q[1], q[2], q[3]) == Ok(Group(s[3 * n..], true)) by {
        DecodeTailGroup(t, s, 3 * n);
      }
      GroupStops(e, 4 * n, q, s[3 * n..]);
    } else {
      assert |e| == 4 * n;
      assert s[3 * n..] == [];
    }
  }

  /** Bytes put in front of a decoding that succeeds. */
  lemma PrependGlue(r: Result<seq<ByteChar>>, prefix: seq<ByteChar>, rest: Result<seq<ByteChar>>, tail: seq<ByteChar>)
    requires r == PrependOk(prefix, rest) && rest == Ok(tail)
    ensures r == Ok(prefix + tail)
  {
  }

  /** Decoding the encoding of s from its group j on gives back s from
      byte 3j on. */
  lemma {:induction false} DecodeEncodingFrom(t: string, s: seq<ByteChar>, j: nat)
    requires ReadBack(t) && j <= |s| / 3
    ensures DecodeGroups(Encoding(t, s), 4 * j) == Ok(s[3 * j..])
    decreases |s| / 3 - j
  {
    if j == |s| / 3 {
      DecodeEncodingLast(t, s);
    } else {
      var e := Encoding(t, s);
      DecodeEncodingStep(t, s, j);
      DecodeEncodingFrom(t, s, j + 1);
      SplitThree(s, j);
      PrependGlue(DecodeGroups(e, 4 * j), [s[3 * j], s[3 * j + 1], s[3 * j + 2]], DecodeGroups(e, 4 * (j + 1)), s[3 * (j + 1)..]);
    }
  }

  /** Decoding undoes encoding with any table the decoder reads back. */
  lemma {:induction false} DecodeEncodeWith(t: string, s: seq<ByteChar>)
    requires ReadBack(t)
    ensures Decoding(Encoding(t, s)) == Ok(s)
  {
    EncodingLength(t, s);
    DecodeEncodingFrom(t, s, 0);
    assert 4 * 0 == 0 && s[3 * 0..] == s;
  }

  /** Decoding undoes encoding with the standard table. */
  lemma {:induction false} DecodeEncode(s: seq<ByteChar>)
    ensures Decoding(Encoding(Lookup, s)) == Ok(s)
  {
    LookupReadBack();
    DecodeEncodeWith(Lookup, s);
  }

  // ---------------------------------------------------------------------
  // Alphabet and padding of the encoding
  // ---------------------------------------------------------------------

  /** How many `=` end the encoding of n bytes: two when one byte is left
      over after the whole groups, one when two are, none otherwise. */
  function PadCount(n: nat): nat
  {
    if n % 3 == 0 then 0 else 3 - n % 3
  }

  /** The four symbols of a whole group are table symbols. */
  lemma TripleSymbols(t: string, x: ByteChar, y: ByteChar, z: ByteChar)
    requires |t| == 64
    ensures forall r :: 0 <= r < 4 ==> EncodeTriple(t, x, y, z)[r] in t
  {
    var q := EncodeTriple(t, x, y, z);
    assert q[0] in t && q[1] in t && q[2] in t && q[3] in t;
  }

  /** Every symbol of a whole group is a table symbol. */
  lemma {:induction false} WholeGroupSymbol(t: string, s: seq<ByteChar>, n: nat, j: nat)
    requires |t| == 64 && 3 * n <= |s| && j < 4 * n
    ensures |EncodeGroups(t, s, 3 * n)| == 4 * n
    ensures EncodeGroups(t, s, 3 * n)[j] in t
  {
    var g := j / 4;
    assert 4 * g <= j < 4 * g + 4 && g < n;
    EncodeGroupsAt(t, s, n, g);
    TripleSymbols(t, s[3 * g], s[3 * g + 1], s[3 * g + 2]);
    var whole := EncodeGroups(t, s, 3 * n);
    assert whole[j] == whole[4 * g..4 * g + 4][j - 4 * g];
  }

  /** Symbol j of an encoding over a table without `=` is `=` exactly in the
      last PadCount places, and a table symbol everywhere else. */
  lemma {:induction false} EncodingSymbolAt(t: string, s: seq<ByteChar>, j: nat)
    requires |t| == 64 && '=' !in t && j < |Encoding(t, s)|
    ensures Encoding(t, s)[j] == '=' <==> j >= |Encoding(t, s)| - PadCount(|s|)
    ensures Encoding(t, s)[j] != '=' ==> Encoding(t, s)[j] in t
  {
    var n := |s| / 3;
    var e := Encoding(t, s);
    EncodingParts(t, s);
    var whole := EncodeGroups(t, s, 3 * n);
    if j < 4 * n {
      WholeGroupSymbol(t, s, n, j);
      assert e[j] == whole[j];
    } else {
      var q := EncodeTail(t, s, 3 * n);
      assert e[j] == q[j - 4 * n];
      assert |e| == 4 * n + 4;
      assert q[0] in t && q[1] in t;
      if 3 * n + 1 < |s| {
        assert q[2] in t;
      }
    }
  }

  /** The Base64 text of any bytes is made of table symbols followed by the
      PadCount padding characters. */
  lemma {:induction false} EncodingAlphabet(s: seq<ByteChar>)
    ensures var r := Encoding(Lookup, s);
      forall j :: 0 <= j < |r| ==> (r[j] == '=' <==> j >= |r| - PadCount(|s|))
    ensures var r := Encoding(Lookup, s);
      forall j :: 0 <= j < |r| ==> r[j] == '=' || r[j] in Lookup
  {
    var r := Encoding(Lookup, s);
    PadNotInLookup();
    forall j | 0 <= j < |r|
      ensures (r[j] == '=' <==> j >= |r| - PadCount(|s|)) && (r[j] == '=' || r[j] in Lookup)
    {
      EncodingSymbolAt(Lookup, s, j);
    }
  }

  // ---------------------------------------------------------------------
  // Which texts the decoder accepts
  // ---------------------------------------------------------------------

  /** Whether every character of t from position i on is one of those in
      tab. */
  predicate AllIn(t: string, i: nat, tab: string)
  {
    forall j :: i <= j < |t| ==> t[j] in tab
  }

  /** Splitting off the four characters at position i. */
  lemma AllInStep(t: string, i: nat, tab: string)
    requires i + 4 <= |t|
    ensures AllIn(t, i, tab) <==> t[i] in tab && t[i + 1] in tab && t[i + 2] in tab && t[i + 3] in tab && AllIn(t, i + 4, tab)
  {
  }

  /** A group without `=` is accepted exactly when its four characters are
      table symbols, and then gives three bytes and lets decoding go on. */
  lemma {:induction false} QuadPadFree(c0: char, c1: char, c2: char, c3: char)
    requires c0 != '=' && c1 != '=' && c2 != '=' && c3 != '='
    ensures DecodeQuad(c0, c1, c2, c3).Ok? <==> c0 in Lookup && c1 in Lookup && c2 in Lookup && c3 in Lookup
    ensures DecodeQuad(c0, c1, c2, c3).Ok? ==>
      |DecodeQuad(c0, c1, c2, c3).value.bytes| == 3 && !DecodeQuad(c0, c1, c2, c3).value.last
  {
    AsciiToValueInvalid(c0);
    AsciiToValueInvalid(c1);
    AsciiToValueInvalid(c2);
    AsciiToValueInvalid(c3);
  }

  /** A group without `=` at position i is accepted exactly when its
      characters are table symbols and the groups after it are accepted, and
      adds three bytes to theirs. */
  lemma {:induction false} GroupPadFree(t: string, i: nat)
    requires i + 4 <= |t| && t[i] != '=' && t[i + 1] != '=' && t[i + 2] != '=' && t[i + 3] != '='
    ensures DecodeGroups(t, i).Ok? <==>
      t[i] in Lookup && t[i + 1] in Lookup && t[i + 2] in Lookup && t[i + 3] in Lookup && DecodeGroups(t, i + 4).Ok?
    ensures DecodeGroups(t, i).Ok? ==> |DecodeGroups(t, i).value| == 3 + |DecodeGroups(t, i + 4).value|
  {
    QuadPadFree(t[i], t[i + 1], t[i + 2], t[i + 3]);
  }

  /** One group of the induction below: if the groups from position i + 4
      on are accepted exactly when their characters are table symbols and
      then give n bytes, the same holds from i on with n + 3 bytes. */
  lemma {:induction false} PadFreeStep(t: string, i: nat, n: nat)
    requires i + 4 <= |t| && t[i] != '=' && t[i + 1] != '=' && t[i + 2] != '=' && t[i + 3] != '='
    requires DecodeGroups(t, i + 4).Ok? <==> AllIn(t, i + 4, Lookup)
    requires DecodeGroups(t, i + 4).Ok? ==> |DecodeGroups(t, i + 4).value| == n
    ensures DecodeGroups(t, i).Ok? <==> AllIn(t, i, Lookup)
    ensures DecodeGroups(t, i).Ok? ==> |DecodeGroups(t, i).value| == n + 3
  {
    GroupPadFree(t, i);
    AllInStep(t, i, Lookup);
  }

  /** The n groups of a text without `=` from position i on are accepted
      exactly when all their characters are table symbols, and then give
      three bytes each. */
  lemma {:induction false} DecodeGroupsPadFree(t: string, i: nat, n: nat)
    requires |t| == i + 4 * n && '=' !in t
    ensures DecodeGroups(t, i).Ok? <==> AllIn(t, i, Lookup)
    ensures DecodeGroups(t, i).Ok? ==> |DecodeGroups(t, i).value| == 3 * n
    decreases n
  {
    if n == 0 {
      assert DecodeGroups(t, i) == Ok([]);
    } else {
      assert t[i] in t && t[i + 1] in t && t[i + 2] in t && t[i + 3] in t;
      DecodeGroupsPadFree(t, i + 4, n - 1);
      PadFreeStep(t, i, 3 * (n - 1));
    }
  }

  /** A text without `=` is accepted exactly when its length is a multiple
      of four and all its characters are table symbols; it then gives three
      bytes for every four characters. */
  lemma {:induction false} DecodeAcceptsPadFree(t: string)
    requires '=' !in t
    ensures Decoding(t).Ok? <==> |t| % 4 == 0 && forall j :: 0 <= j < |t| ==> t[j] in Lookup
    ensures Decoding(t).Ok? ==> |Decoding(t).value| == |t| / 4 * 3
  {
    if |t| % 4 == 0 {
      DecodeGroupsPadFree(t, 0, |t| / 4);
    }
  }

  /** Once a group has `=` in its third or fourth place the decoder reads no
      further: from any group up to that one, text appended after it makes
      no difference. */
  lemma {:induction false} DecodeGroupsStop(u: string, w: string, m: nat, k: nat)
    requires |u| == 4 * m && k < m && (u[4 * m - 2] == '=' || u[4 * m - 1] == '=')
    ensures DecodeGroups(u + w, 4 * k) == DecodeGroups(u, 4 * k)
    decreases m - k
  {
    var i := 4 * k;
    var t := u + w;
    assert t[i] == u[i] && t[i + 1] == u[i + 1] && t[i + 2] == u[i + 2] && t[i + 3] == u[i + 3];
    if k < m - 1 {
      DecodeGroupsStop(u, w, m, k + 1);
      assert 4 * (k + 1) == i + 4;
    } else {
      assert i + 2 == 4 * m - 2 && i + 3 == 4 * m - 1;
    }
  }

  /** Text after a group with `=` in its third or fourth place is never
      looked at, so it can neither change nor reject the result. */
  lemma {:induction false} DecodeEarlyStop(u: string, w: string)
    requires |u| % 4 == 0 && |w| % 4 == 0 && |u| >= 4
    requires u[|u| - 2] == '=' || u[|u| - 1] == '='
    ensures Decoding(u + w) == Decoding(u)
  {
    var m, m2 := |u| / 4, |w| / 4;
    DecodeGroupsStop(u, w, m, 0);
    assert |u + w| == 4 * (m + m2);
    FourTimes(m + m2);
  }

  // ---------------------------------------------------------------------
  // Worked examples
  // ---------------------------------------------------------------------

  // The three encodings of the examples below, each over any table with the
  // symbols it uses at the right places.

  lemma {:induction false} EncodeM(t: string)
    requires |t| == 64 && t[16] == 'Q' && t[19] == 'T'
    ensures Encoding(t, "M") == "TQ=="
  {
    assert EncodeTail(t, "M", 0) == [t[19], t[16], '=', '='];
  }

  lemma {:induction false} EncodeMa(t: string)
    requires |t| == 64 && t[19] == 'T' && t[22] == 'W' && t[4] == 'E'
    ensures Encoding(t, "Ma") == "TWE="
  {
    assert EncodeTail(t, "Ma", 0) == [t[19], t[22], t[4], '='];
  }

  lemma {:induction false} EncodeMan(t: string)
    requires |t| == 64 && t[19] == 'T' && t[22] == 'W' && t[5] == 'F' && t[46] == 'u'
    ensures Encoding(t, "Man") == "TWFu"
  {
    var m: seq<ByteChar> := "Man";
    assert m[0] == 'M' && m[1] == 'a' && m[2] == 'n';
    assert EncodeGroups(t, m, 3) == EncodeTriple(t, 'M', 'a', 'n') == [t[19], t[22], t[5], t[46]];
    assert Encoding(t, m) == EncodeGroups(t, m, 3);
  }

  /** "Man" is a whole group; "M" and "Ma" end with two and one `=`. */
  lemma {:induction false} EncodeExamples()
    ensures Encoding(Lookup, "") == ""
    ensures Encoding(Lookup, "M") == "TQ=="
    ensures Encoding(Lookup, "Ma") == "TWE="
    ensures Encoding(Lookup, "Man") == "TWFu"
  {
    LookupRanges(16);
    LookupRanges(19);
    LookupRanges(22);
    LookupRanges(4);
    LookupRanges(5);
    LookupRanges(46);
    EncodeM(Lookup);
    EncodeMa(Lookup);
    EncodeMan(Lookup);
  }

  /** A group of pads decodes to a zero byte, text after a padded group is
      ignored, and a bad length or a character outside the table is
      rejected. */
  lemma {:induction false} DecodeExamples()
    ensures Decoding("TWFu") == Ok("Man")
    ensures Decoding("TQ==TWFu") == Ok("M")
    ensures Decoding("====") == Ok([0 as char])
    ensures Decoding("TWF") == Err(InvalidLength)
    ensures Decoding("TW!u") == Err(InvalidCharacter)
  {
    assert AsciiToValue('T') == 19 && AsciiToValue('W') == 22 && AsciiToValue('F') == 5 && AsciiToValue('u') == 46;
    assert Chr(77) == 'M' && Chr(97) == 'a' && Chr(110) == 'n';
    assert DecodeQuad('T', 'W', 'F', 'u') == Ok(Group("Man", false));
    assert DecodeGroups("TWFu", 4) == Ok([]);
    assert DecodeGroups("TWFu", 0) == PrependOk("Man", DecodeGroups("TWFu", 4));
    assert "Man" + [] == "Man";
  }
}
