/** What the Base16 codec promises, proved about the functions that describe
    its encoder and decoder: the lookup and the table are inverse, the
    decoder undoes the encoder and, because the upper-case alphabet is the
    only one the decoder accepts, the encoder undoes the decoder too; a text
    is accepted exactly when its length is even and all its characters are
    table symbols. */
module Base16Laws {
  import opened Common
  import opened Base16

  /** The digits and the letters of the table are consecutive characters. */
  lemma TableRanges(v: int)
    requires 0 <= v < 16
    ensures v < 10 ==> Lookup16[v] as int == '0' as int + v
    ensures 10 <= v ==> Lookup16[v] as int == 'A' as int + (v - 10)
  {
  }

  /** The lookup gives every table symbol back its position. */
  lemma {:induction false} HexValueOfLookup(v: int)
    requires 0 <= v < 16
    ensures HexValue(Lookup16[v]) == v
  {
    TableRanges(v);
  }

  /** A character with a value is the table symbol at that value. */
  lemma {:induction false} LookupOfHexValue(c: char)
    requires HexValue(c) >= 0
    ensures Lookup16[HexValue(c)] == c
  {
    TableRanges(HexValue(c));
  }

  /** The characters without a value are exactly those outside the table;
      in particular the lower-case letters a to f have none. */
  lemma {:induction false} HexValueInvalid(c: char)
    ensures HexValue(c) == -1 <==> c !in Lookup16
  {
    if HexValue(c) >= 0 {
      LookupOfHexValue(c);
    } else if c in Lookup16 {
      var v :| 0 <= v < 16 && Lookup16[v] == c;
      HexValueOfLookup(v);
      assert false;
    }
  }

  /** Two symbols per byte. */
  lemma {:induction false} HexEncodingLength(t: string, s: seq<ByteChar>, i: nat)
    requires |t| == 16 && i <= |s|
    ensures |HexEncoding(t, s, i)| == 2 * i
  {
    if i > 0 {
      HexEncodingLength(t, s, i - 1);
    }
  }

  /** Byte k of s is encoded at positions 2k and 2k + 1, high bits first. */
  lemma {:induction false} HexEncodingAt(t: string, s: seq<ByteChar>, i: nat, k: nat)
    requires |t| == 16 && k < i <= |s|
    ensures |HexEncoding(t, s, i)| == 2 * i
    ensures HexEncoding(t, s, i)[2 * k] == t[s[k] as int / 16]
    ensures HexEncoding(t, s, i)[2 * k + 1] == t[s[k] as int % 16]
  {
    HexEncodingLength(t, s, i);
    HexEncodingLength(t, s, i - 1);
    if k < i - 1 {
      HexEncodingAt(t, s, i - 1, k);
    }
  }

  /** Encoding a byte in front of x puts its two symbols in front of the
      encoding of x. */
  lemma {:induction false} HexEncodingCons(t: string, c: ByteChar, x: seq<ByteChar>, i: nat)
    requires |t| == 16 && i <= |x|
    ensures HexEncoding(t, [c] + x, i + 1) == [t[c as int / 16], t[c as int % 16]] + HexEncoding(t, x, i)
  {
    var s := [c] + x;
    if i > 0 {
      HexEncodingCons(t, c, x, i - 1);
      assert s[i] == x[i - 1];
    }
  }

  /** The byte a pair of symbols of the table gives back is the byte they
      were written for. */
  lemma {:induction false} PairRoundTrip(c: ByteChar)
    ensures var hi, lo := c as int / 16, c as int % 16;
      HexValue(Lookup16[hi]) == hi && HexValue(Lookup16[lo]) == lo
      && PackPair(hi, lo) == Ok(c)
  {
    var hi, lo := c as int / 16, c as int % 16;
    HexValueOfLookup(hi);
    HexValueOfLookup(lo);
    assert Chr(hi * 16 + lo) == c;
  }

  /** Decoding the encoding of s from pair k on gives back s from byte k on. */
  lemma {:induction false} DecodeHexEncodingFrom(s: seq<ByteChar>, k: nat)
    requires k <= |s|
    ensures DecodePairs(HexEncoding(Lookup16, s, |s|), 2 * k) == Ok(s[k..])
    decreases |s| - k
  {
    var e := HexEncoding(Lookup16, s, |s|);
    HexEncodingLength(Lookup16, s, |s|);
    if k < |s| {
      HexEncodingAt(Lookup16, s, |s|, k);
      PairRoundTrip(s[k]);
      DecodeHexEncodingFrom(s, k + 1);
      assert 2 * (k + 1) == 2 * k + 2;
      assert s[k..] == [s[k]] + s[k + 1..];
    } else {
      assert s[k..] == [];
    }
  }

  /** Decoding undoes encoding. */
  lemma {:induction false} DecodeEncode(s: seq<ByteChar>)
    ensures HexDecoding(HexEncoding(Lookup16, s, |s|)) == Ok(s)
  {
    HexEncodingLength(Lookup16, s, |s|);
    DecodeHexEncodingFrom(s, 0);
    assert s[0..] == s;
  }

  /** Whether every character of t from position i on is a table symbol. */
  predicate AllHexFrom(t: string, i: nat)
  {
    forall j :: i <= j < |t| ==> t[j] in Lookup16
  }

  /** The pairs of an even-length text from position 2k on are accepted
      exactly when all those characters are table symbols. */
  lemma {:induction false} DecodePairsAccept(t: string, m: nat, k: nat)
    requires |t| == 2 * m && k <= m
    ensures DecodePairs(t, 2 * k).Ok? <==> AllHexFrom(t, 2 * k)
    decreases m - k
  {
    if k < m {
      HexValueInvalid(t[2 * k]);
      HexValueInvalid(t[2 * k + 1]);
      DecodePairsAccept(t, m, k + 1);
      assert 2 * (k + 1) == 2 * k + 2;
      assert AllHexFrom(t, 2 * k) <==> t[2 * k] in Lookup16 && t[2 * k + 1] in Lookup16 && AllHexFrom(t, 2 * k + 2);
    }
  }

  /** The bytes the pairs of an even-length text from position 2k on give,
      when accepted, encode back to those characters. */
  lemma {:induction false} DecodePairsEncode(t: string, m: nat, k: nat)
    requires |t| == 2 * m && k <= m && DecodePairs(t, 2 * k).Ok?
    ensures var x := DecodePairs(t, 2 * k).value;
      |x| == m - k && HexEncoding(Lookup16, x, |x|) == t[2 * k..]
    decreases m - k
  {
    if k < m {
      var hi, lo := HexValue(t[2 * k]), HexValue(t[2 * k + 1]);
      var c := Chr(hi * 16 + lo);
      var r := DecodePairs(t, 2 * k + 2);
      assert DecodePairs(t, 2 * k) == PrependOk([c], r);
      assert 2 * (k + 1) == 2 * k + 2;
      DecodePairsEncode(t, m, k + 1);
      var x := r.value;
      HexEncodingCons(Lookup16, c, x, |x|);
      assert c as int / 16 == hi && c as int % 16 == lo;
      LookupOfHexValue(t[2 * k]);
      LookupOfHexValue(t[2 * k + 1]);
      assert t[2 * k..] == [t[2 * k], t[2 * k + 1]] + t[2 * k + 2..];
    } else {
      assert t[2 * k..] == [];
    }
  }

  /** A text is accepted exactly when its length is even and every character
      is a table symbol. */
  lemma {:induction false} DecodeAccepts(t: string)
    ensures HexDecoding(t).Ok? <==> |t| % 2 == 0 && forall j :: 0 <= j < |t| ==> t[j] in Lookup16
  {
    if |t| % 2 == 0 {
      DecodePairsAccept(t, |t| / 2, 0);
    }
  }

  /** Encoding undoes decoding: a text that is accepted is the encoding of
      the bytes it gives, with one byte for every two characters. */
  lemma {:induction false} EncodeDecode(t: string)
    requires HexDecoding(t).Ok?
    ensures |HexDecoding(t).value| == |t| / 2
    ensures HexEncoding(Lookup16, HexDecoding(t).value, |HexDecoding(t).value|) == t
  {
    DecodePairsEncode(t, |t| / 2, 0);
    assert t[2 * 0..] == t;
  }

  /** Worked examples: "Man" is 4D 61 6E; lower-case hexadecimal and an odd
      length are rejected. */
  lemma {:induction false} Examples()
    ensures HexEncoding(Lookup16, "Man", 3) == "4D616E"
    ensures HexDecoding("4D616E") == Ok("Man")
    ensures HexDecoding("4d") == Err(InvalidCharacter)
    ensures HexDecoding("4D6") == Err(InvalidLength)
  {
    DecodeEncode("Man");
    assert HexValue('d') == -1;
  }
}
