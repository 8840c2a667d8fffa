/** The padded URL-safe base64 encoding of section 5 of RFC 4648, as Go's
    `base64.URLEncoding` implements it: the alphabet A-Z a-z 0-9 '-' '_', and '=' padding to a
    whole number of four-character quanta. */
module Base64Url {
  import opened GoStrings
  import opened Results

  const Pad: Byte := '='

  /** The alphabet character for the 6-bit value `v`. */
  function Sextet(v: int): (c: Byte)
    requires 0 <= v < 64
    ensures c != Pad
  {
    if v < 26 then ('A' as int + v) as char
    else if v < 52 then ('a' as int + (v - 26)) as char
    else if v < 62 then ('0' as int + (v - 52)) as char
    else if v == 62 then '-'
    else '_'
  }

  /** The 6-bit value of an alphabet character, or -1 for any other byte. */
  function SextetValue(c: Byte): (v: int)
    ensures -1 <= v < 64
    ensures v != -1 ==> Sextet(v) == c
  {
    if 'A' <= c <= 'Z' then c as int - 'A' as int
    else if 'a' <= c <= 'z' then c as int - 'a' as int + 26
    else if '0' <= c <= '9' then c as int - '0' as int + 52
    else if c == '-' then 62
    else if c == '_' then 63
    else -1
  }

  /** Reading an alphabet character back gives the value it was written for. */
  lemma SextetRoundTrip(v: int)
    requires 0 <= v < 64
    ensures SextetValue(Sextet(v)) == v
  {
  }

  /** A byte an encoder may emit: an alphabet character or the padding. */
  predicate IsEncodedChar(c: Byte) {
    SextetValue(c) != -1 || c == Pad
  }

  function ByteOf(v: int): Byte
    requires 0 <= v < 256
  {
    v as char
  }

  /** EncodeToString: each group of three bytes becomes four characters; a final group of one
      or two bytes is padded with "==" or "=". */
  function Encode(b: seq<Byte>): (r: GoString)
    ensures forall i :: 0 <= i < |r| ==> IsEncodedChar(r[i])
    decreases |b|
  {
    if |b| == 0 then []
    else
      var x := b[0] as int;
      if |b| == 1 then
        [Sextet(x / 4), Sextet((x % 4) * 16), Pad, Pad]
      else
        var y := b[1] as int;
        if |b| == 2 then
          [Sextet(x / 4), Sextet((x % 4) * 16 + y / 16), Sextet((y % 16) * 4), Pad]
        else
          var z := b[2] as int;
          [Sextet(x / 4), Sextet((x % 4) * 16 + y / 16), Sextet((y % 16) * 4 + z / 64), Sextet(z % 64)]
          + Encode(b[3..])
  }

  /** DecodeString, without the skipping of '\r' and '\n'. Padding may only close the last
      quantum; the unused low bits of a padded quantum are ignored, as Go's non-strict decoder
      does. */
  function Decode(t: GoString): (r: Result<seq<Byte>>)
    ensures r.Ok? ==> forall i :: 0 <= i < |t| ==> IsEncodedChar(t[i])
    ensures r.Err? ==> r.error == CorruptBase64
    decreases |t|
  {
    if |t| == 0 then Ok([])
    else if |t| < 4 then Err(CorruptBase64)
    else
      var v0, v1, v2, v3 := SextetValue(t[0]), SextetValue(t[1]), SextetValue(t[2]), SextetValue(t[3]);
      if v0 == -1 || v1 == -1 then Err(CorruptBase64)
      else if t[2] == Pad then
        if t[3] == Pad && |t| == 4 then Ok([ByteOf(v0 * 4 + v1 / 16)]) else Err(CorruptBase64)
      else if v2 == -1 then Err(CorruptBase64)
      else if t[3] == Pad then
        if |t| == 4 then Ok([ByteOf(v0 * 4 + v1 / 16), ByteOf((v1 % 16) * 16 + v2 / 4)])
        else Err(CorruptBase64)
      else if v3 == -1 then Err(CorruptBase64)
      else
        var rest :- Decode(t[4..]);
        Ok([ByteOf(v0 * 4 + v1 / 16), ByteOf((v1 % 16) * 16 + v2 / 4), ByteOf((v2 % 4) * 64 + v3)] + rest)
  }

  /** Reassembling three bytes from the four sextets they were split into. */
  lemma QuantumBits(x: int, y: int, z: int)
    requires 0 <= x < 256 && 0 <= y < 256 && 0 <= z < 256
    ensures (x / 4) * 4 + ((x % 4) * 16 + y / 16) / 16 == x
    ensures (((x % 4) * 16 + y / 16) % 16) * 16 + ((y % 16) * 4 + z / 64) / 4 == y
    ensures (((y % 16) * 4 + z / 64) % 4) * 64 + z % 64 == z
  {
  }

  /** How Decode reads a final quantum with two padding characters. */
  lemma DecodePaddedTwice(v0: int, v1: int)
    requires 0 <= v0 < 64 && 0 <= v1 < 64
    ensures Decode([Sextet(v0), Sextet(v1), Pad, Pad]) == Ok([ByteOf(v0 * 4 + v1 / 16)])
  {
    SextetRoundTrip(v0);
    SextetRoundTrip(v1);
  }

  /** How Decode reads a final quantum with one padding character. */
  lemma DecodePaddedOnce(v0: int, v1: int, v2: int)
    requires 0 <= v0 < 64 && 0 <= v1 < 64 && 0 <= v2 < 64
    ensures Decode([Sextet(v0), Sextet(v1), Sextet(v2), Pad])
            == Ok([ByteOf(v0 * 4 + v1 / 16), ByteOf((v1 % 16) * 16 + v2 / 4)])
  {
    SextetRoundTrip(v0);
    SextetRoundTrip(v1);
    SextetRoundTrip(v2);
  }

  /** How Decode reads an unpadded quantum followed by more input. */
  lemma DecodeUnpadded(v0: int, v1: int, v2: int, v3: int, rest: GoString, tail: seq<Byte>)
    requires 0 <= v0 < 64 && 0 <= v1 < 64 && 0 <= v2 < 64 && 0 <= v3 < 64
    requires Decode(rest) == Ok(tail)
    ensures Decode([Sextet(v0), Sextet(v1), Sextet(v2), Sextet(v3)] + rest)
            == Ok([ByteOf(v0 * 4 + v1 / 16), ByteOf((v1 % 16) * 16 + v2 / 4), ByteOf((v2 % 4) * 64 + v3)] + tail)
  {
    SextetRoundTrip(v0);
    SextetRoundTrip(v1);
    SextetRoundTrip(v2);
    SextetRoundTrip(v3);
    var t := [Sextet(v0), Sextet(v1), Sextet(v2), Sextet(v3)] + rest;
    assert t[4..] == rest;
  }

  /** Encoding one byte emits a quantum padded twice. */
  lemma EncodeOneByte(x: Byte)
    ensures Encode([x]) == [Sextet(x as int / 4), Sextet((x as int % 4) * 16), Pad, Pad]
  {
  }

  /** Encoding two bytes emits a quantum padded once. */
  lemma EncodeTwoBytes(x: Byte, y: Byte)
    ensures Encode([x, y])
            == [Sextet(x as int / 4), Sextet((x as int % 4) * 16 + y as int / 16), Sextet((y as int % 16) * 4), Pad]
  {
  }

  /** A single byte is encoded as one padded quantum that decodes back to it. */
  lemma DecodeEncodeOneByte(x: Byte)
    ensures Decode(Encode([x])) == Ok([x])
  {
    var u := x as int;
    var s0, s1 := u / 4, (u % 4) * 16;
    assert ByteOf(s0 * 4 + s1 / 16) == x by { QuantumBits(u, 0, 0); }
    EncodeOneByte(x);
    DecodePaddedTwice(s0, s1);
  }

  /** Two bytes are encoded as one padded quantum that decodes back to them. */
  lemma DecodeEncodeTwoBytes(x: Byte, y: Byte)
    ensures Decode(Encode([x, y])) == Ok([x, y])
  {
    var u, v := x as int, y as int;
    var s0, s1, s2 := u / 4, (u % 4) * 16 + v / 16, (v % 16) * 4;
    assert ByteOf(s0 * 4 + s1 / 16) == x && ByteOf((s1 % 16) * 16 + s2 / 4) == y by {
      QuantumBits(u, v, 0);
    }
    EncodeTwoBytes(x, y);
    DecodePaddedOnce(s0, s1, s2);
  }

  /** Encoding three or more bytes emits an unpadded quantum for the first three, then encodes
      the rest. */
  lemma EncodeLeadingQuantum(x: Byte, y: Byte, z: Byte, tail: seq<Byte>)
    ensures Encode([x, y, z] + tail)
            == [Sextet(x as int / 4), Sextet((x as int % 4) * 16 + y as int / 16),
                Sextet((y as int % 16) * 4 + z as int / 64), Sextet(z as int % 64)] + Encode(tail)
  {
    assert ([x, y, z] + tail)[3..] == tail;
  }

  /** An unpadded leading quantum decodes to the three bytes it came from, followed by whatever
      the rest of the encoding decodes to. */
  lemma DecodeEncodeFullQuantum(x: Byte, y: Byte, z: Byte, tail: seq<Byte>)
    requires Decode(Encode(tail)) == Ok(tail)
    ensures Decode(Encode([x, y, z] + tail)) == Ok([x, y, z] + tail)
  {
    var u, v, w := x as int, y as int, z as int;
    var s0, s1, s2, s3 := u / 4, (u % 4) * 16 + v / 16, (v % 16) * 4 + w / 64, w % 64;
    assert ByteOf(s0 * 4 + s1 / 16) == x && ByteOf((s1 % 16) * 16 + s2 / 4) == y
        && ByteOf((s2 % 4) * 64 + s3) == z by {
      QuantumBits(u, v, w);
    }
    EncodeLeadingQuantum(x, y, z, tail);
    DecodeUnpadded(s0, s1, s2, s3, Encode(tail), tail);
  }

  /** Decoding inverts encoding. */
  lemma {:induction false} DecodeEncode(b: seq<Byte>)
    ensures Decode(Encode(b)) == Ok(b)
    decreases |b|
  {
    if |b| == 1 {
      DecodeEncodeOneByte(b[0]);
      assert [b[0]] == b;
    } else if |b| == 2 {
      DecodeEncodeTwoBytes(b[0], b[1]);
      assert [b[0], b[1]] == b;
    } else if |b| > 2 {
      DecodeEncode(b[3..]);
      DecodeEncodeFullQuantum(b[0], b[1], b[2], b[3..]);
      assert [b[0], b[1], b[2]] + b[3..] == b;
    }
  }

  /** Every three input bytes, and a final group of one or two, take four characters. */
  lemma {:induction false} EncodeLength(b: seq<Byte>)
    ensures |Encode(b)| == 4 * ((|b| + 2) / 3)
    decreases |b|
  {
    if |b| > 2 {
      EncodeLength(b[3..]);
    }
  }

  /** Only an input of whole quanta decodes, and it decodes to as many bytes as an encoding of
      that length carries. */
  lemma {:induction false} DecodeLength(t: GoString)
    requires Decode(t).Ok?
    ensures |t| == 4 * ((|Decode(t).value| + 2) / 3)
    decreases |t|
  {
    if |t| > 4 && t[2] != Pad && t[3] != Pad {
      DecodeLength(t[4..]);
    }
  }

  /** The encoding never contains ':', the separator that follows it in a cross-repository
      head revision. */
  lemma EncodeHasNoColon(b: seq<Byte>)
    ensures !Contains(Encode(b), ":")
  {
    var t := Encode(b);
    assert !IsEncodedChar(':');
    forall i | 0 <= i < |t|
      ensures !OccursAt(t, ":", i)
    {
      assert t[i..i + 1] == [t[i]];
    }
  }

  /** Known answers pinning the bit order of the encoding: "r.com/y", a repository path,
      built up one quantum at a time. */
  lemma KnownAnswerFinalQuantum()
    ensures Encode("y") == "eQ=="
  {
    assert Sextet(30) == 'e' && Sextet(16) == 'Q';
  }

  lemma KnownAnswerTwoQuanta()
    ensures Encode("om/y") == "b20veQ=="
  {
    KnownAnswerFinalQuantum();
    assert Sextet(27) == 'b' && Sextet(54) == '2' && Sextet(52) == '0' && Sextet(47) == 'v';
    EncodeLeadingQuantum('o', 'm', '/', "y");
    assert "om/y" == ['o', 'm', '/'] + "y";
  }

  lemma KnownAnswerRepoPath()
    ensures Encode("r.com/y") == "ci5jb20veQ=="
  {
    KnownAnswerTwoQuanta();
    assert Sextet(28) == 'c' && Sextet(34) == 'i' && Sextet(57) == '5' && Sextet(35) == 'j';
    EncodeLeadingQuantum('r', '.', 'c', "om/y");
    assert "r.com/y" == ['r', '.', 'c'] + "om/y";
  }

  /** The bytes 0xFB 0xFF need the two URL-safe characters '-' and '_' (where the standard
      alphabet has '+' and '/'). */
  lemma KnownAnswerUrlSafe()
    ensures Encode([0xFB as char, 0xFF as char]) == "-_8="
  {
    assert Sextet(62) == '-' && Sextet(63) == '_' && Sextet(60) == '8';
  }
}
