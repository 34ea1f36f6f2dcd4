/**
 The base64 codecs: two encoders with different loop structures and four decoders,
 over text as bytes, against the encoding of RFC 4648 section 4.
 */
module Base64 {
  type Bytes = seq<bv8>

  const PAD: bv8 := 61 // '='
  const INVALID: bv8 := 0xFF

  // ------------------------------------------------------------------- alphabet

  /** The character for a 6-bit value. */
  function Symbol(k: bv8): (c: bv8)
    requires k < 64
  {
    if k < 26 then k + 65
    else if k < 52 then k + 71
    else if k < 62 then k - 4
    else if k == 62 then 43
    else 47
  }

  /** The 6-bit value of a character, or `INVALID`. */
  function Value(c: bv8): bv8 {
    if 65 <= c <= 90 then c - 65
    else if 97 <= c <= 122 then c - 71
    else if 48 <= c <= 57 then c + 4
    else if c == 43 then 62
    else if c == 47 then 63
    else INVALID
  }

  lemma ValueOfSymbol(k: bv8)
    requires k < 64
    ensures Value(Symbol(k)) == k && Symbol(k) != PAD && Symbol(k) < 128 && Symbol(k) != 10 && Symbol(k) != 13
  {
  }

  /** The alphabet of RFC 4648, table 1: A to Z, a to z, 0 to 9, `+` and `/`, with `=` for padding. */
  lemma AlphabetOfRfc(k: bv8)
    requires k < 64
    ensures Symbol(k) == if k < 26 then 'A' as bv8 + k else if k < 52 then 'a' as bv8 + (k - 26)
                         else if k < 62 then '0' as bv8 + (k - 52) else if k == 62 then '+' as bv8 else '/' as bv8
    ensures PAD == '=' as bv8
  {
  }

  lemma SymbolOfValue(c: bv8)
    requires Value(c) != INVALID
    ensures Value(c) < 64 && Symbol(Value(c)) == c && c < 128
  {
  }

  /** The entries of the values below `k` are filled. */
  ghost predicate FilledTo(table: seq<bv8>, k: bv8) {
    |table| == 128 && forall c: bv8 :: c < 128 ==> table[c as int] == if Value(c) < k then Value(c) else INVALID
  }

  lemma FillOne(table: seq<bv8>, k: bv8)
    requires k < 64 && FilledTo(table, k)
    ensures Symbol(k) < 128 && FilledTo(table[Symbol(k) as int := k], k + 1)
  {
    ValueOfSymbol(k);
    forall c: bv8 | c < 128 && Value(c) == k ensures c == Symbol(k) { SymbolOfValue(c); }
  }

  /** The decode table, filled from the alphabet entry by entry. */
  method BuildTable() returns (table: seq<bv8>)
    ensures |table| == 128 && forall c: bv8 :: c < 128 ==> table[c as int] == Value(c)
  {
    table := seq(128, _ => INVALID);
    var k: bv8 := 0;
    while k < 64
      invariant k <= 64 && |table| == 128
      invariant FilledTo(table, k)
      decreases 64 - k
    {
      FillOne(table, k);
      table := table[Symbol(k) as int := k];
      k := k + 1;
    }
    forall c: bv8 | c < 128 && Value(c) >= 64 ensures Value(c) == INVALID {
      if Value(c) != INVALID { SymbolOfValue(c); }
    }
  }

  // ------------------------------------------------------------------- encoding

  function Sextet0(x: bv8): (k: bv8) ensures k < 64 { x >> 2 }

  function Sextet1(x: bv8, y: bv8): (k: bv8) ensures k < 64 { ((x & 3) << 4) | (y >> 4) }

  function Sextet2(y: bv8, z: bv8): (k: bv8) ensures k < 64 { ((y & 15) << 2) | (z >> 6) }

  function Sextet3(z: bv8): (k: bv8) ensures k < 64 { z & 63 }

  /** The characters of a group of three bytes. */
  function Chars(x: bv8, y: bv8, z: bv8): (r: seq<bv8>)
    ensures |r| == 4
  {
    [Symbol(Sextet0(x)), Symbol(Sextet1(x, y)), Symbol(Sextet2(y, z)), Symbol(Sextet3(z))]
  }

  /** The encoding, group by group. */
  function Encode(data: Bytes): Bytes {
    if |data| == 0 then []
    else if |data| == 1 then Chars(data[0], 0, 0)[..2] + [PAD, PAD]
    else if |data| == 2 then Chars(data[0], data[1], 0)[..3] + [PAD]
    else Chars(data[0], data[1], data[2]) + Encode(data[3..])
  }

  function CharAt(n: bv32): bv8
    requires n < 64
  {
    Symbol(n as bv8)
  }

  /** The 24-bit group of three bytes. */
  function Triple(x: bv8, y: bv8, z: bv8): bv32 {
    ((x as bv32) << 16) | ((y as bv32) << 8) | (z as bv32)
  }

  /** The four characters cut out of a 24-bit group. */
  function Quad(n: bv32): seq<bv8> {
    [CharAt((n >> 18) & 63), CharAt((n >> 12) & 63), CharAt((n >> 6) & 63), CharAt(n & 63)]
  }

  lemma TripleChars(x: bv8, y: bv8, z: bv8)
    ensures Quad(Triple(x, y, z)) == Chars(x, y, z)
  {
  }

  /** What is left to encode from position `i`, which may be past the end. */
  function Rest(data: Bytes, i: nat): Bytes { if i <= |data| then Encode(data[i..]) else [] }

  lemma Append(done: Bytes, group: Bytes, rest: Bytes)
    ensures done + (group + rest) == done + group + rest
  {
  }

  lemma Ends(data: Bytes, i: nat, done: Bytes)
    ensures i >= |data| ==> done + Rest(data, i) == done
    ensures [] + Rest(data, 0) == Encode(data)
  {
    assert data[0..] == data;
  }

  /** One round of `EncodeEncryption`: missing bytes read as zero, padding decided per character. */
  method EncodeRound(data: Bytes, i: nat) returns (group: Bytes)
    requires i < |data|
    ensures Rest(data, i) == group + Rest(data, i + 3)
  {
    var b0 := data[i];
    var b1 := if i + 1 < |data| then data[i + 1] else 0;
    var b2 := if i + 2 < |data| then data[i + 2] else 0;
    var triple := Triple(b0, b1, b2);
    var c2 := if i + 1 < |data| then CharAt((triple >> 6) & 0x3F) else PAD;
    var c3 := if i + 2 < |data| then CharAt(triple & 0x3F) else PAD;
    group := [CharAt((triple >> 18) & 0x3F), CharAt((triple >> 12) & 0x3F), c2, c3];
    TripleChars(b0, b1, b2);
    assert group[..2] == Quad(triple)[..2];
    assert i + 3 <= |data| ==> data[i..][3..] == data[i + 3..];
  }

  /** `base64_encode` of encryption.rs. */
  method EncodeEncryption(data: Bytes) returns (result: Bytes)
    ensures result == Encode(data)
  {
    result := [];
    var i := 0;
    Ends(data, i, result);
    while i < |data|
      invariant 0 <= i
      invariant result + Rest(data, i) == Encode(data)
    {
      var group := EncodeRound(data, i);
      Append(result, group, Rest(data, i + 3));
      result := result + group;
      i := i + 3;
    }
    Ends(data, i, result);
  }

  lemma ZeroBytes(x: bv8, y: bv8)
    ensures Triple(x, y, 0) == ((x as bv32) << 16) | ((y as bv32) << 8)
    ensures Triple(x, 0, 0) == (x as bv32) << 16
  {
  }

  lemma OneLeft(x: bv8)
    ensures var n := (x as bv32) << 16;
            [CharAt((n >> 18) & 63), CharAt((n >> 12) & 63), PAD, PAD] == Encode([x])
  {
    ZeroBytes(x, 0);
    TripleChars(x, 0, 0);
    assert Quad(Triple(x, 0, 0))[..2] == Chars(x, 0, 0)[..2];
  }

  lemma TwoLeft(x: bv8, y: bv8)
    ensures var n := ((x as bv32) << 16) | ((y as bv32) << 8);
            [CharAt((n >> 18) & 63), CharAt((n >> 12) & 63), CharAt((n >> 6) & 63), PAD] == Encode([x, y])
  {
    ZeroBytes(x, y);
    TripleChars(x, y, 0);
    assert Quad(Triple(x, y, 0))[..3] == Chars(x, y, 0)[..3];
  }

  /** The tail of `EncodeHostGuest`: one or two bytes left over. */
  method EncodeTail(rest: Bytes) returns (result: Bytes)
    requires |rest| < 3
    ensures result == Encode(rest)
  {
    result := [];
    if |rest| == 1 {
      var n := (rest[0] as bv32) << 16;
      OneLeft(rest[0]);
      assert rest == [rest[0]];
      result := [CharAt((n >> 18) & 63), CharAt((n >> 12) & 63), PAD, PAD];
    } else if |rest| == 2 {
      var n := ((rest[0] as bv32) << 16) | ((rest[1] as bv32) << 8);
      TwoLeft(rest[0], rest[1]);
      assert rest == [rest[0], rest[1]];
      result := [CharAt((n >> 18) & 63), CharAt((n >> 12) & 63), CharAt((n >> 6) & 63), PAD];
    }
  }

  lemma WholeGroup(data: Bytes, i: nat)
    requires i + 2 < |data|
    ensures Encode(data[i..]) == Quad(Triple(data[i], data[i + 1], data[i + 2])) + Encode(data[i + 3..])
  {
    TripleChars(data[i], data[i + 1], data[i + 2]);
    assert data[i..][3..] == data[i + 3..];
  }

  /** `base64_encode` of host_guest.rs: whole groups first, then the tail. */
  method EncodeHostGuest(data: Bytes) returns (result: Bytes)
    ensures result == Encode(data)
  {
    result := [];
    var i := 0;
    while i + 2 < |data|
      invariant 0 <= i <= |data|
      invariant result + Encode(data[i..]) == Encode(data)
    {
      var n := Triple(data[i], data[i + 1], data[i + 2]);
      WholeGroup(data, i);
      Append(result, Quad(n), Encode(data[i + 3..]));
      result := result + Quad(n);
      i := i + 3;
    }
    var tail := EncodeTail(data[i..]);
    result := result + tail;
  }
}
