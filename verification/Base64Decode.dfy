/** The four decoders, and the round trips between every encoder and every decoder. */
module Base64Decode {
  import opened Base64

  // --------------------------------------------------------- shape of the encoding

  /** RFC 4648 section 4: four characters for every three bytes, the last group padded. */
  lemma {:induction false} EncodeLength(data: Bytes)
    ensures |Encode(data)| == 4 * ((|data| + 2) / 3)
  {
    if |data| >= 3 {
      EncodeLength(data[3..]);
    }
  }

  predicate InAlphabet(c: bv8) { Value(c) != INVALID }

  lemma CharsInAlphabet(x: bv8, y: bv8, z: bv8)
    ensures forall i :: 0 <= i < 4 ==> InAlphabet(Chars(x, y, z)[i])
  {
    ValueOfSymbol(Sextet0(x));
    ValueOfSymbol(Sextet1(x, y));
    ValueOfSymbol(Sextet2(y, z));
    ValueOfSymbol(Sextet3(z));
  }

  lemma {:induction false} EncodeAlphabet(data: Bytes)
    ensures forall i :: 0 <= i < |Encode(data)| ==> InAlphabet(Encode(data)[i]) || Encode(data)[i] == PAD
  {
    if |data| >= 3 {
      CharsInAlphabet(data[0], data[1], data[2]);
      EncodeAlphabet(data[3..]);
    } else if |data| > 0 {
      CharsInAlphabet(data[0], if |data| > 1 then data[1] else 0, 0);
    }
  }

  function Bits8(b: bv8): seq<bool> {
    [b & 128 != 0, b & 64 != 0, b & 32 != 0, b & 16 != 0, b & 8 != 0, b & 4 != 0, b & 2 != 0, b & 1 != 0]
  }

  function Bits6(k: bv8): seq<bool> {
    [k & 32 != 0, k & 16 != 0, k & 8 != 0, k & 4 != 0, k & 2 != 0, k & 1 != 0]
  }

  /** All bits of the data, first byte first, most significant bit first. */
  function DataBits(data: Bytes): seq<bool> {
    if data == [] then [] else Bits8(data[0]) + DataBits(data[1..])
  }

  /** The 6-bit groups the characters stand for; padding stands for none. */
  function TextBits(text: Bytes): seq<bool> {
    if text == [] then []
    else (if text[0] == PAD then [] else Bits6(Value(text[0]))) + TextBits(text[1..])
  }

  lemma {:induction false} TextBitsAppend(a: Bytes, b: Bytes)
    ensures TextBits(a + b) == TextBits(a) + TextBits(b)
  {
    if a == [] {
      assert a + b == b;
    } else {
      assert (a + b)[1..] == a[1..] + b;
      TextBitsAppend(a[1..], b);
    }
  }

  lemma Sextet0Bits(x: bv8)
    ensures Bits6(Sextet0(x)) == Bits8(x)[..6]
  {
  }

  /** `k` has the last two bits of `x` and the first four of `y`. */
  predicate Joins(k: bv8, x: bv8, y: bv8) {
    && (k & 32 != 0) == (x & 2 != 0) && (k & 16 != 0) == (x & 1 != 0)
    && (k & 8 != 0) == (y & 128 != 0) && (k & 4 != 0) == (y & 64 != 0)
    && (k & 2 != 0) == (y & 32 != 0) && (k & 1 != 0) == (y & 16 != 0)
  }

  lemma JoinedBits(k: bv8, x: bv8, y: bv8)
    requires Joins(k, x, y)
    ensures Bits6(k) == Bits8(x)[6..] + Bits8(y)[..4]
  {
  }

  lemma Sextet1Joins(x: bv8, y: bv8)
    ensures Joins(Sextet1(x, y), x, y)
  {
  }

  lemma Sextet1Bits(x: bv8, y: bv8)
    ensures Bits6(Sextet1(x, y)) == Bits8(x)[6..] + Bits8(y)[..4]
  {
    Sextet1Joins(x, y);
    JoinedBits(Sextet1(x, y), x, y);
  }

  lemma Sextet2Bits(y: bv8, z: bv8)
    ensures Bits6(Sextet2(y, z)) == Bits8(y)[4..] + Bits8(z)[..2]
  {
  }

  /** Three octets regrouped at the 6-bit boundaries. */
  lemma Regroup(a: seq<bool>, b: seq<bool>, c: seq<bool>)
    requires |a| == |b| == |c| == 8
    ensures a[..6] + (a[6..] + b[..4]) + (b[4..] + c[..2]) + c[2..] == a + b + c
  {
  }

  lemma FourBits(s: Bytes)
    requires |s| == 4
    ensures TextBits(s) == TextBits([s[0]]) + TextBits([s[1]]) + TextBits([s[2]]) + TextBits([s[3]])
  {
    var a, b, c, d := [s[0]], [s[1]], [s[2]], [s[3]];
    assert s == a + b + c + d;
    TextBitsAppend(a + b + c, d);
    TextBitsAppend(a + b, c);
    TextBitsAppend(a, b);
  }

  lemma SymbolBits(k: bv8)
    requires k < 64
    ensures TextBits([Symbol(k)]) == Bits6(k) && TextBits([PAD]) == []
  {
    ValueOfSymbol(k);
    assert [Symbol(k)][1..] == [] && [PAD][1..] == [];
  }

  lemma GroupBits(x: bv8, y: bv8, z: bv8)
    ensures TextBits(Chars(x, y, z)) == Bits8(x) + Bits8(y) + Bits8(z)
  {
    FourBits(Chars(x, y, z));
    SymbolBits(Sextet0(x));
    SymbolBits(Sextet1(x, y));
    SymbolBits(Sextet2(y, z));
    SymbolBits(Sextet3(z));
    Sextet0Bits(x);
    Sextet1Bits(x, y);
    Sextet2Bits(y, z);
    Regroup(Bits8(x), Bits8(y), Bits8(z));
  }

  const ZERO: seq<bool> := [false, false, false, false, false, false, false, false]

  lemma RegroupTail(a: seq<bool>, b: seq<bool>, z: seq<bool>)
    requires |a| == |b| == |z| == 8
    ensures a[..6] + (a[6..] + b[..4]) + (b[4..] + z[..2]) + [] == a + b + z[..2]
    ensures a[..6] + (a[6..] + z[..4]) + [] + [] == a + z[..4]
  {
  }

  lemma PairBits(x: bv8, y: bv8)
    ensures TextBits(Chars(x, y, 0)[..3] + [PAD]) == Bits8(x) + Bits8(y) + ZERO[..2]
  {
    var a, b, c := Sextet0(x), Sextet1(x, y), Sextet2(y, 0);
    var text := [Symbol(a), Symbol(b), Symbol(c), PAD];
    assert Chars(x, y, 0)[..3] + [PAD] == text;
    FourBits(text);
    SymbolBits(a);
    SymbolBits(b);
    SymbolBits(c);
    assert TextBits(text) == Bits6(a) + Bits6(b) + Bits6(c) + [];
    Sextet0Bits(x);
    Sextet1Bits(x, y);
    Sextet2Bits(y, 0);
    assert Bits8(0) == ZERO;
    RegroupTail(Bits8(x), Bits8(y), ZERO);
  }

  lemma SingleBits(x: bv8)
    ensures TextBits(Chars(x, 0, 0)[..2] + [PAD, PAD]) == Bits8(x) + ZERO[..4]
  {
    var a, b := Sextet0(x), Sextet1(x, 0);
    var text := [Symbol(a), Symbol(b), PAD, PAD];
    assert Chars(x, 0, 0)[..2] + [PAD, PAD] == text;
    FourBits(text);
    SymbolBits(a);
    SymbolBits(b);
    assert TextBits(text) == Bits6(a) + Bits6(b) + [] + [];
    Sextet0Bits(x);
    Sextet1Bits(x, 0);
    assert Bits8(0) == ZERO;
    RegroupTail(Bits8(x), ZERO, ZERO);
  }

  /** Zero bits that complete the last 6-bit group of `n` bytes. */
  function Fill(n: nat): seq<bool> {
    if n % 3 == 0 then [] else if n % 3 == 1 then ZERO[..4] else ZERO[..2]
  }

  lemma OneByteBits(data: Bytes)
    requires |data| == 1
    ensures TextBits(Encode(data)) == DataBits(data) + Fill(1)
  {
    SingleBits(data[0]);
    SingleData(data);
    assert Encode(data) == Chars(data[0], 0, 0)[..2] + [PAD, PAD];
  }

  lemma SingleData(data: Bytes)
    requires |data| == 1
    ensures DataBits(data) == Bits8(data[0])
  {
    assert DataBits(data[1..]) == [] && Bits8(data[0]) + [] == Bits8(data[0]);
  }

  lemma TwoByteBits(data: Bytes)
    requires |data| == 2
    ensures TextBits(Encode(data)) == DataBits(data) + Fill(2)
  {
    PairBits(data[0], data[1]);
    FirstTwo(data);
    assert DataBits(data[2..]) == [];
    assert Bits8(data[1]) + [] == Bits8(data[1]);
  }

  /**
   RFC 4648 section 4, bit for bit: the characters carry exactly the bits of the
   data in order, with zero bits filling up the last 6-bit group.
   */
  lemma {:induction false} EncodeBits(data: Bytes)
    ensures TextBits(Encode(data)) == DataBits(data) + Fill(|data|)
  {
    if data == [] {
    } else if |data| == 1 {
      OneByteBits(data);
    } else if |data| == 2 {
      TwoByteBits(data);
    } else {
      var rest := data[3..];
      var group := FirstThree(data);
      EncodeBits(rest);
      FillAgain(|data|);
      Prepend(group, TextBits(Encode(rest)), DataBits(rest), Fill(|data|), TextBits(Encode(data)), DataBits(data));
    }
  }

  lemma FillAgain(n: nat)
    requires n >= 3
    ensures Fill(n) == Fill(n - 3)
  {
  }

  lemma Prepend(group: seq<bool>, text: seq<bool>, data: seq<bool>, fill: seq<bool>, allText: seq<bool>, allData: seq<bool>)
    requires text == data + fill && allText == group + text && allData == group + data
    ensures allText == allData + fill
  {
  }

  /** The bits the first three bytes and the first four characters have in common. */
  lemma FirstThree(data: Bytes) returns (group: seq<bool>)
    requires |data| >= 3
    ensures TextBits(Encode(data)) == group + TextBits(Encode(data[3..]))
    ensures DataBits(data) == group + DataBits(data[3..])
  {
    var x, y, z, rest := data[0], data[1], data[2], data[3..];
    group := Bits8(x) + Bits8(y) + Bits8(z);
    GroupBits(x, y, z);
    TextBitsAppend(Chars(x, y, z), Encode(rest));
    ThreeData(data);
  }

  lemma ThreeData(data: Bytes)
    requires |data| >= 3
    ensures DataBits(data) == Bits8(data[0]) + Bits8(data[1]) + Bits8(data[2]) + DataBits(data[3..])
  {
    var x, y, z, rest := data[0], data[1], data[2], data[3..];
    FirstTwo(data);
    assert data[2..][1..] == rest;
    assert DataBits(data[2..]) == Bits8(z) + DataBits(rest);
    Associate(Bits8(x), Bits8(y), Bits8(z), DataBits(rest));
  }

  lemma Associate(a: seq<bool>, b: seq<bool>, c: seq<bool>, d: seq<bool>)
    ensures a + (b + (c + d)) == a + b + c + d
  {
  }

  lemma FirstTwo(data: Bytes)
    requires |data| >= 2
    ensures DataBits(data) == Bits8(data[0]) + (Bits8(data[1]) + DataBits(data[2..]))
  {
    assert data[1..][1..] == data[2..];
    assert DataBits(data[1..]) == Bits8(data[1]) + DataBits(data[2..]);
  }

  // -------------------------------------------------------------------- decoding

  /** Four 6-bit values side by side. */
  function Join(a: bv8, b: bv8, c: bv8, d: bv8): bv32 {
    ((a as bv32) << 18) | ((b as bv32) << 12) | ((c as bv32) << 6) | (d as bv32)
  }

  function Unpack(n: bv32): (r: seq<bv8>)
    ensures |r| == 3
  {
    [((n >> 16) & 0xFF) as bv8, ((n >> 8) & 0xFF) as bv8, (n & 0xFF) as bv8]
  }

  lemma JoinSextets(x: bv8, y: bv8, z: bv8)
    ensures Unpack(Join(Sextet0(x), Sextet1(x, y), Sextet2(y, z), Sextet3(z))) == [x, y, z]
  {
  }

  lemma CharValues(x: bv8, y: bv8, z: bv8)
    ensures var q := Chars(x, y, z);
            && Value(q[0]) == Sextet0(x) && Value(q[1]) == Sextet1(x, y)
            && Value(q[2]) == Sextet2(y, z) && Value(q[3]) == Sextet3(z)
            && forall i :: 0 <= i < 4 ==> q[i] != PAD && q[i] < 128 && q[i] != 10 && q[i] != 13
  {
    ValueOfSymbol(Sextet0(x));
    ValueOfSymbol(Sextet1(x, y));
    ValueOfSymbol(Sextet2(y, z));
    ValueOfSymbol(Sextet3(z));
  }

  /** The input with only the wanted bytes kept. */
  function Kept(input: Bytes, wanted: bv8 -> bool): Bytes {
    if input == [] then [] else (if wanted(input[0]) then [input[0]] else []) + Kept(input[1..], wanted)
  }

  lemma {:induction false} KeptAppend(a: Bytes, b: Bytes, wanted: bv8 -> bool)
    ensures Kept(a + b, wanted) == Kept(a, wanted) + Kept(b, wanted)
  {
    if a == [] {
      assert a + b == b;
    } else {
      assert (a + b)[0] == a[0] && (a + b)[1..] == a[1..] + b;
      KeptAppend(a[1..], b, wanted);
      var first := if wanted(a[0]) then [a[0]] else [];
      assert Kept(a + b, wanted) == first + (Kept(a[1..], wanted) + Kept(b, wanted));
      assert Kept(a, wanted) == first + Kept(a[1..], wanted);
    }
  }

  lemma {:induction false} KeptAll(a: Bytes, wanted: bv8 -> bool)
    requires forall i :: 0 <= i < |a| ==> wanted(a[i])
    ensures Kept(a, wanted) == a
  {
    if a == [] {
    } else {
      KeptAll(a[1..], wanted);
    }
  }

  // guest_agent.rs: padding or alphabet characters only.
  const AGENT_KEEPS: bv8 -> bool := c => c == PAD || (c < 128 && Value(c) != INVALID)

  // guest_file_manager.rs: everything but line breaks.
  const FILE_KEEPS: bv8 -> bool := c => c != 10 && c != 13

  // host_guest.rs and guest_tools.rs: everything but padding.
  const STRIPPED_KEEPS: bv8 -> bool := c => c != PAD

  function AgentValue(c: bv8): bv8 { if c == PAD then 0 else Value(c & 0x7F) }

  function FileValue(c: bv8): bv8 { Value(c & 0x7F) }

  function StrippedValue(c: bv8): bv8 { if c < 128 then Value(c) else 0 }

  /** A padded group's bytes: the second and third only where no padding stands. */
  function Unpadded(n: bv32, c2: bv8, c3: bv8): Bytes {
    [Unpack(n)[0]] + (if c2 != PAD then [Unpack(n)[1]] else []) + (if c3 != PAD then [Unpack(n)[2]] else [])
  }

  function AgentGroups(s: Bytes): Bytes {
    if |s| < 4 then []
    else Unpadded(Join(AgentValue(s[0]), AgentValue(s[1]), AgentValue(s[2]), AgentValue(s[3])), s[2], s[3]) + AgentGroups(s[4..])
  }

  function FileGroups(s: Bytes): Bytes {
    if |s| < 4 then []
    else Unpadded(Join(FileValue(s[0]), FileValue(s[1]), AgentValue(s[2]), AgentValue(s[3])), s[2], s[3]) + FileGroups(s[4..])
  }

  function StrippedGroups(s: Bytes): Bytes {
    if |s| < 2 then []
    else if |s| == 2 then Unpack(Join(StrippedValue(s[0]), StrippedValue(s[1]), 0, 0))[..1]
    else if |s| == 3 then Unpack(Join(StrippedValue(s[0]), StrippedValue(s[1]), StrippedValue(s[2]), 0))[..2]
    else Unpack(Join(StrippedValue(s[0]), StrippedValue(s[1]), StrippedValue(s[2]), StrippedValue(s[3]))) + StrippedGroups(s[4..])
  }

  /** The pushes for one padded group. */
  method PushGroup(triple: bv32, c2: bv8, c3: bv8) returns (bytes: Bytes)
    ensures bytes == Unpadded(triple, c2, c3)
  {
    var u := Unpack(triple);
    bytes := [u[0]];
    if c2 != PAD {
      bytes := bytes + [u[1]];
    }
    if c3 != PAD {
      bytes := bytes + [u[2]];
    }
  }

  lemma AgentStep(s: Bytes, i: nat, out: Bytes, group: Bytes, whole: Bytes)
    requires i + 4 <= |s| && out + AgentGroups(s[i..]) == whole
    requires group == Unpadded(Join(AgentValue(s[i]), AgentValue(s[i + 1]), AgentValue(s[i + 2]), AgentValue(s[i + 3])), s[i + 2], s[i + 3])
    ensures out + group + AgentGroups(s[i + 4..]) == whole
  {
    var rest := AgentGroups(s[i + 4..]);
    assert s[i..][4..] == s[i + 4..];
    assert AgentGroups(s[i..]) == group + rest;
    assert out + group + rest == out + (group + rest);
  }

  /** `base64_decode_simple` of guest_agent.rs. */
  method DecodeAgent(input: Bytes) returns (out: Bytes)
    ensures out == AgentGroups(Kept(input, AGENT_KEEPS))
  {
    var cleaned := Kept(input, AGENT_KEEPS);
    out := [];
    var i := 0;
    while i + 3 < |cleaned|
      invariant 0 <= i <= |cleaned|
      invariant out + AgentGroups(cleaned[i..]) == AgentGroups(cleaned)
    {
      var triple := Join(AgentValue(cleaned[i]), AgentValue(cleaned[i + 1]), AgentValue(cleaned[i + 2]), AgentValue(cleaned[i + 3]));
      var group := PushGroup(triple, cleaned[i + 2], cleaned[i + 3]);
      AgentStep(cleaned, i, out, group, AgentGroups(cleaned));
      out := out + group;
      i := i + 4;
    }
  }

  lemma FileStep(s: Bytes, i: nat, out: Bytes, group: Bytes, whole: Bytes)
    requires i + 4 <= |s| && out + FileGroups(s[i..]) == whole
    requires group == Unpadded(Join(FileValue(s[i]), FileValue(s[i + 1]), AgentValue(s[i + 2]), AgentValue(s[i + 3])), s[i + 2], s[i + 3])
    ensures out + group + FileGroups(s[i + 4..]) == whole
  {
    var rest := FileGroups(s[i + 4..]);
    assert s[i..][4..] == s[i + 4..];
    assert FileGroups(s[i..]) == group + rest;
    assert out + group + rest == out + (group + rest);
  }

  /** `base64_decode` of guest_file_manager.rs. */
  method DecodeFile(input: Bytes) returns (out: Bytes)
    ensures out == FileGroups(Kept(input, FILE_KEEPS))
  {
    var bytes := Kept(input, FILE_KEEPS);
    out := [];
    var i := 0;
    while i + 3 < |bytes|
      invariant 0 <= i <= |bytes|
      invariant out + FileGroups(bytes[i..]) == FileGroups(bytes)
    {
      var triple := Join(FileValue(bytes[i]), FileValue(bytes[i + 1]), AgentValue(bytes[i + 2]), AgentValue(bytes[i + 3]));
      var group := PushGroup(triple, bytes[i + 2], bytes[i + 3]);
      FileStep(bytes, i, out, group, FileGroups(bytes));
      out := out + group;
      i := i + 4;
    }
  }

  /** The whole groups shared by the two padding-stripping decoders. */
  method WholeGroups(bytes: Bytes) returns (output: Bytes, i: nat)
    ensures i <= |bytes| && |bytes| - i < 4
    ensures output + StrippedGroups(bytes[i..]) == StrippedGroups(bytes)
  {
    output, i := [], 0;
    while i + 3 < |bytes|
      invariant 0 <= i <= |bytes|
      invariant output + StrippedGroups(bytes[i..]) == StrippedGroups(bytes)
    {
      var n := Join(StrippedValue(bytes[i]), StrippedValue(bytes[i + 1]), StrippedValue(bytes[i + 2]), StrippedValue(bytes[i + 3]));
      assert bytes[i..][4..] == bytes[i + 4..];
      output := output + Unpack(n);
      i := i + 4;
    }
  }

  /** Tail of host_guest.rs: two characters give one byte, three give two. */
  method TailHostGuest(rest: Bytes) returns (tail: Bytes)
    requires |rest| < 4
    ensures tail == StrippedGroups(rest)
  {
    tail := [];
    if |rest| == 2 {
      var n := Join(StrippedValue(rest[0]), StrippedValue(rest[1]), 0, 0);
      tail := [Unpack(n)[0]];
    } else if |rest| == 3 {
      var n := Join(StrippedValue(rest[0]), StrippedValue(rest[1]), StrippedValue(rest[2]), 0);
      tail := [Unpack(n)[0], Unpack(n)[1]];
    }
  }

  /** `base64_decode` of host_guest.rs, before the lossy UTF-8 conversion. */
  method DecodeHostGuest(input: Bytes) returns (output: Bytes)
    ensures output == StrippedGroups(Kept(input, STRIPPED_KEEPS))
  {
    var bytes := Kept(input, STRIPPED_KEEPS);
    var i;
    output, i := WholeGroups(bytes);
    var tail := TailHostGuest(bytes[i..]);
    output := output + tail;
  }

  /** Tail of guest_tools.rs: for three characters the first byte is pushed, popped and pushed again. */
  method TailTools(output: Bytes, rest: Bytes) returns (result: Bytes)
    requires |rest| < 4
    ensures result == output + StrippedGroups(rest)
  {
    result := output;
    if |rest| >= 2 {
      var n := Join(StrippedValue(rest[0]), StrippedValue(rest[1]), 0, 0);
      var first := Unpack(n)[0];
      result := result + [first];
      if |rest| >= 3 {
        var m := Join(StrippedValue(rest[0]), StrippedValue(rest[1]), StrippedValue(rest[2]), 0);
        if result != [] {
          result := result[..|result| - 1];
        }
        assert result == output;
        result := result + [Unpack(m)[0]];
        result := result + [Unpack(m)[1]];
      }
    }
  }

  /** `base64_decode` of guest_tools.rs, before the lossy UTF-8 conversion. */
  method DecodeTools(input: Bytes) returns (output: Bytes)
    ensures output == StrippedGroups(Kept(input, STRIPPED_KEEPS))
  {
    var bytes := Kept(input, STRIPPED_KEEPS);
    var i;
    output, i := WholeGroups(bytes);
    output := TailTools(output, bytes[i..]);
  }

  // ----------------------------------------------------------------- round trips

  lemma ChunkDecodes(x: bv8, y: bv8, z: bv8)
    ensures var q := Chars(x, y, z);
            Unpack(Join(Value(q[0]), Value(q[1]), Value(q[2]), Value(q[3]))) == [x, y, z]
  {
    CharValues(x, y, z);
    JoinSextets(x, y, z);
  }

  /** Groups decode to their bytes, padded or not, through either kind of lookup. */
  lemma GroupDecodes(x: bv8, y: bv8, z: bv8)
    ensures var q := Chars(x, y, z);
            && AgentValue(q[0]) == FileValue(q[0]) == StrippedValue(q[0]) == Value(q[0])
            && AgentValue(q[1]) == FileValue(q[1]) == StrippedValue(q[1]) == Value(q[1])
            && AgentValue(q[2]) == StrippedValue(q[2]) == Value(q[2])
            && AgentValue(q[3]) == StrippedValue(q[3]) == Value(q[3])
  {
    CharValues(x, y, z);
    Mask(Chars(x, y, z)[0]);
    Mask(Chars(x, y, z)[1]);
    Mask(Chars(x, y, z)[2]);
    Mask(Chars(x, y, z)[3]);
  }

  lemma Mask(c: bv8)
    requires c < 128
    ensures c & 0x7F == c
  {
  }

  lemma AgentGroup(x: bv8, y: bv8, z: bv8, rest: Bytes)
    ensures AgentGroups(Chars(x, y, z) + rest) == [x, y, z] + AgentGroups(rest)
  {
    ChunkDecodes(x, y, z);
    GroupDecodes(x, y, z);
    CharValues(x, y, z);
    assert (Chars(x, y, z) + rest)[4..] == rest;
  }

  lemma AgentOneLeft(x: bv8)
    ensures AgentGroups(Encode([x])) == [x]
  {
    ChunkDecodes(x, 0, 0);
    GroupDecodes(x, 0, 0);
    CharValues(x, 0, 0);
  }

  lemma AgentTwoLeft(x: bv8, y: bv8)
    ensures AgentGroups(Encode([x, y])) == [x, y]
  {
    ChunkDecodes(x, y, 0);
    GroupDecodes(x, y, 0);
    CharValues(x, y, 0);
  }

  lemma FileOneLeft(x: bv8)
    ensures FileGroups(Encode([x])) == [x]
  {
    ChunkDecodes(x, 0, 0);
    GroupDecodes(x, 0, 0);
    CharValues(x, 0, 0);
  }

  lemma FileTwoLeft(x: bv8, y: bv8)
    ensures FileGroups(Encode([x, y])) == [x, y]
  {
    ChunkDecodes(x, y, 0);
    GroupDecodes(x, y, 0);
    CharValues(x, y, 0);
  }

  lemma {:induction false} AgentRoundTrip(data: Bytes)
    ensures AgentGroups(Encode(data)) == data
  {
    if data == [] {
    } else if |data| == 1 {
      assert data == [data[0]];
      AgentOneLeft(data[0]);
    } else if |data| == 2 {
      assert data == [data[0], data[1]];
      AgentTwoLeft(data[0], data[1]);
    } else {
      AgentGroup(data[0], data[1], data[2], Encode(data[3..]));
      AgentRoundTrip(data[3..]);
    }
  }

  lemma FileGroup(x: bv8, y: bv8, z: bv8, rest: Bytes)
    ensures FileGroups(Chars(x, y, z) + rest) == [x, y, z] + FileGroups(rest)
  {
    ChunkDecodes(x, y, z);
    GroupDecodes(x, y, z);
    CharValues(x, y, z);
    assert (Chars(x, y, z) + rest)[4..] == rest;
  }

  lemma {:induction false} FileRoundTrip(data: Bytes)
    ensures FileGroups(Encode(data)) == data
  {
    if data == [] {
    } else if |data| == 1 {
      assert data == [data[0]];
      FileOneLeft(data[0]);
    } else if |data| == 2 {
      assert data == [data[0], data[1]];
      FileTwoLeft(data[0], data[1]);
    } else {
      FileGroup(data[0], data[1], data[2], Encode(data[3..]));
      FileRoundTrip(data[3..]);
    }
  }

  /** The encoding without its padding. */
  function Bare(data: Bytes): Bytes {
    if |data| == 0 then []
    else if |data| == 1 then Chars(data[0], 0, 0)[..2]
    else if |data| == 2 then Chars(data[0], data[1], 0)[..3]
    else Chars(data[0], data[1], data[2]) + Bare(data[3..])
  }

  lemma {:induction false} StrippedRoundTrip(data: Bytes)
    ensures StrippedGroups(Bare(data)) == data
  {
    if |data| > 0 {
      var x, y, z := data[0], if |data| > 1 then data[1] else 0, if |data| > 2 then data[2] else 0;
      ChunkDecodes(x, y, z);
      GroupDecodes(x, y, z);
      if |data| >= 3 {
        StrippedRoundTrip(data[3..]);
        assert Bare(data)[4..] == Bare(data[3..]);
      }
    }
  }

  lemma {:induction false} KeptOfEncode(data: Bytes)
    ensures Kept(Encode(data), STRIPPED_KEEPS) == Bare(data)
  {
    if |data| > 0 {
      var x, y, z := data[0], if |data| > 1 then data[1] else 0, if |data| > 2 then data[2] else 0;
      var q := Chars(x, y, z);
      CharValues(x, y, z);
      if |data| == 1 {
        KeptAll(q[..2], STRIPPED_KEEPS);
        KeptAppend(q[..2], [PAD, PAD], STRIPPED_KEEPS);
        assert [PAD, PAD][1..] == [PAD] && [PAD][1..] == [];
      } else if |data| == 2 {
        KeptAll(q[..3], STRIPPED_KEEPS);
        KeptAppend(q[..3], [PAD], STRIPPED_KEEPS);
        assert [PAD][1..] == [];
      } else {
        KeptAll(q, STRIPPED_KEEPS);
        KeptAppend(q, Encode(data[3..]), STRIPPED_KEEPS);
        KeptOfEncode(data[3..]);
      }
    }
  }

  lemma AlphabetIsAscii(c: bv8)
    requires InAlphabet(c) || c == PAD
    ensures AGENT_KEEPS(c) && FILE_KEEPS(c)
  {
    if c != PAD { SymbolOfValue(c); }
  }

  /**
   For every byte string, each decoder returns the bytes that either encoder was
   given (the four methods above compute these functions of their input).
   */
  lemma DecodersInvertEncode(data: Bytes)
    ensures AgentGroups(Kept(Encode(data), AGENT_KEEPS)) == data
    ensures FileGroups(Kept(Encode(data), FILE_KEEPS)) == data
    ensures StrippedGroups(Kept(Encode(data), STRIPPED_KEEPS)) == data
  {
    var text := Encode(data);
    EncodeAlphabet(data);
    forall i | 0 <= i < |text| ensures AGENT_KEEPS(text[i]) && FILE_KEEPS(text[i]) { AlphabetIsAscii(text[i]); }
    KeptAll(text, AGENT_KEEPS);
    KeptAll(text, FILE_KEEPS);
    KeptOfEncode(data);
    AgentRoundTrip(data);
    FileRoundTrip(data);
    StrippedRoundTrip(data);
  }

  /** Line breaks anywhere in the text do not disturb the decoders that skip them. */
  lemma {:induction false} WrappedTextDecodes(data: Bytes, text: Bytes)
    requires Kept(text, c => c != 10 && c != 13) == Encode(data)
    ensures FileGroups(Kept(text, FILE_KEEPS)) == data
    ensures AgentGroups(Kept(text, AGENT_KEEPS)) == data
  {
    KeptAlike(text, FILE_KEEPS, c => c != 10 && c != 13);
    AgentRoundTrip(data);
    FileRoundTrip(data);
    EncodeAlphabet(data);
    WrappedKept(text, Encode(data));
  }

  lemma {:induction false} WrappedKept(text: Bytes, plain: Bytes)
    requires Kept(text, FILE_KEEPS) == plain
    requires forall i :: 0 <= i < |plain| ==> InAlphabet(plain[i]) || plain[i] == PAD
    ensures Kept(text, AGENT_KEEPS) == plain
  {
    if text == [] {
    } else {
      var c := text[0];
      var rest := Kept(text[1..], FILE_KEEPS);
      if FILE_KEEPS(c) {
        assert plain[0] == c && plain[1..] == rest;
        AlphabetIsAscii(c);
      } else {
        assert Value(10) == INVALID && Value(13) == INVALID;
        assert plain == rest;
      }
      WrappedKept(text[1..], rest);
    }
  }

  /** A character of the alphabet (RFC 4648, table 1) or padding. */
  predicate Printed(c: bv8) {
    'A' as bv8 <= c <= 'Z' as bv8 || 'a' as bv8 <= c <= 'z' as bv8 || '0' as bv8 <= c <= '9' as bv8
    || c == '+' as bv8 || c == '/' as bv8 || c == '=' as bv8
  }

  lemma PrintedIsKept(c: bv8)
    ensures AGENT_KEEPS(c) <==> Printed(c)
  {
  }

  lemma {:induction false} KeptAlike(input: Bytes, a: bv8 -> bool, b: bv8 -> bool)
    requires forall c :: a(c) == b(c)
    ensures Kept(input, a) == Kept(input, b)
  {
    if input == [] {
    } else {
      KeptAlike(input[1..], a, b);
    }
  }

  /** Anything outside the alphabet, anywhere in the text, does not disturb the guest agent's decoder. */
  lemma NoisyTextDecodes(data: Bytes, text: Bytes)
    requires Kept(text, Printed) == Encode(data)
    ensures AgentGroups(Kept(text, AGENT_KEEPS)) == data
  {
    forall c ensures AGENT_KEEPS(c) == Printed(c) {
      PrintedIsKept(c);
    }
    KeptAlike(text, AGENT_KEEPS, Printed);
    AgentRoundTrip(data);
  }
}
