/** What the parser reads from descriptors it did not write. */
module OvfForeign {
  import opened Wrappers
  import opened Text
  import opened Decimal
  import opened Ovf
  import opened OvfRoundTrip

  // -------------------------------------------------------------------- the OS type

  /** The OS by id: 36, 94, 96 and 101 are Linux, 67, 69, 70 and 112 Windows, 42 FreeBSD. */
  ghost predicate NamesOs(id: string, os: OsType) {
    match os
    case Linux => id in {"36", "94", "96", "101"}
    case Windows => id in {"67", "69", "70", "112"}
    case FreeBSD => id == "42"
    case MacOS => false
    case Other => id !in {"36", "94", "96", "101", "67", "69", "70", "112", "42"}
  }

  lemma OsOfIdExactly(id: string, os: OsType)
    ensures OsOfId(id) == os <==> NamesOs(id, os)
  {
  }

  /** The OS is the one of the first id after the first mention of the section. */
  lemma OsOfSection(before: string, between: string, id: string, after: string)
    requires Free(id, '\"')
    requires var section := "OperatingSystemSection" + between;
             var text := "ovf:id=\"" + (id + ("\"" + after));
             && Find(before + (section + text), "OperatingSystemSection") == Some(|before|)
             && Find(section + text, "ovf:id=\"") == Some(|section|)
    ensures NamesOs(id, ReadOs(before + (("OperatingSystemSection" + between) + ("ovf:id=\"" + (id + ("\"" + after))))))
  {
    var section := "OperatingSystemSection" + between;
    var text := "ovf:id=\"" + (id + ("\"" + after));
    DropFront(before, section + text);
    AttrValue(section, id, after);
    OsOfIdExactly(id, OsOfId(id));
  }

  lemma DropFront(a: string, b: string)
    ensures (a + b)[|a|..] == b
  {
  }

  /** Without the section, or without an id after it, the OS is Linux. */
  lemma OsWithoutId(ovf: string)
    requires var at := Find(ovf, "OperatingSystemSection");
             at.None? || Find(ovf[at.value..], "ovf:id=\"").None?
    ensures ReadOs(ovf) == Linux
  {
    PatternIsId();
  }

  // -------------------------------------------------------------------- the hardware

  /** What an item's elements say, a number missing or not parsed being 0. */
  function KindOf(block: string): nat { NumberIn(ItemOf(block), "rasd:ResourceType", 0xFFFF_FFFF) }

  function QuantityOf(block: string): nat { NumberIn(ItemOf(block), "rasd:VirtualQuantity", 0xFFFF_FFFF_FFFF_FFFF) }

  /** Block `i` is the last of its kind. */
  ghost predicate LastOfKind(blocks: seq<string>, i: nat, kind: nat)
    requires i < |blocks|
  {
    KindOf(blocks[i]) == kind && forall j :: i < j < |blocks| ==> KindOf(blocks[j]) != kind
  }

  lemma {:induction false} OthersChangeNothing(blocks: seq<string>, found: (nat, nat), kind: nat)
    requires forall j :: 0 <= j < |blocks| ==> KindOf(blocks[j]) != kind
    ensures kind == 3 ==> ReadItems(blocks, found).0 == found.0
    ensures kind == 4 ==> ReadItems(blocks, found).1 == found.1
    decreases |blocks|
  {
    if blocks == [] {
    } else {
      OthersChangeNothing(blocks[1..], ReadItem(blocks[0], found), kind);
    }
  }

  /** The last processor item gives the CPU count, at most 1024, and the last memory item the memory. */
  lemma {:induction false} LastItemDecides(blocks: seq<string>, found: (nat, nat), kind: nat, i: nat)
    requires i < |blocks| && LastOfKind(blocks, i, kind)
    ensures kind == 3 ==> ReadItems(blocks, found).0 == if QuantityOf(blocks[i]) <= 1024 then QuantityOf(blocks[i]) else 1024
    ensures kind == 4 ==> ReadItems(blocks, found).1 == QuantityOf(blocks[i])
    decreases i
  {
    var rest, next := blocks[1..], ReadItem(blocks[0], found);
    if i == 0 {
      assert forall j :: 0 <= j < |rest| ==> rest[j] == blocks[j + 1];
      OthersChangeNothing(rest, next, kind);
    } else {
      assert rest[i - 1] == blocks[i];
      forall j | i - 1 < j < |rest| ensures KindOf(rest[j]) != kind {
        assert rest[j] == blocks[j + 1];
      }
      LastItemDecides(rest, next, kind, i - 1);
    }
  }

  /** The items of a descriptor: what stands after each item tag, up to the next. */
  function ItemBlocks(ovf: string): seq<string> { Split(ovf, "<Item>")[1..] }

  /** Every descriptor: the last item of each kind decides; without one there are 2 CPUs and 4096 MiB. */
  lemma HardwareOf(ovf: string)
    ensures var blocks := ItemBlocks(ovf);
            && (forall i :: 0 <= i < |blocks| && LastOfKind(blocks, i, 3) ==>
                  ParsedOf(ovf).cpus == if QuantityOf(blocks[i]) <= 1024 then QuantityOf(blocks[i]) else 1024)
            && (forall i :: 0 <= i < |blocks| && LastOfKind(blocks, i, 4) ==> ParsedOf(ovf).memoryMib == QuantityOf(blocks[i]))
            && ((forall j :: 0 <= j < |blocks| ==> KindOf(blocks[j]) != 3) ==> ParsedOf(ovf).cpus == 2)
            && ((forall j :: 0 <= j < |blocks| ==> KindOf(blocks[j]) != 4) ==> ParsedOf(ovf).memoryMib == 4096)
  {
    var blocks := ItemBlocks(ovf);
    forall i | 0 <= i < |blocks| && LastOfKind(blocks, i, 3)
      ensures ParsedOf(ovf).cpus == if QuantityOf(blocks[i]) <= 1024 then QuantityOf(blocks[i]) else 1024
    {
      LastItemDecides(blocks, (2, 4096), 3, i);
    }
    forall i | 0 <= i < |blocks| && LastOfKind(blocks, i, 4) ensures ParsedOf(ovf).memoryMib == QuantityOf(blocks[i]) {
      LastItemDecides(blocks, (2, 4096), 4, i);
    }
    if forall j :: 0 <= j < |blocks| ==> KindOf(blocks[j]) != 3 {
      OthersChangeNothing(blocks, (2, 4096), 3);
    }
    if forall j :: 0 <= j < |blocks| ==> KindOf(blocks[j]) != 4 {
      OthersChangeNothing(blocks, (2, 4096), 4);
    }
  }

  /** A number is read through white space, a plus sign and leading zeros; anything else, or one too large, is read as 0. */
  lemma NumberInText(item: string, tag: string, max: nat, n: nat, a: string, s: string, b: string)
    requires ExtractXmlValue(item, tag) == Some(a + (s + b)) && Spaces(a) && Spaces(b) && Bare(s)
    ensures (exists k: nat :: SpelledWith(s, k, n)) && n <= max ==> NumberIn(item, tag, max) == n
    ensures (forall k: nat, m: nat :: m <= max ==> !SpelledWith(s, k, m)) ==> NumberIn(item, tag, max) == 0
  {
    TrimExactly(a, s, b);
    ParseExactly(s, max, n);
    var found := Parse(s, max);
    if found.Some? {
      ParseExactly(s, max, found.value);
    }
  }

  // ----------------------------------------------------------------------- splitting

  function Join(pieces: seq<string>, pat: string): string
    requires pieces != []
  {
    if |pieces| == 1 then pieces[0] else pieces[0] + (pat + Join(pieces[1..], pat))
  }

  /** The pieces, joined by the pattern, are the text, and none holds the pattern. */
  lemma {:induction false} SplitExactly(s: string, pat: string)
    requires pat != ""
    ensures Join(Split(s, pat), pat) == s && NoneHolds(Split(s, pat), pat)
    decreases |s|
  {
    var at := Find(s, pat);
    if at.None? {
    } else {
      var rest := s[at.value + |pat|..];
      SplitExactly(rest, pat);
      SplitCons(s, pat, at.value, Split(rest, pat));
    }
  }

  lemma SplitCons(s: string, pat: string, at: nat, pieces: seq<string>)
    requires pat != "" && Find(s, pat) == Some(at) && pieces != []
    requires Join(pieces, pat) == s[at + |pat|..] && NoneHolds(pieces, pat)
    ensures Join([s[..at]] + pieces, pat) == s && NoneHolds([s[..at]] + pieces, pat)
  {
    HeadHasNone(s, pat, at);
    CutTogether(s, pat, at);
    JoinCons(s[..at], pieces, pat, s[at + |pat|..]);
  }

  ghost predicate NoneHolds(pieces: seq<string>, pat: string) { forall p :: p in pieces ==> Find(p, pat).None? }

  lemma JoinCons(head: string, pieces: seq<string>, pat: string, rest: string)
    requires pieces != [] && Join(pieces, pat) == rest && NoneHolds(pieces, pat) && Find(head, pat).None?
    ensures Join([head] + pieces, pat) == head + (pat + rest) && NoneHolds([head] + pieces, pat)
  {
    assert ([head] + pieces)[1..] == pieces;
  }

  lemma CutTogether(s: string, pat: string, at: nat)
    requires Find(s, pat) == Some(at)
    ensures s == s[..at] + (pat + s[at + |pat|..])
  {
    FindSpec(s, pat);
    assert s[at..][..|pat|] == pat;
  }

  lemma HeadHasNone(s: string, pat: string, at: nat)
    requires pat != "" && Find(s, pat) == Some(at)
    ensures Find(s[..at], pat).None?
  {
    FindSpec(s, pat);
    FindSpec(s[..at], pat);
    forall i | 0 <= i <= at ensures !(pat <= s[..at][i..]) {
      Within(s, pat, at, i);
    }
  }

  lemma Within(s: string, pat: string, at: nat, i: nat)
    requires i <= at <= |s|
    ensures pat <= s[..at][i..] ==> pat <= s[i..] && i + |pat| <= at
  {
    if pat <= s[..at][i..] {
      assert s[i..][..|pat|] == s[..at][i..][..|pat|];
    }
  }
}
