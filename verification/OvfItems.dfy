/** Splitting the descriptor into items and reading each one. */
module OvfItems {
  import opened Wrappers
  import opened Text
  import opened Markup
  import opened Decimal
  import opened Ovf
  import opened OvfTags

  const KIND := "rasd:ResourceType"
  const QUANTITY := "rasd:VirtualQuantity"

  /** No item starts or ends inside these tags. */
  ghost predicate Body(tags: seq<Tag>) {
    NoneIs(tags, "Item>") && NoneIs(tags, "/Item>")
  }

  /** Neither an item's opening or closing tag nor one of the two values the parser reads. */
  ghost predicate Filler(tags: seq<Tag>) {
    Body(tags) && NoneIs(tags, KIND + ">") && NoneIs(tags, QUANTITY + ">")
  }

  lemma TagEnds(tag: string)
    requires Free(tag, '<') && |tag| > 5
    ensures Free(tag + ">", '<') && Free("/" + tag + ">", '<')
    ensures (tag + ">")[0] == tag[0] && (tag + ">")[5] == tag[5] && ("/" + tag + ">")[0] == '/' && ("/" + tag + ">")[1] == tag[0]
  {
  }

  /** An element that another one's name differs from at its sixth character. */
  lemma NotThat(tag: string, value: string, after: string, other: string)
    requires Free(tag, '<') && Free(value, '<') && Free(after, '<') && |tag| > 5
    requires |other| > 5 && tag[5] != other[5] && other[0] == 'r'
    ensures NoneIs(Element(tag, value, after), other + ">")
  {
    TagEnds(tag);
    assert (other + ">")[0] == 'r' && (other + ">")[5] == other[5];
    DiffersAt(tag + ">", other + ">", 5);
    DiffersAt("/" + tag + ">", other + ">", 0);
  }

  /** `rasd:` elements are no items. */
  lemma RasdBody(tag: string, value: string, after: string)
    requires Free(tag, '<') && Free(value, '<') && Free(after, '<')
    requires |tag| > 5 && tag[0] == 'r'
    ensures Body(Element(tag, value, after))
  {
    var open, close := tag + ">", "/" + tag + ">";
    TagEnds(tag);
    DiffersAt(open, "Item>", 0);
    DiffersAt(close, "Item>", 0);
    DiffersAt(open, "/Item>", 0);
    DiffersAt(close, "/Item>", 1);
  }

  lemma Sixth()
    ensures KIND[0] == 'r' && KIND[5] == 'R' && QUANTITY[0] == 'r' && QUANTITY[5] == 'V'
    ensures |KIND| > 5 && |QUANTITY| > 5
  {
  }

  /** `rasd:` elements other than the two the parser reads. */
  lemma RasdFiller(tag: string, value: string, after: string)
    requires Free(tag, '<') && Free(value, '<') && Free(after, '<')
    requires |tag| > 5 && tag[0] == 'r' && tag[5] != 'R' && tag[5] != 'V'
    ensures Filler(Element(tag, value, after))
  {
    RasdBody(tag, value, after);
    Sixth();
    NotThat(tag, value, after, KIND);
    NotThat(tag, value, after, QUANTITY);
  }

  /** The resource type's element is no obstacle for the searches that come after it. */
  lemma KindElement(value: string, after: string)
    requires Free(value, '<') && Free(after, '<')
    ensures Body(Element(KIND, value, after)) && NoneIs(Element(KIND, value, after), QUANTITY + ">")
  {
    PlainItem2();
    Sixth();
    RasdBody(KIND, value, after);
    NotThat(KIND, value, after, QUANTITY);
  }

  lemma QuantityElement(value: string, after: string)
    requires Free(value, '<') && Free(after, '<')
    ensures Body(Element(QUANTITY, value, after))
  {
    PlainItemText2();
    Sixth();
    RasdBody(QUANTITY, value, after);
  }

  lemma ItemHeadFiller(units: string, description: string, title: string, id: string)
    requires Free(units, '<') && Free(description, '<') && Free(title, '<') && Free(id, '<')
    ensures Filler(ItemHead(units, description, title, id))
  {
    PlainItem();
    PlainItem2();
    PlainBreaks();
    RasdFiller("rasd:AllocationUnits", units, NL8);
    RasdFiller("rasd:Description", description, NL8);
    RasdFiller("rasd:ElementName", title, NL8);
    RasdFiller("rasd:InstanceID", id, NL8);
  }

  lemma DiskHeadFiller()
    ensures Filler(DISK_HEAD)
  {
    PlainItem();
    PlainItem2();
    PlainItemText2();
    PlainBreaks();
    FreeAddress();
    PlainVssd();
    assert Free("3", '<');
    RasdFiller("rasd:AddressOnParent", "0", NL8);
    RasdFiller("rasd:ElementName", "Hard Disk 1", NL8);
    RasdFiller("rasd:HostResource", "ovf:/disk/vmdisk1", NL8);
    RasdFiller("rasd:InstanceID", "3", NL8);
  }

  // ---------------------------------------------------------------- one item's text

  lemma ItemPatterns()
    ensures "<" + "Item>" == ITEM && "<" + "/Item>" == ITEM_END && ITEM[0] == '<' && ITEM_END[0] == '<'
    ensures Free(NL8, '<') && Free(ITEM_END[1..], '<') && ITEM_END[1] == '/' && ITEM[1] == 'I'
  {
  }

  /** The item the parser cuts out of a block is its tags. */
  lemma ItemOfBlock(tags: seq<Tag>, after: string)
    requires Body(tags)
    ensures ItemOf(ItemText(tags, after)) == NL8 + Render(tags)
  {
    ItemPatterns();
    var tail := ITEM_END + after;
    FindPast(NL8, Render(tags) + tail, ITEM_END);
    FindPastTags(tags, tail, "/Item>");
    FindHere(ITEM_END, after);
    assert ItemText(tags, after)[..|NL8| + |Render(tags)|] == NL8 + Render(tags);
  }

  lemma FindPastItemEnd(after: string, rest: string)
    requires Free(after, '<')
    ensures Find((ITEM_END + after) + rest, ITEM) == Shift(|ITEM_END + after|, Find(rest, ITEM))
  {
    ItemPatterns();
    var last := ITEM_END + after;
    assert last[1..] == ITEM_END[1..] + after && last[1] == '/';
    DiffersAt(last, ITEM, 1);
    FindMiss(last, rest, ITEM);
  }

  /** Looking for the next item passes over a whole block. */
  lemma FindPastBlock(tags: seq<Tag>, after: string, rest: string)
    requires Body(tags) && Free(after, '<')
    ensures Find(ItemText(tags, after) + rest, ITEM) == Shift(|ItemText(tags, after)|, Find(rest, ITEM))
  {
    var last := (ITEM_END + after) + rest;
    BlockParts(tags, after, rest);
    ItemPatterns();
    FindPast(NL8, Render(tags) + last, ITEM);
    FindPastTags(tags, last, "Item>");
    FindPastItemEnd(after, rest);
  }

  lemma BlockParts(tags: seq<Tag>, after: string, rest: string)
    ensures ItemText(tags, after) + rest == NL8 + (Render(tags) + ((ITEM_END + after) + rest))
  {
  }

  lemma ExtractPast(a: string, b: string, tag: string)
    requires Free(a, '<')
    ensures ExtractXmlValue(a + b, tag) == ExtractXmlValue(b, tag)
  {
    FindPast(a, b, Open(tag));
    var at := Find(b, Open(tag));
    if at.Some? {
      assert (a + b)[|a| + at.value + |Open(tag)|..] == b[at.value + |Open(tag)|..];
    }
  }

  /** The number read from the first element of that name. */
  lemma NumberRead(before: seq<Tag>, tag: string, n: nat, after: string, rest: string, max: nat)
    requires NoneIs(before, tag + ">") && n <= max
    ensures NumberIn(NL8 + (Render(before) + (Render(Element(tag, Digits(n), after)) + rest)), tag, max) == n
  {
    ItemPatterns();
    ExtractPast(NL8, Render(before) + (Render(Element(tag, Digits(n), after)) + rest), tag);
    ReadElement(before, tag, Digits(n), after, rest);
    ParseDigits(n, max);
  }

  lemma SmallDigits()
    ensures Digits(3) == "3" && Digits(4) == "4" && Digits(17) == "17"
  {
    assert Digits(17 / 10) == [DigitOf(1)];
  }

  lemma ThreeParts(a: seq<Tag>, b: seq<Tag>, c: seq<Tag>)
    ensures Render(a + b + c) == Render(a) + (Render(b) + Render(c))
    ensures Render(a + b + c) == Render(a + b) + (Render(c) + "")
  {
    RenderAppend(a + b, c);
    RenderAppend(a, b);
    Regroup(Render(a), Render(b), Render(c));
  }

  lemma Regroup(x: string, y: string, z: string)
    ensures (x + y) + z == x + (y + z) && z + "" == z
  {
  }

  lemma QuantityItemBody(head: seq<Tag>, kind: nat, quantity: nat)
    requires Filler(head)
    ensures Body(head + Element(KIND, Digits(kind), NL8) + Element(QUANTITY, Digits(quantity), NL6))
    ensures NoneIs(head + Element(KIND, Digits(kind), NL8), QUANTITY + ">")
  {
    PlainBreaks();
    KindElement(Digits(kind), NL8);
    QuantityElement(Digits(quantity), NL6);
  }

  lemma QuantityItemNumbers(head: seq<Tag>, kind: nat, quantity: nat)
    requires Filler(head) && kind <= U32_MAX && quantity <= U64_MAX
    ensures var item := NL8 + Render(head + Element(KIND, Digits(kind), NL8) + Element(QUANTITY, Digits(quantity), NL6));
            NumberIn(item, KIND, U32_MAX) == kind && NumberIn(item, QUANTITY, U64_MAX) == quantity
  {
    var kindTags, quantityTags := Element(KIND, Digits(kind), NL8), Element(QUANTITY, Digits(quantity), NL6);
    ThreeParts(head, kindTags, quantityTags);
    QuantityItemBody(head, kind, quantity);
    NumberRead(head, KIND, kind, NL8, Render(quantityTags), U32_MAX);
    NumberRead(head + kindTags, QUANTITY, quantity, NL6, "", U64_MAX);
  }

  /** A CPU or memory item is read as its kind and its quantity. */
  lemma QuantityItemRead(units: string, description: string, title: string, id: string, kind: nat, quantity: nat, after: string, found: (nat, nat))
    requires Free(units, '<') && Free(description, '<') && Free(title, '<') && Free(id, '<')
    requires (kind == 3 || kind == 4) && quantity <= U64_MAX
    ensures var tags := QuantityItem(units, description, title, id, Digits(kind), quantity);
            && Body(tags)
            && ReadItem(ItemText(tags, after), found)
               == if kind == 3 then (if quantity < 1024 then quantity else 1024, found.1) else (found.0, quantity)
  {
    var head := ItemHead(units, description, title, id);
    ItemHeadFiller(units, description, title, id);
    QuantityItemBody(head, kind, quantity);
    QuantityItemNumbers(head, kind, quantity);
    ItemOfBlock(QuantityItem(units, description, title, id, Digits(kind), quantity), after);
  }

  lemma NoQuantity(tags: seq<Tag>)
    requires NoneIs(tags, QUANTITY + ">")
    ensures NumberIn(NL8 + Render(tags), QUANTITY, U64_MAX) == 0
  {
    ItemPatterns();
    ExtractPast(NL8, Render(tags), QUANTITY);
    OpenTag(QUANTITY);
    FindPastTags(tags, "", QUANTITY + ">");
    assert Render(tags) + "" == Render(tags);
    assert !(Open(QUANTITY) <= "");
  }

  lemma DiskText()
    ensures Render(DiskItem()) == Render(DISK_HEAD) + (Render(Element(KIND, Digits(17), NL6)) + "")
  {
    SmallDigits();
    TwoParts(DISK_HEAD, Element(KIND, Digits(17), NL6));
  }

  lemma TwoParts(a: seq<Tag>, b: seq<Tag>)
    ensures Render(a + b) == Render(a) + (Render(b) + "")
  {
    RenderAppend(a, b);
  }

  /** The disk item leaves what was found alone. */
  lemma DiskItemRead(after: string, found: (nat, nat))
    ensures Body(DiskItem()) && ReadItem(ItemText(DiskItem(), after), found) == found
  {
    DiskHeadFiller();
    SmallDigits();
    PlainBreaks();
    KindElement(Digits(17), NL6);
    ItemOfBlock(DiskItem(), after);
    DiskText();
    NumberRead(DISK_HEAD, KIND, 17, NL6, "", U32_MAX);
    NoQuantity(DiskItem());
  }

  // ------------------------------------------------------------------- all three items

  lemma SplitStep(a: string, rest: string, pat: string)
    requires pat != "" && Find(a + (pat + rest), pat) == Some(|a|)
    ensures Split(a + (pat + rest), pat) == [a] + Split(rest, pat)
  {
    CutAround(a, pat, rest);
  }

  lemma CutAround(a: string, pat: string, rest: string)
    ensures (a + (pat + rest))[..|a|] == a && (a + (pat + rest))[|a| + |pat|..] == rest
  {
  }

  lemma SplitBlock(tags: seq<Tag>, after: string, rest: string)
    requires Body(tags) && Free(after, '<')
    ensures Split(ItemText(tags, after) + (ITEM + rest), ITEM) == [ItemText(tags, after)] + Split(rest, ITEM)
  {
    FindPastBlock(tags, after, ITEM + rest);
    FindHere(ITEM, rest);
    SplitStep(ItemText(tags, after), rest, ITEM);
  }

  lemma EpilogEnds()
    ensures NoneIs(EPILOG, "Item>")
  {
    PlainEpilog();
    PlainBreaks();
    CalmTag("/VirtualHardwareSection>", NL2);
    CalmTag("/VirtualSystem>", NL0);
    CalmTag("/Envelope>", "");
  }

  lemma LastBlock(tags: seq<Tag>, after: string, tail: seq<Tag>)
    requires Body(tags) && Free(after, '<') && NoneIs(tail, "Item>")
    ensures Find(ItemText(tags, after + Render(tail)), ITEM).None?
  {
    ItemPatterns();
    FindPastBlock(tags, after, Render(tail));
    FindPastTags(tail, "", "Item>");
    assert Render(tail) + "" == Render(tail);
    assert Find("", ITEM).None? by { assert !(ITEM <= ""); }
    LastParts(tags, after, Render(tail));
  }

  lemma LastParts(tags: seq<Tag>, after: string, rest: string)
    ensures ItemText(tags, after) + rest == ItemText(tags, after + rest)
  {
  }

  /** No further item follows the disk item. */
  lemma SplitDiskBlock()
    ensures Split(ItemText(DiskItem(), NL4 + Render(EPILOG)), ITEM) == [ItemText(DiskItem(), NL4 + Render(EPILOG))]
  {
    assert Body(DiskItem()) by { DiskItemRead("", (0, 0)); }
    assert Free(NL4, '<') by { PlainBreaks(); }
    EpilogEnds();
    LastBlock(DiskItem(), NL4, EPILOG);
  }

  lemma CpuItemRead(vcpus: nat, after: string, found: (nat, nat))
    requires vcpus <= U64_MAX
    ensures Body(CpuItem(vcpus)) && ReadItem(ItemText(CpuItem(vcpus), after), found) == (if vcpus < 1024 then vcpus else 1024, found.1)
  {
    PlainItemText();
    assert Free(Digits(vcpus) + " virtual CPU(s)", '<');
    assert Free("1", '<');
    SmallDigits();
    QuantityItemRead("hertz * 10^6", "Number of Virtual CPUs", Digits(vcpus) + " virtual CPU(s)", "1", 3, vcpus, after, found);
  }

  lemma MemoryItemRead(mib: nat, after: string, found: (nat, nat))
    requires mib <= U64_MAX
    ensures Body(MemoryItem(mib)) && ReadItem(ItemText(MemoryItem(mib), after), found) == (found.0, mib)
  {
    PlainItemText();
    PlainItemText2();
    assert Free(Digits(mib) + "MB of memory", '<');
    assert Free("2", '<');
    SmallDigits();
    QuantityItemRead("byte * 2^20", "Memory Size", Digits(mib) + "MB of memory", "2", 4, mib, after, found);
  }

  /** The blocks after the first item tag, one for each item. */
  function Blocks(c: VmConfig): seq<string> {
    [ItemText(CpuItem(c.vcpus), NL6), ItemText(MemoryItem(c.memoryMib), NL6), ItemText(DiskItem(), NL4 + Render(EPILOG))]
  }

  lemma SplitCpuBlock(c: VmConfig, rest: string)
    requires c.Valid()
    ensures Split(Blocks(c)[0] + (ITEM + rest), ITEM) == [Blocks(c)[0]] + Split(rest, ITEM)
  {
    assert Free(NL6, '<') by { PlainBreaks(); }
    CpuItemRead(c.vcpus, NL6, (2, 4096));
    SplitBlock(CpuItem(c.vcpus), NL6, rest);
  }

  lemma SplitMemoryBlock(c: VmConfig, rest: string)
    requires c.Valid()
    ensures Split(Blocks(c)[1] + (ITEM + rest), ITEM) == [Blocks(c)[1]] + Split(rest, ITEM)
  {
    assert Free(NL6, '<') by { PlainBreaks(); }
    MemoryItemRead(c.memoryMib, NL6, (2, 4096));
    SplitBlock(MemoryItem(c.memoryMib), NL6, rest);
  }

  /** Splitting any item-free text followed by the items gives the three blocks. */
  lemma SplitItems(c: VmConfig, head: string)
    requires c.Valid()
    requires Find(head + Items(c), ITEM) == Some(|head|)
    ensures Split(head + Items(c), ITEM) == [head] + Blocks(c)
  {
    var blocks := Blocks(c);
    SplitCpuBlock(c, blocks[1] + (ITEM + blocks[2]));
    SplitMemoryBlock(c, blocks[2]);
    SplitDiskBlock();
    SplitChain(head, blocks[0], blocks[1], blocks[2]);
  }

  lemma SplitChain(head: string, a: string, b: string, c: string)
    requires Find(head + (ITEM + (a + (ITEM + (b + (ITEM + c))))), ITEM) == Some(|head|)
    requires Split(a + (ITEM + (b + (ITEM + c))), ITEM) == [a] + Split(b + (ITEM + c), ITEM)
    requires Split(b + (ITEM + c), ITEM) == [b] + Split(c, ITEM)
    requires Split(c, ITEM) == [c]
    ensures Split(head + (ITEM + (a + (ITEM + (b + (ITEM + c))))), ITEM) == [head] + [a, b, c]
  {
    SplitStep(head, a + (ITEM + (b + (ITEM + c))), ITEM);
    FourLists(head, a, b, c);
  }

  lemma FourLists(head: string, a: string, b: string, c: string)
    ensures [head] + ([a] + ([b] + [c])) == [head] + [a, b, c]
  {
  }

  /** Reading the three blocks gives the CPU count, capped, and the memory. */
  lemma BlocksRead(c: VmConfig)
    requires c.Valid()
    ensures ReadItems(Blocks(c), (2, 4096)) == (if c.vcpus < 1024 then c.vcpus else 1024, c.memoryMib)
  {
    var blocks := Blocks(c);
    var cpus := if c.vcpus < 1024 then c.vcpus else 1024;
    CpuItemRead(c.vcpus, NL6, (2, 4096));
    MemoryItemRead(c.memoryMib, NL6, (cpus, 4096));
    DiskItemRead(NL4 + Render(EPILOG), (cpus, c.memoryMib));
    ThreeSteps(blocks[0], blocks[1], blocks[2], (2, 4096));
  }

  lemma ThreeSteps(a: string, b: string, c: string, found: (nat, nat))
    ensures ReadItems([a, b, c], found) == ReadItem(c, ReadItem(b, ReadItem(a, found)))
  {
    assert [a, b, c][1..] == [b, c] && [b, c][1..] == [c] && [c][1..] == [];
    assert ReadItems([b, c], ReadItem(a, found)) == ReadItems([c], ReadItem(b, ReadItem(a, found)));
  }
}
