/** What the parser returns for every descriptor the writer produces. */
module OvfRoundTrip {
  import opened Wrappers
  import opened Text
  import opened Markup
  import opened Decimal
  import opened Ovf
  import opened OvfTags

  // ------------------------------------------------- tags passed over by `<` searches

  /** Not the opening tag of a name element or of an item. */
  ghost predicate Skipped(tags: seq<Tag>) {
    NoneIs(tags, "Name>") && NoneIs(tags, "Item>")
  }

  lemma SkipTag(name: string, text: string)
    requires Free(name, '<') && Free(text, '<') && |name| > 0 && name[0] != 'N' && name[0] != 'I'
    ensures Skipped([Tag(name, text)])
  {
    DiffersAt(name, "Name>", 0);
    DiffersAt(name, "Item>", 0);
  }

  lemma FreeBoth(a: string, b: string, c: char)
    requires Free(a, c) && Free(b, c)
    ensures Free(a + b, c)
  {
  }

  const FILE_ID := "ovf:id=\""

  /** The text of the file tag after the disk image's name. */
  function AfterVmdk(size: nat): string {
    "\" " + (FILE_ID + ("file1" + ("\" ovf:size=\"" + (Digits(size) + ("\"/>" + NL2)))))
  }

  lemma FileSkipped(vmdk: string, size: nat)
    requires Free(vmdk, '<')
    ensures Skipped([FileTag(vmdk, size)])
  {
    PlainSystem();
    FreeBoth(vmdk, AfterVmdk(size), '<');
    SkipTag("File ovf:href=\"", vmdk + AfterVmdk(size));
  }

  lemma FormatPlain()
    ensures Plain(Cat(DISK_FORMAT))
  {
    PlainFormat();
    PlainFormat2();
    PlainFormat3();
    PlainNamespaces();
    PlainCat(DISK_FORMAT);
  }

  lemma DiskTagSkipped(gib: nat)
    ensures Skipped([DiskTag(gib)])
  {
    FormatPlain();
    PlainDisk();
    assert Free("Optimized\"/>\n  ", '<');
    FreeBoth(Cat(DISK_FORMAT), "Optimized\"/>\n  ", '<');
    FreeBoth(Digits(gib), Cat(DISK_FORMAT) + "Optimized\"/>\n  ", '<');
    SkipTag("Disk ovf:capacity=\"", DiskTag(gib).text);
  }

  function DiskOpen(): seq<Tag> {
    [Tag("/References>", NL2), Tag("DiskSection>", NL4)] + Element("Info", "Virtual disk information", NL4)
  }

  lemma DiskOpenCalm()
    ensures AllCalm(DiskOpen()) && AllCalm([Tag("/DiskSection>", NL2)])
  {
    PlainProlog();
    PlainDisk();
    PlainBreaks();
    CalmTag("/References>", NL2);
    CalmTag("DiskSection>", NL4);
    CalmElement("Info", "Virtual disk information", NL4);
    CalmTag("/DiskSection>", NL2);
  }

  lemma DiskParts(gib: nat)
    ensures Disk(gib) == DiskOpen() + [DiskTag(gib)] + [Tag("/DiskSection>", NL2)]
  {
  }

  function SystemTag(name: string): Tag {
    Tag("VirtualSystem ovf:id=\"", name + ("\">" + NL4))
  }

  lemma SystemInfoCalm()
    ensures AllCalm(Element("Info", "A virtual machine", NL4))
  {
    PlainSystem();
    PlainDisk();
    PlainBreaks();
    CalmElement("Info", "A virtual machine", NL4);
  }

  lemma SystemTagSkipped(name: string)
    requires Free(name, '<')
    ensures Skipped([SystemTag(name)])
  {
    PlainSystem();
    PlainBreaks();
    PlainBoth("\">", NL4);
    FreeBoth(name, "\">" + NL4, '<');
    SkipTag("VirtualSystem ovf:id=\"", name + ("\">" + NL4));
  }

  lemma BeforeNameSkipped(vmdk: string, size: nat, gib: nat, name: string)
    requires Free(vmdk, '<') && Free(name, '<')
    ensures Skipped(BeforeName(vmdk, size, gib, name))
  {
    PrologCalm();
    FileSkipped(vmdk, size);
    DiskOpenCalm();
    DiskTagSkipped(gib);
    DiskParts(gib);
    NetworkCalm();
    SystemInfoCalm();
    SystemTagSkipped(name);
  }

  // -------------------------------------------------------- searching for the OS section

  /** The OS section's name does not occur in the tag. */
  ghost predicate Quiet(t: Tag) { Without(t, OS_SECTION) }

  ghost predicate AllQuiet(tags: seq<Tag>) {
    forall i :: 0 <= i < |tags| ==> Quiet(tags[i])
  }

  lemma {:induction false} QuietIsWithout(tags: seq<Tag>)
    requires AllQuiet(tags)
    ensures AllWithout(tags, OS_SECTION)
  {
    if tags == [] {
    } else {
      assert Quiet(tags[0]);
      QuietIsWithout(tags[1..]);
    }
  }

  lemma NoWord(s: string)
    requires Plain(s)
    ensures Find(s, OS_SECTION).None?
  {
    FindPast(s, "", OS_SECTION);
    assert s + "" == s;
    assert !(OS_SECTION <= "");
  }

  lemma CalmIsQuiet(tags: seq<Tag>)
    requires AllCalm(tags)
    ensures AllQuiet(tags)
  {
    forall i | 0 <= i < |tags| ensures Quiet(tags[i]) {
      PlainBoth(tags[i].name, tags[i].text);
      NoWord(tags[i].name + tags[i].text);
    }
  }

  /** Text that surrounds a variable part: the word occurs exactly if it occurs in that part. */
  lemma WordInMiddle(a: string, v: string, b: string)
    requires Plain(a) && Plain(b) && b != "" && b[0] == '\"'
    ensures Find(a + (v + b), OS_SECTION) == Shift(|a|, Find(v, OS_SECTION))
  {
    FindPast(a, v + b, OS_SECTION);
    FindSplit(v, b, OS_SECTION);
    NoWord(b);
  }

  lemma DiskTagQuiet(gib: nat)
    ensures Quiet(DiskTag(gib))
  {
    FormatPlain();
    PlainDisk();
    var front := "Disk ovf:capacity=\"" + (Digits(gib) + Cat(DISK_FORMAT));
    PlainBoth(Digits(gib), Cat(DISK_FORMAT));
    PlainBoth("Disk ovf:capacity=\"", Digits(gib) + Cat(DISK_FORMAT));
    var last := "Optimized\"/>\n  ";
    assert DiskTag(gib).name + DiskTag(gib).text == front + last;
    FindPast(front, last, OS_SECTION);
  }

  lemma FindPastQuiet(tags: seq<Tag>, rest: string)
    requires AllQuiet(tags) && (rest == "" || rest[0] == '<')
    ensures Find(Render(tags) + rest, OS_SECTION) == Shift(|Render(tags)|, Find(rest, OS_SECTION))
  {
    QuietIsWithout(tags);
    FindPastWithout(tags, rest, OS_SECTION);
  }

  lemma QuietBoth(a: seq<Tag>, b: seq<Tag>)
    requires AllQuiet(a) && AllQuiet(b)
    ensures AllQuiet(a + b)
  {
  }

  lemma FileQuiet(vmdk: string, size: nat)
    ensures Find(FileTag(vmdk, size).name + FileTag(vmdk, size).text, OS_SECTION)
         == Shift(|"File ovf:href=\""|, Find(vmdk, OS_SECTION))
  {
    PlainSystem();
    WordInMiddle("File ovf:href=\"", vmdk, AfterVmdk(size));
  }

  lemma SystemQuiet(name: string)
    requires Find(name, OS_SECTION).None?
    ensures Quiet(SystemTag(name))
  {
    PlainSystem();
    PlainBreaks();
    PlainBoth("\">", NL4);
    WordInMiddle("VirtualSystem ovf:id=\"", name, "\">" + NL4);
  }

  lemma BeforeNameQuiet(vmdk: string, size: nat, gib: nat, name: string)
    requires Find(vmdk, OS_SECTION).None? && Find(name, OS_SECTION).None?
    ensures AllQuiet(BeforeName(vmdk, size, gib, name))
  {
    PrologCalm();
    CalmIsQuiet(PROLOG);
    FileQuiet(vmdk, size);
    QuietBoth(PROLOG, [FileTag(vmdk, size)]);
    DiskOpenCalm();
    CalmIsQuiet(DiskOpen());
    CalmIsQuiet([Tag("/DiskSection>", NL2)]);
    DiskTagQuiet(gib);
    QuietBoth(DiskOpen(), [DiskTag(gib)]);
    QuietBoth(DiskOpen() + [DiskTag(gib)], [Tag("/DiskSection>", NL2)]);
    DiskParts(gib);
    QuietBoth(PROLOG + [FileTag(vmdk, size)], Disk(gib));
    NetworkCalm();
    CalmIsQuiet(NETWORK);
    QuietBoth(PROLOG + [FileTag(vmdk, size)] + Disk(gib), NETWORK);
    SystemInfoCalm();
    CalmIsQuiet(Element("Info", "A virtual machine", NL4));
    SystemQuiet(name);
    QuietBoth([SystemTag(name)], Element("Info", "A virtual machine", NL4));
    QuietBoth(PROLOG + [FileTag(vmdk, size)] + Disk(gib) + NETWORK, System(name));
  }

  /** The name element is quiet when the name is. */
  lemma NameElementQuiet(name: string)
    requires Find(name, OS_SECTION).None?
    ensures AllQuiet(Element("Name", name, NL4))
  {
    PlainBreaks();
    assert Plain("Name" + ">") && Plain("/" + "Name" + ">");
    FindPast("Name" + ">", name, OS_SECTION);
    PlainBoth("/" + "Name" + ">", NL4);
    NoWord("/" + "Name" + ">" + NL4);
  }

  // --------------------------------------------------------------- reading the OS type

  const ID_PATTERN := "ovf:id" + "=\""

  lemma PatternIsId()
    ensures ID_PATTERN == FILE_ID && |FILE_ID| == 8 && FILE_ID[0] == 'o' && FILE_ID[1] == 'v' && FILE_ID[2] == 'f' && FILE_ID[3] == ':'
  {
  }

  lemma AttrValue(before: string, value: string, after: string)
    requires Find(before + (FILE_ID + (value + ("\"" + after))), FILE_ID) == Some(|before|) && Free(value, '\"')
    ensures ExtractAttr(before + (FILE_ID + (value + ("\"" + after))), "ovf:id") == Some(value)
  {
    var rest := value + ("\"" + after);
    var xml := before + (FILE_ID + rest);
    PatternIsId();
    assert xml[|before| + |FILE_ID|..] == rest;
    FindPast(value, "\"" + after, "\"");
    FindHere("\"", after);
    assert rest[..|value|] == value;
  }

  /** Right after the section's name comes its own id. */
  lemma SectionId(id: string, after: string)
    requires Free(id, '\"')
    ensures ExtractAttr(OS_SECTION + (" " + (FILE_ID + (id + ("\"" + after)))), "ovf:id") == Some(id)
  {
    var tail := FILE_ID + (id + ("\"" + after));
    PatternIsId();
    var first, on := "OperatingSystemSecti", "on ";
    assert OS_SECTION + (" " + tail) == first + (on + tail);
    assert (OS_SECTION + " ") + tail == OS_SECTION + (" " + tail);
    FindPast(first, on + tail, FILE_ID);
    assert on[1] != FILE_ID[1] && Free(on[1..], 'o');
    FindMiss(on, tail, FILE_ID);
    FindHere(FILE_ID, id + ("\"" + after));
    assert |first| + |on| == |OS_SECTION + " "|;
    AttrValue(OS_SECTION + " ", id, after);
  }

  /** A stretch without a colon, closed by a quote, holds no id attribute. */
  lemma {:induction false} FindPastNoColon(a: string, tail: string)
    requires Free(a, ':') && tail != "" && tail[0] == '\"'
    ensures Find(a + tail, FILE_ID) == Shift(|a|, Find(tail, FILE_ID))
  {
    PatternIsId();
    if a == "" {
      assert a + tail == tail;
    } else {
      var s := a + tail;
      assert s[1..] == a[1..] + tail;
      assert !(FILE_ID <= s) by {
        assert s[|a|] == '\"';
        if |a| > 3 { assert s[3] == a[3]; }
      }
      FindPastNoColon(a[1..], tail);
    }
  }
}
