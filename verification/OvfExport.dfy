/**
 Export followed by import: the descriptor of any configuration, under the disk
 image name the exporter derives from the VM's name, read back by the parser.
 */
module OvfExport {
  import opened Wrappers
  import opened Text
  import opened Markup
  import opened Decimal
  import opened Ovf
  import opened OvfTags
  import opened OvfRoundTrip
  import opened OvfItems

  // -------------------------------------------------------------- the disk image's name

  /** A Unicode alphanumeric test that is right on ASCII. */
  ghost predicate AsciiRight(alphanumeric: char -> bool) {
    forall c: char :: c as int < 128 ==> (alphanumeric(c) <==> '0' <= c <= '9' || 'A' <= c <= 'Z' || 'a' <= c <= 'z')
  }

  function SanitizeFilename(name: string, alphanumeric: char -> bool): (r: string)
    ensures |r| == |name|
    ensures forall i :: 0 <= i < |r| ==> r[i] == if alphanumeric(name[i]) || name[i] == '-' || name[i] == '_' then name[i] else '_'
  {
    if name == "" then ""
    else [if alphanumeric(name[0]) || name[0] == '-' || name[0] == '_' then name[0] else '_'] + SanitizeFilename(name[1..], alphanumeric)
  }

  const IMAGE_SUFFIX := "-disk1.vmdk"

  function VmdkName(name: string, alphanumeric: char -> bool): string {
    SanitizeFilename(name, alphanumeric) + IMAGE_SUFFIX
  }

  predicate IsLetter(c: char) { 'A' <= c <= 'Z' || 'a' <= c <= 'z' }

  lemma {:induction false} SanitizeKeepsWord(name: string, word: string, alphanumeric: char -> bool)
    requires AsciiRight(alphanumeric) && forall i :: 0 <= i < |word| ==> IsLetter(word[i])
    ensures Find(SanitizeFilename(name, alphanumeric), word) == Find(name, word)
  {
    var s := SanitizeFilename(name, alphanumeric);
    assert word <= s <==> word <= name by {
      if |word| <= |name| {
        assert forall i :: 0 <= i < |word| ==> (s[i] == word[i] <==> name[i] == word[i]);
      }
    }
    if name != "" {
      SanitizeKeepsWord(name[1..], word, alphanumeric);
      assert s[1..] == SanitizeFilename(name[1..], alphanumeric);
    }
  }

  lemma SectionIsLetters()
    ensures forall i :: 0 <= i < |OS_SECTION| ==> IsLetter(OS_SECTION[i])
  {
  }

  lemma SuffixFacts()
    ensures Plain(IMAGE_SUFFIX) && Free(IMAGE_SUFFIX, ':') && Free(IMAGE_SUFFIX, '\"') && IMAGE_SUFFIX[0] == '-'
  {
  }

  /** The image's name holds the section's name exactly if the VM's name does. */
  lemma VmdkWord(name: string, alphanumeric: char -> bool)
    requires AsciiRight(alphanumeric)
    ensures Find(VmdkName(name, alphanumeric), OS_SECTION) == Find(name, OS_SECTION)
  {
    SectionIsLetters();
    SanitizeKeepsWord(name, OS_SECTION, alphanumeric);
    SuffixFacts();
    FindSplit(SanitizeFilename(name, alphanumeric), IMAGE_SUFFIX, OS_SECTION);
    NoWord(IMAGE_SUFFIX);
  }

  lemma VmdkFree(name: string, alphanumeric: char -> bool, c: char)
    requires AsciiRight(alphanumeric) && (c == '<' || c == ':')
    ensures Free(VmdkName(name, alphanumeric), c)
  {
    SuffixFacts();
  }

  // -------------------------------------------------------------------- the escaped name

  lemma {:induction false} EscapePrefix(word: string, s: string)
    requires forall i :: 0 <= i < |word| ==> IsLetter(word[i])
    requires word <= EscapeEach(s)
    ensures word <= s
    decreases |word|
  {
    if word == "" {
    } else {
      assert s != "";
      assert EscapeEach(s)[0] == word[0];
      EntityHead(s[0]);
      assert EscapeEach(s)[1..] == EscapeEach(s[1..]);
      EscapePrefix(word[1..], s[1..]);
      assert s == [s[0]] + s[1..] && word == [word[0]] + word[1..];
    }
  }

  lemma EntityHead(c: char)
    ensures if Special(c) then Entity(c)[0] == '&' else Entity(c) == [c]
  {
  }

  lemma EntityHides(c: char, word: string)
    requires word != "" && forall i :: 0 <= i < |word| ==> IsLetter(word[i])
    requires Special(c) && word[0] == 'O'
    ensures Find(Entity(c), word).None? && '&' !in word && ';' !in word && Free(Entity(c), 'O')
  {
    FindPast(Entity(c), "", word);
    assert Entity(c) + "" == Entity(c);
    assert !(word <= "");
  }

  /** Escaping brings no new occurrence of the section's name. */
  lemma {:induction false} EscapeSilent(s: string)
    requires Find(s, OS_SECTION).None?
    ensures Find(EscapeEach(s), OS_SECTION).None?
  {
    SectionIsLetters();
    if s != "" {
      var rest := EscapeEach(s[1..]);
      EscapeSilent(s[1..]);
      if Special(s[0]) {
        EntityHides(s[0], OS_SECTION);
        FindPast(Entity(s[0]), rest, OS_SECTION);
      } else {
        NotPrefixEscaped(s);
        assert ([s[0]] + rest)[1..] == rest;
      }
    }
  }

  lemma NotPrefixEscaped(s: string)
    requires !(OS_SECTION <= s)
    ensures !(OS_SECTION <= EscapeEach(s))
  {
    SectionIsLetters();
    if OS_SECTION <= EscapeEach(s) {
      EscapePrefix(OS_SECTION, s);
    }
  }

  // --------------------------------------------------------------- the descriptor's parts

  /** Everything before the items. */
  function HeadTags(c: VmConfig, vmdk: string, size: nat): seq<Tag> {
    BeforeName(vmdk, size, c.diskGib, XmlEscape(c.name))
    + Element("Name", XmlEscape(c.name), NL4)
    + (OsSection(OsTypeId(c.osType)) + HARDWARE)
  }

  lemma GenerateParts(c: VmConfig, vmdk: string, size: nat)
    ensures GenerateOvf(c, vmdk, size) == Render(HeadTags(c, vmdk, size)) + Items(c)
  {
    var a, b := BeforeName(vmdk, size, c.diskGib, XmlEscape(c.name)), Element("Name", XmlEscape(c.name), NL4);
    var d := OsSection(OsTypeId(c.osType)) + HARDWARE;
    RenderAppend(a + b, d);
    RenderAppend(a, b);
    FourParts(Render(a), Render(b), Render(d), Items(c));
  }

  lemma FourParts(a: string, b: string, c: string, d: string)
    ensures a + (b + (c + d)) == a + b + c + d
  {
  }

  lemma IdFacts(os: OsType)
    ensures Free(OsTypeId(os), '\"') && Free(OsTypeId(os), '<')
    ensures OsOfId(OsTypeId(os)) == if os.MacOS? then Linux else os
  {
  }

  lemma OsTagSkipped(id: string)
    requires Free(id, '<')
    ensures NotTag(OsTag(id), "Item>")
  {
    PlainFile();
    PlainSystem();
    PlainBreaks();
    assert Free(OS_SECTION, '<') && OS_SECTION[0] == 'O';
    FreeBoth(id, "\">", '<');
    FreeBoth(FILE_ID, id + "\">", '<');
    FreeBoth(" ", FILE_ID + (id + "\">"), '<');
    FreeBoth(OS_SECTION, " " + (FILE_ID + (id + "\">")), '<');
    DiffersAt(OsTag(id).name, "Item>", 0);
  }

  lemma OsSectionSkipped(id: string)
    requires Free(id, '<')
    ensures NoneIs(OsSection(id), "Item>")
  {
    OsTagSkipped(id);
    PlainDisk();
    PlainVssdText();
    PlainBreaks();
    CalmElement("Info", "The operating system", NL4);
    assert Free("/OperatingSystemSection>", '<') && "/OperatingSystemSection>"[0] == '/';
    DiffersAt("/OperatingSystemSection>", "Item>", 0);
  }

  lemma HardwareSkipped()
    ensures NoneIs(HARDWARE, "Item>")
  {
    PlainHardware();
    PlainVssd();
    PlainVssdText();
    PlainDisk();
    PlainBreaks();
    CalmTag("VirtualHardwareSection>", NL6);
    CalmElement("Info", "Virtual hardware requirements", NL6);
    CalmTag("System>", NL8);
    CalmElement("vssd:ElementName", "Virtual Hardware Family", NL8);
    CalmElement("vssd:InstanceID", "0", NL8);
    CalmElement("vssd:VirtualSystemType", "vmx-21", NL6);
    CalmTag("/System>", NL6);
  }

  lemma NameElementSkipped(name: string)
    requires Free(name, '<')
    ensures NoneIs(Element("Name", name, NL4), "Item>")
  {
    PlainBreaks();
    assert Free("Name" + ">", '<') && Free("/" + "Name" + ">", '<');
    assert ("Name" + ">")[0] == 'N' && ("/" + "Name" + ">")[0] == '/';
    DiffersAt("Name" + ">", "Item>", 0);
    DiffersAt("/" + "Name" + ">", "Item>", 0);
  }

  lemma NoneIsBoth(a: seq<Tag>, b: seq<Tag>, p: string)
    requires NoneIs(a, p) && NoneIs(b, p)
    ensures NoneIs(a + b, p)
  {
  }

  lemma HeadHasNoItem(c: VmConfig, vmdk: string, size: nat)
    requires Free(vmdk, '<')
    ensures NoneIs(HeadTags(c, vmdk, size), "Item>")
  {
    var name := XmlEscape(c.name);
    EscapedFree(c.name, '<');
    IdFacts(c.osType);
    BeforeNameSkipped(vmdk, size, c.diskGib, name);
    NameElementSkipped(name);
    OsSectionSkipped(OsTypeId(c.osType));
    HardwareSkipped();
    NoneIsBoth(BeforeName(vmdk, size, c.diskGib, name), Element("Name", name, NL4), "Item>");
    NoneIsBoth(OsSection(OsTypeId(c.osType)), HARDWARE, "Item>");
    NoneIsBoth(BeforeName(vmdk, size, c.diskGib, name) + Element("Name", name, NL4), OsSection(OsTypeId(c.osType)) + HARDWARE, "Item>");
  }

  // --------------------------------------------------------------------- what is read back

  lemma NameRead(c: VmConfig, vmdk: string, size: nat)
    requires Free(vmdk, '<')
    ensures ExtractXmlValue(GenerateOvf(c, vmdk, size), "Name") == Some(XmlEscape(c.name))
  {
    EscapedFree(c.name, '<');
    BeforeNameSkipped(vmdk, size, c.diskGib, XmlEscape(c.name));
    assert "Name" + ">" == "Name>";
    ReadElement(BeforeName(vmdk, size, c.diskGib, XmlEscape(c.name)), "Name", XmlEscape(c.name), NL4,
                Render(OsSection(OsTypeId(c.osType)) + HARDWARE) + Items(c));
  }

  lemma HardwareRead(c: VmConfig, vmdk: string, size: nat)
    requires c.Valid() && Free(vmdk, '<')
    ensures ReadItems(Split(GenerateOvf(c, vmdk, size), ITEM)[1..], (2, 4096)) == (if c.vcpus < 1024 then c.vcpus else 1024, c.memoryMib)
  {
    var head := Render(HeadTags(c, vmdk, size));
    GenerateParts(c, vmdk, size);
    HeadHasNoItem(c, vmdk, size);
    FindItems(HeadTags(c, vmdk, size), c);
    SplitItems(c, head);
    assert ([head] + Blocks(c))[1..] == Blocks(c);
    BlocksRead(c);
  }

  lemma FindItems(tags: seq<Tag>, c: VmConfig)
    requires NoneIs(tags, "Item>")
    ensures Find(Render(tags) + Items(c), ITEM) == Some(|Render(tags)|)
  {
    var rest := Items(c)[|ITEM|..];
    assert Items(c) == ITEM + rest;
    ItemPatterns();
    FindPastTags(tags, Items(c), "Item>");
    FindHere(ITEM, rest);
  }

  /** The text from the OS section's tag on. */
  function SectionText(id: string, rest: string): string {
    "<" + (OS_SECTION + (" " + (FILE_ID + (id + ("\"" + (">" + rest))))))
  }

  lemma SectionTextIs(id: string, tags: seq<Tag>, rest: string)
    ensures Render([OsTag(id)] + tags) + rest == SectionText(id, NL6 + (Render(tags) + rest))
  {
    RenderAppend([OsTag(id)], tags);
    assert Render([OsTag(id)]) == RenderTag(OsTag(id));
    assert "\">" == "\"" + ">";
  }

  lemma FindSection(id: string, rest: string)
    ensures Find(SectionText(id, rest), OS_SECTION) == Some(1)
    ensures SectionText(id, rest)[1..] == OS_SECTION + (" " + (FILE_ID + (id + ("\"" + (">" + rest)))))
  {
    var tail := " " + (FILE_ID + (id + ("\"" + (">" + rest))));
    FindPast("<", OS_SECTION + tail, OS_SECTION);
    FindHere(OS_SECTION, tail);
  }

  /** The OS read when the word first occurs in the section's own tag. */
  lemma OsReadAt(tags: seq<Tag>, id: string, rest: string)
    requires AllQuiet(tags) && Free(id, '\"')
    ensures ReadOs(Render(tags) + SectionText(id, rest)) == OsOfId(id)
  {
    var text := SectionText(id, rest);
    FindPastQuiet(tags, text);
    FindSection(id, rest);
    assert (Render(tags) + text)[|Render(tags)| + 1..] == text[1..];
    SectionId(id, ">" + rest);
  }

  function AfterOsTag(): seq<Tag> {
    Element("Info", "The operating system", NL4) + [Tag("/OperatingSystemSection>", NL4)] + HARDWARE
  }

  function BeforeOs(c: VmConfig, vmdk: string, size: nat): seq<Tag> {
    BeforeName(vmdk, size, c.diskGib, XmlEscape(c.name)) + Element("Name", XmlEscape(c.name), NL4)
  }

  lemma SectionStarts(id: string)
    ensures OsSection(id) + HARDWARE == [OsTag(id)] + AfterOsTag()
  {
  }

  lemma GenerateAtSection(c: VmConfig, vmdk: string, size: nat)
    ensures GenerateOvf(c, vmdk, size)
         == Render(BeforeOs(c, vmdk, size)) + SectionText(OsTypeId(c.osType), NL6 + (Render(AfterOsTag()) + Items(c)))
  {
    var a, b := BeforeName(vmdk, size, c.diskGib, XmlEscape(c.name)), Element("Name", XmlEscape(c.name), NL4);
    var id := OsTypeId(c.osType);
    RenderAppend(a, b);
    SectionStarts(id);
    SectionTextIs(id, AfterOsTag(), Items(c));
    ThreeTexts(Render(a), Render(b), Render([OsTag(id)] + AfterOsTag()) + Items(c));
  }

  lemma ThreeTexts(a: string, b: string, c: string)
    ensures a + (b + c) == a + b + c
  {
  }

  lemma OsReadQuiet(c: VmConfig, vmdk: string, size: nat)
    requires Find(vmdk, OS_SECTION).None? && Find(c.name, OS_SECTION).None?
    ensures ReadOs(GenerateOvf(c, vmdk, size)) == if c.osType.MacOS? then Linux else c.osType
  {
    var name := XmlEscape(c.name);
    XmlEscapeIsOnePass(c.name);
    EscapeSilent(c.name);
    BeforeNameQuiet(vmdk, size, c.diskGib, name);
    NameElementQuiet(name);
    QuietBoth(BeforeName(vmdk, size, c.diskGib, name), Element("Name", name, NL4));
    IdFacts(c.osType);
    OsReadAt(BeforeOs(c, vmdk, size), OsTypeId(c.osType), NL6 + (Render(AfterOsTag()) + Items(c)));
    GenerateAtSection(c, vmdk, size);
  }

  // ------------------------------------------------- a name that holds the section's name

  /** The next id attribute after any point of the image's name is the file's own. */
  lemma FileIdNext(tail: string, size: nat, rest: string)
    requires Free(tail, ':')
    ensures ExtractAttr(tail + (AfterVmdk(size) + rest), "ovf:id") == Some("file1")
  {
    var after := " ovf:size=\"" + (Digits(size) + ("\"/>" + NL2)) + rest;
    var fromId := FILE_ID + ("file1" + ("\"" + after));
    AfterVmdkSplit(size, rest);
    PatternIsId();
    FindPastNoColon(tail, "\" " + fromId);
    FindPast("\" ", fromId, FILE_ID);
    FindHere(FILE_ID, "file1" + ("\"" + after));
    Associate(tail, "\" ", fromId);
    assert Free("file1", '\"');
    AttrValue(tail + "\" ", "file1", after);
  }

  lemma AfterVmdkSplit(size: nat, rest: string)
    ensures AfterVmdk(size) + rest
         == "\" " + (FILE_ID + ("file1" + ("\"" + (" ovf:size=\"" + (Digits(size) + ("\"/>" + NL2)) + rest))))
  {
    assert "\" ovf:size=\"" == "\"" + " ovf:size=\"";
  }

  const HREF := "File ovf:href=\""

  /** The text from the file tag on. */
  function FileOn(vmdk: string, size: nat, rest: string): string {
    "<" + (HREF + (vmdk + AfterVmdk(size)) + rest)
  }

  /** The word is found in a tag's text where it first occurs in it. */
  lemma FindBehind(body: string, rest: string, word: string, p: nat)
    requires word != "" && '<' !in word && (rest == "" || rest[0] == '<') && Find(body, word) == Some(p)
    ensures Find("<" + (body + rest), word) == Some(1 + p)
  {
    FindPast("<", body + rest, word);
    FindSplit(body, rest, word);
  }

  lemma DropPast(a: string, b: string, k: nat, after: string)
    requires k <= |b| && b[k..] == after
    ensures (a + b)[|a| + k..] == after
  {
  }

  /** The word is met in the text of a tag after tags that do not hold it. */
  lemma FromTag(tags: seq<Tag>, word: string, head: string, vmdk: string, tail: string, rest: string, p: nat)
    requires AllWithout(tags, word) && rest != "" && rest[0] == '<' && '<' !in word && word != ""
    requires p <= |vmdk| && Find(head + (vmdk + tail), word) == Some(|head| + p)
    ensures From(Render(tags) + ("<" + (head + (vmdk + tail) + rest)), word) == Some(vmdk[p..] + (tail + rest))
  {
    var text, k := "<" + (head + (vmdk + tail) + rest), 1 + |head| + p;
    FindBehind(head + (vmdk + tail), rest, word, |head| + p);
    DropTo(head, vmdk, tail, rest, p);
    FromTags(tags, word, text, k, vmdk[p..] + (tail + rest));
  }

  lemma FromTags(tags: seq<Tag>, word: string, text: string, k: nat, after: string)
    requires AllWithout(tags, word) && text != "" && text[0] == '<' && '<' !in word && word != ""
    requires Find(text, word) == Some(k) && k <= |text| && text[k..] == after
    ensures From(Render(tags) + text, word) == Some(after)
  {
    FindPastWithout(tags, text, word);
    FromText(Render(tags), word, text, k, after);
  }

  lemma FromText(before: string, word: string, text: string, k: nat, after: string)
    requires Find(before + text, word) == Shift(|before|, Some(k)) && k <= |text| && text[k..] == after
    ensures From(before + text, word) == Some(after)
  {
    DropPast(before, text, k, after);
  }

  lemma DropTo(href: string, vmdk: string, after: string, rest: string, p: nat)
    requires p <= |vmdk|
    ensures ("<" + (href + (vmdk + after) + rest))[1 + |href| + p..] == vmdk[p..] + (after + rest)
  {
  }

  /** Everything after the file tag. */
  function AfterFile(c: VmConfig): seq<Tag> {
    Disk(c.diskGib) + NETWORK + System(XmlEscape(c.name))
  }

  lemma BeforeNameText(c: VmConfig, vmdk: string, size: nat)
    ensures Render(BeforeName(vmdk, size, c.diskGib, XmlEscape(c.name)))
         == Render(PROLOG) + RenderTag(FileTag(vmdk, size)) + Render(AfterFile(c))
  {
    var f := [FileTag(vmdk, size)];
    assert BeforeName(vmdk, size, c.diskGib, XmlEscape(c.name)) == (PROLOG + f) + AfterFile(c);
    RenderAppend(PROLOG + f, AfterFile(c));
    RenderAppend(PROLOG, f);
    assert Render(f) == RenderTag(f[0]);
  }

  /** The descriptor's text after the file tag. */
  function FileRest(c: VmConfig): string {
    Render(AfterFile(c))
    + (Render(Element("Name", XmlEscape(c.name), NL4)) + (Render(OsSection(OsTypeId(c.osType)) + HARDWARE) + Items(c)))
  }

  lemma GenerateAtFile(c: VmConfig, vmdk: string, size: nat)
    ensures GenerateOvf(c, vmdk, size) == Render(PROLOG) + FileOn(vmdk, size, FileRest(c))
    ensures FileRest(c) != "" && FileRest(c)[0] == '<'
  {
    var later := Render(Element("Name", XmlEscape(c.name), NL4)) + (Render(OsSection(OsTypeId(c.osType)) + HARDWARE) + Items(c));
    BeforeNameText(c, vmdk, size);
    FileText(Render(PROLOG), vmdk, size, Render(AfterFile(c)), later);
  }

  lemma FileText(prolog: string, vmdk: string, size: nat, tags: string, later: string)
    ensures prolog + RenderTag(FileTag(vmdk, size)) + tags + later
         == prolog + ("<" + (HREF + (vmdk + AfterVmdk(size)) + (tags + later)))
  {
  }

  lemma FromFile(tags: seq<Tag>, vmdk: string, size: nat, rest: string)
    requires Find(vmdk, OS_SECTION).Some? && rest != "" && rest[0] == '<' && AllWithout(tags, OS_SECTION)
    ensures From(Render(tags) + FileOn(vmdk, size, rest), OS_SECTION)
         == Some(vmdk[Find(vmdk, OS_SECTION).value..] + (AfterVmdk(size) + rest))
  {
    SectionIsLetters();
    FileQuiet(vmdk, size);
    FromTag(tags, OS_SECTION, HREF, vmdk, AfterVmdk(size), rest, Find(vmdk, OS_SECTION).value);
  }

  /** The image's name, once found, is followed by the file's id. */
  lemma OsReadLoudFrom(tags: seq<Tag>, vmdk: string, size: nat, rest: string)
    requires Find(vmdk, OS_SECTION).Some? && Free(vmdk, ':') && rest != "" && rest[0] == '<'
    requires AllQuiet(tags)
    ensures ReadOs(Render(tags) + FileOn(vmdk, size, rest)) == Other
  {
    QuietIsWithout(tags);
    FromFile(tags, vmdk, size, rest);
    FileIdNext(vmdk[Find(vmdk, OS_SECTION).value..], size, rest);
    assert OsOfId("file1") == Other;
  }

  lemma PrologQuiet()
    ensures AllQuiet(PROLOG)
  {
    PrologCalm();
    CalmIsQuiet(PROLOG);
  }

  lemma OsReadLoud(c: VmConfig, vmdk: string, size: nat)
    requires Find(vmdk, OS_SECTION).Some? && Free(vmdk, ':')
    ensures ReadOs(GenerateOvf(c, vmdk, size)) == Other
  {
    GenerateAtFile(c, vmdk, size);
    PrologQuiet();
    OsReadLoudFrom(PROLOG, vmdk, size, FileRest(c));
  }

  // ------------------------------------------------------------------------ main results

  /** For every configuration: what importing its exported descriptor gives. */
  lemma ExportThenImport(c: VmConfig, size: nat, alphanumeric: char -> bool)
    requires c.Valid() && AsciiRight(alphanumeric)
    ensures ParsedOf(GenerateOvf(c, VmdkName(c.name, alphanumeric), size))
         == ParsedOvf(XmlEscape(c.name),
                      if c.vcpus < 1024 then c.vcpus else 1024,
                      c.memoryMib,
                      if Find(c.name, OS_SECTION).Some? then Other else if c.osType.MacOS? then Linux else c.osType)
  {
    var vmdk := VmdkName(c.name, alphanumeric);
    VmdkFree(c.name, alphanumeric, '<');
    VmdkFree(c.name, alphanumeric, ':');
    VmdkWord(c.name, alphanumeric);
    NameRead(c, vmdk, size);
    HardwareRead(c, vmdk, size);
    if Find(c.name, OS_SECTION).Some? {
      OsReadLoud(c, vmdk, size);
    } else {
      OsReadQuiet(c, vmdk, size);
    }
  }

  /** Each value survives the round trip exactly under its own condition. */
  lemma ImportedValues(c: VmConfig, size: nat, alphanumeric: char -> bool)
    requires c.Valid() && AsciiRight(alphanumeric)
    ensures var p := ParsedOf(GenerateOvf(c, VmdkName(c.name, alphanumeric), size));
            && (p.name == c.name <==> forall i :: 0 <= i < |c.name| ==> !Special(c.name[i]))
            && (p.cpus == c.vcpus <==> c.vcpus <= 1024)
            && p.memoryMib == c.memoryMib
            && (p.osType == c.osType <==> !c.osType.MacOS? && (c.osType.Other? || Find(c.name, OS_SECTION).None?))
  {
    ExportThenImport(c, size, alphanumeric);
    EscapeIdentity(c.name);
  }
}
