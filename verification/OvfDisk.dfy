/** What stands in every descriptor besides what its own parser reads: image file, disk and OS id. */
module OvfDisk {
  import opened Text
  import opened Markup
  import opened Decimal
  import opened Ovf
  import opened OvfRoundTrip
  import opened OvfExport

  /** The text stands in the document. */
  ghost predicate Stands(text: string, document: string) { exists a, b :: document == a + (text + b) }

  lemma Around(a: string, t: string, b: string, c: string)
    ensures Stands(t, a + t + b + c)
  {
    assert a + t + b + c == a + (t + (b + c));
  }

  lemma TagStands(a: seq<Tag>, t: Tag, b: seq<Tag>, later: string)
    ensures Stands(RenderTag(t), Render(a + [t] + b) + later)
  {
    RenderAppend(a + [t], b);
    RenderAppend(a, [t]);
    assert Render([t]) == RenderTag(t);
    Around(Render(a), RenderTag(t), Render(b), later);
  }

  lemma BothStand(a: seq<Tag>, f: Tag, b: seq<Tag>, d: Tag, c: seq<Tag>, n: seq<Tag>, s: seq<Tag>, later: string)
    ensures Stands(RenderTag(f), Render(a + [f] + (b + [d] + c) + n + s) + later)
    ensures Stands(RenderTag(d), Render(a + [f] + (b + [d] + c) + n + s) + later)
  {
    assert a + [f] + (b + [d] + c) + n + s == a + [f] + (b + [d] + c + n + s);
    TagStands(a, f, b + [d] + c + n + s, later);
    assert a + [f] + (b + [d] + c) + n + s == (a + [f] + b) + [d] + (c + n + s);
    TagStands(a + [f] + b, d, c + n + s, later);
  }

  lemma Longer(text: string, more: string, document: string)
    requires Stands(text + more, document)
    ensures Stands(text, document)
  {
    var a, b :| document == a + ((text + more) + b);
    assert document == a + (text + (more + b));
  }

  /** Every descriptor names the image file under the id the disk refers to, with its size in bytes. */
  lemma FileElementStands(c: VmConfig, vmdk: string, size: nat)
    ensures Stands("<File ovf:href=\"" + (vmdk + ("\" ovf:id=\"file1\" ovf:size=\"" + (Digits(size) + "\"/>"))), GenerateOvf(c, vmdk, size))
  {
    BothTagsStand(c, vmdk, size);
    FileTagText(vmdk, size);
    Longer("<File ovf:href=\"" + (vmdk + ("\" ovf:id=\"file1\" ovf:size=\"" + (Digits(size) + "\"/>"))), NL2, GenerateOvf(c, vmdk, size));
  }

  /** Every descriptor gives the disk's capacity in units of 2^30 bytes. */
  lemma DiskElementStands(c: VmConfig, vmdk: string, size: nat)
    ensures Stands("<Disk ovf:capacity=\"" + (Digits(c.diskGib) + ("\" ovf:capacityAllocationUnits=" + "\"byte * 2^30\"")), GenerateOvf(c, vmdk, size))
  {
    BothTagsStand(c, vmdk, size);
    DiskTagText(c.diskGib);
    Longer("<Disk ovf:capacity=\"" + (Digits(c.diskGib) + ("\" ovf:capacityAllocationUnits=" + "\"byte * 2^30\"")),
           Cat(DISK_FORMAT[2..]) + "Optimized\"/>\n  ", GenerateOvf(c, vmdk, size));
  }

  lemma BothTagsStand(c: VmConfig, vmdk: string, size: nat)
    ensures Stands(RenderTag(FileTag(vmdk, size)), GenerateOvf(c, vmdk, size))
    ensures Stands(RenderTag(DiskTag(c.diskGib)), GenerateOvf(c, vmdk, size))
  {
    var name := XmlEscape(c.name);
    var later := Render(Element("Name", name, NL4)) + (Render(OsSection(OsTypeId(c.osType)) + HARDWARE) + Items(c));
    DiskParts(c.diskGib);
    BothStand(PROLOG, FileTag(vmdk, size), DiskOpen(), DiskTag(c.diskGib), [Tag("/DiskSection>", NL2)], NETWORK, System(name), later);
  }

  /** The id the standard's table gives the OS; macOS goes as Linux. */
  predicate IdOfOs(os: OsType, id: string) {
    match os
    case Linux => id == "101"
    case Windows => id == "67"
    case MacOS => id == "101"
    case FreeBSD => id == "42"
    case Other => id == "1"
  }

  /** Every descriptor's OS section carries that id. */
  lemma OsIdStands(c: VmConfig, vmdk: string, size: nat, id: string)
    requires IdOfOs(c.osType, id)
    ensures Stands("<OperatingSystemSection ovf:id=\"" + (id + "\">"), GenerateOvf(c, vmdk, size))
  {
    var name := XmlEscape(c.name);
    var a := BeforeName(vmdk, size, c.diskGib, name) + Element("Name", name, NL4);
    GenerateParts(c, vmdk, size);
    SectionStarts(id);
    assert HeadTags(c, vmdk, size) == a + [OsTag(id)] + AfterOsTag();
    TagStands(a, OsTag(id), AfterOsTag(), Items(c));
    OsTagText(id);
    Longer("<OperatingSystemSection ovf:id=\"" + (id + "\">"), NL6, GenerateOvf(c, vmdk, size));
  }

  lemma OsTagText(id: string)
    ensures RenderTag(OsTag(id)) == "<OperatingSystemSection ovf:id=\"" + (id + "\">") + NL6
  {
    assert "<OperatingSystemSection ovf:id=\"" == "<" + (OS_SECTION + (" " + "ovf:id=\""));
  }

  lemma FileLiterals()
    ensures "\" ovf:id=\"file1\" ovf:size=\"" == "\" " + ("ovf:id=\"" + ("file1" + "\" ovf:size=\""))
    ensures "<File ovf:href=\"" == "<" + "File ovf:href=\"" && "<Disk ovf:capacity=\"" == "<" + "Disk ovf:capacity=\""
  {
  }

  lemma FileTagText(vmdk: string, size: nat)
    ensures RenderTag(FileTag(vmdk, size))
         == ("<File ovf:href=\"" + (vmdk + ("\" ovf:id=\"file1\" ovf:size=\"" + (Digits(size) + "\"/>")))) + NL2
  {
    FileLiterals();
    Regrouped("<", "File ovf:href=\"", vmdk, "\" ", "ovf:id=\"", "file1", "\" ovf:size=\"", Digits(size), "\"/>", NL2);
  }

  lemma Regrouped(a: string, b: string, c: string, d: string, e: string, f: string, g: string, h: string, i: string, j: string)
    ensures a + (b + (c + (d + (e + (f + (g + (h + (i + j)))))))) == ((a + b) + (c + ((d + (e + (f + g))) + (h + i)))) + j
  {
  }

  lemma DiskTagText(gib: nat)
    ensures RenderTag(DiskTag(gib))
         == ("<Disk ovf:capacity=\"" + (Digits(gib) + ("\" ovf:capacityAllocationUnits=" + "\"byte * 2^30\"")))
            + (Cat(DISK_FORMAT[2..]) + "Optimized\"/>\n  ")
  {
    FileLiterals();
    assert DISK_FORMAT[1..][1..] == DISK_FORMAT[2..];
    assert Cat(DISK_FORMAT[1..]) == DISK_FORMAT[1] + Cat(DISK_FORMAT[2..]);
    JoinedUp("<", "Disk ovf:capacity=\"", Digits(gib), DISK_FORMAT[0], DISK_FORMAT[1], Cat(DISK_FORMAT[2..]), "Optimized\"/>\n  ");
  }

  lemma JoinedUp(a: string, b: string, c: string, d: string, e: string, f: string, g: string)
    ensures a + (b + (c + ((d + (e + f)) + g))) == ((a + b) + (c + (d + e))) + (f + g)
  {
  }
}
