/** The OVF descriptor written on export, and the parser that reads one on import. */
module Ovf {
  import opened Wrappers
  import opened Text
  import opened Markup
  import opened Decimal

  const U32_MAX := 0xFFFF_FFFF
  const U64_MAX := 0xFFFF_FFFF_FFFF_FFFF

  datatype OsType = Linux | Windows | MacOS | FreeBSD | Other

  datatype VmConfig = VmConfig(name: string, vcpus: nat, memoryMib: nat, diskGib: nat, osType: OsType) {
    predicate Valid() { vcpus <= U32_MAX && memoryMib <= U64_MAX }
  }

  datatype ParsedOvf = ParsedOvf(name: string, cpus: nat, memoryMib: nat, osType: OsType)

  // --------------------------------------------------------------------- writing

  function OsTypeId(os: OsType): string {
    match os
    case Linux => "101"
    case Windows => "67"
    case MacOS => "101"
    case FreeBSD => "42"
    case Other => "1"
  }

  const DMTF := "\"http://schemas.dmtf.org"
  const ENVELOPE_NS := "/ovf/envelope/1\""
  const CIM := "/wbem/wscim/1/cim-schema/2/CIM_"
  const WRAP := "\n          "

  function Cat(parts: seq<string>): string {
    if parts == [] then "" else parts[0] + Cat(parts[1..])
  }

  const NAMESPACES: seq<string> := [
    DMTF, ENVELOPE_NS, WRAP,
    "xmlns:rasd=", DMTF, CIM, "ResourceAllocationSettingData\"", WRAP,
    "xmlns:vssd=", DMTF, CIM, "VirtualSystemSettingData\"", WRAP,
    "xmlns:ovf=", DMTF, ENVELOPE_NS, ">\n  "]

  // Line breaks with their indentation.
  const NL0 := "\n"
  const NL2 := "\n  "
  const NL4 := "\n    "
  const NL6 := "\n      "
  const NL8 := "\n        "

  const PROLOG: seq<Tag> :=
    [Tag("?xml version=", "\"1.0\" encoding=\"UTF-8\"?>\n"), Tag("Envelope xmlns=", Cat(NAMESPACES))]
    + [Tag("References>", NL4)]

  function FileTag(vmdk: string, size: nat): Tag {
    Tag("File ovf:href=\"", vmdk + ("\" " + ("ovf:id=\"" + ("file1" + ("\" ovf:size=\"" + (Digits(size) + ("\"/>" + NL2)))))))
  }

  const DISK_FORMAT: seq<string> := [
    "\" ovf:capacityAllocationUnits=", "\"byte * 2^30\"", WRAP, "ovf:diskId=\"vmdisk1\" ", "ovf:fileRef=\"file1\" ",
    "ovf:format=\"", "http://www.vmware.com", "/interfaces/specifications", "/vmdk.html#stream"]

  function DiskTag(gib: nat): Tag {
    Tag("Disk ovf:capacity=\"", Digits(gib) + (Cat(DISK_FORMAT) + "Optimized\"/>\n  "))
  }

  function Disk(gib: nat): seq<Tag> {
    [Tag("/References>", NL2), Tag("DiskSection>", NL4)]
    + Element("Info", "Virtual disk information", NL4)
    + [DiskTag(gib), Tag("/DiskSection>", NL2)]
  }

  const NETWORK: seq<Tag> :=
    [Tag("NetworkSection>", NL4)]
    + Element("Info", "The list of logical networks", NL4)
    + [Tag("Network ovf:name=", "\"NAT\">\n      ")]
    + Element("Description", "NAT network", NL4)
    + [Tag("/Network>", NL2), Tag("/NetworkSection>", NL2)]

  function System(name: string): seq<Tag> {
    [Tag("VirtualSystem ovf:id=\"", name + ("\">" + NL4))]
    + Element("Info", "A virtual machine", NL4)
  }

  const OS_SECTION := "OperatingSystemSection"

  function OsTag(id: string): Tag {
    Tag(OS_SECTION + (" " + ("ovf:id=\"" + (id + "\">"))), NL6)
  }

  function OsSection(id: string): seq<Tag> {
    [OsTag(id)] + Element("Info", "The operating system", NL4) + [Tag("/OperatingSystemSection>", NL4)]
  }

  const HARDWARE: seq<Tag> :=
    [Tag("VirtualHardwareSection>", NL6)]
    + Element("Info", "Virtual hardware requirements", NL6)
    + [Tag("System>", NL8)]
    + Element("vssd:ElementName", "Virtual Hardware Family", NL8)
    + Element("vssd:InstanceID", "0", NL8)
    + Element("vssd:VirtualSystemType", "vmx-21", NL6)
    + [Tag("/System>", NL6)]

  const ITEM := "<Item>"
  const ITEM_END := "</Item>"

  /** The lines of a CPU or memory item up to its resource type. */
  function ItemHead(units: string, description: string, title: string, id: string): seq<Tag> {
    Element("rasd:AllocationUnits", units, NL8)
    + Element("rasd:Description", description, NL8)
    + Element("rasd:ElementName", title, NL8)
    + Element("rasd:InstanceID", id, NL8)
  }

  function QuantityItem(units: string, description: string, title: string, id: string, kind: string, quantity: nat): seq<Tag> {
    ItemHead(units, description, title, id)
    + Element("rasd:ResourceType", kind, NL8)
    + Element("rasd:VirtualQuantity", Digits(quantity), NL6)
  }

  function CpuItem(vcpus: nat): seq<Tag> {
    QuantityItem("hertz * 10^6", "Number of Virtual CPUs", Digits(vcpus) + " virtual CPU(s)", "1", "3", vcpus)
  }

  function MemoryItem(mib: nat): seq<Tag> {
    QuantityItem("byte * 2^20", "Memory Size", Digits(mib) + "MB of memory", "2", "4", mib)
  }

  const DISK_HEAD: seq<Tag> :=
    Element("rasd:AddressOnParent", "0", NL8)
    + Element("rasd:ElementName", "Hard Disk 1", NL8)
    + Element("rasd:HostResource", "ovf:/disk/vmdisk1", NL8)
    + Element("rasd:InstanceID", "3", NL8)

  function DiskItem(): seq<Tag> {
    DISK_HEAD + Element("rasd:ResourceType", "17", NL6)
  }

  const EPILOG: seq<Tag> :=
    [Tag("/VirtualHardwareSection>", NL2), Tag("/VirtualSystem>", NL0), Tag("/Envelope>", "")]

  /** The tags up to the VM's name element. */
  function BeforeName(vmdk: string, size: nat, gib: nat, name: string): seq<Tag> {
    PROLOG + [FileTag(vmdk, size)] + Disk(gib) + NETWORK + System(name)
  }

  /** The text of an item, after its opening tag and up to the next item. */
  function ItemText(tags: seq<Tag>, after: string): string {
    NL8 + (Render(tags) + (ITEM_END + after))
  }

  function Items(c: VmConfig): string {
    ITEM + (ItemText(CpuItem(c.vcpus), NL6)
    + (ITEM + (ItemText(MemoryItem(c.memoryMib), NL6)
    + (ITEM + ItemText(DiskItem(), NL4 + Render(EPILOG))))))
  }

  function GenerateOvf(c: VmConfig, vmdk: string, size: nat): string {
    Render(BeforeName(vmdk, size, c.diskGib, XmlEscape(c.name)))
    + (Render(Element("Name", XmlEscape(c.name), NL4))
    + (Render(OsSection(OsTypeId(c.osType)) + HARDWARE)
    + Items(c)))
  }

  // --------------------------------------------------------------------- reading

  /** `str::split` by a non-empty pattern. */
  function Split(s: string, pat: string): seq<string>
    requires pat != ""
    ensures |Split(s, pat)| > 0
    decreases |s|
  {
    var at := Find(s, pat);
    if at.None? then [s] else [s[..at.value]] + Split(s[at.value + |pat|..], pat)
  }

  function ExtractAttr(xml: string, attr: string): Option<string> {
    var pattern := attr + "=\"";
    var at := Find(xml, pattern);
    if at.None? then None else Before(xml[at.value + |pattern|..], "\"")
  }

  function NumberIn(item: string, tag: string, max: nat): nat {
    var text := ExtractXmlValue(item, tag);
    if text.None? then 0
    else
      var n := Parse(Trim(text.value), max);
      if n.None? then 0 else n.value
  }

  function ItemOf(block: string): string {
    var end := Find(block, ITEM_END);
    if end.None? then block else block[..end.value]
  }

  /** The effect of one item on (cpus, memory). */
  function ReadItem(block: string, found: (nat, nat)): (nat, nat) {
    var item := ItemOf(block);
    var kind := NumberIn(item, "rasd:ResourceType", U32_MAX);
    var quantity := NumberIn(item, "rasd:VirtualQuantity", U64_MAX);
    if kind == 3 then (if quantity < 1024 then quantity else 1024, found.1)
    else if kind == 4 then (found.0, quantity)
    else found
  }

  function ReadItems(blocks: seq<string>, found: (nat, nat)): (nat, nat)
    decreases blocks
  {
    if blocks == [] then found else ReadItems(blocks[1..], ReadItem(blocks[0], found))
  }

  function OsOfId(id: string): OsType {
    if id == "67" || id == "69" || id == "70" || id == "112" then Windows
    else if id == "42" then FreeBSD
    else if id == "101" || id == "36" || id == "94" || id == "96" then Linux
    else Other
  }

  /** The OS type named by the first id attribute. */
  function ReadId(after: string): OsType {
    var id := ExtractAttr(after, "ovf:id");
    if id.Some? then OsOfId(id.value) else Linux
  }

  /** The text from the first occurrence of `word` on. */
  function From(s: string, word: string): Option<string> {
    var at := Find(s, word);
    if at.None? then None else Some(s[at.value..])
  }

  function ReadOs(ovf: string): OsType {
    var after := From(ovf, OS_SECTION);
    if after.None? then Linux else ReadId(after.value)
  }

  function ParsedOf(ovf: string): ParsedOvf {
    var name := ExtractXmlValue(ovf, "Name");
    var (cpus, memory) := ReadItems(Split(ovf, ITEM)[1..], (2, 4096));
    ParsedOvf(if name.Some? then name.value else "Imported VM", cpus, memory, ReadOs(ovf))
  }

  method ParseOvf(ovf: string) returns (parsed: ParsedOvf)
    ensures parsed == ParsedOf(ovf)
    ensures ExtractXmlValue(ovf, "Name").None? ==> parsed.name == "Imported VM"
  {
    var name := ExtractXmlValue(ovf, "Name");
    var cpus, memoryMib := 2, 4096;
    var blocks := Split(ovf, ITEM)[1..];
    for i := 0 to |blocks|
      invariant cpus >= 0 && memoryMib >= 0
      invariant ReadItems(blocks[i..], (cpus, memoryMib)) == ReadItems(blocks, (2, 4096))
    {
      var item := ItemOf(blocks[i]);
      var kind := NumberIn(item, "rasd:ResourceType", U32_MAX);
      var quantity := NumberIn(item, "rasd:VirtualQuantity", U64_MAX);
      assert blocks[i..][1..] == blocks[i + 1..];
      if kind == 3 {
        cpus := if quantity < 1024 then quantity else 1024;
      } else if kind == 4 {
        memoryMib := quantity;
      }
    }
    parsed := ParsedOvf(if name.Some? then name.value else "Imported VM", cpus, memoryMib, ReadOs(ovf));
  }
}
