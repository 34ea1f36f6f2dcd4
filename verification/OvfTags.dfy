/** Facts about the fixed text of the OVF descriptor: which searches pass over which tags. */
module OvfTags {
  import opened Text
  import opened Markup
  import opened Ovf

  /** Neither a `<` nor the first letter of the OS section's name. */
  ghost predicate Plain(s: string) { forall i :: 0 <= i < |s| ==> s[i] != '<' && s[i] != 'O' }

  // --------------------------------------------------------------- fixed strings

  lemma PlainBreaks()
    ensures Plain(NL0) && Plain(NL2) && Plain(NL4) && Plain(NL6) && Plain(NL8) && Plain("")
  {
  }

  lemma PlainProlog()
    ensures Plain("?xml version=") && Plain("\"1.0\" encoding=\"UTF-8\"?>\n")
    ensures Plain("Envelope xmlns=") && Plain("References>") && Plain("/References>")
  {
  }

  lemma PlainNamespaces()
    ensures Plain(DMTF) && Plain(ENVELOPE_NS) && Plain(WRAP) && Plain(">\n  ")
  {
  }

  lemma PlainCim()
    ensures Plain(CIM) && Plain("xmlns:rasd=") && Plain("xmlns:vssd=") && Plain("xmlns:ovf=")
  {
  }

  lemma PlainSettings()
    ensures Plain("ResourceAllocationSettingData\"") && Plain("VirtualSystemSettingData\"")
  {
  }

  lemma PlainDisk()
    ensures Plain("DiskSection>") && Plain("/DiskSection>") && Plain("Disk ovf:capacity=\"")
    ensures Plain("Virtual disk information") && Plain("Info")
  {
  }

  lemma PlainFormat()
    ensures Plain("\" ovf:capacityAllocationUnits=") && Plain("\"byte * 2^30\"") && Plain("ovf:diskId=\"vmdisk1\" ")
  {
  }

  lemma PlainFormat2()
    ensures Plain("ovf:fileRef=\"file1\" ") && Plain("ovf:format=\"") && Plain("http://www.vmware.com")
  {
  }

  lemma PlainFormat3()
    ensures Plain("/interfaces/specifications") && Plain("/vmdk.html#stream")
  {
  }

  lemma PlainNetwork()
    ensures Plain("NetworkSection>") && Plain("/NetworkSection>") && Plain("/Network>") && Plain("Network ovf:name=") && Plain("\"NAT\">\n      ")
  {
  }

  lemma PlainNetworkText()
    ensures Plain("The list of logical networks") && Plain("Description") && Plain("NAT network")
  {
  }

  lemma PlainSystem()
    ensures Plain("VirtualSystem ovf:id=\"") && Plain("\">") && Plain("A virtual machine") && Plain("File ovf:href=\"")
  {
  }

  lemma PlainFile()
    ensures Plain("\" ") && Plain("ovf:id=\"") && Plain("file1") && Plain("\" ovf:size=\"") && Plain("\"/>")
  {
  }

  lemma PlainHardware()
    ensures Plain("VirtualHardwareSection>") && Plain("Virtual hardware requirements") && Plain("System>") && Plain("/System>")
  {
  }

  lemma PlainVssd()
    ensures Plain("vssd:ElementName") && Plain("vssd:InstanceID") && Plain("vssd:VirtualSystemType") && Plain("0")
  {
  }

  lemma PlainVssdText()
    ensures Plain("Virtual Hardware Family") && Plain("vmx-21") && Plain("The operating system")
  {
  }

  lemma PlainEpilog()
    ensures Plain("/VirtualHardwareSection>") && Plain("/VirtualSystem>") && Plain("/Envelope>")
  {
  }

  lemma PlainItem()
    ensures Plain("rasd:AllocationUnits") && Plain("rasd:Description") && Plain("rasd:ElementName")
  {
  }

  lemma PlainItem2()
    ensures Plain("rasd:InstanceID") && Plain("rasd:HostResource") && Plain("rasd:ResourceType")
  {
  }

  lemma PlainItemText()
    ensures Plain("hertz * 10^6") && Plain("Number of Virtual CPUs") && Plain(" virtual CPU(s)") && Plain("byte * 2^20")
  {
  }

  lemma PlainItemText2()
    ensures Plain("Memory Size") && Plain("MB of memory") && Plain("Hard Disk 1") && Plain("ovf:/disk/vmdisk1") && Plain("rasd:VirtualQuantity")
  {
  }

  lemma FreeAddress()
    ensures Free("rasd:AddressOnParent", '<')
  {
  }

  // ------------------------------------------------------------------- calm tags

  /** A tag that the searches for the name, the items and the OS section pass over. */
  ghost predicate Calm(t: Tag) {
    Plain(t.name) && Plain(t.text) && Differs(t.name, "Name>") && Differs(t.name, "Item>")
  }

  ghost predicate AllCalm(tags: seq<Tag>) {
    forall i :: 0 <= i < |tags| ==> Calm(tags[i])
  }

  lemma DiffersAt(a: string, b: string, k: nat)
    requires k < |a| && k < |b| && a[k] != b[k]
    ensures Differs(a, b)
  {
  }

  lemma CalmTag(name: string, text: string)
    requires Plain(name) && Plain(text) && |name| > 1
    requires (name[0] != 'N' || name[1] != 'a') && (name[0] != 'I' || name[1] != 't')
    ensures Calm(Tag(name, text)) && AllCalm([Tag(name, text)])
  {
    DiffersAt(name, "Name>", if name[0] != 'N' then 0 else 1);
    DiffersAt(name, "Item>", if name[0] != 'I' then 0 else 1);
  }

  lemma PlainBoth(a: string, b: string)
    requires Plain(a) && Plain(b)
    ensures Plain(a + b)
  {
  }

  lemma CalmElement(tag: string, value: string, after: string)
    requires Plain(tag) && Plain(value) && Plain(after) && |tag| > 1
    requires (tag[0] != 'N' || tag[1] != 'a') && (tag[0] != 'I' || tag[1] != 't')
    ensures AllCalm(Element(tag, value, after))
  {
    assert Plain(">") && Plain("/");
    PlainBoth(tag, ">");
    PlainBoth("/", tag);
    PlainBoth("/" + tag, ">");
    assert (tag + ">")[0] == tag[0] && (tag + ">")[1] == tag[1] && ("/" + tag + ">")[0] == '/';
    CalmTag(tag + ">", value);
    CalmTag("/" + tag + ">", after);
  }

  lemma {:induction false} PlainCat(parts: seq<string>)
    requires forall i :: 0 <= i < |parts| ==> Plain(parts[i])
    ensures Plain(Cat(parts))
  {
    if parts == [] {
    } else {
      PlainCat(parts[1..]);
      PlainBoth(parts[0], Cat(parts[1..]));
    }
  }

  lemma NamespacesPlain()
    ensures Plain(Cat(NAMESPACES))
  {
    PlainNamespaces();
    PlainCim();
    PlainSettings();
    PlainCat(NAMESPACES);
  }

  lemma PrologCalm()
    ensures AllCalm(PROLOG)
  {
    PlainProlog();
    PlainBreaks();
    NamespacesPlain();
    CalmTag("?xml version=", "\"1.0\" encoding=\"UTF-8\"?>\n");
    CalmTag("Envelope xmlns=", Cat(NAMESPACES));
    CalmTag("References>", NL4);
  }

  lemma NetworkCalm()
    ensures AllCalm(NETWORK)
  {
    PlainNetwork();
    PlainNetworkText();
    PlainDisk();
    PlainBreaks();
    CalmTag("NetworkSection>", NL4);
    CalmElement("Info", "The list of logical networks", NL4);
    CalmTag("Network ovf:name=", "\"NAT\">\n      ");
    CalmElement("Description", "NAT network", NL4);
    CalmTag("/Network>", NL2);
    CalmTag("/NetworkSection>", NL2);
  }
}
