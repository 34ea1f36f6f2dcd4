/** The snapshot description written for libvirt, and reading it back. */
module SnapshotXml {
  import opened Wrappers
  import opened Text
  import opened Markup

  const DOCUMENT: Tag := Tag("domainsnapshot>", "\n  ")
  const DOCUMENT_END: Tag := Tag("/domainsnapshot>", "")

  /** The document, tag by tag; line breaks and indentation belong to the tag before them. */
  function BuildSnapshotXml(name: string, description: string): string {
    Render([DOCUMENT])
    + (Render(Element("name", XmlEscape(name), "\n  "))
       + (Render(Element("description", XmlEscape(description), "\n"))
          + Render([DOCUMENT_END])))
  }

  lemma HeadIsNeither()
    ensures NotTag(DOCUMENT, "name" + ">") && NotTag(DOCUMENT, "description" + ">")
  {
    assert ("name" + ">")[0] == 'n';
    assert ("description" + ">")[1] == 'e';
  }

  lemma NameIsNoDescription(name: string)
    ensures NoneIs(Element("name", XmlEscape(name), "\n  "), "description" + ">")
  {
    EscapedFree(name, '<');
    assert ("name" + ">")[0] == 'n' && ("/" + "name" + ">")[0] == '/' && ("description" + ">")[0] == 'd';
    assert Free("name" + ">", '<') && Free("/" + "name" + ">", '<');
  }

  /** The name read back is the escaped name, whatever the name and description hold. */
  lemma NameReadBack(name: string, description: string)
    ensures ExtractXmlValue(BuildSnapshotXml(name, description), "name") == Some(XmlEscape(name))
    ensures Unescape(XmlEscape(name)) == name
  {
    EscapedFree(name, '<');
    UnescapeInverts(name);
    HeadIsNeither();
    ReadElement([DOCUMENT], "name", XmlEscape(name), "\n  ",
                Render(Element("description", XmlEscape(description), "\n")) + Render([DOCUMENT_END]));
  }

  /** The description read back is the escaped description. */
  lemma DescriptionReadBack(name: string, description: string)
    ensures ExtractXmlValue(BuildSnapshotXml(name, description), "description") == Some(XmlEscape(description))
    ensures Unescape(XmlEscape(description)) == description
  {
    var first := Element("name", XmlEscape(name), "\n  ");
    var tail := Render(Element("description", XmlEscape(description), "\n")) + Render([DOCUMENT_END]);
    EscapedFree(description, '<');
    UnescapeInverts(description);
    HeadIsNeither();
    NameIsNoDescription(name);
    RenderAppend([DOCUMENT], first);
    assert Render([DOCUMENT]) + (Render(first) + tail) == Render([DOCUMENT] + first) + tail;
    ReadElement([DOCUMENT] + first, "description", XmlEscape(description), "\n", Render([DOCUMENT_END]));
  }
}
