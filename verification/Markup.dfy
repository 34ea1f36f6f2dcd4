/** Documents as lists of tags, and searching them for a tag. */
module Markup {
  import opened Wrappers
  import opened Text

  /** `<` followed by `name` (which decides what tag it is) and the text up to the next `<`. */
  datatype Tag = Tag(name: string, text: string)

  function RenderTag(t: Tag): string { "<" + (t.name + t.text) }

  function Render(tags: seq<Tag>): string {
    if tags == [] then "" else RenderTag(tags[0]) + Render(tags[1..])
  }

  /** A tag that is not `<p` and hides no other. */
  ghost predicate NotTag(t: Tag, p: string) {
    Free(t.name, '<') && Free(t.text, '<') && Differs(t.name, p)
  }

  ghost predicate NoneIs(tags: seq<Tag>, p: string) {
    forall i :: 0 <= i < |tags| ==> NotTag(tags[i], p)
  }

  lemma {:induction false} RenderAppend(a: seq<Tag>, b: seq<Tag>)
    ensures Render(a + b) == Render(a) + Render(b)
  {
    if a == [] {
      assert a + b == b;
    } else {
      assert (a + b)[1..] == a[1..] + b;
      RenderAppend(a[1..], b);
    }
  }

  lemma FindMiss(piece: string, rest: string, pat: string)
    requires piece != "" && pat != "" && Free(piece[1..], pat[0]) && Differs(piece, pat)
    ensures Find(piece + rest, pat) == Shift(|piece|, Find(rest, pat))
  {
    DiffersNotPrefix(piece, pat, rest);
    TailOfSum(piece, rest);
    FindPast(piece[1..], rest, pat);
  }

  lemma DiffersShift(a: string, b: string, c: char, tail: string)
    requires Differs(a, b)
    ensures Differs([c] + (a + tail), [c] + b)
  {
    var k :| 0 <= k < |a| && k < |b| && a[k] != b[k];
    assert ([c] + (a + tail))[k + 1] == a[k] && ([c] + b)[k + 1] == b[k];
  }

  lemma FindPastTag(t: Tag, rest: string, p: string)
    requires NotTag(t, p)
    ensures Find(RenderTag(t) + rest, "<" + p) == Shift(|RenderTag(t)|, Find(rest, "<" + p))
  {
    DiffersShift(t.name, p, '<', t.text);
    assert RenderTag(t)[1..] == t.name + t.text;
    FindMiss(RenderTag(t), rest, "<" + p);
  }

  /** Passing over one piece and then over the next is passing over both. */
  lemma FindPastBoth(piece: string, more: string, rest: string, pat: string)
    requires Find(piece + (more + rest), pat) == Shift(|piece|, Find(more + rest, pat))
    requires Find(more + rest, pat) == Shift(|more|, Find(rest, pat))
    ensures Find(piece + more + rest, pat) == Shift(|piece + more|, Find(rest, pat))
  {
    Associate(piece, more, rest);
    ShiftTwice(piece, more, Find(rest, pat));
  }

  lemma ShiftTwice(a: string, b: string, r: Option<nat>)
    ensures Shift(|a|, Shift(|b|, r)) == Shift(|a + b|, r)
  {
  }

  /** Searching for `<p` passes over every tag that is none. */
  lemma {:induction false} FindPastTags(tags: seq<Tag>, rest: string, p: string)
    requires NoneIs(tags, p)
    ensures Find(Render(tags) + rest, "<" + p) == Shift(|Render(tags)|, Find(rest, "<" + p))
  {
    if tags == [] {
      assert Render(tags) + rest == rest;
    } else {
      var piece, more := RenderTag(tags[0]), Render(tags[1..]);
      FindPastTag(tags[0], more + rest, p);
      FindPastTags(tags[1..], rest, p);
      FindPastBoth(piece, more, rest, "<" + p);
    }
  }

  lemma OpenTag(tag: string)
    ensures Open(tag) == "<" + (tag + ">") && Close(tag) == "<" + ("/" + tag + ">")
  {
  }

  /**
   Extraction from `tags <tag>value</tag> after`, where none of the leading tags is
   an opening one of that name.
   */
  lemma ExtractFromTags(tags: seq<Tag>, tag: string, value: string, after: string)
    requires NoneIs(tags, tag + ">") && Free(value, '<')
    ensures ExtractXmlValue(Render(tags) + (Open(tag) + (value + (Close(tag) + after))), tag) == Some(value)
  {
    var rest := value + (Close(tag) + after);
    var xml := Render(tags) + (Open(tag) + rest);
    OpenTag(tag);
    FindPastTags(tags, Open(tag) + rest, tag + ">");
    FindHere(Open(tag), rest);
    DropTwo(Render(tags), Open(tag), rest);
    Extracted(xml, tag, |Render(tags)|, value, after);
  }

  lemma DropTwo(a: string, b: string, c: string)
    ensures (a + (b + c))[|a| + |b|..] == c
  {
  }

  /** An element with text content: its opening tag and its closing tag. */
  function Element(tag: string, value: string, after: string): seq<Tag> {
    [Tag(tag + ">", value), Tag("/" + tag + ">", after)]
  }

  lemma RenderElement(tag: string, value: string, after: string)
    ensures Render(Element(tag, value, after)) == Open(tag) + (value + (Close(tag) + after))
  {
    var t0, t1 := Tag(tag + ">", value), Tag("/" + tag + ">", after);
    assert [t0, t1][1..] == [t1] && [t1][1..] == [];
    assert Render([t1]) == RenderTag(t1);
    OpenTag(tag);
    assert RenderTag(t0) == Open(tag) + value;
    assert RenderTag(t1) == Close(tag) + after;
  }

  /** Reading the first element of a name gives its content. */
  lemma ReadElement(before: seq<Tag>, tag: string, value: string, after: string, rest: string)
    requires NoneIs(before, tag + ">") && Free(value, '<')
    ensures ExtractXmlValue(Render(before) + (Render(Element(tag, value, after)) + rest), tag) == Some(value)
  {
    RenderElement(tag, value, after);
    ExtractFromTags(before, tag, value, after + rest);
    Regroup(Open(tag), value, Close(tag), after, rest);
  }

  lemma Regroup(a: string, b: string, c: string, d: string, e: string)
    ensures a + (b + (c + d)) + e == a + (b + (c + (d + e)))
  {
  }

  /** The pattern does not occur in the tag's own text. */
  predicate Without(t: Tag, pat: string) { Find(t.name + t.text, pat).None? }

  lemma FindPastBody(t: Tag, tail: string, pat: string)
    requires pat != "" && '<' !in pat && Without(t, pat) && (tail == "" || tail[0] == '<')
    ensures Find(RenderTag(t) + tail, pat) == Shift(|RenderTag(t)|, Find(tail, pat))
  {
    var body := t.name + t.text;
    FindPast("<", body + tail, pat);
    FindSplit(body, tail, pat);
    FindPastBoth("<", body, tail, pat);
  }

  predicate AllWithout(tags: seq<Tag>, pat: string) {
    tags == [] || (Without(tags[0], pat) && AllWithout(tags[1..], pat))
  }

  lemma StartsWithTag(tags: seq<Tag>, rest: string)
    requires rest == "" || rest[0] == '<'
    ensures Render(tags) + rest == "" || (Render(tags) + rest)[0] == '<'
  {
    if tags == [] {
      assert Render(tags) + rest == rest;
    }
  }

  /** Searching for anything but a tag passes over the tags that do not hold it. */
  lemma {:induction false} FindPastWithout(tags: seq<Tag>, rest: string, pat: string)
    requires pat != "" && '<' !in pat && (rest == "" || rest[0] == '<')
    requires AllWithout(tags, pat)
    ensures Find(Render(tags) + rest, pat) == Shift(|Render(tags)|, Find(rest, pat))
  {
    if tags == [] {
      assert Render(tags) + rest == rest;
    } else {
      var piece, more := RenderTag(tags[0]), Render(tags[1..]);
      StartsWithTag(tags[1..], rest);
      FindPastBody(tags[0], more + rest, pat);
      FindPastWithout(tags[1..], rest, pat);
      FindPastBoth(piece, more, rest, pat);
    }
  }
}
