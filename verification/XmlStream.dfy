/**
 The one-pass extractors over libvirt domain XML. Each is an event loop with an
 "inside" flag and a depth counter; the loops stand for a search over the element tree
 whose events they read, and are proved to compute it exactly under a condition on the
 children of the disk they look for.

 The tokenizer is a parameter: a document is its sequence of events.
 */
module XmlStream {
  import opened Wrappers

  datatype Attr = Attr(name: string, value: string)

  datatype Event =
    | Start(name: string, attrs: seq<Attr>)
    | Empty(name: string, attrs: seq<Attr>)
    | End(name: string)
    | Other
    | Eof
    | Malformed

  /** The three extractors differ in the disk they look for and the attribute they read. */
  datatype Selector = DiskPath | CdromTarget | CdromMedia {
    function Element(): string { if CdromTarget? then "target" else "source" }

    function Attribute(): string { if CdromTarget? then "dev" else "file" }

    predicate Selects(attrs: seq<Attr>) {
      if DiskPath? then Attr("type", "file") in attrs && Attr("device", "disk") in attrs
      else Attr("device", "cdrom") in attrs
    }
  }

  /** The first attribute called `name` with a non-empty value. */
  function FirstValue(attrs: seq<Attr>, name: string): (r: Option<string>)
    ensures r.Some? ==> r.value != "" && Attr(name, r.value) in attrs
    ensures r.None? ==> forall a :: a in attrs && a.name == name ==> a.value == ""
  {
    if attrs == [] then None
    else if attrs[0].name == name && attrs[0].value != "" then Some(attrs[0].value)
    else FirstValue(attrs[1..], name)
  }

  function Hit(sel: Selector, name: string, attrs: seq<Attr>): Option<string> {
    if name == sel.Element() then FirstValue(attrs, sel.Attribute()) else None
  }

  /** What is left of the scan when `events` remain. */
  function Scan(sel: Selector, events: seq<Event>, inside: bool, depth: nat): Option<string> {
    if events == [] then None
    else
      var rest := events[1..];
      match events[0]
      case Start(name, attrs) =>
        if name == "disk" then
          if sel.Selects(attrs) && !inside then Scan(sel, rest, true, 1) else Scan(sel, rest, inside, depth)
        else if inside then Scan(sel, rest, inside, depth + 1)
        else Scan(sel, rest, inside, depth)
      case Empty(name, attrs) =>
        if inside && Hit(sel, name, attrs).Some? then Hit(sel, name, attrs) else Scan(sel, rest, inside, depth)
      case End(name) =>
        if inside then
          if name == "disk" && depth == 1 then None
          else Scan(sel, rest, inside, if depth == 0 then 0 else depth - 1)
        else Scan(sel, rest, inside, depth)
      case Other => Scan(sel, rest, inside, depth)
      case Eof => None
      case Malformed => None
  }

  method FindValue(attrs: seq<Attr>, name: string) returns (r: Option<string>)
    ensures r == FirstValue(attrs, name)
  {
    for i := 0 to |attrs|
      invariant FirstValue(attrs[i..], name) == FirstValue(attrs, name)
    {
      if attrs[i].name == name && attrs[i].value != "" {
        return Some(attrs[i].value);
      }
    }
    r := None;
  }

  /** The attribute loop that decides whether a disk is the wanted kind. */
  method SelectsDisk(sel: Selector, attrs: seq<Attr>) returns (r: bool)
    ensures r <==> if sel.DiskPath? then Attr("type", "file") in attrs && Attr("device", "disk") in attrs
                   else Attr("device", "cdrom") in attrs
  {
    var isFile, isDevice := false, false;
    for i := 0 to |attrs|
      invariant isFile <==> Attr("type", "file") in attrs[..i]
      invariant isDevice <==> Attr("device", if sel.DiskPath? then "disk" else "cdrom") in attrs[..i]
    {
      if attrs[i] == Attr("type", "file") {
        isFile := true;
      } else if attrs[i] == Attr("device", if sel.DiskPath? then "disk" else "cdrom") {
        isDevice := true;
      }
    }
    assert attrs[..|attrs|] == attrs;
    r := if sel.DiskPath? then isFile && isDevice else isDevice;
  }

  /** `extract_disk_path`, `parse_cdrom_target` and `parse_cdrom_media`. */
  method Extract(sel: Selector, events: seq<Event>) returns (r: Option<string>)
    ensures r == Scan(sel, events, false, 0)
  {
    var inside := false;
    var depth: nat := 0;
    for i := 0 to |events|
      invariant Scan(sel, events[i..], inside, depth) == Scan(sel, events, false, 0)
    {
      assert events[i..][1..] == events[i + 1..];
      match events[i] {
        case Start(name, attrs) =>
          if name == "disk" {
            var wanted := SelectsDisk(sel, attrs);
            if wanted && !inside {
              inside, depth := true, 1;
            }
          } else if inside {
            depth := depth + 1;
          }
        case Empty(name, attrs) =>
          if inside && name == sel.Element() {
            var val := FindValue(attrs, sel.Attribute());
            if val.Some? {
              return val;
            }
          }
        case End(name) =>
          if inside {
            if name == "disk" && depth == 1 {
              return None;
            }
            depth := if depth == 0 then 0 else depth - 1;
          }
        case Other =>
        case Eof => return None;
        case Malformed => return None;
      }
    }
    r := None;
  }

  // --------------------------------------------------------------- element trees

  /** An ordered forest: the first node, its children where it has any, then its siblings. */
  datatype Forest =
    | Nil
    | Text(next: Forest)
    | SelfClosed(name: string, attrs: seq<Attr>, next: Forest)
    | Elem(name: string, attrs: seq<Attr>, kids: Forest, next: Forest)

  function Events(f: Forest): seq<Event> {
    match f
    case Nil => []
    case Text(next) => [Other] + Events(next)
    case SelfClosed(name, attrs, next) => [Empty(name, attrs)] + Events(next)
    case Elem(name, attrs, kids, next) => [Start(name, attrs)] + Events(kids) + [End(name)] + Events(next)
  }

  function OrElse<T>(a: Option<T>, b: Option<T>): Option<T> {
    if a.Some? then a else b
  }

  /** The children of the first wanted disk element in document order. */
  function FirstDisk(sel: Selector, f: Forest): Option<Forest> {
    match f
    case Nil => None
    case Text(next) => FirstDisk(sel, next)
    case SelfClosed(_, _, next) => FirstDisk(sel, next)
    case Elem(name, attrs, kids, next) =>
      if name == "disk" && sel.Selects(attrs) then Some(kids)
      else OrElse(FirstDisk(sel, kids), FirstDisk(sel, next))
  }

  /** The first self-closing descendant that carries the wanted attribute. */
  function FirstHit(sel: Selector, f: Forest): Option<string> {
    match f
    case Nil => None
    case Text(next) => FirstHit(sel, next)
    case SelfClosed(name, attrs, next) => OrElse(Hit(sel, name, attrs), FirstHit(sel, next))
    case Elem(_, _, kids, next) => OrElse(FirstHit(sel, kids), FirstHit(sel, next))
  }

  /** The search the loops stand for: only the first wanted disk is looked into. */
  function Search(sel: Selector, f: Forest): Option<string> {
    var disk := FirstDisk(sel, f);
    if disk.Some? then FirstHit(sel, disk.value) else None
  }

  predicate HasDisk(f: Forest) {
    match f
    case Nil => false
    case Text(next) => HasDisk(next)
    case SelfClosed(_, _, next) => HasDisk(next)
    case Elem(name, _, kids, next) => name == "disk" || HasDisk(kids) || HasDisk(next)
  }

  /** No disk element is open inside the first wanted one. */
  predicate NoNesting(sel: Selector, f: Forest) {
    FirstDisk(sel, f).Some? ==> !HasDisk(FirstDisk(sel, f).value)
  }

  // ------------------------------------------------------------------ refinement

  /** Splitting `events + tail` at an element's own brackets. */
  lemma ElemEvents(f: Forest, tail: seq<Event>)
    requires f.Elem?
    ensures Events(f) + tail == [Start(f.name, f.attrs)] + (Events(f.kids) + ([End(f.name)] + (Events(f.next) + tail)))
  {
  }

  lemma {:induction false} ScanOutside(sel: Selector, f: Forest, depth: nat, tail: seq<Event>)
    requires FirstDisk(sel, f).None?
    ensures Scan(sel, Events(f) + tail, false, depth) == Scan(sel, tail, false, depth)
    decreases f
  {
    match f
    case Nil =>
      assert Events(f) + tail == tail;
    case Text(next) =>
      assert Events(f) + tail == [Other] + (Events(next) + tail);
      ScanOutside(sel, next, depth, tail);
    case SelfClosed(name, attrs, next) =>
      assert Events(f) + tail == [Empty(name, attrs)] + (Events(next) + tail);
      ScanOutside(sel, next, depth, tail);
    case Elem(name, attrs, kids, next) =>
      var after := Events(next) + tail;
      ElemEvents(f, tail);
      ScanOutside(sel, kids, depth, [End(name)] + after);
      ScanOutside(sel, next, depth, tail);
  }

  // ------------------------------------------------- reading the wanted disk's children

  /**
   What the scan makes of the children: a value, an early end, or the counter it is
   left with. A disk's start tag does not raise the counter, but its end tag lowers it.
   */
  datatype Outcome = Found(value: string) | Stopped | On(depth: nat)

  function Lower(depth: nat): nat { if depth == 0 then 0 else depth - 1 }

  function Inside(sel: Selector, f: Forest, depth: nat): Outcome {
    match f
    case Nil => On(depth)
    case Text(next) => Inside(sel, next, depth)
    case SelfClosed(name, attrs, next) =>
      var hit := Hit(sel, name, attrs);
      if hit.Some? then Found(hit.value) else Inside(sel, next, depth)
    case Elem(name, _, kids, next) =>
      var below := Inside(sel, kids, if name == "disk" then depth else depth + 1);
      if !below.On? then below
      else if name == "disk" && below.depth == 1 then Stopped
      else Inside(sel, next, Lower(below.depth))
  }

  /** The scan after an outcome, with `tail` still to come. */
  function Resume(sel: Selector, o: Outcome, tail: seq<Event>): Option<string> {
    match o
    case Found(value) => Some(value)
    case Stopped => None
    case On(depth) => Scan(sel, tail, true, depth)
  }

  lemma {:induction false} ScanInside(sel: Selector, f: Forest, depth: nat, tail: seq<Event>)
    ensures Scan(sel, Events(f) + tail, true, depth) == Resume(sel, Inside(sel, f, depth), tail)
    decreases f
  {
    match f
    case Nil =>
      assert Events(f) + tail == tail;
    case Text(next) =>
      assert Events(f) + tail == [Other] + (Events(next) + tail);
      ScanInside(sel, next, depth, tail);
    case SelfClosed(name, attrs, next) =>
      assert Events(f) + tail == [Empty(name, attrs)] + (Events(next) + tail);
      ScanInside(sel, next, depth, tail);
    case Elem(name, attrs, kids, next) =>
      var d := if name == "disk" then depth else depth + 1;
      var after := Events(next) + tail;
      ElemEvents(f, tail);
      ScanInside(sel, kids, d, [End(name)] + after);
      var below := Inside(sel, kids, d);
      if below.On? {
        assert ([End(name)] + after)[1..] == after;
        ScanInside(sel, next, Lower(below.depth), tail);
      }
  }

  /** A value found is the first hit in document order; a scan that runs through met none. */
  lemma {:induction false} OutcomeIsFirstHit(sel: Selector, f: Forest, depth: nat)
    ensures var o := Inside(sel, f, depth);
            && (o.Found? ==> FirstHit(sel, f) == Some(o.value))
            && (o.On? ==> FirstHit(sel, f) == None)
    decreases f
  {
    match f
    case Nil =>
    case Text(next) => OutcomeIsFirstHit(sel, next, depth);
    case SelfClosed(name, attrs, next) => OutcomeIsFirstHit(sel, next, depth);
    case Elem(name, attrs, kids, next) =>
      var d := if name == "disk" then depth else depth + 1;
      OutcomeIsFirstHit(sel, kids, d);
      if Inside(sel, kids, d).On? {
        OutcomeIsFirstHit(sel, next, Lower(Inside(sel, kids, d).depth));
      }
  }

  /** Without disk elements the counter is balanced. */
  lemma {:induction false} PlainInside(sel: Selector, f: Forest, depth: nat)
    requires !HasDisk(f) && depth >= 1
    ensures Inside(sel, f, depth) == if FirstHit(sel, f).Some? then Found(FirstHit(sel, f).value) else On(depth)
    decreases f
  {
    match f
    case Nil =>
    case Text(next) => PlainInside(sel, next, depth);
    case SelfClosed(name, attrs, next) => PlainInside(sel, next, depth);
    case Elem(name, attrs, kids, next) =>
      PlainInside(sel, kids, depth + 1);
      PlainInside(sel, next, depth);
  }

  // -------------------------------------------------------------- whole documents

  /** The events of the document that follow the wanted disk's end tag. */
  function Later(sel: Selector, f: Forest): seq<Event> {
    match f
    case Nil => []
    case Text(next) => Later(sel, next)
    case SelfClosed(_, _, next) => Later(sel, next)
    case Elem(name, attrs, kids, next) =>
      if name == "disk" && sel.Selects(attrs) then Events(next)
      else if FirstDisk(sel, kids).Some? then Later(sel, kids) + [End(name)] + Events(next)
      else Later(sel, next)
  }

  /** The scan from the wanted disk's start tag, with `rest` after its end tag. */
  function ScanFromDisk(sel: Selector, kids: Forest, rest: seq<Event>): Option<string> {
    Scan(sel, Events(kids) + ([End("disk")] + rest), true, 1)
  }

  lemma LaterThrough(sel: Selector, f: Forest, tail: seq<Event>)
    requires f.Elem? && !(f.name == "disk" && sel.Selects(f.attrs)) && FirstDisk(sel, f.kids).Some?
    ensures Later(sel, f) + tail == Later(sel, f.kids) + ([End(f.name)] + (Events(f.next) + tail))
  {
  }

  /** Up to the wanted disk nothing counts; then its children are read from counter 1. */
  lemma {:induction false} ScanToDisk(sel: Selector, f: Forest, depth: nat, tail: seq<Event>)
    requires FirstDisk(sel, f).Some?
    ensures Scan(sel, Events(f) + tail, false, depth) == ScanFromDisk(sel, FirstDisk(sel, f).value, Later(sel, f) + tail)
    decreases f
  {
    match f
    case Text(next) =>
      assert Events(f) + tail == [Other] + (Events(next) + tail);
      ScanToDisk(sel, next, depth, tail);
    case SelfClosed(name, attrs, next) =>
      assert Events(f) + tail == [Empty(name, attrs)] + (Events(next) + tail);
      ScanToDisk(sel, next, depth, tail);
    case Elem(name, attrs, kids, next) =>
      var after := [End(name)] + (Events(next) + tail);
      ScanStart(sel, f, depth, tail);
      if name == "disk" && sel.Selects(attrs) {
      } else if FirstDisk(sel, kids).Some? {
        ScanToDisk(sel, kids, depth, after);
        LaterThrough(sel, f, tail);
      } else {
        ScanOutside(sel, kids, depth, after);
        ScanToDisk(sel, next, depth, tail);
        assert after[1..] == Events(next) + tail;
      }
  }

  lemma ScanStart(sel: Selector, f: Forest, depth: nat, tail: seq<Event>)
    requires f.Elem?
    ensures var wanted, rest := f.name == "disk" && sel.Selects(f.attrs), [End(f.name)] + (Events(f.next) + tail);
            Scan(sel, Events(f) + tail, false, depth) == Scan(sel, Events(f.kids) + rest, wanted, if wanted then 1 else depth)
  {
    ElemEvents(f, tail);
    var rest := Events(f.kids) + ([End(f.name)] + (Events(f.next) + tail));
    assert ([Start(f.name, f.attrs)] + rest)[1..] == rest;
  }

  /** What the scan makes of the wanted disk and what follows it. */
  lemma ScanDisk(sel: Selector, f: Forest, tail: seq<Event>)
    requires FirstDisk(sel, f).Some?
    ensures var o := Inside(sel, FirstDisk(sel, f).value, 1);
            Scan(sel, Events(f) + tail, false, 0) ==
              if o == On(1) then None
              else if o.On? then Scan(sel, Later(sel, f) + tail, true, Lower(o.depth))
              else Resume(sel, o, [])
  {
    var kids, rest := FirstDisk(sel, f).value, Later(sel, f) + tail;
    ScanToDisk(sel, f, 0, tail);
    ScanInside(sel, kids, 1, [End("disk")] + rest);
    assert ([End("disk")] + rest)[1..] == rest;
  }

  /** The children leave the counter where it was, or the scan has its answer by then. */
  predicate Readable(sel: Selector, kids: Forest) {
    match Inside(sel, kids, 1)
    case Found(_) => true
    case Stopped => FirstHit(sel, kids).None?
    case On(depth) => depth == 1
  }

  /**
   For every document and whatever follows it: the loop computes the tree search
   exactly when there is no wanted disk and nothing is read from what follows, or the
   disk is readable, or a scan that ran past the disk's end finds nothing there.
   */
  lemma ScanIsSearchExactly(sel: Selector, f: Forest, tail: seq<Event>)
    ensures Scan(sel, Events(f) + tail, false, 0) == Search(sel, f) <==>
              match FirstDisk(sel, f)
              case None => Scan(sel, tail, false, 0) == None
              case Some(kids) =>
                Readable(sel, kids) ||
                (Inside(sel, kids, 1).On? && Scan(sel, Later(sel, f) + tail, true, Lower(Inside(sel, kids, 1).depth)) == None)
  {
    if FirstDisk(sel, f).Some? {
      ScanDisk(sel, f, tail);
      OutcomeIsFirstHit(sel, FirstDisk(sel, f).value, 1);
    } else {
      ScanOutside(sel, f, 0, tail);
    }
  }

  ghost predicate AlwaysRead(sel: Selector, kids: Forest) {
    forall f, tail :: FirstDisk(sel, f) == Some(kids) ==> Scan(sel, Events(f) + tail, false, 0) == Search(sel, f)
  }

  /** Attributes every extractor looks for, and an element whose value each reads. */
  function Wanted(sel: Selector): seq<Attr> {
    if sel.DiskPath? then [Attr("type", "file"), Attr("device", "disk")] else [Attr("device", "cdrom")]
  }

  function Bait(sel: Selector): Forest { SelfClosed(sel.Element(), [Attr(sel.Attribute(), "b")], Nil) }

  lemma WantedIsSelected(sel: Selector)
    ensures sel.Selects(Wanted(sel))
  {
    assert Attr("type", "file") == [Attr("type", "file"), Attr("device", "disk")][0];
    assert Attr("device", "disk") == [Attr("type", "file"), Attr("device", "disk")][1];
    assert Attr("device", "cdrom") == [Attr("device", "cdrom")][0];
  }

  /** The wanted disk followed by a sibling that carries a value. */
  lemma BaitTaken(sel: Selector, kids: Forest)
    requires !Readable(sel, kids)
    ensures var f := Elem("disk", Wanted(sel), kids, Bait(sel));
            FirstDisk(sel, f) == Some(kids) && Scan(sel, Events(f) + [], false, 0) != Search(sel, f)
  {
    var f := Elem("disk", Wanted(sel), kids, Bait(sel));
    var bait := Events(Bait(sel));
    WantedIsSelected(sel);
    ScanIsSearchExactly(sel, f, []);
    assert bait == [Empty(sel.Element(), [Attr(sel.Attribute(), "b")])];
    assert Later(sel, f) + [] == bait;
    if Inside(sel, kids, 1).On? {
      assert FirstValue([Attr(sel.Attribute(), "b")], sel.Attribute()) == Some("b");
      assert Scan(sel, bait, true, Lower(Inside(sel, kids, 1).depth)) == Some("b");
    }
  }

  /** The children's own condition: every document with this wanted disk is read right exactly if it is readable. */
  lemma ReadableExactly(sel: Selector, kids: Forest)
    ensures Readable(sel, kids) <==> AlwaysRead(sel, kids)
  {
    if Readable(sel, kids) {
      forall f, tail | FirstDisk(sel, f) == Some(kids)
        ensures Scan(sel, Events(f) + tail, false, 0) == Search(sel, f)
      {
        ScanIsSearchExactly(sel, f, tail);
      }
    } else {
      BaitTaken(sel, kids);
    }
  }

  /**
   In particular, for every document whose first wanted disk holds no further disk
   element the loop computes the tree search, whatever follows the events of the tree.
   */
  lemma ScanIsSearch(sel: Selector, f: Forest, tail: seq<Event>)
    requires NoNesting(sel, f)
    requires FirstDisk(sel, f).None? ==> tail == [] || tail[0].Eof? || tail[0].Malformed?
    ensures Scan(sel, Events(f) + tail, false, 0) == Search(sel, f)
  {
    ScanIsSearchExactly(sel, f, tail);
    if FirstDisk(sel, f).Some? {
      PlainInside(sel, FirstDisk(sel, f).value, 1);
    }
  }

  /** Giving up at a readable first wanted disk without a hit: later disks are never consulted. */
  lemma FirstDiskDecides(sel: Selector, attrs: seq<Attr>, kids: Forest, later: Forest)
    requires sel.Selects(attrs) && Readable(sel, kids) && FirstHit(sel, kids).None?
    ensures Scan(sel, Events(Elem("disk", attrs, kids, later)), false, 0) == None
  {
    var f := Elem("disk", attrs, kids, later);
    ScanIsSearchExactly(sel, f, []);
    assert Events(f) + [] == Events(f);
  }

  /** A document cut short, or unreadable from some point on, yields the same value or none. */
  lemma {:induction false} CutShort(sel: Selector, events: seq<Event>, n: nat, end: Event, inside: bool, depth: nat)
    requires n <= |events| && (end.Eof? || end.Malformed?)
    ensures var r := Scan(sel, events[..n] + [end], inside, depth);
            r == None || r == Scan(sel, events, inside, depth)
    decreases n
  {
    if n == 0 {
    } else {
      var cut, rest := events[..n] + [end], events[1..];
      assert cut[0] == events[0] && cut[1..] == rest[..n - 1] + [end];
      match events[0]
      case Start(name, attrs) =>
        if name == "disk" && sel.Selects(attrs) && !inside {
          CutShort(sel, rest, n - 1, end, true, 1);
        } else {
          CutShort(sel, rest, n - 1, end, inside, if name != "disk" && inside then depth + 1 else depth);
        }
      case Empty(name, attrs) => CutShort(sel, rest, n - 1, end, inside, depth);
      case End(name) => CutShort(sel, rest, n - 1, end, inside, if inside && depth > 0 then depth - 1 else depth);
      case Other => CutShort(sel, rest, n - 1, end, inside, depth);
      case Eof =>
      case Malformed =>
    }
  }

  const CDROM: seq<Attr> := [Attr("device", "cdrom")]

  function Source(file: string): Forest { SelfClosed("source", [Attr("file", file)], Nil) }

  /** A disk directly inside the wanted one stops the scan before the wanted source. */
  lemma NestedChildEndsScan()
    ensures var kids := Elem("disk", [], Nil, Source("a"));
            && Inside(CdromMedia, kids, 1) == Stopped && !Readable(CdromMedia, kids)
            && Scan(CdromMedia, Events(Elem("disk", CDROM, kids, Nil)), false, 0) == None
            && Search(CdromMedia, Elem("disk", CDROM, kids, Nil)) == Some("a")
  {
    var kids := Elem("disk", [], Nil, Source("a"));
    var f := Elem("disk", CDROM, kids, Nil);
    assert Inside(CdromMedia, Nil, 1) == On(1);
    assert FirstHit(CdromMedia, Source("a")) == Some("a");
    CdromSelected();
    ScanDisk(CdromMedia, f, []);
    assert Events(f) + [] == Events(f);
  }

  /**
   A disk below another element of the wanted disk leaves the counter at 0, and the
   scan runs past the wanted disk into its neighbour.
   */
  lemma NestedGrandchildEscapes()
    ensures var kids := Elem("x", [], Elem("disk", [], Nil, Nil), Nil);
            var f := Elem("disk", CDROM, kids, Source("b"));
            && Inside(CdromMedia, kids, 1) == On(0) && !Readable(CdromMedia, kids)
            && Scan(CdromMedia, Events(f), false, 0) == Some("b") && Search(CdromMedia, f) == None
  {
    var inner := Elem("disk", [], Nil, Nil);
    var kids := Elem("x", [], inner, Nil);
    var f := Elem("disk", CDROM, kids, Source("b"));
    assert Inside(CdromMedia, inner, 2) == On(1) by { assert Inside(CdromMedia, Nil, 2) == On(2); }
    assert Inside(CdromMedia, kids, 1) == On(0);
    OutcomeIsFirstHit(CdromMedia, kids, 1);
    CdromSelected();
    ScanDisk(CdromMedia, f, []);
    var bait := Events(Source("b"));
    assert bait == [Empty("source", [Attr("file", "b")])] && Later(CdromMedia, f) + [] == bait;
    assert Events(f) + [] == Events(f);
  }

  lemma CdromSelected()
    ensures CdromMedia.Selects(CDROM)
  {
    assert CDROM[0] == Attr("device", "cdrom");
  }
}
