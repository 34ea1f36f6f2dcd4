/** What the three extractors return, in terms of the document's elements and attributes. */
module XmlRead {
  import opened Wrappers
  import opened XmlStream

  /** The elements with an end tag, and the self-closing ones, in document order. */
  function Elements(f: Forest): seq<Forest> {
    match f
    case Nil => []
    case Text(next) => Elements(next)
    case SelfClosed(_, _, next) => Elements(next)
    case Elem(_, _, kids, next) => [f] + (Elements(kids) + Elements(next))
  }

  function Leaves(f: Forest): seq<Forest> {
    match f
    case Nil => []
    case Text(next) => Leaves(next)
    case SelfClosed(_, _, next) => [f] + Leaves(next)
    case Elem(_, _, kids, next) => Leaves(kids) + Leaves(next)
  }

  /** No disk element inside another. */
  predicate DisksApart(f: Forest) {
    match f
    case Nil => true
    case Text(next) => DisksApart(next)
    case SelfClosed(_, _, next) => DisksApart(next)
    case Elem(name, _, kids, next) => (name == "disk" ==> !HasDisk(kids)) && DisksApart(kids) && DisksApart(next)
  }

  // ------------------------------------------------------------------ first of a list

  function FirstOf<T>(list: seq<Forest>, pick: Forest -> Option<T>): Option<T> {
    if list == [] then None
    else if pick(list[0]).Some? then pick(list[0])
    else FirstOf(list[1..], pick)
  }

  lemma {:induction false} FirstOfAppend<T>(a: seq<Forest>, b: seq<Forest>, pick: Forest -> Option<T>)
    ensures FirstOf(a + b, pick) == OrElse(FirstOf(a, pick), FirstOf(b, pick))
  {
    if a == [] {
      assert a + b == b;
    } else {
      assert (a + b)[1..] == a[1..] + b;
      FirstOfAppend(a[1..], b, pick);
    }
  }

  ghost predicate IsFirst<T>(list: seq<Forest>, pick: Forest -> Option<T>, v: T, i: nat)
    requires i < |list|
  {
    pick(list[i]) == Some(v) && forall j :: 0 <= j < i ==> pick(list[j]) == None
  }

  lemma {:induction false} FirstOfAt<T>(list: seq<Forest>, pick: Forest -> Option<T>, v: T)
    ensures FirstOf(list, pick) == Some(v) <==> exists i :: 0 <= i < |list| && IsFirst(list, pick, v, i)
  {
    if list == [] {
    } else if pick(list[0]).Some? {
      if FirstOf(list, pick) == Some(v) { assert IsFirst(list, pick, v, 0); }
      if i :| 0 <= i < |list| && IsFirst(list, pick, v, i) { assert i == 0; }
    } else {
      FirstOfAt(list[1..], pick, v);
      if i :| 0 <= i < |list[1..]| && IsFirst(list[1..], pick, v, i) {
        FirstLater(list, pick, v, i + 1);
      }
      if i :| 0 <= i < |list| && IsFirst(list, pick, v, i) {
        assert i > 0;
        FirstLater(list, pick, v, i);
      }
    }
  }

  lemma FirstLater<T>(list: seq<Forest>, pick: Forest -> Option<T>, v: T, i: nat)
    requires 0 < i < |list| && pick(list[0]) == None
    ensures IsFirst(list, pick, v, i) <==> IsFirst(list[1..], pick, v, i - 1)
  {
    if IsFirst(list[1..], pick, v, i - 1) {
      forall j | 0 <= j < i ensures pick(list[j]) == None {
        if j > 0 { assert list[1..][j - 1] == list[j]; }
      }
    }
    if IsFirst(list, pick, v, i) {
      forall j | 0 <= j < i - 1 ensures pick(list[1..][j]) == None {
        assert list[1..][j] == list[j + 1];
      }
    }
  }

  function WantedKids(sel: Selector): Forest -> Option<Forest> {
    (e: Forest) => if e.Elem? && e.name == "disk" && sel.Selects(e.attrs) then Some(e.kids) else None
  }

  function LeafValue(sel: Selector): Forest -> Option<string> {
    (e: Forest) => if e.SelfClosed? then Hit(sel, e.name, e.attrs) else None
  }

  lemma {:induction false} FirstDiskListed(sel: Selector, f: Forest)
    ensures FirstDisk(sel, f) == FirstOf(Elements(f), WantedKids(sel))
    decreases f
  {
    match f
    case Nil =>
    case Text(next) => FirstDiskListed(sel, next);
    case SelfClosed(_, _, next) => FirstDiskListed(sel, next);
    case Elem(_, _, kids, next) =>
      FirstDiskListed(sel, kids);
      FirstDiskListed(sel, next);
      FirstOfAppend(Elements(kids), Elements(next), WantedKids(sel));
      assert ([f] + (Elements(kids) + Elements(next)))[1..] == Elements(kids) + Elements(next);
  }

  lemma {:induction false} FirstHitListed(sel: Selector, f: Forest)
    ensures FirstHit(sel, f) == FirstOf(Leaves(f), LeafValue(sel))
    decreases f
  {
    match f
    case Nil =>
    case Text(next) => FirstHitListed(sel, next);
    case SelfClosed(_, _, next) =>
      FirstHitListed(sel, next);
      assert ([f] + Leaves(next))[1..] == Leaves(next);
    case Elem(_, _, kids, next) =>
      FirstHitListed(sel, kids);
      FirstHitListed(sel, next);
      FirstOfAppend(Leaves(kids), Leaves(next), LeafValue(sel));
  }

  lemma {:induction false} ApartIsUnnested(sel: Selector, f: Forest)
    requires DisksApart(f)
    ensures NoNesting(sel, f)
    decreases f
  {
    match f
    case Nil =>
    case Text(next) => ApartIsUnnested(sel, next);
    case SelfClosed(_, _, next) => ApartIsUnnested(sel, next);
    case Elem(_, _, kids, next) =>
      ApartIsUnnested(sel, kids);
      ApartIsUnnested(sel, next);
  }

  // --------------------------------------------------------- elements and attributes

  /** The first non-empty value the attributes give this name. */
  ghost predicate Carries(attrs: seq<Attr>, name: string, v: string) {
    exists a :: 0 <= a < |attrs| && attrs[a] == Attr(name, v) && v != "" && NoneBefore(attrs, name, a)
  }

  predicate NoneBefore(attrs: seq<Attr>, name: string, n: nat)
    requires n <= |attrs|
  {
    forall b :: 0 <= b < n && attrs[b].name == name ==> attrs[b].value == ""
  }

  lemma {:induction false} CarriesFirst(attrs: seq<Attr>, name: string, v: string)
    ensures FirstValue(attrs, name) == Some(v) <==> Carries(attrs, name, v)
    ensures FirstValue(attrs, name) == None <==> NoneBefore(attrs, name, |attrs|)
  {
    if attrs == [] {
    } else if attrs[0].name == name && attrs[0].value != "" {
      if attrs[0].value == v { assert attrs[0] == Attr(name, v) && NoneBefore(attrs, name, 0); }
      assert !NoneBefore(attrs, name, |attrs|);
    } else {
      CarriesFirst(attrs[1..], name, v);
      forall n | 0 < n <= |attrs| ensures NoneBefore(attrs, name, n) <==> NoneBefore(attrs[1..], name, n - 1) {
        NoneShift(attrs, name, n);
      }
      if a :| 0 <= a < |attrs[1..]| && attrs[1..][a] == Attr(name, v) && v != "" && NoneBefore(attrs[1..], name, a) {
        assert attrs[a + 1] == Attr(name, v) && NoneBefore(attrs, name, a + 1);
      }
      if a :| 0 <= a < |attrs| && attrs[a] == Attr(name, v) && v != "" && NoneBefore(attrs, name, a) {
        assert a > 0 && attrs[1..][a - 1] == attrs[a];
      }
    }
  }

  lemma NoneShift(attrs: seq<Attr>, name: string, n: nat)
    requires 0 < n <= |attrs| && !(attrs[0].name == name && attrs[0].value != "")
    ensures NoneBefore(attrs, name, n) <==> NoneBefore(attrs[1..], name, n - 1)
  {
    if NoneBefore(attrs[1..], name, n - 1) {
      forall b | 0 <= b < n && attrs[b].name == name ensures attrs[b].value == "" {
        if b > 0 { assert attrs[1..][b - 1] == attrs[b]; }
      }
    }
    if NoneBefore(attrs, name, n) {
      forall b | 0 <= b < n - 1 && attrs[1..][b].name == name ensures attrs[1..][b].value == "" {
        assert attrs[1..][b] == attrs[b + 1];
      }
    }
  }

  /** A disk element of this device and, if `file`, of type file. */
  predicate IsDisk(e: Forest, file: bool, device: string) {
    e.Elem? && e.name == "disk" && (file ==> Attr("type", "file") in e.attrs) && Attr("device", device) in e.attrs
  }

  /** Leaf `k` of the list is the first of that name to carry a value under `attribute`, and it is `v`. */
  ghost predicate LeafReads(leaves: seq<Forest>, k: nat, name: string, attribute: string, v: string)
    requires k < |leaves| && forall j :: 0 <= j < |leaves| ==> leaves[j].SelfClosed?
  {
    && leaves[k].name == name && Carries(leaves[k].attrs, attribute, v)
    && forall j :: 0 <= j < k && leaves[j].name == name ==> NoneBefore(leaves[j].attrs, attribute, |leaves[j].attrs|)
  }

  lemma {:induction false} LeavesAreClosed(f: Forest)
    ensures forall e :: e in Leaves(f) ==> e.SelfClosed?
    decreases f
  {
    match f
    case Nil =>
    case Text(next) => LeavesAreClosed(next);
    case SelfClosed(_, _, next) => LeavesAreClosed(next);
    case Elem(_, _, kids, next) =>
      LeavesAreClosed(kids);
      LeavesAreClosed(next);
  }

  /** Element `i` of the list is the first such disk. */
  ghost predicate FirstSuchDisk(elements: seq<Forest>, i: nat, file: bool, device: string)
    requires i < |elements|
  {
    IsDisk(elements[i], file, device) && forall j :: 0 <= j < i ==> !IsDisk(elements[j], file, device)
  }

  /**
   The document holds a disk of this device (and type file, if `file`), and below the first one
   the first self-closing `name` element with a non-empty `attribute` has the value `v` there.
   */
  ghost predicate Holds(f: Forest, file: bool, device: string, name: string, attribute: string, v: string) {
    exists i :: 0 <= i < |Elements(f)| && FirstSuchDisk(Elements(f), i, file, device) && Below(Elements(f)[i].kids, name, attribute, v)
  }

  ghost predicate Below(kids: Forest, name: string, attribute: string, v: string) {
    LeavesAreClosed(kids);
    exists k :: 0 <= k < |Leaves(kids)| && LeafReads(Leaves(kids), k, name, attribute, v)
  }

  lemma BelowIsFirstHit(sel: Selector, kids: Forest, v: string)
    ensures FirstHit(sel, kids) == Some(v) <==> Below(kids, sel.Element(), sel.Attribute(), v)
  {
    var leaves := Leaves(kids);
    LeavesAreClosed(kids);
    FirstHitListed(sel, kids);
    FirstOfAt(leaves, LeafValue(sel), v);
    forall k | 0 <= k < |leaves|
      ensures IsFirst(leaves, LeafValue(sel), v, k) <==> LeafReads(leaves, k, sel.Element(), sel.Attribute(), v)
    {
      forall j | 0 <= j <= k
        ensures LeafValue(sel)(leaves[j]) == None <==> leaves[j].name == sel.Element() ==> NoneBefore(leaves[j].attrs, sel.Attribute(), |leaves[j].attrs|)
      {
        CarriesFirst(leaves[j].attrs, sel.Attribute(), v);
      }
      CarriesFirst(leaves[k].attrs, sel.Attribute(), v);
    }
  }

  ghost predicate Means(sel: Selector, file: bool, device: string) {
    forall attrs :: sel.Selects(attrs) <==> (file ==> Attr("type", "file") in attrs) && Attr("device", device) in attrs
  }

  lemma FirstDiskIs(sel: Selector, f: Forest, file: bool, device: string, kids: Forest)
    requires Means(sel, file, device)
    ensures FirstDisk(sel, f) == Some(kids) <==>
              exists i :: 0 <= i < |Elements(f)| && FirstSuchDisk(Elements(f), i, file, device) && Elements(f)[i].kids == kids
  {
    var elements := Elements(f);
    FirstDiskListed(sel, f);
    FirstOfAt(elements, WantedKids(sel), kids);
    forall e: Forest ensures WantedKids(sel)(e) == if IsDisk(e, file, device) then Some(e.kids) else None {
    }
    forall i | 0 <= i < |elements|
      ensures IsFirst(elements, WantedKids(sel), kids, i) <==> FirstSuchDisk(elements, i, file, device) && elements[i].kids == kids
    {
    }
  }

  lemma SearchHolds(sel: Selector, f: Forest, file: bool, device: string, v: string)
    requires Means(sel, file, device)
    ensures Search(sel, f) == Some(v) <==> Holds(f, file, device, sel.Element(), sel.Attribute(), v)
  {
    var disk := FirstDisk(sel, f);
    if disk.Some? {
      FirstDiskIs(sel, f, file, device, disk.value);
      BelowIsFirstHit(sel, disk.value, v);
    }
    forall i | 0 <= i < |Elements(f)| && FirstSuchDisk(Elements(f), i, file, device)
      ensures disk == Some(Elements(f)[i].kids)
    {
      FirstDiskIs(sel, f, file, device, Elements(f)[i].kids);
    }
  }

  lemma ScanHolds(sel: Selector, f: Forest, tail: seq<Event>, file: bool, device: string, v: string)
    requires Means(sel, file, device) && DisksApart(f)
    requires tail == [] || tail[0].Eof? || tail[0].Malformed?
    ensures Scan(sel, Events(f) + tail, false, 0) == Some(v) <==> Holds(f, file, device, sel.Element(), sel.Attribute(), v)
  {
    ApartIsUnnested(sel, f);
    ScanIsSearch(sel, f, tail);
    SearchHolds(sel, f, file, device, v);
  }

  // ------------------------------------------------------------------- main results

  /** `extract_disk_path`: the source file of the first disk of type file and device disk. */
  lemma DiskPathRead(f: Forest, tail: seq<Event>, v: string)
    requires DisksApart(f) && (tail == [] || tail[0].Eof? || tail[0].Malformed?)
    ensures Scan(DiskPath, Events(f) + tail, false, 0) == Some(v) <==> Holds(f, true, "disk", "source", "file", v)
  {
    ScanHolds(DiskPath, f, tail, true, "disk", v);
  }

  /** `parse_cdrom_target`: the target device of the first CD-ROM. */
  lemma CdromTargetRead(f: Forest, tail: seq<Event>, v: string)
    requires DisksApart(f) && (tail == [] || tail[0].Eof? || tail[0].Malformed?)
    ensures Scan(CdromTarget, Events(f) + tail, false, 0) == Some(v) <==> Holds(f, false, "cdrom", "target", "dev", v)
  {
    ScanHolds(CdromTarget, f, tail, false, "cdrom", v);
  }

  /** `parse_cdrom_media`: the source file of the first CD-ROM. */
  lemma CdromMediaRead(f: Forest, tail: seq<Event>, v: string)
    requires DisksApart(f) && (tail == [] || tail[0].Eof? || tail[0].Malformed?)
    ensures Scan(CdromMedia, Events(f) + tail, false, 0) == Some(v) <==> Holds(f, false, "cdrom", "source", "file", v)
  {
    ScanHolds(CdromMedia, f, tail, false, "cdrom", v);
  }
}
