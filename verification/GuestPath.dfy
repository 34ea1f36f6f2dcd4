/**
 Lexical validation of guest paths. Paths are byte strings; the normalised path is
 built by pushing and popping at its end.
 */
module GuestPath {
  import opened Wrappers

  type Byte = b: int | 0 <= b < 256
  type Bytes = seq<Byte>

  const SLASH: Byte := 47
  const DOT: Byte := 46
  const MAX_LENGTH := 4096

  datatype PathError = TooLong | NullByte | ControlCharacter | NotAbsolute | EncodedTraversal

  // ------------------------------------------------------------------- components

  /** The stretches between slashes. */
  function Segments(s: Bytes): (r: seq<Bytes>)
    ensures |r| > 0
  {
    if s == [] then [[]]
    else
      var rest := Segments(s[1..]);
      if s[0] == SLASH then [[]] + rest else [[s[0]] + rest[0]] + rest[1..]
  }

  /** Empty and `.` segments are no components. */
  function Significant(segs: seq<Bytes>): seq<Bytes> {
    if segs == [] then []
    else (if segs[0] == [] || segs[0] == [DOT] then [] else [segs[0]]) + Significant(segs[1..])
  }

  /** The components of an absolute path after its root. */
  function Components(path: Bytes): seq<Bytes> { Significant(Segments(path)) }

  predicate IsParent(c: Bytes) { c == [DOT, DOT] }

  /** `%2e`, in either case, or `%00`. */
  predicate Encoded(seg: Bytes) {
    exists i :: 0 <= i < |seg| - 2 && EncodedAt(seg, i)
  }

  predicate EncodedAt(seg: Bytes, i: nat)
    requires i < |seg| - 2
  {
    seg[i] == 37 && ((seg[i + 1] == 50 && (seg[i + 2] == 101 || seg[i + 2] == 69)) || (seg[i + 1] == 48 && seg[i + 2] == 48))
  }

  // ------------------------------------------------------------------ specification

  function DropLast(stack: seq<Bytes>): seq<Bytes> {
    if stack == [] then [] else stack[..|stack| - 1]
  }

  /** The names left when every `..` has taken back the name before it; at the root it takes nothing. */
  function Resolve(comps: seq<Bytes>): seq<Bytes> {
    if comps == [] then []
    else
      var n := |comps| - 1;
      var front := Resolve(comps[..n]);
      if IsParent(comps[n]) then DropLast(front) else front + [comps[n]]
  }

  function RenderFrom(stack: seq<Bytes>): Bytes {
    if stack == [] then [] else [SLASH] + stack[0] + RenderFrom(stack[1..])
  }

  function Render(stack: seq<Bytes>): Bytes {
    if stack == [] then [SLASH] else RenderFrom(stack)
  }

  predicate Control(b: Byte) { b < 0x20 || b == 0x7F }

  function Validated(path: Bytes): Result<Bytes, PathError> {
    if |path| > MAX_LENGTH then Err(TooLong)
    else if exists i :: 0 <= i < |path| && path[i] == 0 then Err(NullByte)
    else if exists i :: 0 <= i < |path| && Control(path[i]) then Err(ControlCharacter)
    else if path == [] || path[0] != SLASH then Err(NotAbsolute)
    else if exists i :: 0 <= i < |Components(path)| && !Allowed(Components(path)[i]) then Err(EncodedTraversal)
    else Ok(Render(Resolve(Components(path))))
  }

  // ----------------------------------------------------------------- implementation

  /** A name that `push` can append and `pop` can take back. */
  predicate Name(c: Bytes) { c != [] && SLASH !in c }

  function LastSlash(p: Bytes): (r: Option<nat>)
    ensures r.Some? ==> r.value < |p|
  {
    if p == [] then None
    else if p[|p| - 1] == SLASH then Some(|p| - 1)
    else LastSlash(p[..|p| - 1])
  }

  /** `PathBuf::push` of one name. */
  function Push(p: Bytes, c: Bytes): Bytes {
    if p != [] && p[|p| - 1] == SLASH then p + c else p + [SLASH] + c
  }

  /** `PathBuf::pop`: the parent, or nothing at the root. */
  function Pop(p: Bytes): Option<Bytes> {
    if p == [SLASH] || LastSlash(p).None? then None
    else if LastSlash(p).value == 0 then Some([SLASH])
    else Some(p[..LastSlash(p).value])
  }

  /** One component applied to the normalised path. */
  method ApplyComponent(normalized: Bytes, c: Bytes, ghost stack: seq<Bytes>) returns (next: Bytes)
    requires normalized == Render(stack) && (stack != [] ==> Name(stack[|stack| - 1]))
    ensures next == Render(if IsParent(c) then DropLast(stack) else stack + [c])
  {
    if IsParent(c) {
      PopRender(stack);
      var popped := Pop(normalized);
      next := if popped.Some? then popped.value else [SLASH];
    } else {
      PushRender(stack, c);
      next := Push(normalized, c);
    }
  }

  /** `..` passes; any other component must hold no encoded traversal. */
  predicate Allowed(c: Bytes) { IsParent(c) || !Encoded(c) }

  ghost predicate Clean(comps: seq<Bytes>) {
    forall i :: 0 <= i < |comps| ==> Allowed(comps[i])
  }

  lemma ResolveStep(comps: seq<Bytes>, i: nat)
    requires i < |comps| && forall j :: 0 <= j < |comps| ==> Name(comps[j])
    ensures var front := Resolve(comps[..i]);
            && Resolve(comps[..i + 1]) == (if IsParent(comps[i]) then DropLast(front) else front + [comps[i]])
            && (front != [] ==> Name(front[|front| - 1]))
  {
    assert comps[..i + 1][..i] == comps[..i];
    ResolveNames(comps[..i]);
    var front := Resolve(comps[..i]);
    if front != [] {
      assert front[|front| - 1] in comps[..i];
    }
  }

  method NormalizeStep(normalized: Bytes, comps: seq<Bytes>, i: nat) returns (next: Bytes)
    requires i < |comps| && forall j :: 0 <= j < |comps| ==> Name(comps[j])
    requires normalized == Render(Resolve(comps[..i]))
    ensures next == Render(Resolve(comps[..i + 1]))
  {
    ResolveStep(comps, i);
    next := ApplyComponent(normalized, comps[i], Resolve(comps[..i]));
  }

  /** The component loop: no result once an encoded segment turns up. */
  method Normalize(comps: seq<Bytes>) returns (r: Option<Bytes>)
    requires forall i :: 0 <= i < |comps| ==> Name(comps[i])
    ensures r.Some? <==> Clean(comps)
    ensures r.Some? ==> r.value == Render(Resolve(comps))
  {
    var normalized := [SLASH];
    for i := 0 to |comps|
      invariant normalized == Render(Resolve(comps[..i]))
      invariant forall j :: 0 <= j < i ==> Allowed(comps[j])
    {
      if !Allowed(comps[i]) {
        return None;
      }
      normalized := NormalizeStep(normalized, comps, i);
    }
    assert comps[..|comps|] == comps;
    r := Some(normalized);
  }

  method ValidateGuestPath(path: Bytes) returns (r: Result<Bytes, PathError>)
    ensures r == Validated(path)
  {
    if |path| > MAX_LENGTH {
      return Err(TooLong);
    }
    if exists i :: 0 <= i < |path| && path[i] == 0 {
      return Err(NullByte);
    }
    if exists i :: 0 <= i < |path| && Control(path[i]) {
      return Err(ControlCharacter);
    }
    if path == [] || path[0] != SLASH {
      return Err(NotAbsolute);
    }
    ComponentsAreNames(path);
    var normalized := Normalize(Components(path));
    r := if normalized.Some? then Ok(normalized.value) else Err(EncodedTraversal);
  }

  lemma {:induction false} SegmentsHaveNoSlash(s: Bytes)
    ensures forall i :: 0 <= i < |Segments(s)| ==> SLASH !in Segments(s)[i]
  {
    if s == [] {
    } else {
      SegmentsHaveNoSlash(s[1..]);
    }
  }

  lemma {:induction false} SignificantMembers(segs: seq<Bytes>)
    ensures forall c :: c in Significant(segs) <==> c in segs && c != [] && c != [DOT]
  {
    if segs == [] {
    } else {
      SignificantMembers(segs[1..]);
      assert forall c :: c in segs <==> c == segs[0] || c in segs[1..];
    }
  }

  lemma ComponentsAreNames(path: Bytes)
    ensures forall i :: 0 <= i < |Components(path)| ==> Name(Components(path)[i]) && Components(path)[i] != [DOT]
  {
    SegmentsHaveNoSlash(path);
    SignificantMembers(Segments(path));
    forall i | 0 <= i < |Components(path)|
      ensures Name(Components(path)[i]) && Components(path)[i] != [DOT]
    {
      assert Components(path)[i] in Segments(path);
    }
  }

  lemma {:induction false} ResolveNames(comps: seq<Bytes>)
    ensures forall i :: 0 <= i < |Resolve(comps)| ==> Resolve(comps)[i] in comps && !IsParent(Resolve(comps)[i])
  {
    if comps == [] {
    } else {
      ResolveNames(comps[..|comps| - 1]);
    }
  }

  lemma {:induction false} RenderFromAppend(stack: seq<Bytes>, c: Bytes)
    ensures RenderFrom(stack + [c]) == RenderFrom(stack) + [SLASH] + c
  {
    if stack == [] {
      assert [c][1..] == [];
    } else {
      assert (stack + [c])[1..] == stack[1..] + [c];
      RenderFromAppend(stack[1..], c);
    }
  }

  lemma LastIsNameEnd(stack: seq<Bytes>)
    requires stack != [] && Name(stack[|stack| - 1])
    ensures RenderFrom(stack) == RenderFrom(DropLast(stack)) + [SLASH] + stack[|stack| - 1]
    ensures RenderFrom(stack)[|RenderFrom(stack)| - 1] != SLASH
  {
    var n := |stack| - 1;
    assert stack == stack[..n] + [stack[n]];
    RenderFromAppend(stack[..n], stack[n]);
    assert stack[n][|stack[n]| - 1] in stack[n];
  }

  lemma PushRender(stack: seq<Bytes>, c: Bytes)
    requires stack != [] ==> Name(stack[|stack| - 1])
    ensures Push(Render(stack), c) == Render(stack + [c])
  {
    RenderFromAppend(stack, c);
    if stack != [] {
      LastIsNameEnd(stack);
    }
  }

  lemma {:induction false} LastSlashBefore(a: Bytes, c: Bytes)
    requires SLASH !in c
    ensures LastSlash(a + [SLASH] + c) == Some(|a|)
    decreases |c|
  {
    var p := a + [SLASH] + c;
    if c != [] {
      var n := |c| - 1;
      assert p[..|p| - 1] == a + [SLASH] + c[..n];
      assert p[|p| - 1] == c[n];
      LastSlashBefore(a, c[..n]);
    }
  }

  lemma PopRender(stack: seq<Bytes>)
    requires stack != [] ==> Name(stack[|stack| - 1])
    ensures (match Pop(Render(stack)) case Some(p) => p case None => [SLASH]) == Render(DropLast(stack))
  {
    if stack != [] {
      var front, c := DropLast(stack), stack[|stack| - 1];
      LastIsNameEnd(stack);
      LastSlashBefore(RenderFrom(front), c);
      assert RenderFrom(stack)[..|RenderFrom(front)|] == RenderFrom(front);
    }
  }

  // -------------------------------------------------------------------- meaning

  /**
   A rooted tree: `child` may be undefined, going up undoes going down, and the
   root is its own parent.
   */
  ghost predicate Rooted<Node(!new)>(root: Node, child: (Node, Bytes) -> Option<Node>, parent: Node -> Node) {
    parent(root) == root &&
    forall n, c :: child(n, c).Some? ==> parent(child(n, c).value) == n
  }

  /** Walk the components from the root; `..` goes up. */
  function Walk<Node>(root: Node, child: (Node, Bytes) -> Option<Node>, parent: Node -> Node, comps: seq<Bytes>): Option<Node> {
    if comps == [] then Some(root)
    else
      var n := |comps| - 1;
      var at := Walk(root, child, parent, comps[..n]);
      if at.None? then None
      else if IsParent(comps[n]) then Some(parent(at.value))
      else child(at.value, comps[n])
  }

  /** Wherever the input leads in any rooted tree, its normal form leads to the same node. */
  lemma {:induction false} ResolveKeepsMeaning<Node(!new)>(root: Node, child: (Node, Bytes) -> Option<Node>, parent: Node -> Node, comps: seq<Bytes>)
    requires Rooted(root, child, parent) && Walk(root, child, parent, comps).Some?
    ensures Walk(root, child, parent, Resolve(comps)) == Walk(root, child, parent, comps)
  {
    if comps == [] {
    } else {
      var n := |comps| - 1;
      ResolveKeepsMeaning(root, child, parent, comps[..n]);
      ResolveNames(comps[..n]);
      var front := Resolve(comps[..n]);
      if IsParent(comps[n]) {
        if front != [] {
          assert Walk(root, child, parent, front) == child(Walk(root, child, parent, DropLast(front)).value, front[|front| - 1]);
        }
      } else {
        assert (front + [comps[n]])[..|front|] == front;
      }
    }
  }

  /**
   A path that never leaves the way to its goal: after every component the names
   resolved so far begin the names resolved in the end.
   */
  ghost predicate Direct(comps: seq<Bytes>) {
    forall k :: 0 <= k <= |comps| ==> Resolve(comps[..k]) <= Resolve(comps)
  }

  lemma {:induction false} WalkAppend<Node>(root: Node, child: (Node, Bytes) -> Option<Node>, parent: Node -> Node, a: seq<Bytes>, b: seq<Bytes>)
    requires Walk(root, child, parent, a).None?
    ensures Walk(root, child, parent, a + b).None?
    decreases |b|
  {
    if b == [] {
      assert a + b == a;
    } else {
      var n := |b| - 1;
      assert (a + b)[..|a + b| - 1] == a + b[..n];
      WalkAppend(root, child, parent, a, b[..n]);
    }
  }

  /** Where a direct path cannot be walked to, its normal form cannot either. */
  lemma {:induction false} DirectStops<Node(!new)>(root: Node, child: (Node, Bytes) -> Option<Node>, parent: Node -> Node, comps: seq<Bytes>, k: nat)
    requires Rooted(root, child, parent) && Direct(comps) && k <= |comps|
    requires Walk(root, child, parent, comps[..k]).None?
    ensures Walk(root, child, parent, Resolve(comps)).None?
    decreases k
  {
    if k == 0 {
    } else {
      var front := comps[..k - 1];
      assert comps[..k][..k - 1] == front;
      if Walk(root, child, parent, front).None? {
        DirectStops(root, child, parent, comps, k - 1);
      } else {
        ResolveKeepsMeaning(root, child, parent, front);
        StuckAt(root, child, parent, comps[..k]);
        StuckBefore(root, child, parent, Resolve(comps[..k]), Resolve(comps));
      }
    }
  }

  /** Where the last component cannot be walked, it is a name the resolution keeps. */
  lemma StuckAt<Node(!new)>(root: Node, child: (Node, Bytes) -> Option<Node>, parent: Node -> Node, comps: seq<Bytes>)
    requires Walk(root, child, parent, comps).None? && comps != []
    requires var front := comps[..|comps| - 1];
             Walk(root, child, parent, front).Some? && Walk(root, child, parent, Resolve(front)) == Walk(root, child, parent, front)
    ensures Walk(root, child, parent, Resolve(comps)).None?
  {
    var front, last := comps[..|comps| - 1], comps[|comps| - 1];
    assert (Resolve(front) + [last])[..|Resolve(front)|] == Resolve(front);
  }

  lemma StuckBefore<Node(!new)>(root: Node, child: (Node, Bytes) -> Option<Node>, parent: Node -> Node, stuck: seq<Bytes>, names: seq<Bytes>)
    requires Walk(root, child, parent, stuck).None? && stuck <= names
    ensures Walk(root, child, parent, names).None?
  {
    WalkAppend(root, child, parent, stuck, names[|stuck|..]);
    assert stuck + names[|stuck|..] == names;
  }

  /** A direct path and its normal form lead to the same node, or both nowhere, in every rooted tree. */
  lemma DirectKeepsMeaning<Node(!new)>(root: Node, child: (Node, Bytes) -> Option<Node>, parent: Node -> Node, comps: seq<Bytes>)
    requires Rooted(root, child, parent) && Direct(comps)
    ensures Walk(root, child, parent, Resolve(comps)) == Walk(root, child, parent, comps)
  {
    if Walk(root, child, parent, comps).Some? {
      ResolveKeepsMeaning(root, child, parent, comps);
    } else {
      assert comps[..|comps|] == comps;
      DirectStops(root, child, parent, comps, |comps|);
    }
  }

  // The tree that holds one chain of names and nothing else; its nodes are the stretches from the root.

  function ChainChild(names: seq<Bytes>): (seq<Bytes>, Bytes) -> Option<seq<Bytes>> {
    (at: seq<Bytes>, c: Bytes) => if at + [c] <= names then Some(at + [c]) else None
  }

  function ChainParent(): seq<Bytes> -> seq<Bytes> {
    (at: seq<Bytes>) => DropLast(at)
  }

  lemma ChainIsRooted(names: seq<Bytes>)
    ensures Rooted([], ChainChild(names), ChainParent())
  {
  }

  /** In a chain a walk stands where the names resolved so far lead. */
  lemma {:induction false} ChainWalk(names: seq<Bytes>, comps: seq<Bytes>)
    requires Walk([], ChainChild(names), ChainParent(), comps).Some?
    ensures Walk([], ChainChild(names), ChainParent(), comps) == Some(Resolve(comps)) && Resolve(comps) <= names
    ensures forall k :: 0 <= k <= |comps| ==> Resolve(comps[..k]) <= names
  {
    if comps == [] {
    } else {
      var n := |comps| - 1;
      ChainWalk(names, comps[..n]);
      forall k | 0 <= k <= |comps| ensures Resolve(comps[..k]) <= names {
        if k <= n {
          assert comps[..n][..k] == comps[..k];
        } else {
          assert comps[..k] == comps;
        }
      }
    }
  }

  lemma {:induction false} ChainReached(names: seq<Bytes>, k: nat)
    requires k <= |names| && forall i :: 0 <= i < |names| ==> !IsParent(names[i])
    ensures Walk([], ChainChild(names), ChainParent(), names[..k]) == Some(names[..k])
  {
    if k == 0 {
    } else {
      ChainReached(names, k - 1);
      assert names[..k][..k - 1] == names[..k - 1] && names[..k - 1] + [names[k - 1]] == names[..k];
    }
  }

  /** A path that is not direct is told from its normal form by the tree that holds only the resolved names. */
  lemma DetourSeparates(comps: seq<Bytes>)
    requires !Direct(comps)
    ensures var names := Resolve(comps);
            && Walk([], ChainChild(names), ChainParent(), names) == Some(names)
            && Walk([], ChainChild(names), ChainParent(), comps) == None
  {
    var names := Resolve(comps);
    ResolveNames(comps);
    ChainReached(names, |names|);
    assert names[..|names|] == names;
    if Walk([], ChainChild(names), ChainParent(), comps).Some? {
      ChainWalk(names, comps);
    }
  }

  /** In every rooted tree whose nodes are paths, the normal form leads where the path leads. */
  ghost predicate SameEverywhere(comps: seq<Bytes>) {
    forall root: seq<Bytes>, child: (seq<Bytes>, Bytes) -> Option<seq<Bytes>>, parent: seq<Bytes> -> seq<Bytes> ::
      Rooted(root, child, parent) ==> Walk(root, child, parent, Resolve(comps)) == Walk(root, child, parent, comps)
  }

  /** That holds exactly for the direct paths. */
  lemma MeaningExactly(comps: seq<Bytes>)
    ensures SameEverywhere(comps) <==> Direct(comps)
  {
    if Direct(comps) {
      forall root: seq<Bytes>, child: (seq<Bytes>, Bytes) -> Option<seq<Bytes>>, parent: seq<Bytes> -> seq<Bytes> | Rooted(root, child, parent)
        ensures Walk(root, child, parent, Resolve(comps)) == Walk(root, child, parent, comps)
      {
        DirectKeepsMeaning(root, child, parent, comps);
      }
    } else {
      DetourSeparates(comps);
      ChainIsRooted(Resolve(comps));
    }
  }

  /** The shortest detour, into a directory and back: its normal form is the root, which exists whether the directory does or not. */
  lemma ResolveSkipsMissing(name: Bytes)
    requires !IsParent(name)
    ensures !Direct([name, [DOT, DOT]])
    ensures Walk([], ChainChild([]), ChainParent(), [name, [DOT, DOT]]) == None
    ensures Walk([], ChainChild([]), ChainParent(), Resolve([name, [DOT, DOT]])) == Some([])
  {
    var comps: seq<Bytes> := [name, [DOT, DOT]];
    assert comps[..1] == [name] && [name][..0] == [];
    assert Resolve(comps[..1]) == [name] && Resolve(comps) == [];
    DetourSeparates(comps);
  }

  // ------------------------------------------------------------------ normal form

  lemma {:induction false} SegmentsOfName(c: Bytes, rest: Bytes)
    requires SLASH !in c
    ensures Segments(c + [SLASH] + rest) == [c] + Segments(rest)
    ensures Segments(c) == [c]
  {
    var s := c + [SLASH] + rest;
    if c == [] {
      assert s[1..] == rest;
    } else {
      assert s[0] == c[0] && s[1..] == c[1..] + [SLASH] + rest;
      assert c[0] in c;
      SegmentsOfName(c[1..], rest);
      assert [c[0]] + c[1..] == c;
      assert ([c[1..]] + Segments(rest))[1..] == Segments(rest);
      assert [c[1..]][1..] == [];
    }
  }

  lemma {:induction false} SegmentsOfRender(stack: seq<Bytes>)
    requires stack != [] && forall i :: 0 <= i < |stack| ==> Name(stack[i])
    ensures Segments(RenderFrom(stack)) == [[]] + stack
    decreases |stack|
  {
    var c, rest := stack[0], stack[1..];
    assert RenderFrom(stack) == [] + [SLASH] + (c + RenderFrom(rest));
    SegmentsOfName([], c + RenderFrom(rest));
    if rest == [] {
      assert c + RenderFrom(rest) == c;
      SegmentsOfName(c, []);
      assert stack == [c];
    } else {
      SegmentsOfRender(rest);
      var tail := RenderFrom(rest)[1..];
      assert RenderFrom(rest) == [] + [SLASH] + tail;
      SegmentsOfName([], tail);
      assert Segments(tail) == rest by { assert ([[]] + Segments(tail))[1..] == ([[]] + rest)[1..]; }
      assert c + RenderFrom(rest) == c + [SLASH] + tail;
      SegmentsOfName(c, tail);
      assert stack == [c] + rest;
    }
  }

  lemma {:induction false} SignificantAll(segs: seq<Bytes>)
    requires forall i :: 0 <= i < |segs| ==> segs[i] != [] && segs[i] != [DOT]
    ensures Significant(segs) == segs
  {
    if segs == [] {
    } else {
      SignificantAll(segs[1..]);
    }
  }

  /** The components of a rendered stack are the stack. */
  lemma ComponentsOfRender(stack: seq<Bytes>)
    requires forall i :: 0 <= i < |stack| ==> Name(stack[i]) && stack[i] != [DOT]
    ensures Components(Render(stack)) == stack
  {
    if stack == [] {
      var none: Bytes := [];
      assert Segments([SLASH]) == [none, none] by { assert [SLASH][1..] == []; }
      assert [none, none][1..] == [none] && [none][1..] == [];
      assert Significant([none]) == [] + Significant([]);
      assert Significant([none, none]) == [] + Significant([none]);
    } else {
      SegmentsOfRender(stack);
      assert ([[]] + stack)[1..] == stack;
      SignificantAll(stack);
    }
  }

  lemma {:induction false} ResolveOfNames(stack: seq<Bytes>)
    requires forall i :: 0 <= i < |stack| ==> !IsParent(stack[i])
    ensures Resolve(stack) == stack
  {
    if stack == [] {
    } else {
      ResolveOfNames(stack[..|stack| - 1]);
    }
  }

  // Lengths: rendering never grows beyond the input.

  function Cost(segs: seq<Bytes>): nat {
    if segs == [] then 0 else Cost(segs[..|segs| - 1]) + |segs[|segs| - 1]| + 1
  }

  lemma {:induction false} CostAppend(a: seq<Bytes>, b: seq<Bytes>)
    ensures Cost(a + b) == Cost(a) + Cost(b)
    decreases |b|
  {
    if b == [] {
      assert a + b == a;
    } else {
      var n := |b| - 1;
      assert (a + b)[..|a + b| - 1] == a + b[..n];
      CostAppend(a, b[..n]);
    }
  }

  lemma {:induction false} RenderCost(stack: seq<Bytes>)
    ensures |RenderFrom(stack)| == Cost(stack)
  {
    if stack == [] {
    } else {
      RenderCost(stack[1..]);
      CostAppend([stack[0]], stack[1..]);
      assert stack == [stack[0]] + stack[1..];
    }
  }

  lemma {:induction false} ResolveCost(comps: seq<Bytes>)
    ensures Cost(Resolve(comps)) <= Cost(comps)
  {
    if comps == [] {
    } else {
      var n := |comps| - 1;
      ResolveCost(comps[..n]);
      CostAppend(Resolve(comps[..n]), [comps[n]]);
    }
  }

  lemma {:induction false} SegmentsCost(s: Bytes)
    ensures Cost(Segments(s)) == |s| + 1
  {
    if s == [] {
    } else {
      var rest := Segments(s[1..]);
      SegmentsCost(s[1..]);
      assert rest == [rest[0]] + rest[1..];
      CostAppend([rest[0]], rest[1..]);
      if s[0] == SLASH {
        CostAppend([[]], rest);
      } else {
        CostAppend([[s[0]] + rest[0]], rest[1..]);
      }
    }
  }

  lemma {:induction false} SignificantCost(segs: seq<Bytes>)
    ensures Cost(Significant(segs)) <= Cost(segs)
  {
    if segs == [] {
    } else {
      SignificantCost(segs[1..]);
      assert segs == [segs[0]] + segs[1..];
      CostAppend([segs[0]], segs[1..]);
      CostAppend([segs[0]], Significant(segs[1..]));
      assert [] + Significant(segs[1..]) == Significant(segs[1..]);
    }
  }

  lemma RenderNoLonger(path: Bytes)
    requires path != [] && path[0] == SLASH
    ensures |Render(Resolve(Components(path)))| <= |path|
  {
    var rest := Segments(path[1..]);
    SegmentsCost(path[1..]);
    assert Segments(path) == [[]] + rest && ([[]] + rest)[1..] == rest;
    SignificantCost(rest);
    ResolveCost(Components(path));
    RenderCost(Resolve(Components(path)));
    assert Components(path) == Significant(rest);
  }

  // Bytes: rendering writes slashes and bytes of the input only.

  lemma {:induction false} SegmentBytes(s: Bytes, b: Byte)
    ensures (exists c :: c in Segments(s) && b in c) ==> b in s
  {
    if s == [] {
    } else {
      SegmentBytes(s[1..], b);
      var rest := Segments(s[1..]);
      if c :| c in Segments(s) && b in c {
        if s[0] != SLASH && c == [s[0]] + rest[0] {
          assert b == s[0] || b in rest[0];
        } else {
          assert c in rest || c == [];
        }
      }
    }
  }

  lemma {:induction false} RenderBytes(stack: seq<Bytes>, b: Byte)
    requires b in RenderFrom(stack)
    ensures b == SLASH || exists c :: c in stack && b in c
  {
    if stack == [] {
    } else {
      if b in RenderFrom(stack[1..]) {
        RenderBytes(stack[1..], b);
        if b != SLASH {
          var c :| c in stack[1..] && b in c;
          assert c in stack;
        }
      } else {
        assert b == SLASH || b in stack[0];
      }
    }
  }

  lemma ResultBytes(path: Bytes, b: Byte)
    requires b in Render(Resolve(Components(path))) && b != SLASH
    ensures b in path
  {
    var comps := Components(path);
    RenderBytes(Resolve(comps), b);
    var c :| c in Resolve(comps) && b in c;
    ResolveNames(comps);
    SignificantMembers(Segments(path));
    SegmentBytes(path, b);
  }

  /**
   An accepted path: its result has the resolved names as components, none of them
   `.` or `..`, is no longer than the input, and is accepted again unchanged.
   */
  lemma ValidatedIsNormal(path: Bytes)
    requires Validated(path).Ok?
    ensures var result := Validated(path).value;
            && Components(result) == Resolve(Components(path))
            && (forall i :: 0 <= i < |Components(result)| ==> !IsParent(Components(result)[i]) && Components(result)[i] != [DOT])
            && |result| <= |path|
            && Validated(result) == Ok(result)
  {
    var comps := Components(path);
    var stack := Resolve(comps);
    var result := Validated(path).value;
    PassesExactly(path);
    ComponentsAreNames(path);
    ResolveNames(comps);
    ComponentsOfRender(stack);
    ResolveOfNames(stack);
    RenderNoLonger(path);
    ResultPasses(path);
    PassesExactly(result);
  }

  /** What every check of an absolute path asks for. */
  ghost predicate Passes(path: Bytes) {
    && |path| <= MAX_LENGTH && path != [] && path[0] == SLASH
    && (forall i :: 0 <= i < |path| ==> !Control(path[i]))
    && (forall i :: 0 <= i < |Components(path)| ==> Allowed(Components(path)[i]))
  }

  lemma PassesExactly(path: Bytes)
    ensures Validated(path).Ok? <==> Passes(path)
    ensures Passes(path) ==> Validated(path) == Ok(Render(Resolve(Components(path))))
  {
  }

  /** The result passes the checks again. */
  lemma ResultPasses(path: Bytes)
    requires Passes(path)
    requires var result := Render(Resolve(Components(path)));
             Components(result) == Resolve(Components(path)) && |result| <= |path|
    ensures Passes(Render(Resolve(Components(path))))
  {
    ResultClean(path);
    ResultAllowed(path);
  }

  lemma ResultClean(path: Bytes)
    requires forall i :: 0 <= i < |path| ==> !Control(path[i])
    ensures var result := Render(Resolve(Components(path)));
            result != [] && result[0] == SLASH && forall i :: 0 <= i < |result| ==> !Control(result[i])
  {
    var result := Render(Resolve(Components(path)));
    forall i | 0 <= i < |result| ensures !Control(result[i]) {
      if result[i] != SLASH { ResultBytes(path, result[i]); }
    }
  }

  lemma ResultAllowed(path: Bytes)
    requires forall i :: 0 <= i < |Components(path)| ==> Allowed(Components(path)[i])
    ensures forall i :: 0 <= i < |Resolve(Components(path))| ==> Allowed(Resolve(Components(path))[i])
  {
    var comps := Components(path);
    ResolveNames(comps);
    forall i | 0 <= i < |Resolve(comps)| ensures Allowed(Resolve(comps)[i]) {
      var j :| 0 <= j < |comps| && comps[j] == Resolve(comps)[i];
    }
  }

  /** An accepted path and its result lead to the same node of every rooted tree the input can be walked in. */
  lemma ValidatedKeepsMeaning<Node(!new)>(root: Node, child: (Node, Bytes) -> Option<Node>, parent: Node -> Node, path: Bytes)
    requires Validated(path).Ok? && Rooted(root, child, parent) && Walk(root, child, parent, Components(path)).Some?
    ensures Walk(root, child, parent, Components(Validated(path).value)) == Walk(root, child, parent, Components(path))
  {
    ValidatedIsNormal(path);
    ResolveKeepsMeaning(root, child, parent, Components(path));
  }

  /** In every rooted tree whose nodes are paths, the result of validation leads where the accepted path leads. */
  ghost predicate ResultSameEverywhere(path: Bytes)
    requires Validated(path).Ok?
  {
    forall root: seq<Bytes>, child: (seq<Bytes>, Bytes) -> Option<seq<Bytes>>, parent: seq<Bytes> -> seq<Bytes> ::
      Rooted(root, child, parent) ==>
        Walk(root, child, parent, Components(Validated(path).value)) == Walk(root, child, parent, Components(path))
  }

  /** For an accepted path that holds exactly if its components are direct. */
  lemma ValidatedMeaningExactly(path: Bytes)
    requires Validated(path).Ok?
    ensures ResultSameEverywhere(path) <==> Direct(Components(path))
  {
    ValidatedIsNormal(path);
    MeaningExactly(Components(path));
  }

  // ----------------------------------------------------------- which paths are accepted

  /** ASCII letters in lower case, other bytes as they are. */
  function Lower(s: Bytes): (r: Bytes)
    ensures |r| == |s|
  {
    seq(|s|, i requires 0 <= i < |s| => if 65 <= s[i] <= 90 then s[i] + 32 else s[i])
  }

  /** The three bytes stand at `i`; somewhere. */
  predicate StandAt(s: Bytes, i: nat, x: Byte, y: Byte, z: Byte)
    requires i < |s| - 2
  {
    s[i] == x && s[i + 1] == y && s[i + 2] == z
  }

  ghost predicate Has(s: Bytes, x: Byte, y: Byte, z: Byte) {
    exists i :: 0 <= i < |s| - 2 && StandAt(s, i, x, y, z)
  }

  /** An encoded dot or null byte: `%2e` or `%00` in the lower-case text. */
  lemma EncodedExactly(seg: Bytes)
    ensures Encoded(seg) <==> Has(Lower(seg), '%' as int, '2' as int, 'e' as int) || Has(Lower(seg), '%' as int, '0' as int, '0' as int)
  {
    var l := Lower(seg);
    forall i | 0 <= i < |seg| - 2 ensures EncodedAt(seg, i) <==> StandAt(l, i, 37, 50, 101) || StandAt(l, i, 37, 48, 48) {
      LowerAt(seg, i);
    }
  }

  lemma LowerAt(seg: Bytes, i: nat)
    requires i < |seg| - 2
    ensures EncodedAt(seg, i) <==> StandAt(Lower(seg), i, 37, 50, 101) || StandAt(Lower(seg), i, 37, 48, 48)
  {
  }

  /** An encoded byte starts here. */
  predicate EncodedHere(s: Bytes) { |s| > 2 && EncodedAt(s, 0) }

  lemma EncodedCons(s: Bytes)
    requires s != []
    ensures Encoded(s) <==> EncodedHere(s) || Encoded(s[1..])
  {
    if i :| 0 <= i < |s| - 2 && EncodedAt(s, i) {
      if i > 0 {
        EncodedShift(s, i - 1);
      }
    }
    if i :| 0 <= i < |s[1..]| - 2 && EncodedAt(s[1..], i) {
      EncodedShift(s, i);
    }
  }

  lemma EncodedShift(s: Bytes, i: nat)
    requires i < |s| - 3
    ensures EncodedAt(s[1..], i) <==> EncodedAt(s, i + 1)
  {
  }

  /** The first segment runs up to the first slash. */
  lemma {:induction false} FirstSegment(s: Bytes)
    ensures var first := Segments(s)[0];
            first <= s && SLASH !in first && (|first| == |s| || s[|first|] == SLASH)
  {
    if s == [] {
    } else {
      FirstSegment(s[1..]);
    }
  }

  /** No slash can stand inside an encoded byte, so a path has one exactly if one of its segments has. */
  lemma {:induction false} EncodedInSegment(s: Bytes)
    ensures Encoded(s) <==> exists c :: c in Segments(s) && Encoded(c)
  {
    if s == [] {
    } else {
      var rest := Segments(s[1..]);
      EncodedInSegment(s[1..]);
      EncodedCons(s);
      if s[0] == SLASH {
        assert forall c :: c in Segments(s) <==> c == [] || c in rest;
      } else {
        var first := [s[0]] + rest[0];
        FirstSegment(s[1..]);
        EncodedCons(first);
        assert first[1..] == rest[0];
        SameHere(s, first);
        assert forall c :: c in rest <==> c == rest[0] || c in rest[1..];
        assert forall c :: c in Segments(s) <==> c == first || c in rest[1..];
      }
    }
  }

  lemma SameHere(s: Bytes, first: Bytes)
    requires first != [] && first <= s && (|first| == |s| || s[|first|] == SLASH)
    ensures EncodedHere(s) <==> EncodedHere(first)
  {
  }

  lemma {:induction false} SignificantEncoded(segs: seq<Bytes>)
    ensures (exists c :: c in segs && Encoded(c)) <==> exists c :: c in Significant(segs) && Encoded(c)
  {
    if segs == [] {
    } else {
      SignificantEncoded(segs[1..]);
      assert forall c :: c in segs <==> c == segs[0] || c in segs[1..];
      assert !Encoded([]) && !Encoded([DOT]);
    }
  }

  lemma AllowedExactly(path: Bytes)
    ensures (forall i :: 0 <= i < |Components(path)| ==> Allowed(Components(path)[i])) <==> !Encoded(path)
  {
    var comps := Components(path);
    EncodedInSegment(path);
    SignificantEncoded(Segments(path));
    if i :| 0 <= i < |comps| && !Allowed(comps[i]) {
      assert comps[i] in comps && Encoded(comps[i]);
    }
    if c :| c in comps && Encoded(c) {
      var i :| 0 <= i < |comps| && comps[i] == c;
      assert !IsParent(c) && !Allowed(comps[i]);
    }
  }

  /**
   Which paths are accepted: absolute ones of at most 4096 bytes, without control bytes,
   and without `%2e` or `%00` in either case anywhere.
   */
  lemma AcceptedExactly(path: Bytes)
    ensures Validated(path).Ok? <==>
              && 0 < |path| <= 4096 && path[0] == '/' as int
              && (forall i :: 0 <= i < |path| ==> path[i] >= 32 && path[i] != 127)
              && !Has(Lower(path), '%' as int, '2' as int, 'e' as int) && !Has(Lower(path), '%' as int, '0' as int, '0' as int)
  {
    PassesExactly(path);
    EncodedExactly(path);
    AllowedExactly(path);
  }
}
