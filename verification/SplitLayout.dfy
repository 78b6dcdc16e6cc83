/**
  The split-pane layout tree: the panes always tile the viewport, and splitting, closing and resizing
  keep every other pane in its place. Percentages are reals.
 */
module SplitLayout {
  import opened Wrappers

  type Id = string

  datatype Direction = Rightwards | Downwards

  datatype Node =
    | Pane(id: Id)
    | Split(direction: Direction, ratio: real, first: Node, second: Node)

  datatype Part = First | Second

  // ----- The tree functions -----

  function LayoutTerminalIds(node: Node): (ids: seq<Id>)
    ensures ids != []
  {
    match node
    case Pane(id) => [id]
    case Split(_, _, first, second) => LayoutTerminalIds(first) + LayoutTerminalIds(second)
  }

  function FindLayoutPath(node: Node, id: Id, path: seq<Part>): (found: Option<seq<Part>>)
    decreases node
  {
    match node
    case Pane(paneId) => if paneId == id then Some(path) else None
    case Split(_, _, first, second) =>
      var inFirst := FindLayoutPath(first, id, path + [First]);
      if inFirst.Some? then inFirst else FindLayoutPath(second, id, path + [Second])
  }

  function ReplaceLayoutNode(node: Node, path: seq<Part>, replacement: Node): (r: Node)
    decreases path
  {
    if path == [] then replacement
    else
      match node
      case Pane(_) => node
      case Split(_, _, first, second) =>
        if path[0] == First then node.(first := ReplaceLayoutNode(first, path[1..], replacement))
        else node.(second := ReplaceLayoutNode(second, path[1..], replacement))
  }

  function UpdateLayoutRatio(node: Node, path: seq<Part>, ratio: real): (r: Node)
    decreases path
  {
    match node
    case Pane(_) => node
    case Split(_, _, first, second) =>
      if path == [] then node.(ratio := ratio)
      else if path[0] == First then node.(first := UpdateLayoutRatio(first, path[1..], ratio))
      else node.(second := UpdateLayoutRatio(second, path[1..], ratio))
  }

  function RemoveLayoutNode(node: Node, id: Id): (r: Option<Node>) {
    match node
    case Pane(paneId) => if paneId == id then None else Some(node)
    case Split(_, _, first, second) =>
      var first', second' := RemoveLayoutNode(first, id), RemoveLayoutNode(second, id);
      if first'.None? then second'
      else if second'.None? then first'
      else Some(node.(first := first'.value, second := second'.value))
  }

  // ----- Leaves -----

  ghost predicate Distinct(ids: seq<Id>) {
    forall i, j :: 0 <= i < j < |ids| ==> ids[i] != ids[j]
  }

  function Excluding(ids: seq<Id>, id: Id): (rest: seq<Id>) {
    if ids == [] then [] else (if ids[0] == id then [] else [ids[0]]) + Excluding(ids[1..], id)
  }

  lemma {:induction false} ExcludingConcat(a: seq<Id>, b: seq<Id>, id: Id)
    ensures Excluding(a + b, id) == Excluding(a, id) + Excluding(b, id)
  {
    if a == [] {
      assert a + b == b;
    } else {
      assert (a + b)[1..] == a[1..] + b;
      ExcludingConcat(a[1..], b, id);
    }
  }

  lemma {:induction false} ExcludingMembers(ids: seq<Id>, id: Id)
    ensures forall x :: x in Excluding(ids, id) <==> x in ids && x != id
    ensures Distinct(ids) ==> Distinct(Excluding(ids, id))
  {
    if ids != [] {
      ExcludingMembers(ids[1..], id);
      var rest := Excluding(ids[1..], id);
      assert Distinct(ids) ==> Distinct(ids[1..]);
      if Distinct(ids) && ids[0] != id {
        assert ids[0] !in ids[1..];
        assert Excluding(ids, id) == [ids[0]] + rest;
      }
    }
  }

  /** Removal deletes exactly that leaf, keeps the order of the others, and leaves nothing only for a lone pane. */
  lemma {:induction false} RemoveDeletesThatLeaf(node: Node, id: Id)
    ensures var r := RemoveLayoutNode(node, id);
            && (r.None? <==> Excluding(LayoutTerminalIds(node), id) == [])
            && (r.Some? ==> LayoutTerminalIds(r.value) == Excluding(LayoutTerminalIds(node), id))
    decreases node
  {
    match node
    case Pane(_) =>
    case Split(_, _, first, second) =>
      RemoveDeletesThatLeaf(first, id);
      RemoveDeletesThatLeaf(second, id);
      ExcludingConcat(LayoutTerminalIds(first), LayoutTerminalIds(second), id);
  }

  /** The number of leaves before the first pane with this id. */
  function IndexOf(ids: seq<Id>, id: Id): (k: nat)
    ensures k <= |ids|
    ensures k < |ids| ==> ids[k] == id
    ensures id !in ids[..k]
    ensures k == |ids| <==> id !in ids
  {
    if ids == [] || ids[0] == id then 0
    else
      assert ids == [ids[0]] + ids[1..];
      1 + IndexOf(ids[1..], id)
  }

  /** A prefix on the path argument only ends up in front of the result. */
  lemma {:induction false} PathPrefix(node: Node, id: Id, path: seq<Part>)
    ensures FindLayoutPath(node, id, path) ==
            match FindLayoutPath(node, id, []) case None => None case Some(p) => Some(path + p)
    decreases node
  {
    match node
    case Pane(_) =>
      assert path + [] == path;
    case Split(_, _, first, second) =>
      PathPrefix(first, id, path + [First]);
      PathPrefix(first, id, [] + [First]);
      PathPrefix(second, id, path + [Second]);
      PathPrefix(second, id, [] + [Second]);
      if FindLayoutPath(first, id, []).Some? {
        var p := FindLayoutPath(first, id, []).value;
        assert path + [First] + p == path + ([First] + p) && [] + [First] + p == [First] + p;
      } else if FindLayoutPath(second, id, []).Some? {
        var p := FindLayoutPath(second, id, []).value;
        assert path + [Second] + p == path + ([Second] + p) && [] + [Second] + p == [Second] + p;
      }
  }

  /** `after` is `before` with `middle` in the place of its element `k`. */
  ghost predicate Spliced(before: seq<Id>, k: nat, middle: seq<Id>, after: seq<Id>) {
    k < |before| && after == before[..k] + middle + before[k + 1..]
  }

  lemma PathInSplit(node: Node, id: Id)
    requires node.Split?
    ensures var inFirst, inSecond := FindLayoutPath(node.first, id, []), FindLayoutPath(node.second, id, []);
            FindLayoutPath(node, id, []) ==
            if inFirst.Some? then Some([First] + inFirst.value)
            else if inSecond.Some? then Some([Second] + inSecond.value) else None
  {
    assert [] + [First] == [First] && [] + [Second] == [Second];
    PathPrefix(node.first, id, [First]);
    PathPrefix(node.second, id, [Second]);
  }

  lemma ReplaceInFirst(node: Node, path: seq<Part>, k: nat, replacement: Node)
    requires node.Split?
    requires Spliced(LayoutTerminalIds(node.first), k, LayoutTerminalIds(replacement),
                     LayoutTerminalIds(ReplaceLayoutNode(node.first, path, replacement)))
    ensures Spliced(LayoutTerminalIds(node), k, LayoutTerminalIds(replacement),
                    LayoutTerminalIds(ReplaceLayoutNode(node, [First] + path, replacement)))
  {
    assert ([First] + path)[1..] == path;
    hide Spliced;
    SpliceLeft(LayoutTerminalIds(node.first), LayoutTerminalIds(node.second), k, LayoutTerminalIds(replacement),
               LayoutTerminalIds(ReplaceLayoutNode(node.first, path, replacement)));
  }

  lemma ReplaceInSecond(node: Node, path: seq<Part>, k: nat, replacement: Node)
    requires node.Split?
    requires Spliced(LayoutTerminalIds(node.second), k, LayoutTerminalIds(replacement),
                     LayoutTerminalIds(ReplaceLayoutNode(node.second, path, replacement)))
    ensures Spliced(LayoutTerminalIds(node), |LayoutTerminalIds(node.first)| + k, LayoutTerminalIds(replacement),
                    LayoutTerminalIds(ReplaceLayoutNode(node, [Second] + path, replacement)))
  {
    assert ([Second] + path)[1..] == path;
    hide Spliced;
    SpliceRight(LayoutTerminalIds(node.first), LayoutTerminalIds(node.second), k, LayoutTerminalIds(replacement),
                LayoutTerminalIds(ReplaceLayoutNode(node.second, path, replacement)));
  }

  /** A path is found exactly when the pane is in the tree. */
  lemma {:induction false} FoundExactlyWhenPresent(node: Node, id: Id)
    ensures FindLayoutPath(node, id, []).Some? <==> id in LayoutTerminalIds(node)
    decreases node
  {
    if node.Split? {
      PathInSplit(node, id);
      FoundExactlyWhenPresent(node.first, id);
      FoundExactlyWhenPresent(node.second, id);
    }
  }

  /** The path to a pane is found, and replacing there puts the replacement's leaves in the place of that one leaf. */
  ghost predicate ReplacedInPlace(node: Node, id: Id, replacement: Node) {
    var ids := LayoutTerminalIds(node);
    var path := FindLayoutPath(node, id, []);
    && path.Some?
    && Spliced(ids, IndexOf(ids, id), LayoutTerminalIds(replacement),
               LayoutTerminalIds(ReplaceLayoutNode(node, path.value, replacement)))
  }

  lemma SplitIds(node: Node)
    requires node.Split?
    ensures LayoutTerminalIds(node) == LayoutTerminalIds(node.first) + LayoutTerminalIds(node.second)
  {
  }

  lemma ReplacedInFirst(node: Node, id: Id, replacement: Node)
    requires node.Split? && id in LayoutTerminalIds(node.first) && ReplacedInPlace(node.first, id, replacement)
    ensures ReplacedInPlace(node, id, replacement)
  {
    hide IndexOf, FindLayoutPath, ReplaceLayoutNode, Spliced, LayoutTerminalIds;
    var a, b := LayoutTerminalIds(node.first), LayoutTerminalIds(node.second);
    SplitIds(node);
    FoundExactlyWhenPresent(node.first, id);
    PathInSplit(node, id);
    IndexInConcat(a, b, id);
    ReplaceInFirst(node, FindLayoutPath(node.first, id, []).value, IndexOf(a, id), replacement);
  }

  lemma ReplacedInSecond(node: Node, id: Id, replacement: Node)
    requires node.Split? && id !in LayoutTerminalIds(node.first) && ReplacedInPlace(node.second, id, replacement)
    ensures ReplacedInPlace(node, id, replacement)
  {
    hide IndexOf, FindLayoutPath, ReplaceLayoutNode, Spliced, LayoutTerminalIds;
    var a, b := LayoutTerminalIds(node.first), LayoutTerminalIds(node.second);
    SplitIds(node);
    FoundExactlyWhenPresent(node.first, id);
    PathInSplit(node, id);
    IndexInConcat(a, b, id);
    ReplaceInSecond(node, FindLayoutPath(node.second, id, []).value, IndexOf(b, id), replacement);
  }

  lemma {:induction false} ReplaceIsInPlace(node: Node, id: Id, replacement: Node)
    requires id in LayoutTerminalIds(node)
    ensures ReplacedInPlace(node, id, replacement)
    decreases node
  {
    if node.Pane? {
      SpliceWhole(id, LayoutTerminalIds(replacement));
    } else if id in LayoutTerminalIds(node.first) {
      ReplaceIsInPlace(node.first, id, replacement);
      ReplacedInFirst(node, id, replacement);
    } else {
      ReplaceIsInPlace(node.second, id, replacement);
      ReplacedInSecond(node, id, replacement);
    }
  }

  lemma SpliceWhole(id: Id, middle: seq<Id>)
    ensures Spliced([id], 0, middle, middle) && IndexOf([id], id) == 0
  {
    assert [id][..0] + middle + [id][1..] == middle;
  }

  lemma SpliceLeft(a: seq<Id>, b: seq<Id>, k: nat, middle: seq<Id>, after: seq<Id>)
    requires Spliced(a, k, middle, after)
    ensures Spliced(a + b, k, middle, after + b)
  {
  }

  lemma SpliceRight(a: seq<Id>, b: seq<Id>, k: nat, middle: seq<Id>, after: seq<Id>)
    requires Spliced(b, k, middle, after)
    ensures Spliced(a + b, |a| + k, middle, a + after)
  {
  }

  lemma {:induction false} IndexInConcat(a: seq<Id>, b: seq<Id>, id: Id)
    ensures IndexOf(a + b, id) == if id in a then IndexOf(a, id) else |a| + IndexOf(b, id)
  {
    if a == [] {
      assert a + b == b;
    } else {
      assert a == [a[0]] + a[1..] && (a + b)[1..] == a[1..] + b;
      if a[0] != id { IndexInConcat(a[1..], b, id); }
    }
  }

  /** What a path leads to, without what is below it. */
  datatype Top = PaneTop(id: Id) | SplitTop(direction: Direction, ratio: real)

  function TopAt(node: Node, path: seq<Part>): (top: Option<Top>)
    decreases path
  {
    match node
    case Pane(id) => if path == [] then Some(PaneTop(id)) else None
    case Split(direction, ratio, first, second) =>
      if path == [] then Some(SplitTop(direction, ratio))
      else TopAt(if path[0] == First then first else second, path[1..])
  }

  /** The path that is found leads to that pane. */
  lemma {:induction false} FoundPathLeadsThere(node: Node, id: Id)
    requires FindLayoutPath(node, id, []).Some?
    ensures TopAt(node, FindLayoutPath(node, id, []).value) == Some(PaneTop(id))
    decreases node
  {
    if node.Split? {
      PathInSplit(node, id);
      hide FindLayoutPath;
      if FindLayoutPath(node.first, id, []).Some? {
        FoundPathLeadsThere(node.first, id);
        assert ([First] + FindLayoutPath(node.first, id, []).value)[1..] == FindLayoutPath(node.first, id, []).value;
      } else {
        FoundPathLeadsThere(node.second, id);
        assert ([Second] + FindLayoutPath(node.second, id, []).value)[1..] == FindLayoutPath(node.second, id, []).value;
      }
    }
  }

  function SubtreeAt(node: Node, path: seq<Part>): (subtree: Option<Node>)
    decreases path
  {
    if path == [] then Some(node)
    else if node.Pane? then None
    else SubtreeAt(if path[0] == First then node.first else node.second, path[1..])
  }

  function Other(part: Part): (other: Part) {
    if part == First then Second else First
  }

  lemma {:induction false} AbsentIsKept(node: Node, id: Id)
    requires id !in LayoutTerminalIds(node)
    ensures RemoveLayoutNode(node, id) == Some(node)
    decreases node
  {
    if node.Split? {
      AbsentIsKept(node.first, id);
      AbsentIsKept(node.second, id);
    }
  }

  /** The pane's sibling, with all that is below it, takes the place of the split that held the two. */
  ghost predicate SiblingPromoted(node: Node, id: Id) {
    var found := FindLayoutPath(node, id, []);
    && found.Some? && found.value != []
    && var above, last := found.value[..|found.value| - 1], found.value[|found.value| - 1];
    && SubtreeAt(node, above + [Other(last)]).Some?
    && RemoveLayoutNode(node, id) ==
       Some(ReplaceLayoutNode(node, above, SubtreeAt(node, above + [Other(last)]).value))
  }

  lemma PromotedAtTop(node: Node, id: Id, part: Part)
    requires node.Split? && FindLayoutPath(node, id, []) == Some([part])
    requires RemoveLayoutNode(node, id) == Some(if part == First then node.second else node.first)
    ensures SiblingPromoted(node, id)
  {
    assert [part][..0] == [] && [] + [Other(part)] == [Other(part)] && [Other(part)][1..] == [];
  }

  lemma PromotedBelow(node: Node, id: Id, part: Part)
    requires node.Split?
    requires var child := if part == First then node.first else node.second;
             && SiblingPromoted(child, id)
             && FindLayoutPath(node, id, []) == Some([part] + FindLayoutPath(child, id, []).value)
             && RemoveLayoutNode(child, id).Some?
             && RemoveLayoutNode(node, id) ==
                var r := RemoveLayoutNode(child, id).value;
                Some(if part == First then node.(first := r) else node.(second := r))
    ensures SiblingPromoted(node, id)
  {
    hide FindLayoutPath, RemoveLayoutNode;
    var child := if part == First then node.first else node.second;
    var path := FindLayoutPath(child, id, []).value;
    var above, last := path[..|path| - 1], path[|path| - 1];
    var longer := [part] + path;
    assert longer[..|longer| - 1] == [part] + above && longer[|longer| - 1] == last;
    assert ([part] + above)[1..] == above;
    assert ([part] + above + [Other(last)])[1..] == above + [Other(last)];
  }

  /** Removing a pane from a tree that shows no terminal twice changes nothing but that. */
  lemma {:induction false} RemovePromotesSibling(node: Node, id: Id)
    requires node.Split? && Distinct(LayoutTerminalIds(node)) && id in LayoutTerminalIds(node)
    ensures SiblingPromoted(node, id)
    decreases node
  {
    var a, b := LayoutTerminalIds(node.first), LayoutTerminalIds(node.second);
    DistinctParts(a, b);
    PathInSplit(node, id);
    FoundExactlyWhenPresent(node.first, id);
    FoundExactlyWhenPresent(node.second, id);
    hide SiblingPromoted, FindLayoutPath;
    if id in a {
      AbsentIsKept(node.second, id);
      if node.first.Pane? {
        PathOfPane(id);
        PromotedAtTop(node, id, First);
      } else {
        RemovePromotesSibling(node.first, id);
        PromotedSurvives(node.first, id);
        PromotedBelow(node, id, First);
      }
    } else {
      AbsentIsKept(node.first, id);
      if node.second.Pane? {
        PathOfPane(id);
        PromotedAtTop(node, id, Second);
      } else {
        RemovePromotesSibling(node.second, id);
        PromotedSurvives(node.second, id);
        PromotedBelow(node, id, Second);
      }
    }
  }

  lemma PathOfPane(id: Id)
    ensures FindLayoutPath(Pane(id), id, []) == Some([])
    ensures [First] + [] == [First] && [Second] + [] == [Second]
  {
  }

  lemma PromotedSurvives(node: Node, id: Id)
    requires SiblingPromoted(node, id)
    ensures RemoveLayoutNode(node, id).Some?
  {
  }

  lemma DistinctParts(a: seq<Id>, b: seq<Id>)
    requires Distinct(a + b)
    ensures Distinct(a) && Distinct(b) && forall x :: x in a ==> x !in b
  {
    forall i, j | 0 <= i < |a| && 0 <= j < |b| ensures a[i] != b[j] {
      assert (a + b)[i] != (a + b)[|a| + j];
    }
    assert forall i :: 0 <= i < |a| ==> a[i] == (a + b)[i];
    assert forall j :: 0 <= j < |b| ==> b[j] == (a + b)[|a| + j];
  }

  /** Resizing sets the ratio of the split at that path and touches nothing else in the tree. */
  lemma {:induction false} ResizeIsLocal(node: Node, path: seq<Part>, ratio: real, at: seq<Part>)
    ensures TopAt(UpdateLayoutRatio(node, path, ratio), at) ==
            match TopAt(node, at)
            case Some(SplitTop(direction, before)) => Some(SplitTop(direction, if at == path then ratio else before))
            case other => other
    decreases path
  {
    if node.Split? && path != [] {
      var child := if path[0] == First then node.first else node.second;
      if at != [] {
        assert at == path <==> at[0] == path[0] && at[1..] == path[1..] by {
          assert at == [at[0]] + at[1..] && path == [path[0]] + path[1..];
        }
        ResizeIsLocal(child, path[1..], ratio, at[1..]);
      }
    }
  }

  /** Replacing changes exactly what is at or below the path, which becomes the replacement. */
  lemma {:induction false} ReplaceIsLocal(node: Node, path: seq<Part>, replacement: Node, at: seq<Part>)
    requires TopAt(node, path).Some?
    ensures TopAt(ReplaceLayoutNode(node, path, replacement), at) ==
            if path <= at then TopAt(replacement, at[|path|..]) else TopAt(node, at)
    decreases path
  {
    if path == [] {
      assert at[0..] == at;
    } else if at != [] {
      var child := if path[0] == First then node.first else node.second;
      ReplaceIsLocal(child, path[1..], replacement, at[1..]);
      assert path <= at <==> at[0] == path[0] && path[1..] <= at[1..] by {
        assert at == [at[0]] + at[1..] && path == [path[0]] + path[1..];
      }
      assert path <= at ==> at[1..][|path[1..]|..] == at[|path|..];
    }
  }

  lemma {:induction false} ResizeKeepsLeaves(node: Node, path: seq<Part>, ratio: real)
    ensures LayoutTerminalIds(UpdateLayoutRatio(node, path, ratio)) == LayoutTerminalIds(node)
    decreases path
  {
    if node.Split? && path != [] {
      ResizeKeepsLeaves(if path[0] == First then node.first else node.second, path[1..], ratio);
    }
  }

  // ----- Ratios -----

  const MIN_RATIO := 20.0
  const MAX_RATIO := 80.0

  function Clamp(ratio: real): (r: real)
    ensures r == if ratio < 20.0 then 20.0 else if ratio > 80.0 then 80.0 else ratio
  {
    var capped := if ratio < MAX_RATIO then ratio else MAX_RATIO;
    if capped > MIN_RATIO then capped else MIN_RATIO
  }

  predicate RatiosFit(node: Node) {
    node.Split? ==> MIN_RATIO <= node.ratio <= MAX_RATIO && RatiosFit(node.first) && RatiosFit(node.second)
  }

  lemma {:induction false} ReplaceKeepsRatios(node: Node, path: seq<Part>, replacement: Node)
    requires RatiosFit(node) && RatiosFit(replacement)
    ensures RatiosFit(ReplaceLayoutNode(node, path, replacement))
    decreases path
  {
    if node.Split? && path != [] {
      ReplaceKeepsRatios(if path[0] == First then node.first else node.second, path[1..], replacement);
    }
  }

  lemma {:induction false} ResizeKeepsRatios(node: Node, path: seq<Part>, ratio: real)
    requires RatiosFit(node) && MIN_RATIO <= ratio <= MAX_RATIO
    ensures RatiosFit(UpdateLayoutRatio(node, path, ratio))
    decreases path
  {
    if node.Split? && path != [] {
      ResizeKeepsRatios(if path[0] == First then node.first else node.second, path[1..], ratio);
    }
  }

  lemma {:induction false} RemoveKeepsRatios(node: Node, id: Id)
    requires RatiosFit(node)
    ensures RemoveLayoutNode(node, id).Some? ==> RatiosFit(RemoveLayoutNode(node, id).value)
    decreases node
  {
    if node.Split? {
      RemoveKeepsRatios(node.first, id);
      RemoveKeepsRatios(node.second, id);
    }
  }

  // ----- Tiling -----

  datatype Rect = Rect(left: real, top: real, width: real, height: real)

  const Viewport := Rect(0.0, 0.0, 100.0, 100.0)

  /** Half-open: a shared edge belongs to the pane on its right or below. */
  predicate Inside(r: Rect, x: real, y: real) {
    r.left <= x < r.left + r.width && r.top <= y < r.top + r.height
  }

  /** The first part's share of a width or height. */
  function Portion(whole: real, ratio: real): (part: real) {
    whole * ratio / 100.0
  }

  function FirstPart(r: Rect, direction: Direction, ratio: real): (part: Rect) {
    if direction == Rightwards then r.(width := Portion(r.width, ratio)) else r.(height := Portion(r.height, ratio))
  }

  function SecondPart(r: Rect, direction: Direction, ratio: real): (part: Rect) {
    if direction == Rightwards then
      var firstWidth := Portion(r.width, ratio);
      Rect(r.left + firstWidth, r.top, r.width - firstWidth, r.height)
    else
      var firstHeight := Portion(r.height, ratio);
      Rect(r.left, r.top + firstHeight, r.width, r.height - firstHeight)
  }

  datatype Placed = Placed(id: Id, rect: Rect)

  /** The rectangle of every pane, in leaf order. */
  function Bounds(node: Node, r: Rect): (placed: seq<Placed>)
    ensures |placed| == |LayoutTerminalIds(node)|
    ensures forall i :: 0 <= i < |placed| ==> placed[i].id == LayoutTerminalIds(node)[i]
    decreases node
  {
    match node
    case Pane(id) => [Placed(id, r)]
    case Split(direction, ratio, first, second) =>
      Bounds(first, FirstPart(r, direction, ratio)) + Bounds(second, SecondPart(r, direction, ratio))
  }

  lemma PortionIsProper(whole: real, ratio: real)
    requires whole > 0.0 && MIN_RATIO <= ratio <= MAX_RATIO
    ensures 0.0 < Portion(whole, ratio) < whole
  {
    assert whole * ratio <= whole * MAX_RATIO;
    assert whole * ratio >= whole * MIN_RATIO;
  }

  /** The ratio is the first part's percentage of the width or height; the second part is what is left. */
  lemma PartsByRatio(r: Rect, direction: Direction, ratio: real)
    ensures var a, b := FirstPart(r, direction, ratio), SecondPart(r, direction, ratio);
            && a.left == r.left && a.top == r.top
            && (direction == Rightwards ==>
                  && 100.0 * a.width == ratio * r.width && a.height == b.height == r.height && b.top == r.top
                  && b.left == a.left + a.width && b.left + b.width == r.left + r.width)
            && (direction == Downwards ==>
                  && 100.0 * a.height == ratio * r.height && a.width == b.width == r.width && b.left == r.left
                  && b.top == a.top + a.height && b.top + b.height == r.top + r.height)
  {
  }

  /** The two parts of a split share its rectangle out completely and without overlap. */
  lemma SplitSharesOut(r: Rect, direction: Direction, ratio: real, x: real, y: real)
    requires r.width > 0.0 && r.height > 0.0 && MIN_RATIO <= ratio <= MAX_RATIO
    ensures var a, b := FirstPart(r, direction, ratio), SecondPart(r, direction, ratio);
            && a.width > 0.0 && a.height > 0.0 && b.width > 0.0 && b.height > 0.0
            && (Inside(r, x, y) <==> Inside(a, x, y) || Inside(b, x, y))
            && !(Inside(a, x, y) && Inside(b, x, y))
  {
    hide Portion;
    PortionIsProper(r.width, ratio);
    PortionIsProper(r.height, ratio);
  }

  /** The index of the pane under a point. */
  function PaneAt(node: Node, r: Rect, x: real, y: real): (k: nat)
    decreases node
  {
    match node
    case Pane(_) => 0
    case Split(direction, ratio, first, second) =>
      if Inside(FirstPart(r, direction, ratio), x, y) then PaneAt(first, FirstPart(r, direction, ratio), x, y)
      else |LayoutTerminalIds(first)| + PaneAt(second, SecondPart(r, direction, ratio), x, y)
  }

  /** The point lies in the rectangle at index `k` and in no other, if it is in `r`, and otherwise in none. */
  ghost predicate Tiles(placed: seq<Placed>, r: Rect, x: real, y: real, k: nat) {
    && (Inside(r, x, y) ==> k < |placed|)
    && forall i :: 0 <= i < |placed| ==> (Inside(placed[i].rect, x, y) <==> Inside(r, x, y) && i == k)
  }

  lemma TilesConcat(one: seq<Placed>, two: seq<Placed>, a: Rect, b: Rect, r: Rect, x: real, y: real, j: nat, k: nat)
    requires Tiles(one, a, x, y, j) && Tiles(two, b, x, y, k)
    requires Inside(r, x, y) <==> Inside(a, x, y) || Inside(b, x, y)
    requires !(Inside(a, x, y) && Inside(b, x, y))
    ensures Tiles(one + two, r, x, y, if Inside(a, x, y) then j else |one| + k)
  {
    hide Inside;
  }

  /** Every point of a rectangle lies in exactly one pane of its tree, and a point outside in none. */
  lemma {:induction false} ExactlyOnePane(node: Node, r: Rect, x: real, y: real)
    requires RatiosFit(node) && r.width > 0.0 && r.height > 0.0
    ensures Tiles(Bounds(node, r), r, x, y, PaneAt(node, r, x, y))
    decreases node
  {
    match node
    case Pane(_) =>
    case Split(direction, ratio, first, second) =>
      var a, b := FirstPart(r, direction, ratio), SecondPart(r, direction, ratio);
      SplitSharesOut(r, direction, ratio, x, y);
      ExactlyOnePane(first, a, x, y);
      ExactlyOnePane(second, b, x, y);
      hide FirstPart, SecondPart, Inside, Tiles;
      TilesConcat(Bounds(first, a), Bounds(second, b), a, b, r, x, y, PaneAt(first, a, x, y), PaneAt(second, b, x, y));
  }

  predicate Within(inner: Rect, outer: Rect) {
    && outer.left <= inner.left && inner.left + inner.width <= outer.left + outer.width
    && outer.top <= inner.top && inner.top + inner.height <= outer.top + outer.height
  }

  predicate Precedes(a: Rect, b: Rect) {
    a.left + a.width <= b.left || a.top + a.height <= b.top
  }

  lemma PartsPrecede(r: Rect, direction: Direction, ratio: real)
    requires r.width > 0.0 && r.height > 0.0 && MIN_RATIO <= ratio <= MAX_RATIO
    ensures var a, b := FirstPart(r, direction, ratio), SecondPart(r, direction, ratio);
            && Within(a, r) && Within(b, r) && Precedes(a, b)
            && a.width > 0.0 && a.height > 0.0 && b.width > 0.0 && b.height > 0.0
  {
    hide Portion;
    PortionIsProper(if direction == Rightwards then r.width else r.height, ratio);
  }

  /** Every rectangle is within `r`, and left of or above all later ones. */
  ghost predicate InScreenOrder(placed: seq<Placed>, r: Rect) {
    && (forall i :: 0 <= i < |placed| ==> Within(placed[i].rect, r))
    && (forall i, j :: 0 <= i < j < |placed| ==> Precedes(placed[i].rect, placed[j].rect))
  }

  lemma ScreenOrderConcat(one: seq<Placed>, two: seq<Placed>, a: Rect, b: Rect, r: Rect)
    requires InScreenOrder(one, a) && InScreenOrder(two, b)
    requires Within(a, r) && Within(b, r) && Precedes(a, b)
    ensures InScreenOrder(one + two, r)
  {
    var placed, n := one + two, |one|;
    assert forall i :: 0 <= i < n ==> placed[i] == one[i];
    assert forall i :: n <= i < |placed| ==> placed[i] == two[i - n];
  }

  /** Leaf order is reading order: every pane is left of or above all later ones, and none leaves the viewport. */
  lemma {:induction false} LeafOrderIsScreenOrder(node: Node, r: Rect)
    requires RatiosFit(node) && r.width > 0.0 && r.height > 0.0
    ensures InScreenOrder(Bounds(node, r), r)
    decreases node
  {
    match node
    case Pane(_) =>
    case Split(direction, ratio, first, second) =>
      var a, b := FirstPart(r, direction, ratio), SecondPart(r, direction, ratio);
      PartsPrecede(r, direction, ratio);
      LeafOrderIsScreenOrder(first, a);
      LeafOrderIsScreenOrder(second, b);
      ScreenOrderConcat(Bounds(first, a), Bounds(second, b), a, b, r);
  }

  function SetAll(bounds: map<Id, Rect>, placed: seq<Placed>): (r: map<Id, Rect>)
    decreases placed
  {
    if placed == [] then bounds else SetAll(bounds[placed[0].id := placed[0].rect], placed[1..])
  }

  lemma {:induction false} SetAllConcat(bounds: map<Id, Rect>, a: seq<Placed>, b: seq<Placed>)
    ensures SetAll(bounds, a + b) == SetAll(SetAll(bounds, a), b)
    decreases a
  {
    if a == [] {
      assert a + b == b;
    } else {
      assert (a + b)[1..] == a[1..] + b;
      SetAllConcat(bounds[a[0].id := a[0].rect], a[1..], b);
    }
  }

  lemma SetAllOne(bounds: map<Id, Rect>, id: Id, r: Rect)
    ensures SetAll(bounds, [Placed(id, r)]) == bounds[id := r]
  {
    assert [Placed(id, r)][1..] == [];
  }

  /** `collectBounds`: fills the map pane by pane. */
  method CollectBounds(current: Node, r: Rect, bounds: map<Id, Rect>) returns (filled: map<Id, Rect>)
    ensures filled == SetAll(bounds, Bounds(current, r))
    decreases current
  {
    hide Portion, SetAll;
    match current {
      case Pane(id) =>
        filled := bounds[id := r];
        SetAllOne(bounds, id, r);
      case Split(direction, ratio, first, second) =>
        if direction == Rightwards {
          var firstWidth := Portion(r.width, ratio);
          filled := CollectBounds(first, Rect(r.left, r.top, firstWidth, r.height), bounds);
          filled := CollectBounds(second, Rect(r.left + firstWidth, r.top, r.width - firstWidth, r.height), filled);
        } else {
          var firstHeight := Portion(r.height, ratio);
          filled := CollectBounds(first, Rect(r.left, r.top, r.width, firstHeight), bounds);
          filled := CollectBounds(second, Rect(r.left, r.top + firstHeight, r.width, r.height - firstHeight), filled);
        }
        SetAllConcat(bounds, Bounds(first, FirstPart(r, direction, ratio)),
                     Bounds(second, SecondPart(r, direction, ratio)));
    }
  }

  /** With distinct ids the map holds each pane's own rectangle. */
  lemma {:induction false} SetAllOfDistinct(bounds: map<Id, Rect>, placed: seq<Placed>, id: Id)
    requires forall i, j :: 0 <= i < j < |placed| ==> placed[i].id != placed[j].id
    ensures var r := SetAll(bounds, placed);
            && (forall i :: 0 <= i < |placed| ==> placed[i].id in r && r[placed[i].id] == placed[i].rect)
            && ((forall i :: 0 <= i < |placed| ==> placed[i].id != id) ==>
                  (id in r <==> id in bounds) && (id in r ==> r[id] == bounds[id]))
    decreases placed
  {
    if placed != [] {
      var next := bounds[placed[0].id := placed[0].rect];
      SetAllOfDistinct(next, placed[1..], id);
      SetAllOfDistinct(next, placed[1..], placed[0].id);
    }
  }

  /** The open terminals, in tab order, and the layout that shows some of them. */
  datatype Workspace = Workspace(tabs: seq<Id>, layout: Node)

  /** Every pane of the layout is an open terminal. */
  ghost predicate OnlyOpen(w: Workspace) {
    forall id :: id in LayoutTerminalIds(w.layout) ==> id in w.tabs
  }

  /** The map that rendering fills. */
  function Rendered(w: Workspace): (bounds: map<Id, Rect>) {
    SetAll(map[], Bounds(w.layout, Viewport))
  }

  /** The terminal is drawn over this point: rendering draws open terminals that the map has a rectangle for. */
  predicate Covers(w: Workspace, id: Id, x: real, y: real) {
    id in w.tabs && id in Rendered(w) && Inside(Rendered(w)[id], x, y)
  }

  /** Exactly one terminal is drawn over this point. */
  ghost predicate CoveredOnce(w: Workspace, x: real, y: real) {
    exists id :: Covers(w, id, x, y) && forall other :: Covers(w, other, x, y) ==> other == id
  }

  /** Exactly one terminal is drawn over every point of the viewport. */
  ghost predicate Tiled(w: Workspace) {
    forall x: real, y: real :: Inside(Viewport, x, y) ==> CoveredOnce(w, x, y)
  }

  /** The panes of a layout with distinct, open ids and ratios within bounds tile the viewport. */
  lemma PanesTileTheViewport(w: Workspace, x: real, y: real)
    requires RatiosFit(w.layout) && Distinct(LayoutTerminalIds(w.layout)) && OnlyOpen(w) && Inside(Viewport, x, y)
    ensures (forall id :: id in Rendered(w) <==> id in LayoutTerminalIds(w.layout)) && CoveredOnce(w, x, y)
  {
    var placed, bounds, ids := Bounds(w.layout, Viewport), Rendered(w), LayoutTerminalIds(w.layout);
    ExactlyOnePane(w.layout, Viewport, x, y);
    forall id ensures id in bounds <==> id in ids {
      SetAllOfDistinct(map[], placed, id);
      if id in ids {
        var i :| 0 <= i < |ids| && ids[i] == id;
        assert placed[i].id == id;
      }
    }
    SetAllOfDistinct(map[], placed, ids[0]);
    var k := PaneAt(w.layout, Viewport, x, y);
    var winner := placed[k].id;
    assert winner == ids[k] && winner in ids;
    forall other | Covers(w, other, x, y) ensures other == winner {
      var i :| 0 <= i < |ids| && ids[i] == other;
      assert placed[i].id == other && bounds[other] == placed[i].rect;
    }
    assert Covers(w, winner, x, y);
  }

  /** Of several panes with one id, the map keeps the last. */
  lemma {:induction false} LastIsKept(placed: seq<Placed>, id: Id) returns (k: nat)
    requires id in SetAll(map[], placed)
    ensures k < |placed| && placed[k].id == id && SetAll(map[], placed)[id] == placed[k].rect
    ensures forall j :: k < j < |placed| ==> placed[j].id != id
    decreases |placed|
  {
    var front, last := placed[..|placed| - 1], placed[|placed| - 1];
    assert placed == front + [last];
    SetAllConcat(map[], front, [last]);
    SetAllOne(SetAll(map[], front), last.id, last.rect);
    if last.id == id {
      k := |placed| - 1;
    } else {
      k := LastIsKept(front, id);
    }
  }

  lemma {:induction false} PanesHaveRoom(node: Node, r: Rect)
    requires RatiosFit(node) && r.width > 0.0 && r.height > 0.0
    ensures forall i :: 0 <= i < |Bounds(node, r)| ==>
              Bounds(node, r)[i].rect.width > 0.0 && Bounds(node, r)[i].rect.height > 0.0
    decreases node
  {
    match node
    case Pane(_) =>
    case Split(direction, ratio, first, second) =>
      PartsPrecede(r, direction, ratio);
      PanesHaveRoom(first, FirstPart(r, direction, ratio));
      PanesHaveRoom(second, SecondPart(r, direction, ratio));
  }

  /** The place of a pane that is not open, or whose id is shown again later, is covered by nothing. */
  lemma LeavesHole(w: Workspace, i: nat) returns (x: real, y: real)
    requires RatiosFit(w.layout) && i < |LayoutTerminalIds(w.layout)|
    requires var ids := LayoutTerminalIds(w.layout);
             ids[i] !in w.tabs || exists j :: i < j < |ids| && ids[j] == ids[i]
    ensures Inside(Viewport, x, y) && !CoveredOnce(w, x, y)
  {
    var placed := Bounds(w.layout, Viewport);
    PanesHaveRoom(w.layout, Viewport);
    x, y := placed[i].rect.left, placed[i].rect.top;
    ExactlyOnePane(w.layout, Viewport, x, y);
    forall id | id in Rendered(w) && id in w.tabs ensures !Covers(w, id, x, y) {
      var k := LastIsKept(placed, id);
      assert placed[k].id == LayoutTerminalIds(w.layout)[k];
    }
  }

  /** Rendering tiles the viewport if and only if no terminal is shown twice and every terminal shown is open. */
  lemma TiledExactlyWhen(w: Workspace)
    requires RatiosFit(w.layout)
    ensures Tiled(w) <==> Distinct(LayoutTerminalIds(w.layout)) && OnlyOpen(w)
  {
    hide CoveredOnce;
    var ids := LayoutTerminalIds(w.layout);
    if Distinct(ids) && OnlyOpen(w) {
      forall x: real, y: real | Inside(Viewport, x, y) ensures CoveredOnce(w, x, y) {
        PanesTileTheViewport(w, x, y);
      }
    } else if !Distinct(ids) {
      var i, j :| 0 <= i < j < |ids| && ids[i] == ids[j];
      var _, _ := LeavesHole(w, i);
    } else {
      var id :| id in ids && id !in w.tabs;
      var i :| 0 <= i < |ids| && ids[i] == id;
      var _, _ := LeavesHole(w, i);
    }
  }

  // ----- Layouts that the workspace can reach -----

  /** The first open terminal that is neither selected nor visible, or else a fresh one. */
  function SecondPane(tabs: seq<Id>, selected: Id, visible: seq<Id>, newId: Id): (id: Id)
    ensures id == newId || (id in tabs && id != selected && id !in visible)
  {
    if tabs == [] then newId
    else if tabs[0] != selected && tabs[0] !in visible then tabs[0]
    else SecondPane(tabs[1..], selected, visible, newId)
  }

  /** The tab at `k` is the first one that is neither selected nor visible. */
  lemma {:induction false} FirstHiddenTab(tabs: seq<Id>, selected: Id, visible: seq<Id>, newId: Id, k: nat)
    requires k <= |tabs| && forall i :: 0 <= i < k ==> tabs[i] == selected || tabs[i] in visible
    requires k < |tabs| ==> tabs[k] != selected && tabs[k] !in visible
    ensures SecondPane(tabs, selected, visible, newId) == if k < |tabs| then tabs[k] else newId
    decreases tabs
  {
    if k > 0 {
      FirstHiddenTab(tabs[1..], selected, visible, newId, k - 1);
    }
  }

  /** The ratio of the split at a path, or half where there is none. */
  function RatioAt(node: Node, path: seq<Part>): (ratio: real)
    decreases path
  {
    if node.Pane? then 50.0
    else if path == [] then node.ratio
    else RatioAt(if path[0] == First then node.first else node.second, path[1..])
  }

  /** The state update of `openSplit`. */
  function SplitAt(layout: Node, selected: Id, direction: Direction, second: Id): (r: Node) {
    var newSplit := Split(direction, 50.0, Pane(selected), Pane(second));
    var path := FindLayoutPath(layout, selected, []);
    if path.Some? then ReplaceLayoutNode(layout, path.value, newSplit) else newSplit
  }

  /**
    `openSplit`: the second pane is picked against the tabs and the layout of the render that made the
    callback, and lands in whatever layout is current when the state update runs.
   */
  function OpenSplit(w: Workspace, seen: Workspace, selected: Id, direction: Direction, newId: Id): (r: Workspace) {
    var second := SecondPane(seen.tabs, selected, LayoutTerminalIds(seen.layout), newId);
    Workspace(if second == newId then w.tabs + [newId] else w.tabs, SplitAt(w.layout, selected, direction, second))
  }

  /** `closeTerminal`, with the tabs of the render that made it: the last terminal is replaced by a fresh one. */
  function CloseTerminal(w: Workspace, seenTabs: seq<Id>, id: Id, newId: Id): (r: Workspace)
    requires |seenTabs| != 1 ==> Excluding(seenTabs, id) != []
  {
    if |seenTabs| == 1 then Workspace([newId], Pane(newId))
    else
      var remaining := Excluding(seenTabs, id);
      var layout := RemoveLayoutNode(w.layout, id);
      Workspace(remaining, if layout.Some? then layout.value else Pane(remaining[0]))
  }

  /** `seen` is what the callback's render saw, which may be out of date. */
  datatype Step =
    | Open(selected: Id, direction: Direction, newId: Id, seen: Workspace)
    | Close(id: Id, newId: Id, seenTabs: seq<Id>)
    | New(id: Id)
    | Show(id: Id)
    | Drag(path: seq<Part>, position: real, length: real)
    | Nudge(path: seq<Part>, increase: bool)
    | Reset(path: seq<Part>)

  /** Ids of new terminals are random UUIDs. */
  ghost predicate IsNew(w: Workspace, id: Id) {
    id !in w.tabs && id !in LayoutTerminalIds(w.layout)
  }

  /** What every render sees: some tabs, with distinct ids. */
  ghost predicate AreTabs(tabs: seq<Id>) {
    tabs != [] && Distinct(tabs)
  }

  /** A terminal is selected among those its render saw, and a fresh id is new. */
  ghost predicate Possible(w: Workspace, step: Step) {
    match step
    case Open(selected, _, newId, seen) => selected in seen.tabs && newId !in seen.tabs && IsNew(w, newId)
    case Close(_, newId, seenTabs) => AreTabs(seenTabs) && IsNew(w, newId)
    case New(id) => IsNew(w, id)
    case _ => true
  }

  function Apply(w: Workspace, step: Step): (r: Workspace)
    requires Possible(w, step)
  {
    match step
    case Open(selected, direction, newId, seen) => OpenSplit(w, seen, selected, direction, newId)
    case Close(id, newId, seenTabs) =>
      assert |seenTabs| != 1 ==> Excluding(seenTabs, id) != [] by {
        if |seenTabs| != 1 { AnotherTabRemains(seenTabs, id); }
      }
      CloseTerminal(w, seenTabs, id, newId)
    case New(id) => Workspace(w.tabs + [id], Pane(id))
    case Show(id) => w.(layout := Pane(id))
    case Drag(path, position, length) =>
      if length <= 0.0 then w
      else w.(layout := UpdateLayoutRatio(w.layout, path, Clamp(position / length * 100.0)))
    case Nudge(path, increase) =>
      var ratio := RatioAt(w.layout, path);
      w.(layout := UpdateLayoutRatio(w.layout, path, Clamp(ratio + if increase then 5.0 else -5.0)))
    case Reset(path) => w.(layout := UpdateLayoutRatio(w.layout, path, 50.0))
  }

  lemma AnotherTabRemains(tabs: seq<Id>, id: Id)
    requires Distinct(tabs) && |tabs| >= 2
    ensures Excluding(tabs, id) != []
  {
    ExcludingMembers(tabs, id);
    var i := if tabs[0] == id then 1 else 0;
    assert tabs[i] in Excluding(tabs, id);
  }

  /**
    What a step, possibly of an out-of-date callback, needs in order to keep the viewport tiled. A split: the
    selected terminal is still open, and the second pane is new or still open and, if the selected one is
    visible, not shown yet. A close: the tabs that its render saw hold every other pane. A tab switch: the
    terminal is still open.
   */
  ghost predicate Lands(w: Workspace, step: Step) {
    match step
    case Open(selected, _, newId, seen) =>
      var second := SecondPane(seen.tabs, selected, LayoutTerminalIds(seen.layout), newId);
      && selected in w.tabs && (second == newId || second in w.tabs)
      && (selected in LayoutTerminalIds(w.layout) ==> second !in LayoutTerminalIds(w.layout))
    case Close(id, _, seenTabs) =>
      |seenTabs| == 1 || forall leaf :: leaf in LayoutTerminalIds(w.layout) && leaf != id ==> leaf in seenTabs
    case Show(id) => id in w.tabs
    case _ => true
  }

  lemma InsertedIsDistinctExactlyWhen(before: seq<Id>, id: Id, after: seq<Id>)
    requires Distinct(before + after)
    ensures Distinct(before + [id] + after) <==> id !in before + after
  {
    var without, extended := before + after, before + [id] + after;
    var n := |before|;
    if id in without {
      var i :| 0 <= i < |without| && without[i] == id;
      assert extended[if i < n then i else i + 1] == id && extended[n] == id;
    } else {
      forall i, j | 0 <= i < j < |extended| ensures extended[i] != extended[j] {
        var p, q := if i < n then i else i - 1, if j < n then j else j - 1;
        assert i != n ==> extended[i] == without[p];
        assert j != n ==> extended[j] == without[q];
        assert extended[n] == id;
      }
    }
  }

  lemma SpliceTwo(ids: seq<Id>, k: nat, first: Id, second: Id, after: seq<Id>)
    requires Spliced(ids, k, [first, second], after) && ids[k] == first && Distinct(ids)
    ensures forall id :: id in after <==> id in ids || id == second
    ensures Distinct(after) <==> second !in ids
  {
    var a, b := ids[..k + 1], ids[k + 1..];
    assert ids == a + b;
    assert after == a + [second] + b;
    InsertedIsDistinctExactlyWhen(a, second, b);
  }

  /**
    Splitting a visible pane keeps ids distinct if and only if the second terminal is not shown already.
   */
  lemma SplitIsDistinctExactlyWhen(layout: Node, selected: Id, direction: Direction, second: Id)
    requires Distinct(LayoutTerminalIds(layout)) && selected in LayoutTerminalIds(layout)
    ensures var r := LayoutTerminalIds(SplitAt(layout, selected, direction, second));
            && (Distinct(r) <==> second !in LayoutTerminalIds(layout))
            && (forall id :: id in r <==> id in LayoutTerminalIds(layout) || id == second)
  {
    var newSplit := Split(direction, 50.0, Pane(selected), Pane(second));
    ReplaceIsInPlace(layout, selected, newSplit);
    assert LayoutTerminalIds(newSplit) == [selected, second];
    var ids := LayoutTerminalIds(layout);
    SpliceTwo(ids, IndexOf(ids, selected), selected, second,
              LayoutTerminalIds(SplitAt(layout, selected, direction, second)));
  }

  /**
    A split takes the place of the selected pane: half for it, half for the second pane behind it, and
    nothing else in the tree changes. Without the selected pane the split is all there is.
   */
  lemma SplitIsInPlace(layout: Node, selected: Id, direction: Direction, second: Id, at: seq<Part>)
    ensures var found := FindLayoutPath(layout, selected, []);
            var r := SplitAt(layout, selected, direction, second);
            && (selected in LayoutTerminalIds(layout) ==>
                  && found.Some?
                  && LayoutTerminalIds(r) ==
                     (var ids, k := LayoutTerminalIds(layout), IndexOf(LayoutTerminalIds(layout), selected);
                      ids[..k] + [selected, second] + ids[k + 1..])
                  && TopAt(r, found.value) == Some(SplitTop(direction, 50.0))
                  && (!(found.value <= at) ==> TopAt(r, at) == TopAt(layout, at)))
            && (selected !in LayoutTerminalIds(layout) ==>
                  r == Split(direction, 50.0, Pane(selected), Pane(second)))
  {
    var newSplit := Split(direction, 50.0, Pane(selected), Pane(second));
    assert LayoutTerminalIds(newSplit) == [selected, second];
    FoundExactlyWhenPresent(layout, selected);
    if selected in LayoutTerminalIds(layout) {
      var path := FindLayoutPath(layout, selected, []).value;
      FoundPathLeadsThere(layout, selected);
      ReplaceIsInPlace(layout, selected, newSplit);
      hide FindLayoutPath, IndexOf, ReplaceLayoutNode;
      assert path[|path|..] == [];
      ReplaceIsLocal(layout, path, newSplit, at);
      ReplaceIsLocal(layout, path, newSplit, path);
    }
  }

  /** Opening and showing: a fresh terminal goes behind the other tabs, which stay as they are. */
  lemma TabsAfterOpening(w: Workspace, step: Step)
    requires Possible(w, step) && (step.New? || step.Show? || step.Open?)
    ensures var r := Apply(w, step);
            && (step.New? ==> r.tabs == w.tabs + [step.id] && LayoutTerminalIds(r.layout) == [step.id])
            && (step.Show? ==> r.tabs == w.tabs && LayoutTerminalIds(r.layout) == [step.id])
            && (step.Open? ==>
                  var hidden := exists t :: t in step.seen.tabs && t != step.selected
                                            && t !in LayoutTerminalIds(step.seen.layout);
                  r.tabs == if hidden then w.tabs else w.tabs + [step.newId])
  {
    if step.Open? {
      var k := FirstHiddenIndex(step.seen.tabs, step.selected, LayoutTerminalIds(step.seen.layout));
      FirstHiddenTab(step.seen.tabs, step.selected, LayoutTerminalIds(step.seen.layout), step.newId, k);
    }
  }

  lemma FirstHiddenIndex(tabs: seq<Id>, selected: Id, visible: seq<Id>) returns (k: nat)
    ensures k <= |tabs| && forall i :: 0 <= i < k ==> tabs[i] == selected || tabs[i] in visible
    ensures k < |tabs| ==> tabs[k] in tabs && tabs[k] != selected && tabs[k] !in visible
    ensures (exists t :: t in tabs && t != selected && t !in visible) <==> k < |tabs|
  {
    k := 0;
    while k < |tabs| && (tabs[k] == selected || tabs[k] in visible)
      invariant k <= |tabs| && forall i :: 0 <= i < k ==> tabs[i] == selected || tabs[i] in visible
    {
      k := k + 1;
    }
  }

  /** What is shown after a close: the other panes in their order, or else the first tab that is left. */
  lemma ShownAfterClose(w: Workspace, seenTabs: seq<Id>, id: Id, newId: Id)
    requires AreTabs(seenTabs)
    requires |seenTabs| != 1 ==> Excluding(seenTabs, id) != []
    ensures var r := CloseTerminal(w, seenTabs, id, newId);
            var others := Excluding(LayoutTerminalIds(w.layout), id);
            if |seenTabs| == 1 then r == Workspace([newId], Pane(newId))
            else
              && r.tabs == Excluding(seenTabs, id)
              && LayoutTerminalIds(r.layout) == if others != [] then others else [r.tabs[0]]
  {
    RemoveDeletesThatLeaf(w.layout, id);
  }

  /** Ratios within bounds, no terminal shown twice, and none shown that is not open. */
  ghost predicate Tidy(w: Workspace) {
    RatiosFit(w.layout) && Distinct(LayoutTerminalIds(w.layout)) && OnlyOpen(w)
  }

  lemma OpenStaysTidyExactlyWhen(w: Workspace, step: Step)
    requires Tidy(w) && step.Open? && Possible(w, step)
    ensures RatiosFit(Apply(w, step).layout) && (Tidy(Apply(w, step)) <==> Lands(w, step))
  {
    var Open(selected, direction, newId, seen) := step;
    var second := SecondPane(seen.tabs, selected, LayoutTerminalIds(seen.layout), newId);
    var newSplit := Split(direction, 50.0, Pane(selected), Pane(second));
    assert LayoutTerminalIds(newSplit) == [selected, second];
    FoundExactlyWhenPresent(w.layout, selected);
    if selected in LayoutTerminalIds(w.layout) {
      SplitIsDistinctExactlyWhen(w.layout, selected, direction, second);
      ReplaceKeepsRatios(w.layout, FindLayoutPath(w.layout, selected, []).value, newSplit);
    } else {
      var r := Apply(w, step);
      assert r.layout == newSplit && selected in [selected, second] && second in [selected, second];
      assert OnlyOpen(r) <==> selected in r.tabs && second in r.tabs;
    }
  }

  lemma CloseStaysTidyExactlyWhen(w: Workspace, step: Step)
    requires Tidy(w) && step.Close? && Possible(w, step)
    ensures RatiosFit(Apply(w, step).layout) && (Tidy(Apply(w, step)) <==> Lands(w, step))
  {
    ExcludingMembers(LayoutTerminalIds(w.layout), step.id);
    ExcludingMembers(step.seenTabs, step.id);
    RemoveDeletesThatLeaf(w.layout, step.id);
    RemoveKeepsRatios(w.layout, step.id);
    if |step.seenTabs| != 1 {
      AnotherTabRemains(step.seenTabs, step.id);
      var ids, r := LayoutTerminalIds(w.layout), Apply(w, step);
      var left := Excluding(ids, step.id);
      assert r.tabs == Excluding(step.seenTabs, step.id);
      if left != [] {
        assert LayoutTerminalIds(r.layout) == left;
        assert OnlyOpen(r) <==> forall leaf :: leaf in left ==> leaf in step.seenTabs;
      } else {
        assert forall leaf :: leaf in ids ==> leaf == step.id by {
          forall leaf | leaf in ids && leaf != step.id ensures leaf in left {
          }
        }
      }
    }
  }

  lemma ResizeStaysDistinct(w: Workspace, step: Step)
    requires RatiosFit(w.layout) && (step.Drag? || step.Nudge? || step.Reset?)
    ensures var r := Apply(w, step);
            r.tabs == w.tabs && RatiosFit(r.layout) && LayoutTerminalIds(r.layout) == LayoutTerminalIds(w.layout)
  {
    var ratio := match step
      case Drag(_, position, length) => Clamp(if length > 0.0 then position / length * 100.0 else 50.0)
      case Nudge(path, increase) => Clamp(RatioAt(w.layout, path) + if increase then 5.0 else -5.0)
      case _ => 50.0;
    ResizeKeepsLeaves(w.layout, step.path, ratio);
    ResizeKeepsRatios(w.layout, step.path, ratio);
  }

  /** The new ratio of a resized split: the pointer's place, five percent more or less, or half, from 20 to 80. */
  lemma ResizedTo(w: Workspace, step: Step, direction: Direction, before: real)
    requires step.Drag? || step.Nudge? || step.Reset?
    requires TopAt(w.layout, step.path) == Some(SplitTop(direction, before))
    ensures var wanted :=
              if step.Drag? then (if step.length > 0.0 then 100.0 * (step.position / step.length) else before)
              else if step.Nudge? then (if step.increase then before + 5.0 else before - 5.0)
              else 50.0;
            var ratio := if step.Drag? && step.length <= 0.0 then before
                         else if wanted < 20.0 then 20.0 else if wanted > 80.0 then 80.0 else wanted;
            TopAt(Apply(w, step).layout, step.path) == Some(SplitTop(direction, ratio))
  {
    var ratio := match step
      case Drag(_, position, length) => Clamp(if length > 0.0 then position / length * 100.0 else 50.0)
      case Nudge(_, increase) => Clamp(before + if increase then 5.0 else -5.0)
      case _ => 50.0;
    RatioAtIsOnTop(w.layout, step.path);
    ResizeIsLocal(w.layout, step.path, ratio, step.path);
  }

  lemma {:induction false} RatioAtIsOnTop(node: Node, path: seq<Part>)
    ensures var top := TopAt(node, path);
            RatioAt(node, path) == if top.Some? && top.value.SplitTop? then top.value.ratio else 50.0
    decreases path
  {
    if node.Split? && path != [] {
      RatioAtIsOnTop(if path[0] == First then node.first else node.second, path[1..]);
    }
  }

  /** Within 20 and 80 percent of the split's own frame the divider ends up under the pointer. */
  lemma DividerFollowsThePointer(w: Workspace, path: seq<Part>, r: Rect, position: real,
                                 direction: Direction, before: real)
    requires TopAt(w.layout, path) == Some(SplitTop(direction, before)) && r.width > 0.0 && r.height > 0.0
    requires var length := if direction == Rightwards then r.width else r.height;
             20.0 * length <= 100.0 * position <= 80.0 * length
    ensures var length := if direction == Rightwards then r.width else r.height;
            var top := TopAt(Apply(w, Drag(path, position, length)).layout, path);
            && top.Some? && top.value.SplitTop?
            && var a := FirstPart(r, direction, top.value.ratio);
               position == if direction == Rightwards then a.width else a.height
  {
    var length := if direction == Rightwards then r.width else r.height;
    var step := Drag(path, position, length);
    ResizedTo(w, step, direction, before);
    assert 100.0 * (position / length) * length == 100.0 * position;
    PercentWithin(position, length);
    PartsByRatio(r, direction, 100.0 * (position / length));
  }

  lemma PercentWithin(position: real, length: real)
    requires length > 0.0 && 20.0 * length <= 100.0 * position <= 80.0 * length
    ensures 20.0 <= 100.0 * (position / length) <= 80.0
    ensures 100.0 * (position / length) * length == 100.0 * position
  {
    var p := position / length;
    assert p * length == position;
    assert (100.0 * p - 20.0) * length >= 0.0 && (80.0 - 100.0 * p) * length >= 0.0;
  }

  /** A step keeps the panes tidy, and so the viewport tiled, exactly when it lands. */
  lemma StepStaysTidyExactlyWhen(w: Workspace, step: Step)
    requires Tidy(w) && Possible(w, step)
    ensures RatiosFit(Apply(w, step).layout) && (Tidy(Apply(w, step)) <==> Lands(w, step))
  {
    match step
    case Open(_, _, _, _) => OpenStaysTidyExactlyWhen(w, step);
    case Close(_, _, _) => CloseStaysTidyExactlyWhen(w, step);
    case New(id) => LonePane(id);
    case Show(id) => LonePane(id);
    case _ => ResizeStaysDistinct(w, step);
  }

  lemma LonePane(id: Id)
    ensures RatiosFit(Pane(id)) && Distinct(LayoutTerminalIds(Pane(id)))
  {
  }

  ghost predicate IsRun(w: Workspace, steps: seq<Step>)
    decreases steps
  {
    steps == [] || (Possible(w, steps[0]) && IsRun(Apply(w, steps[0]), steps[1..]))
  }

  ghost function End(w: Workspace, steps: seq<Step>): (r: Workspace)
    requires IsRun(w, steps)
    decreases steps
  {
    if steps == [] then w else End(Apply(w, steps[0]), steps[1..])
  }

  /** The viewport is tiled at every moment of a run. */
  ghost predicate AlwaysTiled(w: Workspace, steps: seq<Step>)
    requires IsRun(w, steps)
    decreases steps
  {
    Tiled(w) && (steps != [] ==> AlwaysTiled(Apply(w, steps[0]), steps[1..]))
  }

  ghost predicate AllLand(w: Workspace, steps: seq<Step>)
    requires IsRun(w, steps)
    decreases steps
  {
    steps != [] ==> Lands(w, steps[0]) && AllLand(Apply(w, steps[0]), steps[1..])
  }

  /**
    Over every run of splits, closes, tab switches and resizes, whose callbacks may be out of date: exactly
    one terminal is drawn over every point of the viewport, at every moment, if and only if every step lands.
   */
  lemma {:induction false} RunStaysTiledExactlyWhen(w: Workspace, steps: seq<Step>)
    requires Tidy(w) && IsRun(w, steps)
    ensures AlwaysTiled(w, steps) <==> AllLand(w, steps)
    decreases steps
  {
    hide Tiled, Distinct, RatiosFit, OnlyOpen, Lands, Apply;
    TiledExactlyWhen(w);
    if steps != [] {
      var next := Apply(w, steps[0]);
      StepStaysTidyExactlyWhen(w, steps[0]);
      TiledExactlyWhen(next);
      if Lands(w, steps[0]) {
        RunStaysTiledExactlyWhen(next, steps[1..]);
      }
    }
  }

  lemma RunOfTwo(w: Workspace, first: Step, second: Step)
    requires Possible(w, first) && Possible(Apply(w, first), second)
    ensures var steps := [first, second];
            && IsRun(w, steps) && End(w, steps) == Apply(Apply(w, first), second)
            && (AllLand(w, steps) <==> Lands(w, first) && Lands(Apply(w, first), second))
  {
    hide Apply, Lands, Possible;
    assert [first, second][1..] == [second] && [second][1..] == [];
    var next := Apply(w, first);
    assert IsRun(Apply(next, second), []);
    assert IsRun(next, [second]) && End(next, [second]) == Apply(next, second);
    assert AllLand(next, [second]) <==> Lands(next, second);
  }

  lemma HiddenTabIsPicked(a: Id, b: Id, newId: Id)
    requires a != b
    ensures SecondPane([a, b], a, [a], newId) == b
  {
    assert [a, b][1..] == [b];
    assert SecondPane([b], a, [a], newId) == b;
  }

  /**
    The failing case is real: two splits by the same callback, before it is renewed, both pick the same
    hidden terminal, which is then shown twice.
   */
  lemma StaleSplitShowsTwice(a: Id, b: Id, direction: Direction, newId: Id, laterId: Id)
    requires a != b && newId !in {a, b} && laterId !in {a, b}
    ensures var w := Workspace([a, b], Pane(a));
            var steps := [Open(a, direction, newId, w), Open(a, direction, laterId, w)];
            IsRun(w, steps) && LayoutTerminalIds(End(w, steps).layout) == [a, b, b] && !AlwaysTiled(w, steps)
  {
    var w := Workspace([a, b], Pane(a));
    var first, second := Open(a, direction, newId, w), Open(a, direction, laterId, w);
    HiddenTabIsPicked(a, b, newId);
    HiddenTabIsPicked(a, b, laterId);
    var once := Apply(w, first);
    assert once == Workspace([a, b], Split(direction, 50.0, Pane(a), Pane(b)));
    assert LayoutTerminalIds(once.layout) == [a, b];
    var path: seq<Part> := [First];
    assert [] + [First] == path && path[1..] == [];
    assert FindLayoutPath(once.layout, a, []) == Some(path);
    var twice := Apply(once, second);
    assert twice.layout == Split(direction, 50.0, Split(direction, 50.0, Pane(a), Pane(b)), Pane(b));
    assert LayoutTerminalIds(twice.layout) == [a, b, b];
    assert b in LayoutTerminalIds(once.layout);
    RunOfTwo(w, first, second);
    RunStaysTiledExactlyWhen(w, [first, second]);
  }

  /**
    So is the other: one key press that matches the shortcuts for closing and for splitting runs both with
    the callbacks of one render, and the closed terminal is back in the layout, where nothing draws it.
   */
  lemma CloseThenSplitLeavesHole(a: Id, b: Id, direction: Direction, newId: Id, laterId: Id)
    requires a != b && newId !in {a, b} && laterId !in {a, b}
    ensures var w := Workspace([a, b], Pane(a));
            var steps := [Close(a, newId, w.tabs), Open(a, direction, laterId, w)];
            && IsRun(w, steps) && End(w, steps).tabs == [b]
            && LayoutTerminalIds(End(w, steps).layout) == [a, b] && !AlwaysTiled(w, steps)
  {
    var w := Workspace([a, b], Pane(a));
    var first, second := Close(a, newId, w.tabs), Open(a, direction, laterId, w);
    assert w.tabs[1..] == [b] && [b][1..] == [];
    assert Excluding(w.tabs, a) == Excluding([b], a) == [b] + Excluding([], a);
    var once := Apply(w, first);
    assert once == Workspace([b], Pane(b));
    HiddenTabIsPicked(a, b, laterId);
    assert Apply(once, second) == Workspace([b], Split(direction, 50.0, Pane(a), Pane(b)));
    RunOfTwo(w, first, second);
    RunStaysTiledExactlyWhen(w, [first, second]);
  }

  // ----- Callbacks that are up to date -----

  /** Everything in its place: some tabs, with distinct ids, and tidy panes. */
  ghost predicate Inv(w: Workspace) {
    AreTabs(w.tabs) && Tidy(w)
  }

  /** The callback was made by a render of the current state. */
  ghost predicate UpToDate(w: Workspace, step: Step) {
    match step
    case Open(_, _, _, seen) => seen == w
    case Close(_, _, seenTabs) => seenTabs == w.tabs
    case Show(id) => id in w.tabs
    case _ => true
  }

  ghost predicate AllUpToDate(w: Workspace, steps: seq<Step>)
    requires IsRun(w, steps)
    decreases steps
  {
    steps != [] ==> UpToDate(w, steps[0]) && AllUpToDate(Apply(w, steps[0]), steps[1..])
  }

  /** Whatever the age of the callbacks, what the next render sees are tabs again. */
  lemma StepKeepsTabs(w: Workspace, step: Step)
    requires AreTabs(w.tabs) && Possible(w, step)
    ensures AreTabs(Apply(w, step).tabs)
  {
    if step.Close? {
      ExcludingMembers(step.seenTabs, step.id);
      if |step.seenTabs| != 1 {
        AnotherTabRemains(step.seenTabs, step.id);
      }
    } else if step.Drag? || step.Nudge? || step.Reset? {
      assert Apply(w, step).tabs == w.tabs;
    }
  }

  lemma StepKeepsInv(w: Workspace, step: Step)
    requires Inv(w) && Possible(w, step) && UpToDate(w, step)
    ensures Lands(w, step) && Inv(Apply(w, step))
  {
    StepKeepsTabs(w, step);
    StepStaysTidyExactlyWhen(w, step);
    hide Apply, Distinct, RatiosFit;
  }

  lemma {:induction false} RunKeepsInv(w: Workspace, steps: seq<Step>)
    requires Inv(w) && IsRun(w, steps) && AllUpToDate(w, steps)
    ensures AllLand(w, steps) && Inv(End(w, steps))
    decreases steps
  {
    hide Inv, Lands, UpToDate, Apply;
    if steps != [] {
      StepKeepsInv(w, steps[0]);
      RunKeepsInv(Apply(w, steps[0]), steps[1..]);
    }
  }

  /** With up-to-date callbacks, every layout reached from a single pane tiles the viewport with open terminals. */
  lemma ReachableLayoutsTile(first: Id, steps: seq<Step>)
    requires IsRun(Workspace([first], Pane(first)), steps) && AllUpToDate(Workspace([first], Pane(first)), steps)
    ensures AlwaysTiled(Workspace([first], Pane(first)), steps)
    ensures var w := End(Workspace([first], Pane(first)), steps);
            Inv(w) && Tiled(w)
  {
    var start := Workspace([first], Pane(first));
    RunKeepsInv(start, steps);
    RunStaysTiledExactlyWhen(start, steps);
    TiledExactlyWhen(End(start, steps));
  }
}
