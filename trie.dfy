/** The segment tree of the router (core/trie.go).

    A node is kept in an arena, `nodes: seq<Node>`, and refers to its children by their
    positions in it; the root is at position 0. Nodes are never removed, so a position
    names the same node for the life of a tree, as a pointer does in the Go code. */
module Trie {
  import opened Wrappers
  import opened Strings
  import opened Http

  datatype Node = Node(isLast: bool, segment: string, handlers: seq<Handler>, childs: seq<nat>)

  datatype RouteError = RouteConflict(uri: string) {
    function Message(): string { "route conflict: " + uri }
  }

  const Root: nat := 0

  /** The node `NewTree` puts at the root. */
  const EmptyNode: Node := Node(false, "", [], [])

  predicate IndicesBelow(cs: seq<nat>, bound: nat) {
    forall k :: 0 <= k < |cs| ==> cs[k] < bound
  }

  /** There is a root, and every child position names a node of the arena. */
  predicate WellFormed(nodes: seq<Node>) {
    |nodes| > 0 && forall i :: 0 <= i < |nodes| ==> IndicesBelow(nodes[i].childs, |nodes|)
  }

  /** No two children of one node carry the same segment text. */
  predicate UniqueChildSegments(nodes: seq<Node>)
    requires WellFormed(nodes)
  {
    forall i, j, k :: 0 <= i < |nodes| && 0 <= j < k < |nodes[i].childs| ==>
      nodes[nodes[i].childs[j]].segment != nodes[nodes[i].childs[k]].segment
  }

  /** A segment starting with ':' is a parameter ("wild") segment. */
  function IsWild(segment: string): (r: bool)
    ensures r <==> segment != [] && segment[0] == ':'
  {
    HasPrefix(segment, ":")
  }

  /** Literal segments are upper-cased; wild segments are kept as they are. */
  function Canon(segment: string): (r: string)
    ensures IsWild(segment) ==> r == segment
    ensures !IsWild(segment) ==> r == Upper(segment)
  {
    if IsWild(segment) then segment else Upper(segment)
  }

  function CanonAll(segments: seq<string>): (r: seq<string>)
    ensures |r| == |segments|
    ensures forall i :: 0 <= i < |r| ==> r[i] == Canon(segments[i])
  {
    if segments == [] then [] else [Canon(segments[0])] + CanonAll(segments[1..])
  }

  /** The segments AddRouter inserts for `uri`, in canonical form. */
  function CanonSegments(uri: string): (r: seq<string>)
    ensures |r| == |Split(uri, '/')| >= 1
    ensures forall i :: 0 <= i < |r| ==> r[i] == Canon(Split(uri, '/')[i])
  {
    CanonAll(Split(uri, '/'))
  }

  /** A child is a candidate for a request segment when either of them is wild or their texts
      are equal. */
  predicate Admits(nodes: seq<Node>, c: nat, segment: string)
    requires c < |nodes|
  {
    IsWild(segment) || Kept(nodes, c, segment)
  }

  /** The test of filterChildNodes' loop: a wild child, or one with the same text. */
  predicate Kept(nodes: seq<Node>, c: nat, segment: string)
    requires c < |nodes|
  {
    IsWild(nodes[c].segment) || nodes[c].segment == segment
  }

  /** The loop of filterChildNodes: the children with a wild or an equal segment, in order. */
  function Keep(nodes: seq<Node>, cs: seq<nat>, segment: string): (r: seq<nat>)
    requires IndicesBelow(cs, |nodes|)
    ensures IndicesBelow(r, |nodes|)
    ensures forall c :: c in r <==> c in cs && Kept(nodes, c, segment)
  {
    if cs == [] then []
    else
      var rest := Keep(nodes, cs[1..], segment);
      assert forall c :: c in cs <==> c == cs[0] || c in cs[1..];
      if Kept(nodes, cs[0], segment) then [cs[0]] + rest else rest
  }

  /** filterChildNodes: every child for a wild request segment, else the admitted ones. */
  function Filter(nodes: seq<Node>, cs: seq<nat>, segment: string): (r: seq<nat>)
    requires IndicesBelow(cs, |nodes|)
    ensures IndicesBelow(r, |nodes|)
    ensures IsWild(segment) ==> r == cs
    ensures forall c :: c in r <==> c in cs && Admits(nodes, c, segment)
  {
    if IsWild(segment) then cs else Keep(nodes, cs, segment)
  }

  /** The filter keeps the children's order: filtering a concatenation concatenates. */
  lemma {:induction false} KeepAppend(nodes: seq<Node>, cs: seq<nat>, ds: seq<nat>, segment: string)
    requires IndicesBelow(cs, |nodes|) && IndicesBelow(ds, |nodes|)
    ensures IndicesBelow(cs + ds, |nodes|)
    ensures Keep(nodes, cs + ds, segment) == Keep(nodes, cs, segment) + Keep(nodes, ds, segment)
  {
    if cs != [] {
      assert (cs + ds)[0] == cs[0] && (cs + ds)[1..] == cs[1..] + ds;
      KeepAppend(nodes, cs[1..], ds, segment);
      if Kept(nodes, cs[0], segment) {
        assert Keep(nodes, cs, segment) == [cs[0]] + Keep(nodes, cs[1..], segment);
      }
    } else {
      assert cs + ds == ds;
    }
  }

  /** The loop of matchNode over the candidates when no segment remains: the first terminal
      one. */
  function FirstTerminal(nodes: seq<Node>, cs: seq<nat>): (r: Option<nat>)
    requires IndicesBelow(cs, |nodes|)
    ensures r.Some? ==> r.value in cs && nodes[r.value].isLast
    ensures r.None? <==> forall k :: 0 <= k < |cs| ==> !nodes[cs[k]].isLast
  {
    if cs == [] then None
    else if nodes[cs[0]].isLast then Some(cs[0])
    else FirstTerminal(nodes, cs[1..])
  }

  /** matchNode: depth-first, first match in insertion order. */
  function Match(nodes: seq<Node>, n: nat, uri: string): (r: Option<nat>)
    requires WellFormed(nodes) && n < |nodes|
    ensures r.Some? ==> r.value < |nodes| && nodes[r.value].isLast
    decreases |uri|, 0
  {
    var (head, tail) := SplitFirst(uri, '/');
    var cands := Filter(nodes, nodes[n].childs, Canon(head));
    if tail.None? then FirstTerminal(nodes, cands) else FirstMatch(nodes, cands, tail.value)
  }

  /** The loop of matchNode over the candidates when segments remain. */
  function FirstMatch(nodes: seq<Node>, cs: seq<nat>, rest: string): (r: Option<nat>)
    requires WellFormed(nodes) && IndicesBelow(cs, |nodes|)
    ensures r.Some? ==> r.value < |nodes| && nodes[r.value].isLast
    decreases |rest|, 1, |cs|
  {
    if cs == [] then None
    else
      var m := Match(nodes, cs[0], rest);
      if m.Some? then m else FirstMatch(nodes, cs[1..], rest)
  }

  /** `t` is reached from `n` by one child step per request segment, each step to a child
      that admits the segment: the paths matchNode explores. */
  ghost predicate Reaches(nodes: seq<Node>, n: nat, segments: seq<string>, t: nat)
    requires WellFormed(nodes) && n < |nodes|
    decreases |segments|
  {
    if segments == [] then t == n
    else exists k :: 0 <= k < |nodes[n].childs| && Admits(nodes, nodes[n].childs[k], segments[0]) &&
                     Reaches(nodes, nodes[n].childs[k], segments[1..], t)
  }

  /** Soundness of matchNode: the node it returns is terminal and reached along the path. */
  lemma {:induction false} MatchReaches(nodes: seq<Node>, n: nat, uri: string)
    requires WellFormed(nodes) && n < |nodes|
    ensures Match(nodes, n, uri).Some? ==>
              Reaches(nodes, n, CanonSegments(uri), Match(nodes, n, uri).value) &&
              nodes[Match(nodes, n, uri).value].isLast
    decreases |uri|
  {
    if Match(nodes, n, uri).Some? {
      var (head, tail) := SplitFirst(uri, '/');
      var segments := CanonSegments(uri);
      CanonSegmentsFirst(uri);
      var cands := Filter(nodes, nodes[n].childs, Canon(head));
      var t := Match(nodes, n, uri).value;
      var c;
      if tail.None? {
        c := t;
      } else {
        FirstMatchSpec(nodes, cands, tail.value);
        var j :| 0 <= j < |cands| && Match(nodes, cands[j], tail.value) == Some(t);
        c := cands[j];
        MatchReaches(nodes, c, tail.value);
      }
      assert c in cands;
      var k :| 0 <= k < |nodes[n].childs| && nodes[n].childs[k] == c;
      assert Reaches(nodes, c, segments[1..], t);
    }
  }

  /** Completeness of matchNode: when some terminal node is reached along the path, it
      returns a node (the first in insertion order, which need not be that one). */
  lemma {:induction false} ReachesMatches(nodes: seq<Node>, n: nat, uri: string, t: nat)
    requires WellFormed(nodes) && n < |nodes|
    requires Reaches(nodes, n, CanonSegments(uri), t) && t < |nodes| && nodes[t].isLast
    ensures Match(nodes, n, uri).Some?
    decreases |uri|
  {
    var (head, tail) := SplitFirst(uri, '/');
    var segments := CanonSegments(uri);
    CanonSegmentsFirst(uri);
    var cands := Filter(nodes, nodes[n].childs, Canon(head));
    var k :| 0 <= k < |nodes[n].childs| && Admits(nodes, nodes[n].childs[k], segments[0]) &&
             Reaches(nodes, nodes[n].childs[k], segments[1..], t);
    var c := nodes[n].childs[k];
    assert c in cands;
    var j :| 0 <= j < |cands| && cands[j] == c;
    if tail.Some? {
      ReachesMatches(nodes, c, tail.value, t);
      FirstMatchSpec(nodes, cands, tail.value);
    }
  }

  /** FindHandler: the handlers of the matched node, or none (Go's nil). */
  function FindHandler(nodes: seq<Node>, uri: string): (r: seq<Handler>)
    requires WellFormed(nodes)
    ensures r != [] ==> exists t: nat :: Reaches(nodes, Root, CanonSegments(uri), t) && t < |nodes| &&
                                    nodes[t].isLast && nodes[t].handlers == r
  {
    match Match(nodes, Root, uri)
    case None => []
    case Some(x) => MatchReaches(nodes, Root, uri); nodes[x].handlers
  }

  /** The loop of findChildNode over a list of children: the first with exactly this text. */
  function FindIn(nodes: seq<Node>, cs: seq<nat>, segment: string): (r: Option<nat>)
    requires IndicesBelow(cs, |nodes|)
    ensures r.Some? ==> r.value in cs && nodes[r.value].segment == segment
    ensures r.None? <==> forall k :: 0 <= k < |cs| ==> nodes[cs[k]].segment != segment
  {
    if cs == [] then None
    else if nodes[cs[0]].segment == segment then Some(cs[0])
    else FindIn(nodes, cs[1..], segment)
  }

  /** findChildNode. */
  function FindChild(nodes: seq<Node>, n: nat, segment: string): (r: Option<nat>)
    requires WellFormed(nodes) && n < |nodes|
    ensures r.Some? ==> r.value < |nodes| && r.value in nodes[n].childs && nodes[r.value].segment == segment
    ensures r.None? <==> forall k :: 0 <= k < |nodes[n].childs| ==> nodes[nodes[n].childs[k]].segment != segment
  {
    FindIn(nodes, nodes[n].childs, segment)
  }

  /** The node AddRouter's cursor reaches by following existing children only, if it gets
      through all segments without creating one. */
  function Walk(nodes: seq<Node>, n: nat, segments: seq<string>): (r: Option<nat>)
    requires WellFormed(nodes) && n < |nodes|
    ensures r.Some? ==> r.value < |nodes| && Reaches(nodes, n, segments, r.value)
    ensures r.None? ==> segments != []
    decreases |segments|
  {
    if segments == [] then Some(n)
    else match FindChild(nodes, n, segments[0])
      case None => None
      case Some(c) => Walk(nodes, c, segments[1..])
  }

  /** Appending `child` to the arena and to the children of `n` (`n.childs = append(n.childs,
      newNode)`). */
  function Graft(nodes: seq<Node>, n: nat, child: Node): (r: seq<Node>)
    requires WellFormed(nodes) && n < |nodes|
    requires IndicesBelow(child.childs, |nodes| + 1)
    ensures WellFormed(r) && |r| == |nodes| + 1
    ensures r[|nodes|] == child
    ensures r[n] == nodes[n].(childs := nodes[n].childs + [|nodes|])
    ensures forall i :: 0 <= i < |nodes| && i != n ==> r[i] == nodes[i]
  {
    var r := nodes[n := nodes[n].(childs := nodes[n].childs + [|nodes|])] + [child];
    assert forall i :: 0 <= i < |r| ==> IndicesBelow(r[i].childs, |r|) by {
      forall i | 0 <= i < |r| ensures IndicesBelow(r[i].childs, |r|) {
        if i < |nodes| && i != n {
          assert r[i] == nodes[i];
        }
      }
    }
    r
  }

  /** The node AddRouter creates for a segment: terminal, with the handlers, only when it is
      the last one. */
  function NewNode(segment: string, isLast: bool, handlers: seq<Handler>): (r: Node)
    ensures r.segment == segment && r.isLast == isLast && r.childs == []
    ensures r.handlers == (if isLast then handlers else [])
  {
    if isLast then Node(true, segment, handlers, []) else Node(false, segment, [], [])
  }

  /** The tree AddRouter leaves behind once its conflict check has passed: the loop of
      core/trie.go:93-112, one segment per step, with the cursor at `n`. */
  function Insert(nodes: seq<Node>, n: nat, segments: seq<string>, handlers: seq<Handler>): (r: seq<Node>)
    requires WellFormed(nodes) && n < |nodes|
    ensures WellFormed(r) && |r| >= |nodes|
    decreases |segments|
  {
    if segments == [] then nodes
    else match FindChild(nodes, n, segments[0])
      case Some(c) => Insert(nodes, c, segments[1..], handlers)
      case None =>
        Insert(Graft(nodes, n, NewNode(segments[0], |segments| == 1, handlers)), |nodes|,
               segments[1..], handlers)
  }

  // ---------------------------------------------------------------------------------------
  // How a later arena relates to an earlier one.

  /** `b` is `a` after insertions with `handlers`: old nodes keep their text, flag and
      handlers and only gain children at the end, which are new; new nodes have only new
      children; a new terminal node carries `handlers`. */
  ghost predicate Grows(a: seq<Node>, b: seq<Node>, handlers: seq<Handler>) {
    && |a| <= |b|
    && (forall i :: 0 <= i < |a| ==>
          && b[i].segment == a[i].segment
          && b[i].isLast == a[i].isLast
          && b[i].handlers == a[i].handlers
          && a[i].childs <= b[i].childs)
    && (forall i, k :: 0 <= i < |a| && |a[i].childs| <= k < |b[i].childs| ==> |a| <= b[i].childs[k])
    && (forall i, k :: |a| <= i < |b| && 0 <= k < |b[i].childs| ==> |a| <= b[i].childs[k])
    && (forall i :: |a| <= i < |b| && b[i].isLast ==> b[i].handlers == handlers)
  }

  lemma GrowsTransitive(a: seq<Node>, b: seq<Node>, c: seq<Node>, handlers: seq<Handler>)
    requires Grows(a, b, handlers) && Grows(b, c, handlers)
    ensures Grows(a, c, handlers)
  {
    forall i, k | 0 <= i < |a| && |a[i].childs| <= k < |c[i].childs|
      ensures |a| <= c[i].childs[k]
    {
      if k < |b[i].childs| {
        assert c[i].childs[k] == b[i].childs[k];
      }
    }
    forall i, k | |a| <= i < |b| && 0 <= k < |c[i].childs|
      ensures |a| <= c[i].childs[k]
    {
      if k < |b[i].childs| {
        assert c[i].childs[k] == b[i].childs[k];
      }
    }
  }

  lemma GraftGrows(nodes: seq<Node>, n: nat, child: Node, handlers: seq<Handler>)
    requires WellFormed(nodes) && n < |nodes|
    requires child.childs == []
    requires child.isLast ==> child.handlers == handlers
    ensures Grows(nodes, Graft(nodes, n, child), handlers)
  {
  }

  lemma {:induction false} InsertGrows(nodes: seq<Node>, n: nat, segments: seq<string>, handlers: seq<Handler>)
    requires WellFormed(nodes) && n < |nodes|
    ensures Grows(nodes, Insert(nodes, n, segments, handlers), handlers)
    decreases |segments|
  {
    if segments != [] {
      match FindChild(nodes, n, segments[0])
      case Some(c) =>
        InsertGrows(nodes, c, segments[1..], handlers);
      case None =>
        var g := Graft(nodes, n, NewNode(segments[0], |segments| == 1, handlers));
        GraftGrows(nodes, n, NewNode(segments[0], |segments| == 1, handlers), handlers);
        InsertGrows(g, |nodes|, segments[1..], handlers);
        GrowsTransitive(nodes, g, Insert(g, |nodes|, segments[1..], handlers), handlers);
    }
  }

  // ---------------------------------------------------------------------------------------
  // findChildNode and the cursor walk on a grown arena.

  lemma {:induction false} FindInAppend(nodes: seq<Node>, cs: seq<nat>, ds: seq<nat>, segment: string)
    requires IndicesBelow(cs, |nodes|) && IndicesBelow(ds, |nodes|)
    ensures IndicesBelow(cs + ds, |nodes|)
    ensures FindIn(nodes, cs + ds, segment) ==
              if FindIn(nodes, cs, segment).Some? then FindIn(nodes, cs, segment) else FindIn(nodes, ds, segment)
  {
    if cs == [] {
      assert cs + ds == ds;
    } else {
      assert (cs + ds)[0] == cs[0] && (cs + ds)[1..] == cs[1..] + ds;
      FindInAppend(nodes, cs[1..], ds, segment);
    }
  }

  lemma {:induction false} FindInSame(a: seq<Node>, b: seq<Node>, cs: seq<nat>, segment: string)
    requires IndicesBelow(cs, |a|) && |a| <= |b|
    requires forall k :: 0 <= k < |cs| ==> b[cs[k]].segment == a[cs[k]].segment
    ensures FindIn(b, cs, segment) == FindIn(a, cs, segment)
  {
    if cs != [] {
      FindInSame(a, b, cs[1..], segment);
    }
  }

  /** A child found before is found again after insertions. */
  lemma FindChildGrown(a: seq<Node>, b: seq<Node>, handlers: seq<Handler>, n: nat, segment: string)
    requires WellFormed(a) && WellFormed(b) && Grows(a, b, handlers) && n < |a|
    requires FindChild(a, n, segment).Some?
    ensures FindChild(b, n, segment) == FindChild(a, n, segment)
  {
    var prior := a[n].childs;
    var extra := b[n].childs[|prior|..];
    assert b[n].childs == prior + extra;
    FindInAppend(b, prior, extra, segment);
    FindInSame(a, b, prior, segment);
  }

  lemma {:induction false} WalkGrown(a: seq<Node>, b: seq<Node>, handlers: seq<Handler>, n: nat, segments: seq<string>)
    requires WellFormed(a) && WellFormed(b) && Grows(a, b, handlers) && n < |a|
    requires Walk(a, n, segments).Some?
    ensures Walk(b, n, segments) == Walk(a, n, segments)
    decreases |segments|
  {
    if segments != [] {
      var c := FindChild(a, n, segments[0]).value;
      FindChildGrown(a, b, handlers, n, segments[0]);
      WalkGrown(a, b, handlers, c, segments[1..]);
    }
  }

  /** When every segment already has its node, AddRouter's loop changes nothing: in
      particular an existing final node is neither marked terminal nor given handlers. */
  lemma {:induction false} InsertExistingIsNoop(nodes: seq<Node>, n: nat, segments: seq<string>, handlers: seq<Handler>)
    requires WellFormed(nodes) && n < |nodes|
    requires Walk(nodes, n, segments).Some?
    ensures Insert(nodes, n, segments, handlers) == nodes
    decreases |segments|
  {
    if segments != [] {
      InsertExistingIsNoop(nodes, FindChild(nodes, n, segments[0]).value, segments[1..], handlers);
    }
  }

  /** After the loop the cursor path exists; when it did not before, it ends at a new terminal
      node holding exactly the registered handlers. */
  lemma {:induction false} InsertWalks(nodes: seq<Node>, n: nat, segments: seq<string>, handlers: seq<Handler>)
    requires WellFormed(nodes) && n < |nodes|
    ensures Walk(Insert(nodes, n, segments, handlers), n, segments).Some?
    ensures Walk(nodes, n, segments).None? ==>
              var t := Walk(Insert(nodes, n, segments, handlers), n, segments).value;
              var r := Insert(nodes, n, segments, handlers);
              t >= |nodes| && r[t].isLast && r[t].handlers == handlers
    decreases |segments|
  {
    if segments != [] {
      var r := Insert(nodes, n, segments, handlers);
      match FindChild(nodes, n, segments[0])
      case Some(c) =>
        InsertWalks(nodes, c, segments[1..], handlers);
        InsertGrows(nodes, c, segments[1..], handlers);
        FindChildGrown(nodes, r, handlers, n, segments[0]);
      case None =>
        var added := NewNode(segments[0], |segments| == 1, handlers);
        var g := Graft(nodes, n, added);
        var m := |nodes|;
        assert FindChild(g, n, segments[0]) == Some(m) by {
          FindInSame(nodes, g, nodes[n].childs, segments[0]);
          FindInAppend(g, nodes[n].childs, [m], segments[0]);
        }
        InsertWalks(g, m, segments[1..], handlers);
        InsertGrows(g, m, segments[1..], handlers);
        FindChildGrown(g, r, handlers, n, segments[0]);
        if |segments| > 1 {
          assert FindChild(g, m, segments[1]).None?;
        } else {
          assert segments[1..] == [];
        }
    }
  }

  /** A new child with a segment the node does not have yet keeps child segments unique. */
  lemma GraftKeepsUnique(nodes: seq<Node>, n: nat, child: Node)
    requires WellFormed(nodes) && UniqueChildSegments(nodes) && n < |nodes|
    requires child.childs == [] && FindChild(nodes, n, child.segment).None?
    ensures UniqueChildSegments(Graft(nodes, n, child))
  {
    var r := Graft(nodes, n, child);
    assert forall c :: 0 <= c < |nodes| ==> r[c].segment == nodes[c].segment;
    forall i, j, k | 0 <= i < |r| && 0 <= j < k < |r[i].childs|
      ensures r[r[i].childs[j]].segment != r[r[i].childs[k]].segment
    {
      if i != n && i < |nodes| {
        assert r[i] == nodes[i];
      } else if i == n && k == |nodes[n].childs| {
        assert r[i].childs[k] == |nodes|;
        assert r[i].childs[j] == nodes[n].childs[j];
      }
    }
  }

  lemma {:induction false} InsertKeepsUnique(nodes: seq<Node>, n: nat, segments: seq<string>, handlers: seq<Handler>)
    requires WellFormed(nodes) && UniqueChildSegments(nodes) && n < |nodes|
    ensures UniqueChildSegments(Insert(nodes, n, segments, handlers))
    decreases |segments|
  {
    if segments != [] {
      match FindChild(nodes, n, segments[0])
      case Some(c) =>
        InsertKeepsUnique(nodes, c, segments[1..], handlers);
      case None =>
        var added := NewNode(segments[0], |segments| == 1, handlers);
        GraftKeepsUnique(nodes, n, added);
        InsertKeepsUnique(Graft(nodes, n, added), |nodes|, segments[1..], handlers);
    }
  }

  // ---------------------------------------------------------------------------------------
  // matchNode against the nodes AddRouter builds.

  /** The segments of a path: the first, then those of the text after the first '/'. */
  lemma CanonSegmentsFirst(uri: string)
    ensures var (head, tail) := SplitFirst(uri, '/');
            && CanonSegments(uri)[0] == Canon(head)
            && (tail.None? ==> CanonSegments(uri)[1..] == [])
            && (tail.Some? ==> CanonSegments(uri)[1..] == CanonSegments(tail.value))
  {
    var (head, tail) := SplitFirst(uri, '/');
    var parts := Split(uri, '/');
    assert parts[1..] == if tail.None? then [] else Split(tail.value, '/');
  }

  /** A path whose segments lead, child by child, to a terminal node is matched. */
  lemma {:induction false} WalkToTerminalMatches(nodes: seq<Node>, n: nat, uri: string, t: nat)
    requires WellFormed(nodes) && n < |nodes|
    requires Walk(nodes, n, CanonSegments(uri)) == Some(t) && nodes[t].isLast
    ensures Match(nodes, n, uri).Some?
    decreases |uri|
  {
    var (head, tail) := SplitFirst(uri, '/');
    var segments := CanonSegments(uri);
    CanonSegmentsFirst(uri);
    var c := FindChild(nodes, n, Canon(head)).value;
    var cands := Filter(nodes, nodes[n].childs, Canon(head));
    assert c in cands;
    var j :| 0 <= j < |cands| && cands[j] == c;
    if tail.None? {
      assert Walk(nodes, c, segments[1..]) == Some(c);
    } else {
      WalkToTerminalMatches(nodes, c, tail.value, t);
      assert Match(nodes, cands[j], tail.value).Some?;
      FirstMatchSpec(nodes, cands, tail.value);
    }
  }

  /** The candidates of an old node on a grown arena: the old candidates, and new nodes. */
  lemma CandidatesGrown(a: seq<Node>, b: seq<Node>, handlers: seq<Handler>, n: nat, segment: string)
    requires WellFormed(a) && WellFormed(b) && Grows(a, b, handlers) && n < |a|
    ensures var ca := Filter(a, a[n].childs, segment);
            var cb := Filter(b, b[n].childs, segment);
            && (forall k :: 0 <= k < |ca| ==> ca[k] in cb)
            && (forall k :: 0 <= k < |cb| ==> cb[k] >= |a| || cb[k] in ca)
  {
    var ca := Filter(a, a[n].childs, segment);
    var cb := Filter(b, b[n].childs, segment);
    assert a[n].childs <= b[n].childs;
    assert forall c: nat :: c < |a| ==> (Admits(a, c, segment) <==> Admits(b, c, segment));
    forall k | 0 <= k < |ca| ensures ca[k] in cb {
      assert ca[k] in ca;
      var i :| 0 <= i < |a[n].childs| && a[n].childs[i] == ca[k];
      assert b[n].childs[i] == ca[k];
    }
    forall k | 0 <= k < |cb| ensures cb[k] >= |a| || cb[k] in ca {
      assert cb[k] in cb;
      var i :| 0 <= i < |b[n].childs| && b[n].childs[i] == cb[k];
      if i < |a[n].childs| {
        assert a[n].childs[i] == cb[k];
      }
    }
  }

  /** The candidates of a new node are new. */
  lemma CandidatesOfNewNode(a: seq<Node>, b: seq<Node>, handlers: seq<Handler>, n: nat, segment: string)
    requires WellFormed(b) && Grows(a, b, handlers) && |a| <= n < |b|
    ensures forall k :: 0 <= k < |Filter(b, b[n].childs, segment)| ==> Filter(b, b[n].childs, segment)[k] >= |a|
  {
    var cb := Filter(b, b[n].childs, segment);
    forall k | 0 <= k < |cb| ensures cb[k] >= |a| {
      assert cb[k] in cb;
      var i :| 0 <= i < |b[n].childs| && b[n].childs[i] == cb[k];
    }
  }

  lemma FirstTerminalGrown(a: seq<Node>, b: seq<Node>, handlers: seq<Handler>, ca: seq<nat>, cb: seq<nat>)
    requires Grows(a, b, handlers)
    requires IndicesBelow(ca, |a|) && IndicesBelow(cb, |b|)
    requires forall k :: 0 <= k < |ca| ==> ca[k] in cb
    requires forall k :: 0 <= k < |cb| ==> cb[k] >= |a| || cb[k] in ca
    ensures FirstTerminal(a, ca).Some? ==> FirstTerminal(b, cb).Some?
    ensures FirstTerminal(a, ca).None? ==> FirstTerminal(b, cb).None? || FirstTerminal(b, cb).value >= |a|
  {
    if FirstTerminal(a, ca).Some? {
      var x := FirstTerminal(a, ca).value;
      var k :| 0 <= k < |ca| && ca[k] == x;
      var j :| 0 <= j < |cb| && cb[j] == x;
    }
  }

  /** How a match on a grown arena relates to the match before: an old match survives (the
      node may differ), and where there was none, any match found is a new node. */
  lemma {:induction false} MatchGrown(a: seq<Node>, b: seq<Node>, handlers: seq<Handler>, n: nat, uri: string)
    requires WellFormed(a) && WellFormed(b) && Grows(a, b, handlers) && n < |b|
    ensures n < |a| && Match(a, n, uri).Some? ==> Match(b, n, uri).Some?
    ensures (n >= |a| || Match(a, n, uri).None?) ==> Match(b, n, uri).None? || Match(b, n, uri).value >= |a|
    decreases |uri|, 0
  {
    var (head, tail) := SplitFirst(uri, '/');
    var segment := Canon(head);
    var cb := Filter(b, b[n].childs, segment);
    var ca := if n < |a| then Filter(a, a[n].childs, segment) else [];
    if n < |a| {
      CandidatesGrown(a, b, handlers, n, segment);
    } else {
      CandidatesOfNewNode(a, b, handlers, n, segment);
    }
    if tail.None? {
      FirstTerminalGrown(a, b, handlers, ca, cb);
    } else {
      FirstMatchGrown(a, b, handlers, ca, cb, tail.value);
    }
  }

  lemma {:induction false} FirstMatchGrown(a: seq<Node>, b: seq<Node>, handlers: seq<Handler>,
                                           ca: seq<nat>, cb: seq<nat>, rest: string)
    requires WellFormed(a) && WellFormed(b) && Grows(a, b, handlers)
    requires IndicesBelow(ca, |a|) && IndicesBelow(cb, |b|)
    requires forall k :: 0 <= k < |ca| ==> ca[k] in cb
    requires forall k :: 0 <= k < |cb| ==> cb[k] >= |a| || cb[k] in ca
    ensures FirstMatch(a, ca, rest).Some? ==> FirstMatch(b, cb, rest).Some?
    ensures FirstMatch(a, ca, rest).None? ==> FirstMatch(b, cb, rest).None? || FirstMatch(b, cb, rest).value >= |a|
    decreases |rest|, 1
  {
    forall c | 0 <= c < |b|
      ensures c < |a| && Match(a, c, rest).Some? ==> Match(b, c, rest).Some?
      ensures (c >= |a| || Match(a, c, rest).None?) ==> Match(b, c, rest).None? || Match(b, c, rest).value >= |a|
    {
      MatchGrown(a, b, handlers, c, rest);
    }
    FirstMatchSpec(a, ca, rest);
    FirstMatchSpec(b, cb, rest);
    if FirstMatch(a, ca, rest).Some? {
      var k :| 0 <= k < |ca| && Match(a, ca[k], rest) == FirstMatch(a, ca, rest);
      var j :| 0 <= j < |cb| && cb[j] == ca[k];
      assert Match(b, cb[j], rest).Some?;
    } else if FirstMatch(b, cb, rest).Some? {
      var j :| 0 <= j < |cb| && Match(b, cb[j], rest) == FirstMatch(b, cb, rest);
      if cb[j] < |a| {
        var k :| 0 <= k < |ca| && ca[k] == cb[j];
        assert Match(a, ca[k], rest).None?;
      }
    }
  }

  /** The main property of AddRouter: once its conflict check passes on a path that does not
      end at an existing node, the tree resolves that path to exactly the handlers given. */
  lemma AddedRouteResolves(nodes: seq<Node>, uri: string, handlers: seq<Handler>)
    requires WellFormed(nodes)
    requires Match(nodes, Root, uri).None?
    requires Walk(nodes, Root, CanonSegments(uri)).None?
    ensures Match(Insert(nodes, Root, CanonSegments(uri), handlers), Root, uri).Some?
    ensures FindHandler(Insert(nodes, Root, CanonSegments(uri), handlers), uri) == handlers
  {
    var b := Insert(nodes, Root, CanonSegments(uri), handlers);
    InsertGrows(nodes, Root, CanonSegments(uri), handlers);
    InsertWalks(nodes, Root, CanonSegments(uri), handlers);
    WalkToTerminalMatches(b, Root, uri, Walk(b, Root, CanonSegments(uri)).value);
    MatchGrown(nodes, b, handlers, Root, uri);
  }

  /** A path the tree resolved before an insertion it still resolves after it. */
  lemma RouteStaysResolved(nodes: seq<Node>, segments: seq<string>, handlers: seq<Handler>, uri: string)
    requires WellFormed(nodes)
    requires Match(nodes, Root, uri).Some?
    ensures Match(Insert(nodes, Root, segments, handlers), Root, uri).Some?
  {
    InsertGrows(nodes, Root, segments, handlers);
    MatchGrown(nodes, Insert(nodes, Root, segments, handlers), handlers, Root, uri);
  }

  /** The loop of matchNode finds a match exactly when some candidate leads to one, and what
      it returns is the match of one of the candidates. */
  lemma {:induction false} FirstMatchSpec(nodes: seq<Node>, cs: seq<nat>, rest: string)
    requires WellFormed(nodes) && IndicesBelow(cs, |nodes|)
    ensures FirstMatch(nodes, cs, rest).None? <==> forall k :: 0 <= k < |cs| ==> Match(nodes, cs[k], rest).None?
    ensures FirstMatch(nodes, cs, rest).Some? ==>
              exists k :: 0 <= k < |cs| && Match(nodes, cs[k], rest) == FirstMatch(nodes, cs, rest)
    decreases |cs|
  {
    if cs != [] {
      var tail := cs[1..];
      FirstMatchSpec(nodes, tail, rest);
      assert forall k :: 0 <= k < |tail| ==> tail[k] == cs[k + 1];
      if Match(nodes, cs[0], rest).None? && FirstMatch(nodes, tail, rest).Some? {
        var k :| 0 <= k < |tail| && Match(nodes, tail[k], rest) == FirstMatch(nodes, tail, rest);
        assert Match(nodes, cs[k + 1], rest) == FirstMatch(nodes, cs, rest);
      }
    }
  }

  /** Among the candidates, the first in insertion order that leads to a match is returned. */
  lemma FirstMatchPicksFirst(nodes: seq<Node>, cs: seq<nat>, rest: string, k: nat)
    requires WellFormed(nodes) && IndicesBelow(cs, |nodes|) && k < |cs|
    requires Match(nodes, cs[k], rest).Some?
    requires forall j :: 0 <= j < k ==> Match(nodes, cs[j], rest).None?
    ensures FirstMatch(nodes, cs, rest) == Match(nodes, cs[k], rest)
  {
    FirstMatchDrops(nodes, cs, rest, k);
    var suffix := cs[k..];
    assert suffix[0] == cs[k];
    FirstMatchTakes(nodes, suffix, rest);
  }

  /** Candidates that lead to no match are skipped. */
  lemma {:induction false} FirstMatchDrops(nodes: seq<Node>, cs: seq<nat>, rest: string, j: nat)
    requires WellFormed(nodes) && IndicesBelow(cs, |nodes|) && j <= |cs|
    requires forall i :: 0 <= i < j ==> Match(nodes, cs[i], rest).None?
    ensures FirstMatch(nodes, cs, rest) == FirstMatch(nodes, cs[j..], rest)
  {
    if j > 0 {
      FirstMatchDrops(nodes, cs, rest, j - 1);
      var s := cs[j - 1..];
      assert s[0] == cs[j - 1];
      assert s[1..] == cs[j..];
      FirstMatchSkips(nodes, s, rest);
    }
  }

  lemma FirstMatchTakes(nodes: seq<Node>, cs: seq<nat>, rest: string)
    requires WellFormed(nodes) && IndicesBelow(cs, |nodes|) && |cs| > 0
    requires Match(nodes, cs[0], rest).Some?
    ensures FirstMatch(nodes, cs, rest) == Match(nodes, cs[0], rest)
  {
  }

  lemma FirstMatchSkips(nodes: seq<Node>, cs: seq<nat>, rest: string)
    requires WellFormed(nodes) && IndicesBelow(cs, |nodes|) && |cs| > 0
    requires Match(nodes, cs[0], rest).None?
    ensures FirstMatch(nodes, cs, rest) == FirstMatch(nodes, cs[1..], rest)
  {
  }

  /** With no segment left, the first terminal candidate in insertion order is returned. */
  lemma {:induction false} FirstTerminalPicksFirst(nodes: seq<Node>, cs: seq<nat>, k: nat)
    requires IndicesBelow(cs, |nodes|) && k < |cs| && nodes[cs[k]].isLast
    requires forall j :: 0 <= j < k ==> !nodes[cs[j]].isLast
    ensures FirstTerminal(nodes, cs) == Some(cs[k])
  {
    if k > 0 {
      assert forall j :: 0 <= j < k - 1 ==> cs[1..][j] == cs[j + 1];
      FirstTerminalPicksFirst(nodes, cs[1..], k - 1);
    }
  }

  /** Two request segments that select the same children: the same parameter text, or two
      literals equal up to ASCII case. */
  predicate SameSegment(s1: string, s2: string) {
    if IsWild(s1) || IsWild(s2) then s1 == s2 else EqualIgnoringCase(s1, s2)
  }

  /** Two paths whose segments pair up as `SameSegment`. */
  predicate SamePath(u1: string, u2: string) {
    var p1 := Split(u1, '/');
    var p2 := Split(u2, '/');
    |p1| == |p2| && forall i :: 0 <= i < |p1| ==> SameSegment(p1[i], p2[i])
  }

  lemma CanonOfSameSegment(s1: string, s2: string)
    requires SameSegment(s1, s2)
    ensures Canon(s1) == Canon(s2)
  {
    if !IsWild(s1) && !IsWild(s2) {
      UpperOfEqualIgnoringCase(s1, s2);
    }
  }

  lemma {:induction false} FirstMatchSame(nodes: seq<Node>, cs: seq<nat>, r1: string, r2: string)
    requires WellFormed(nodes) && IndicesBelow(cs, |nodes|)
    requires forall c :: 0 <= c < |nodes| ==> Match(nodes, c, r1) == Match(nodes, c, r2)
    ensures FirstMatch(nodes, cs, r1) == FirstMatch(nodes, cs, r2)
  {
    if cs != [] {
      FirstMatchSame(nodes, cs[1..], r1, r2);
    }
  }

  /** Matching ignores the case of literal segments (both sides are upper-cased) and keeps
      parameter segments verbatim. */
  lemma {:induction false} MatchIgnoresCase(nodes: seq<Node>, n: nat, u1: string, u2: string)
    requires WellFormed(nodes) && n < |nodes|
    requires SamePath(u1, u2)
    ensures Match(nodes, n, u1) == Match(nodes, n, u2)
    decreases |u1|
  {
    var (h1, t1) := SplitFirst(u1, '/');
    var (h2, t2) := SplitFirst(u2, '/');
    var p1 := Split(u1, '/');
    var p2 := Split(u2, '/');
    assert p1[0] == h1 && p2[0] == h2;
    CanonOfSameSegment(h1, h2);
    assert t1.None? <==> |p1| == 1;
    assert t2.None? <==> |p2| == 1;
    if t1.Some? {
      assert p1[1..] == Split(t1.value, '/');
      assert p2[1..] == Split(t2.value, '/');
      assert SamePath(t1.value, t2.value) by {
        forall i | 0 <= i < |p1| - 1 ensures SameSegment(p1[1..][i], p2[1..][i]) {
          assert p1[1..][i] == p1[i + 1] && p2[1..][i] == p2[i + 1];
        }
      }
      forall c | 0 <= c < |nodes| ensures Match(nodes, c, t1.value) == Match(nodes, c, t2.value) {
        MatchIgnoresCase(nodes, c, t1.value, t2.value);
      }
      FirstMatchSame(nodes, Filter(nodes, nodes[n].childs, Canon(h1)), t1.value, t2.value);
    }
  }

  lemma FindHandlerIgnoresCase(nodes: seq<Node>, u1: string, u2: string)
    requires WellFormed(nodes) && SamePath(u1, u2)
    ensures FindHandler(nodes, u1) == FindHandler(nodes, u2)
  {
    MatchIgnoresCase(nodes, Root, u1, u2);
  }

  /** The canonical spelling of a path: its canonical segments joined by '/'. */
  function CanonPath(uri: string): string {
    Join(CanonSegments(uri), '/')
  }

  lemma CanonKeepsSlashOut(segment: string)
    requires '/' !in segment
    ensures '/' !in Canon(segment)
  {
    if !IsWild(segment) {
      assert forall k :: 0 <= k < |segment| ==> Upper(segment)[k] != '/';
    }
  }

  lemma CanonIdempotent(segment: string)
    ensures Canon(Canon(segment)) == Canon(segment)
  {
    CanonKeepsWild(segment);
    if !IsWild(segment) {
      UpperIdempotent(segment);
    }
  }

  /** A path and its canonical spelling are registered as the same segments and find the
      same handlers; a path already in canonical form is its own spelling. */
  lemma CanonPathIsStable(nodes: seq<Node>, uri: string)
    requires WellFormed(nodes)
    ensures CanonSegments(CanonPath(uri)) == CanonSegments(uri)
    ensures FindHandler(nodes, CanonPath(uri)) == FindHandler(nodes, uri)
    ensures CanonSegments(uri) == Split(uri, '/') ==> CanonPath(uri) == uri
  {
    var parts := Split(uri, '/');
    var cs := CanonSegments(uri);
    forall i | 0 <= i < |cs| ensures '/' !in cs[i] {
      CanonKeepsSlashOut(parts[i]);
    }
    SplitJoin(cs, '/');
    assert CanonAll(cs) == cs by {
      forall i | 0 <= i < |cs| ensures CanonAll(cs)[i] == cs[i] {
        CanonIdempotent(parts[i]);
      }
    }
    assert SamePath(CanonPath(uri), uri) by {
      forall i | 0 <= i < |cs| ensures SameSegment(cs[i], parts[i]) {
        CanonKeepsWild(parts[i]);
      }
    }
    MatchIgnoresCase(nodes, Root, CanonPath(uri), uri);
    JoinSplit(uri, '/');
  }

  // ---------------------------------------------------------------------------------------
  // Node labels: the segment texts on the way from the root.

  /** `labels[i]` lists the segment texts from the root to node `i`: every child link extends
      its parent's label by the child's text. The arenas AddRouter builds have this shape. */
  ghost predicate Labels(nodes: seq<Node>, labels: seq<seq<string>>)
    requires WellFormed(nodes)
  {
    && |labels| == |nodes| && labels[Root] == []
    && forall i, k :: 0 <= i < |nodes| && 0 <= k < |nodes[i].childs| ==>
         labels[nodes[i].childs[k]] == labels[i] + [nodes[nodes[i].childs[k]].segment]
  }

  ghost predicate Labelled(nodes: seq<Node>)
    requires WellFormed(nodes)
  {
    exists labels :: Labels(nodes, labels)
  }

  /** Node texts `texts` admit the request segments `segments`, position by position. */
  ghost predicate Covers(texts: seq<string>, segments: seq<string>) {
    && |texts| == |segments|
    && forall i :: 0 <= i < |texts| ==> IsWild(segments[i]) || IsWild(texts[i]) || texts[i] == segments[i]
  }

  /** The labels after AddRouter's loop: a grafted node gets its parent's label and its text. */
  ghost function InsertLabels(nodes: seq<Node>, labels: seq<seq<string>>, n: nat, segments: seq<string>,
                              handlers: seq<Handler>): seq<seq<string>>
    requires WellFormed(nodes) && n < |nodes| && |labels| == |nodes|
    decreases |segments|
  {
    if segments == [] then labels
    else match FindChild(nodes, n, segments[0])
      case Some(c) => InsertLabels(nodes, labels, c, segments[1..], handlers)
      case None =>
        InsertLabels(Graft(nodes, n, NewNode(segments[0], |segments| == 1, handlers)),
                     labels + [labels[n] + [segments[0]]], |nodes|, segments[1..], handlers)
  }

  lemma GraftKeepsLabels(nodes: seq<Node>, labels: seq<seq<string>>, n: nat, child: Node)
    requires WellFormed(nodes) && Labels(nodes, labels) && n < |nodes| && child.childs == []
    ensures Labels(Graft(nodes, n, child), labels + [labels[n] + [child.segment]])
  {
    var r := Graft(nodes, n, child);
    var rl := labels + [labels[n] + [child.segment]];
    forall i, k | 0 <= i < |r| && 0 <= k < |r[i].childs|
      ensures rl[r[i].childs[k]] == rl[i] + [r[r[i].childs[k]].segment]
    {
      if i != n || k < |nodes[n].childs| {
        var c := nodes[i].childs[k];
        assert r[i].childs[k] == c;
        assert r[c].segment == nodes[c].segment;
      }
    }
  }

  /** AddRouter's loop keeps the labels of old nodes and labels every new terminal node with
      the text of the segments inserted below the cursor. */
  lemma {:induction false} InsertKeepsLabels(nodes: seq<Node>, labels: seq<seq<string>>, n: nat,
                                             segments: seq<string>, handlers: seq<Handler>)
    requires WellFormed(nodes) && Labels(nodes, labels) && n < |nodes|
    ensures var r := Insert(nodes, n, segments, handlers);
            var rl := InsertLabels(nodes, labels, n, segments, handlers);
            && Labels(r, rl) && rl[..|nodes|] == labels
            && forall i :: |nodes| <= i < |r| && r[i].isLast ==> rl[i] == labels[n] + segments
    decreases |segments|
  {
    if segments != [] {
      match FindChild(nodes, n, segments[0])
      case Some(c) =>
        InsertKeepsLabels(nodes, labels, c, segments[1..], handlers);
        var k :| 0 <= k < |nodes[n].childs| && nodes[n].childs[k] == c;
        assert labels[c] == labels[n] + [segments[0]];
        LabelStep(labels[n], segments);
      case None =>
        var added := NewNode(segments[0], |segments| == 1, handlers);
        var g := Graft(nodes, n, added);
        var gl := labels + [labels[n] + [segments[0]]];
        GraftKeepsLabels(nodes, labels, n, added);
        InsertKeepsLabels(g, gl, |nodes|, segments[1..], handlers);
        InsertGrows(g, |nodes|, segments[1..], handlers);
        var rl := InsertLabels(g, gl, |nodes|, segments[1..], handlers);
        assert rl[..|nodes|] == labels by {
          assert rl[..|nodes|] == rl[..|g|][..|nodes|];
        }
        LabelStep(labels[n], segments);
        if |segments| == 1 {
          assert segments == [segments[0]];
        }
    }
  }

  lemma LabelStep(prefix: seq<string>, segments: seq<string>)
    requires segments != []
    ensures prefix + [segments[0]] + segments[1..] == prefix + segments
  {
    assert segments == [segments[0]] + segments[1..];
  }

  /** A path to `t` spells, below `n`'s label, node texts that admit the request segments. */
  lemma {:induction false} ReachesSpells(nodes: seq<Node>, labels: seq<seq<string>>, n: nat,
                                         segments: seq<string>, t: nat)
    requires WellFormed(nodes) && Labels(nodes, labels) && n < |nodes|
    requires Reaches(nodes, n, segments, t)
    ensures t < |nodes| && labels[n] <= labels[t]
    ensures Covers(labels[t][|labels[n]|..], segments)
    decreases |segments|
  {
    if segments != [] {
      var k :| 0 <= k < |nodes[n].childs| && Admits(nodes, nodes[n].childs[k], segments[0]) &&
               Reaches(nodes, nodes[n].childs[k], segments[1..], t);
      var c := nodes[n].childs[k];
      ReachesSpells(nodes, labels, c, segments[1..], t);
      var texts := labels[t][|labels[n]|..];
      var rest := labels[t][|labels[c]|..];
      assert texts == [nodes[c].segment] + rest;
      forall i | 0 <= i < |texts|
        ensures IsWild(segments[i]) || IsWild(texts[i]) || texts[i] == segments[i]
      {
        if i > 0 {
          assert texts[i] == rest[i - 1] && segments[i] == segments[1..][i - 1];
        }
      }
    }
  }

  /** The node a path reaches is reached by every request path its texts admit. */
  lemma {:induction false} ReachesAlong(nodes: seq<Node>, labels: seq<seq<string>>, n: nat,
                                        segments: seq<string>, other: seq<string>, t: nat)
    requires WellFormed(nodes) && Labels(nodes, labels) && n < |nodes|
    requires Reaches(nodes, n, segments, t) && t < |nodes| && labels[n] <= labels[t]
    requires Covers(labels[t][|labels[n]|..], other)
    ensures Reaches(nodes, n, other, t)
    decreases |segments|
  {
    ReachesSpells(nodes, labels, n, segments, t);
    if segments != [] {
      var k :| 0 <= k < |nodes[n].childs| && Admits(nodes, nodes[n].childs[k], segments[0]) &&
               Reaches(nodes, nodes[n].childs[k], segments[1..], t);
      var c := nodes[n].childs[k];
      ReachesSpells(nodes, labels, c, segments[1..], t);
      var texts := labels[t][|labels[n]|..];
      var rest := labels[t][|labels[c]|..];
      assert texts == [nodes[c].segment] + rest;
      assert Covers(rest, other[1..]) by {
        forall i | 0 <= i < |rest|
          ensures IsWild(other[1..][i]) || IsWild(rest[i]) || rest[i] == other[1..][i]
        {
          assert rest[i] == texts[i + 1] && other[1..][i] == other[i + 1];
        }
      }
      ReachesAlong(nodes, labels, c, segments[1..], other[1..], t);
      assert Admits(nodes, c, other[0]) by {
        assert texts[0] == nodes[c].segment;
      }
    }
  }

  lemma CoversThrough(x: seq<string>, y: seq<string>, p: seq<string>)
    requires Covers(x, p) && Covers(y, p)
    requires forall i :: 0 <= i < |p| ==> !IsWild(p[i])
    ensures Covers(x, y)
  {
  }

  /** Upper-casing neither makes nor unmakes a parameter segment. */
  lemma CanonKeepsWild(segment: string)
    ensures IsWild(Canon(segment)) <==> IsWild(segment)
  {
    if !IsWild(segment) && |segment| > 0 {
      assert Canon(segment)[..1][0] == UpperChar(segment[0]);
      assert segment[..1][0] == segment[0];
    }
  }

  lemma CandidateReaches(nodes: seq<Node>, n: nat, segments: seq<string>, c: nat, t: nat)
    requires WellFormed(nodes) && n < |nodes| && segments != []
    requires c in Filter(nodes, nodes[n].childs, segments[0])
    requires c < |nodes| && Reaches(nodes, c, segments[1..], t)
    ensures Reaches(nodes, n, segments, t)
  {
    var k :| 0 <= k < |nodes[n].childs| && nodes[n].childs[k] == c;
  }

  lemma {:induction false} ReachedFromNewIsNew(a: seq<Node>, b: seq<Node>, handlers: seq<Handler>,
                                               c: nat, segments: seq<string>, f: nat)
    requires WellFormed(b) && Grows(a, b, handlers) && |a| <= c < |b| && Reaches(b, c, segments, f)
    ensures f >= |a|
    decreases |segments|
  {
    if segments != [] {
      var k :| 0 <= k < |b[c].childs| && Admits(b, b[c].childs[k], segments[0]) &&
               Reaches(b, b[c].childs[k], segments[1..], f);
      ReachedFromNewIsNew(a, b, handlers, b[c].childs[k], segments[1..], f);
    }
  }

  lemma {:induction false} KeepSame(a: seq<Node>, b: seq<Node>, cs: seq<nat>, segment: string)
    requires IndicesBelow(cs, |a|) && |a| <= |b|
    requires forall c :: 0 <= c < |a| ==> b[c].segment == a[c].segment
    ensures Keep(b, cs, segment) == Keep(a, cs, segment)
  {
    if cs != [] {
      KeepSame(a, b, cs[1..], segment);
    }
  }

  /** The candidates of an old node on a grown arena: the old ones, then some new children. */
  lemma FilterOnGrown(a: seq<Node>, b: seq<Node>, handlers: seq<Handler>, n: nat, segment: string)
    requires WellFormed(a) && WellFormed(b) && Grows(a, b, handlers) && n < |a|
    ensures var extra := b[n].childs[|a[n].childs|..];
            && IndicesBelow(extra, |b|)
            && Filter(b, b[n].childs, segment) == Filter(a, a[n].childs, segment) + Filter(b, extra, segment)
            && forall k :: 0 <= k < |Filter(b, extra, segment)| ==> Filter(b, extra, segment)[k] >= |a|
  {
    var prior := a[n].childs;
    var extra := b[n].childs[|prior|..];
    assert b[n].childs == prior + extra;
    if !IsWild(segment) {
      KeepAppend(b, prior, extra, segment);
      KeepSame(a, b, prior, segment);
    }
    var news := Filter(b, extra, segment);
    forall k | 0 <= k < |news| ensures news[k] >= |a| {
      assert news[k] in news;
      var j :| 0 <= j < |extra| && extra[j] == news[k];
      assert extra[j] == b[n].childs[|prior| + j];
    }
  }

  lemma {:induction false} FirstTerminalAcross(a: seq<Node>, b: seq<Node>, cs: seq<nat>, ds: seq<nat>)
    requires IndicesBelow(cs, |a|) && |a| <= |b| && IndicesBelow(ds, |b|) && IndicesBelow(cs + ds, |b|)
    requires forall k :: 0 <= k < |cs| ==> b[cs[k]].isLast == a[cs[k]].isLast
    requires forall k :: 0 <= k < |ds| ==> !b[ds[k]].isLast
    ensures FirstTerminal(b, cs + ds) == FirstTerminal(a, cs)
  {
    if cs == [] {
      assert cs + ds == ds;
    } else {
      var s := cs + ds;
      assert s[0] == cs[0] && s[1..] == cs[1..] + ds;
      FirstTerminalAcross(a, b, cs[1..], ds);
    }
  }

  lemma {:induction false} FirstMatchAcross(a: seq<Node>, b: seq<Node>, cs: seq<nat>, ds: seq<nat>, rest: string)
    requires WellFormed(a) && WellFormed(b) && |a| <= |b|
    requires IndicesBelow(cs, |a|) && IndicesBelow(ds, |b|) && IndicesBelow(cs + ds, |b|)
    requires forall k :: 0 <= k < |cs| ==> Match(b, cs[k], rest) == Match(a, cs[k], rest)
    requires forall k :: 0 <= k < |ds| ==> Match(b, ds[k], rest).None?
    ensures FirstMatch(b, cs + ds, rest) == FirstMatch(a, cs, rest)
  {
    if cs == [] {
      assert cs + ds == ds;
      FirstMatchSpec(b, ds, rest);
    } else {
      var s := cs + ds;
      assert s[0] == cs[0] && s[1..] == cs[1..] + ds;
      FirstMatchAcross(a, b, cs[1..], ds, rest);
      if Match(a, cs[0], rest).Some? {
        FirstMatchTakes(b, s, rest);
        FirstMatchTakes(a, cs, rest);
      } else {
        FirstMatchSkips(b, s, rest);
        FirstMatchSkips(a, cs, rest);
      }
    }
  }

  /** Insertions whose new terminal nodes cannot be reached along a path leave its match as
      it was. */
  lemma {:induction false} MatchUnchanged(a: seq<Node>, b: seq<Node>, handlers: seq<Handler>, n: nat, uri: string)
    requires WellFormed(a) && WellFormed(b) && Grows(a, b, handlers) && n < |a|
    requires forall f: nat :: |a| <= f < |b| && b[f].isLast ==> !Reaches(b, n, CanonSegments(uri), f)
    ensures Match(b, n, uri) == Match(a, n, uri)
    decreases |uri|
  {
    var (head, tail) := SplitFirst(uri, '/');
    var segment := Canon(head);
    var segments := CanonSegments(uri);
    CanonSegmentsFirst(uri);
    FilterOnGrown(a, b, handlers, n, segment);
    var ca := Filter(a, a[n].childs, segment);
    var cb := Filter(b, b[n].childs, segment);
    var news := Filter(b, b[n].childs[|a[n].childs|..], segment);
    assert forall j :: 0 <= j < |news| ==> news[j] in cb by {
      forall j | 0 <= j < |news| ensures news[j] in cb {
        assert cb[|ca| + j] == news[j];
      }
    }
    assert forall j :: 0 <= j < |ca| ==> ca[j] in cb by {
      forall j | 0 <= j < |ca| ensures ca[j] in cb {
        assert cb[j] == ca[j];
      }
    }
    if tail.None? {
      forall j | 0 <= j < |news| ensures !b[news[j]].isLast {
        if b[news[j]].isLast {
          CandidateReaches(b, n, segments, news[j], news[j]);
          assert false;
        }
      }
      FirstTerminalAcross(a, b, ca, news);
    } else {
      var rest := tail.value;
      forall j | 0 <= j < |ca| ensures Match(b, ca[j], rest) == Match(a, ca[j], rest) {
        forall f: nat | |a| <= f < |b| && b[f].isLast ensures !Reaches(b, ca[j], CanonSegments(rest), f) {
          if Reaches(b, ca[j], CanonSegments(rest), f) {
            CandidateReaches(b, n, segments, ca[j], f);
            assert false;
          }
        }
        MatchUnchanged(a, b, handlers, ca[j], rest);
      }
      forall j | 0 <= j < |news| ensures Match(b, news[j], rest).None? {
        if Match(b, news[j], rest).Some? {
          var f := Match(b, news[j], rest).value;
          MatchReaches(b, news[j], rest);
          ReachedFromNewIsNew(a, b, handlers, news[j], CanonSegments(rest), f);
          CandidateReaches(b, n, segments, news[j], f);
          assert false;
        }
      }
      FirstMatchAcross(a, b, ca, news, rest);
    }
  }

  /** A path none of whose segments is a parameter. */
  predicate LiteralPath(path: string) {
    forall i :: 0 <= i < |Split(path, '/')| ==> !IsWild(Split(path, '/')[i])
  }

  /** A later registration does not take over a parameter-free path: a path the tree
      resolved before resolves to the same node, and so to the same handlers, after a
      registration that passed the conflict check. */
  lemma LiteralPathKeepsMatch(nodes: seq<Node>, uri: string, handlers: seq<Handler>, path: string)
    requires WellFormed(nodes) && Labelled(nodes)
    requires Match(nodes, Root, uri).None? && Match(nodes, Root, path).Some?
    requires LiteralPath(path)
    ensures Match(Insert(nodes, Root, CanonSegments(uri), handlers), Root, path) == Match(nodes, Root, path)
    ensures FindHandler(Insert(nodes, Root, CanonSegments(uri), handlers), path) == FindHandler(nodes, path)
  {
    var labels :| Labels(nodes, labels);
    var us := CanonSegments(uri);
    var b := Insert(nodes, Root, us, handlers);
    var bl := InsertLabels(nodes, labels, Root, us, handlers);
    InsertGrows(nodes, Root, us, handlers);
    InsertKeepsLabels(nodes, labels, Root, us, handlers);
    var ps := CanonSegments(path);
    var t := Match(nodes, Root, path).value;
    MatchReaches(nodes, Root, path);
    ReachesSpells(nodes, labels, Root, ps, t);
    assert labels[t][|labels[Root]|..] == labels[t];
    assert forall i :: 0 <= i < |ps| ==> !IsWild(ps[i]) by {
      forall i | 0 <= i < |ps| ensures !IsWild(ps[i]) {
        CanonKeepsWild(Split(path, '/')[i]);
      }
    }
    forall f: nat | |nodes| <= f < |b| && b[f].isLast ensures !Reaches(b, Root, ps, f) {
      if Reaches(b, Root, ps, f) {
        ReachesSpells(b, bl, Root, ps, f);
        assert bl[f][|bl[Root]|..] == us;
        CoversThrough(labels[t], us, ps);
        ReachesAlong(nodes, labels, Root, ps, us, t);
        ReachesMatches(nodes, Root, uri, t);
        assert false;
      }
    }
    MatchUnchanged(nodes, b, handlers, Root, path);
  }

  // ---------------------------------------------------------------------------------------
  // The tree object.

  /** The invariant of a tree's arena. */
  ghost predicate ValidTree(nodes: seq<Node>) {
    WellFormed(nodes) && UniqueChildSegments(nodes) && Labelled(nodes)
  }

  class Tree {
    var nodes: seq<Node>

    ghost predicate Valid()
      reads this
    {
      ValidTree(nodes)
    }

    /** NewTree: a root with no segment and no children. */
    constructor ()
      ensures Valid() && nodes == [EmptyNode]
    {
      nodes := [EmptyNode];
      assert Labels([EmptyNode], [[]]);
    }

    /** Registers `handlers` under `uri`, unless the tree already matches `uri`. */
    method AddRouter(uri: string, handlers: seq<Handler>) returns (err: Option<RouteError>)
      requires Valid()
      modifies this
      ensures Valid()
      ensures Match(old(nodes), Root, uri).Some? ==> err == Some(RouteConflict(uri)) && nodes == old(nodes)
      ensures Match(old(nodes), Root, uri).None? ==>
                err.None? && nodes == Insert(old(nodes), Root, CanonSegments(uri), handlers)
      ensures err.None? && Walk(old(nodes), Root, CanonSegments(uri)).None? ==> FindHandler(nodes, uri) == handlers
      ensures Walk(old(nodes), Root, CanonSegments(uri)).Some? ==> nodes == old(nodes)
      ensures forall path :: LiteralPath(path) && Match(old(nodes), Root, path).Some? ==>
                FindHandler(nodes, path) == FindHandler(old(nodes), path)
    {
      if Match(nodes, Root, uri).Some? {
        return Some(RouteConflict(uri));
      }
      ghost var before := nodes;
      ghost var goal := Insert(nodes, Root, CanonSegments(uri), handlers);
      InsertKeepsUnique(nodes, Root, CanonSegments(uri), handlers);
      ghost var labels :| Labels(nodes, labels);
      InsertKeepsLabels(nodes, labels, Root, CanonSegments(uri), handlers);
      assert Labels(goal, InsertLabels(nodes, labels, Root, CanonSegments(uri), handlers));
      var segments := Split(uri, '/');
      var n: nat := Root;
      for i := 0 to |segments|
        invariant WellFormed(nodes) && n < |nodes|
        invariant Insert(nodes, n, CanonAll(segments[i..]), handlers) == goal
      {
        assert CanonAll(segments[i..])[0] == Canon(segments[i]);
        assert CanonAll(segments[i..])[1..] == CanonAll(segments[i + 1..]) by {
          assert segments[i..][1..] == segments[i + 1..];
        }
        var segment := Canon(segments[i]);
        var isLast := i == |segments| - 1;
        assert isLast <==> |CanonAll(segments[i..])| == 1;
        var found := FindChild(nodes, n, segment);
        match found {
          case Some(c) =>
            n := c;
          case None =>
            var next := |nodes|;
            nodes := Graft(nodes, n, NewNode(segment, isLast, handlers));
            n := next;
        }
      }
      assert segments[|segments|..] == [];
      if Walk(before, Root, CanonSegments(uri)).None? {
        AddedRouteResolves(before, uri, handlers);
      } else {
        InsertExistingIsNoop(before, Root, CanonSegments(uri), handlers);
      }
      forall path | LiteralPath(path) && Match(before, Root, path).Some?
        ensures FindHandler(nodes, path) == FindHandler(before, path)
      {
        LiteralPathKeepsMatch(before, uri, handlers, path);
      }
      return None;
    }
  }
}
