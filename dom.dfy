/**
 * Parsed XML documents as the W3C DOM presents them to the helpers in TestUtils:
 * a tree of text nodes, other character-data nodes and elements.  A node inside a
 * document is addressed by its path, the list of child indexes leading to it from
 * the document element; document order is the order `Precedes` puts on paths.
 * `getElementsByTagName` is modelled by `FindFirst`/`FindLast` (on the document:
 * the document element and all its descendants) and `FindFirstDesc`/`FindLastDesc`
 * (on an element: its proper descendants only).
 */
module Dom {
  import opened Wrappers

  /** Text is a DOM TEXT_NODE; Other is any other leaf (comment, CDATA section,
      processing instruction), whose node type is not TEXT_NODE. */
  datatype Node =
    | Text(data: string)
    | Other(data: string)
    | Elem(name: string, attrs: map<string, string>, children: seq<Node>)

  type Path = seq<nat>

  /** Element.getAttribute: the empty string when the attribute is absent. */
  function Attr(n: Node, key: string): string
  {
    if n.Elem? && key in n.attrs then n.attrs[key] else ""
  }

  /** What a search looks for: an element with a tag name, optionally with one attribute value. */
  datatype Query = Named(tag: string) | NamedWith(tag: string, key: string, value: string)

  predicate Matches(n: Node, q: Query)
  {
    n.Elem? && n.name == q.tag && (q.NamedWith? ==> Attr(n, q.key) == q.value)
  }

  /** Whether a query holds depends only on the kind, name and attributes of the node. */
  lemma MatchesShallow(a: Node, b: Node, q: Query)
    requires a.Elem? && b.Elem? && a.name == b.name && a.attrs == b.attrs
    ensures Matches(a, q) == Matches(b, q)
  {
  }

  // ----- paths -----

  predicate ValidPath(n: Node, p: Path)
    decreases |p|
  {
    p == [] || (n.Elem? && p[0] < |n.children| && ValidPath(n.children[p[0]], p[1..]))
  }

  function At(n: Node, p: Path): Node
    requires ValidPath(n, p)
    decreases |p|
  {
    if p == [] then n else At(n.children[p[0]], p[1..])
  }

  /** The document with the node at `p` replaced by `x`; the DOM's in-place edits
      (appendChild, removeChild, setTextContent) are all expressed through it. */
  function Replace(n: Node, p: Path, x: Node): Node
    requires ValidPath(n, p)
    decreases |p|
  {
    if p == [] then x
    else Elem(n.name, n.attrs, n.children[p[0] := Replace(n.children[p[0]], p[1..], x)])
  }

  /** Document order: an ancestor comes before its descendants, and an earlier
      sibling's whole subtree before a later sibling. */
  predicate Precedes(p: Path, q: Path)
    decreases |p|
  {
    if p == [] then q != []
    else q != [] && (p[0] < q[0] || (p[0] == q[0] && Precedes(p[1..], q[1..])))
  }

  lemma {:induction false} PrecedesIrreflexive(p: Path)
    ensures !Precedes(p, p)
    decreases |p|
  {
    if p != [] {
      PrecedesIrreflexive(p[1..]);
    }
  }

  lemma {:induction false} PrecedesAsymmetric(p: Path, q: Path)
    ensures Precedes(p, q) ==> !Precedes(q, p)
    decreases |p|
  {
    if p != [] && q != [] && p[0] == q[0] {
      PrecedesAsymmetric(p[1..], q[1..]);
    }
  }

  lemma {:induction false} PrecedesTotal(p: Path, q: Path)
    requires p != q
    ensures Precedes(p, q) || Precedes(q, p)
    decreases |p|
  {
    if p != [] && q != [] && p[0] == q[0] {
      assert p == [p[0]] + p[1..] && q == [q[0]] + q[1..];
      PrecedesTotal(p[1..], q[1..]);
    }
  }

  /** An ancestor precedes its descendants. */
  lemma {:induction false} AncestorPrecedes(p: Path, q: Path)
    requires p < q
    ensures Precedes(p, q)
    decreases |p|
  {
    if p != [] {
      AncestorPrecedes(p[1..], q[1..]);
    }
  }

  lemma ConsPrecedes(i: nat, p: Path, j: nat, q: Path)
    ensures Precedes([i] + p, [j] + q) == (i < j || (i == j && Precedes(p, q)))
  {
    assert ([i] + p)[1..] == p && ([j] + q)[1..] == q;
  }

  // ----- path lemmas -----

  lemma {:induction false} AtConcat(n: Node, p: Path, s: Path)
    requires ValidPath(n, p)
    ensures ValidPath(n, p + s) == ValidPath(At(n, p), s)
    ensures ValidPath(n, p + s) ==> At(n, p + s) == At(At(n, p), s)
    decreases |p|
  {
    if p != [] {
      assert (p + s)[0] == p[0] && (p + s)[1..] == p[1..] + s;
      AtConcat(n.children[p[0]], p[1..], s);
    } else {
      assert p + s == s;
    }
  }

  /** Appending children leaves the nodes below the old children where they were. */
  lemma LongerChildren(a: Node, b: Node, r: Path)
    requires a.Elem? && b.Elem? && a.children <= b.children
    ensures r != [] && ValidPath(b, r) && r[0] < |a.children| ==> ValidPath(a, r) && At(a, r) == At(b, r)
  {
    if r != [] && ValidPath(b, r) && r[0] < |a.children| {
      assert a.children[r[0]] == b.children[r[0]];
    }
  }

  lemma {:induction false} PrefixValid(n: Node, p: Path, r: Path)
    requires ValidPath(n, p) && r <= p
    ensures ValidPath(n, r)
    decreases |r|
  {
    if r != [] {
      PrefixValid(n.children[p[0]], p[1..], r[1..]);
    }
  }

  lemma {:induction false} ReplaceAt(n: Node, p: Path, x: Node)
    requires ValidPath(n, p)
    ensures ValidPath(Replace(n, p, x), p) && At(Replace(n, p, x), p) == x
    decreases |p|
  {
    if p != [] {
      ReplaceAt(n.children[p[0]], p[1..], x);
    }
  }

  /** Replacing a node leaves every node outside its ancestor line and its subtree
      where and as it was. */
  lemma {:induction false} ReplaceElsewhere(n: Node, p: Path, x: Node, r: Path)
    requires ValidPath(n, p)
    requires !(r <= p) && !(p <= r)
    ensures ValidPath(Replace(n, p, x), r) == ValidPath(n, r)
    ensures ValidPath(n, r) ==> At(Replace(n, p, x), r) == At(n, r)
    decreases |p|
  {
    assert p != [] && r != [];
    var m := Replace(n, p, x);
    assert |m.children| == |n.children|;
    if r[0] != p[0] {
      if r[0] < |n.children| {
        assert m.children[r[0]] == n.children[r[0]];
      }
    } else {
      ReplaceElsewhere(n.children[p[0]], p[1..], x, r[1..]);
    }
  }

  /** The ancestors of a replaced node keep their name, attributes and number of children. */
  lemma {:induction false} ReplaceAbove(n: Node, p: Path, x: Node, r: Path)
    requires ValidPath(n, p) && r < p
    ensures ValidPath(n, r) && ValidPath(Replace(n, p, x), r)
    ensures At(n, r).Elem? && At(Replace(n, p, x), r).Elem?
    ensures At(Replace(n, p, x), r).name == At(n, r).name
    ensures At(Replace(n, p, x), r).attrs == At(n, r).attrs
    ensures |At(Replace(n, p, x), r).children| == |At(n, r).children|
    decreases |r|
  {
    if r != [] {
      ReplaceAbove(n.children[p[0]], p[1..], x, r[1..]);
    }
  }

  lemma {:induction false} ReplaceTwice(n: Node, p: Path, x: Node, y: Node)
    requires ValidPath(n, p)
    ensures ValidPath(Replace(n, p, x), p)
    ensures Replace(Replace(n, p, x), p, y) == Replace(n, p, y)
    decreases |p|
  {
    ReplaceAt(n, p, x);
    if p != [] {
      ReplaceTwice(n.children[p[0]], p[1..], x, y);
    }
  }

  lemma {:induction false} ReplaceSame(n: Node, p: Path)
    requires ValidPath(n, p)
    ensures Replace(n, p, At(n, p)) == n
    decreases |p|
  {
    if p != [] {
      ReplaceSame(n.children[p[0]], p[1..]);
    }
  }

  lemma {:induction false} ReplaceConcat(n: Node, p: Path, s: Path, x: Node)
    requires ValidPath(n, p) && ValidPath(At(n, p), s)
    ensures ValidPath(n, p + s)
    ensures Replace(n, p + s, x) == Replace(n, p, Replace(At(n, p), s, x))
    decreases |p|
  {
    AtConcat(n, p, s);
    if p != [] {
      assert (p + s)[0] == p[0] && (p + s)[1..] == p[1..] + s;
      ReplaceConcat(n.children[p[0]], p[1..], s, x);
    } else {
      assert p + s == s;
    }
  }

  // ----- searches in document order -----

  /** Document.getElementsByTagName(..).item(0): the first match among the node and its descendants. */
  function FindFirst(n: Node, q: Query): (r: Option<Path>)
    ensures r.Some? ==> ValidPath(n, r.value) && Matches(At(n, r.value), q)
    decreases n, 2
  {
    if Matches(n, q) then Some([]) else FindFirstDesc(n, q)
  }

  /** Element.getElementsByTagName(..).item(0): the first match among the proper descendants. */
  function FindFirstDesc(n: Node, q: Query): (r: Option<Path>)
    ensures r.Some? ==> r.value != [] && ValidPath(n, r.value) && Matches(At(n, r.value), q)
    decreases n, 1
  {
    if n.Elem? then FindFirstIn(n, q, 0) else None
  }

  /** The first match inside the children of `n` from index `i` on. */
  function FindFirstIn(n: Node, q: Query, i: nat): (r: Option<Path>)
    requires n.Elem?
    ensures r.Some? ==> r.value != [] && i <= r.value[0] && ValidPath(n, r.value) && Matches(At(n, r.value), q)
    decreases n, 0, |n.children| - i
  {
    if i >= |n.children| then None
    else match FindFirst(n.children[i], q)
      case Some(p) =>
        assert ([i] + p)[0] == i && ([i] + p)[1..] == p;
        Some([i] + p)
      case None => FindFirstIn(n, q, i + 1)
  }

  /** The last match among the node and its descendants (the node itself comes first
      in document order, so it is the last match only when no descendant matches). */
  function FindLast(n: Node, q: Query): (r: Option<Path>)
    ensures r.Some? ==> ValidPath(n, r.value) && Matches(At(n, r.value), q)
    decreases n, 2
  {
    match FindLastDesc(n, q)
    case Some(p) => Some(p)
    case None => if Matches(n, q) then Some([]) else None
  }

  /** nodes.item(nodes.getLength() - 1) for nodes = Element.getElementsByTagName(..). */
  function FindLastDesc(n: Node, q: Query): (r: Option<Path>)
    ensures r.Some? ==> r.value != [] && ValidPath(n, r.value) && Matches(At(n, r.value), q)
    decreases n, 1
  {
    if n.Elem? then FindLastIn(n, q, |n.children|) else None
  }

  /** The last match inside the children of `n` before index `i`. */
  function FindLastIn(n: Node, q: Query, i: nat): (r: Option<Path>)
    requires n.Elem? && i <= |n.children|
    ensures r.Some? ==> r.value != [] && r.value[0] < i && ValidPath(n, r.value) && Matches(At(n, r.value), q)
    decreases n, 0, i
  {
    if i == 0 then None
    else match FindLast(n.children[i - 1], q)
      case Some(p) =>
        assert ([i - 1] + p)[0] == i - 1 && ([i - 1] + p)[1..] == p;
        Some([i - 1] + p)
      case None => FindLastIn(n, q, i - 1)
  }

  // ----- the searches find the extreme match in document order -----

  lemma {:induction false} FindFirstIsFirst(n: Node, q: Query)
    ensures FindFirst(n, q).Some? ==>
      forall r :: ValidPath(n, r) && Matches(At(n, r), q) ==> r == FindFirst(n, q).value || Precedes(FindFirst(n, q).value, r)
    ensures FindFirst(n, q).None? ==> forall r :: ValidPath(n, r) ==> !Matches(At(n, r), q)
    decreases n, 2
  {
    FindFirstDescIsFirst(n, q);
  }

  lemma {:induction false} FindFirstDescIsFirst(n: Node, q: Query)
    ensures FindFirstDesc(n, q).Some? ==>
      forall r :: r != [] && ValidPath(n, r) && Matches(At(n, r), q) ==> r == FindFirstDesc(n, q).value || Precedes(FindFirstDesc(n, q).value, r)
    ensures FindFirstDesc(n, q).None? ==> forall r :: r != [] && ValidPath(n, r) ==> !Matches(At(n, r), q)
    decreases n, 1
  {
    if n.Elem? {
      FindFirstInIsFirst(n, q, 0);
    }
  }

  lemma {:induction false} FindFirstInIsFirst(n: Node, q: Query, i: nat)
    requires n.Elem?
    ensures FindFirstIn(n, q, i).Some? ==>
      forall r :: r != [] && i <= r[0] && ValidPath(n, r) && Matches(At(n, r), q) ==> r == FindFirstIn(n, q, i).value || Precedes(FindFirstIn(n, q, i).value, r)
    ensures FindFirstIn(n, q, i).None? ==> forall r :: r != [] && i <= r[0] && ValidPath(n, r) ==> !Matches(At(n, r), q)
    decreases n, 0, |n.children| - i
  {
    if i < |n.children| {
      var c := n.children[i];
      FindFirstIsFirst(c, q);
      FindFirstInIsFirst(n, q, i + 1);
      match FindFirst(c, q)
      case Some(p) =>
        forall r | r != [] && i <= r[0] && ValidPath(n, r) && Matches(At(n, r), q)
          ensures r == [i] + p || Precedes([i] + p, r)
        {
          assert r == [r[0]] + r[1..];
          ConsPrecedes(i, p, r[0], r[1..]);
        }
      case None =>
        forall r | r != [] && i <= r[0] && ValidPath(n, r)
          ensures r[0] != i || !Matches(At(n, r), q)
        {
        }
    }
  }

  lemma {:induction false} FindLastIsLast(n: Node, q: Query)
    ensures FindLast(n, q).Some? ==>
      forall r :: ValidPath(n, r) && Matches(At(n, r), q) ==> r == FindLast(n, q).value || Precedes(r, FindLast(n, q).value)
    ensures FindLast(n, q).None? ==> forall r :: ValidPath(n, r) ==> !Matches(At(n, r), q)
    decreases n, 2
  {
    FindLastDescIsLast(n, q);
  }

  lemma {:induction false} FindLastDescIsLast(n: Node, q: Query)
    ensures FindLastDesc(n, q).Some? ==>
      forall r :: r != [] && ValidPath(n, r) && Matches(At(n, r), q) ==> r == FindLastDesc(n, q).value || Precedes(r, FindLastDesc(n, q).value)
    ensures FindLastDesc(n, q).None? ==> forall r :: r != [] && ValidPath(n, r) ==> !Matches(At(n, r), q)
    decreases n, 1
  {
    if n.Elem? {
      FindLastInIsLast(n, q, |n.children|);
    }
  }

  lemma {:induction false} FindLastInIsLast(n: Node, q: Query, i: nat)
    requires n.Elem? && i <= |n.children|
    ensures FindLastIn(n, q, i).Some? ==>
      forall r :: r != [] && r[0] < i && ValidPath(n, r) && Matches(At(n, r), q) ==> r == FindLastIn(n, q, i).value || Precedes(r, FindLastIn(n, q, i).value)
    ensures FindLastIn(n, q, i).None? ==> forall r :: r != [] && r[0] < i && ValidPath(n, r) ==> !Matches(At(n, r), q)
    decreases n, 0, i
  {
    if i > 0 {
      var c := n.children[i - 1];
      FindLastIsLast(c, q);
      FindLastInIsLast(n, q, i - 1);
      match FindLast(c, q)
      case Some(p) =>
        forall r | r != [] && r[0] < i && ValidPath(n, r) && Matches(At(n, r), q)
          ensures r == [i - 1] + p || Precedes(r, [i - 1] + p)
        {
          assert r == [r[0]] + r[1..];
          ConsPrecedes(r[0], r[1..], i - 1, p);
        }
      case None =>
        forall r | r != [] && r[0] < i && ValidPath(n, r)
          ensures r[0] != i - 1 || !Matches(At(n, r), q)
        {
        }
    }
  }

  /** Replacing the first match by another node that matches keeps it the first match. */
  lemma ReplaceKeepsFirstDesc(n: Node, q: Query, x: Node)
    requires FindFirstDesc(n, q).Some? && Matches(x, q)
    ensures ValidPath(n, FindFirstDesc(n, q).value)
    ensures FindFirstDesc(Replace(n, FindFirstDesc(n, q).value, x), q) == FindFirstDesc(n, q)
  {
    var p := FindFirstDesc(n, q).value;
    var m := Replace(n, p, x);
    ReplaceAt(n, p, x);
    FindFirstDescIsFirst(n, q);
    FindFirstDescIsFirst(m, q);
    var rv := FindFirstDesc(m, q).value;
    if rv != p {
      assert Precedes(rv, p);
      if rv < p {
        ReplaceAbove(n, p, x, rv);
        MatchesShallow(At(m, rv), At(n, rv), q);
        PrecedesAsymmetric(rv, p);
      } else if p < rv {
        AncestorPrecedes(p, rv);
        PrecedesAsymmetric(rv, p);
      } else {
        ReplaceElsewhere(n, p, x, rv);
        PrecedesAsymmetric(rv, p);
      }
    }
  }

  // ----- node lists -----

  /** The element's getElementsByTagName node list: the paths of all proper
      descendants that match, in document order. */
  function ElementsByTagName(n: Node, q: Query): seq<Path>
  {
    if n.Elem? then MatchesIn(n, q, 0) else []
  }

  /** The matches among the node itself and its descendants, in document order:
      Document.getElementsByTagName when `n` is the document element. */
  function MatchesBelow(n: Node, q: Query): seq<Path>
    decreases n, 1
  {
    (if Matches(n, q) then [[]] else []) + (if n.Elem? then MatchesIn(n, q, 0) else [])
  }

  /** The matches inside the children of `n` from index `i` on, in document order. */
  function MatchesIn(n: Node, q: Query, i: nat): seq<Path>
    requires n.Elem?
    decreases n, 0, |n.children| - i
  {
    if i >= |n.children| then []
    else Under(i, MatchesBelow(n.children[i], q)) + MatchesIn(n, q, i + 1)
  }

  function Under(i: nat, ps: seq<Path>): (r: seq<Path>)
    ensures |r| == |ps| && forall k :: 0 <= k < |ps| ==> r[k] == [i] + ps[k]
  {
    seq(|ps|, k requires 0 <= k < |ps| => [i] + ps[k])
  }

  predicate InDocumentOrder(ps: seq<Path>)
  {
    forall a, b :: 0 <= a < b < |ps| ==> Precedes(ps[a], ps[b])
  }

  /** The node list holds exactly the matching nodes, each once, in document order. */
  lemma {:induction false} MatchesBelowSpec(n: Node, q: Query)
    ensures forall r :: r in MatchesBelow(n, q) <==> ValidPath(n, r) && Matches(At(n, r), q)
    ensures InDocumentOrder(MatchesBelow(n, q))
    decreases n, 1
  {
    if n.Elem? {
      var rest := MatchesIn(n, q, 0);
      MatchesInSpec(n, q, 0);
      if Matches(n, q) {
        assert MatchesBelow(n, q) == [[]] + rest;
        RootFirst(rest);
      } else {
        assert MatchesBelow(n, q) == rest;
      }
    } else {
      assert MatchesBelow(n, q) == if Matches(n, q) then [[]] else [];
    }
  }

  /** The node itself comes before everything below it. */
  lemma RootFirst(rest: seq<Path>)
    requires InDocumentOrder(rest)
    requires forall r :: r in rest ==> r != []
    ensures InDocumentOrder([[]] + rest)
  {
    var ps: seq<Path> := [[]] + rest;
    forall a, b | 0 <= a < b < |ps| ensures Precedes(ps[a], ps[b]) {
      assert ps[b] == rest[b - 1] && ps[b] in rest;
      if a == 0 {
        assert ps[a] == [];
      } else {
        assert ps[a] == rest[a - 1];
      }
    }
  }

  lemma {:induction false} MatchesInSpec(n: Node, q: Query, i: nat)
    requires n.Elem?
    ensures forall r :: r in MatchesIn(n, q, i) <==> r != [] && i <= r[0] && ValidPath(n, r) && Matches(At(n, r), q)
    ensures InDocumentOrder(MatchesIn(n, q, i))
    decreases n, 0, |n.children| - i
  {
    if i < |n.children| {
      var head := Under(i, MatchesBelow(n.children[i], q));
      var tail := MatchesIn(n, q, i + 1);
      MatchesBelowSpec(n.children[i], q);
      MatchesInSpec(n, q, i + 1);
      UnderMembers(n, q, i, MatchesBelow(n.children[i], q));
      UnderOrder(i, MatchesBelow(n.children[i], q));
      assert MatchesIn(n, q, i) == head + tail;
      ConcatOrder(head, tail);
    }
  }

  lemma UnderMembers(n: Node, q: Query, i: nat, ps: seq<Path>)
    requires n.Elem? && i < |n.children|
    requires forall r :: r in ps <==> ValidPath(n.children[i], r) && Matches(At(n.children[i], r), q)
    ensures forall r :: r in Under(i, ps) <==> r != [] && r[0] == i && ValidPath(n, r) && Matches(At(n, r), q)
  {
    var c := n.children[i];
    forall r ensures r in Under(i, ps) <==> r != [] && r[0] == i && ValidPath(n, r) && Matches(At(n, r), q) {
      if r != [] && r[0] == i && ValidPath(n, r) && Matches(At(n, r), q) {
        assert ValidPath(c, r[1..]) && At(n, r) == At(c, r[1..]);
        assert r[1..] in ps;
        var k :| 0 <= k < |ps| && ps[k] == r[1..];
        assert Under(i, ps)[k] == r;
      }
      if r in Under(i, ps) {
        var k :| 0 <= k < |ps| && Under(i, ps)[k] == r;
        assert r[1..] == ps[k];
      }
    }
  }

  lemma UnderOrder(i: nat, ps: seq<Path>)
    requires InDocumentOrder(ps)
    ensures InDocumentOrder(Under(i, ps))
  {
    forall a, b | 0 <= a < b < |ps| ensures Precedes(Under(i, ps)[a], Under(i, ps)[b]) {
      ConsPrecedes(i, ps[a], i, ps[b]);
    }
  }

  /** Paths under an earlier child, followed by paths under later children, stay in document order. */
  lemma ConcatOrder(xs: seq<Path>, ys: seq<Path>)
    requires InDocumentOrder(xs) && InDocumentOrder(ys)
    requires forall x, y :: x in xs && y in ys ==> x != [] && y != [] && x[0] < y[0]
    ensures InDocumentOrder(xs + ys)
  {
    forall a, b | 0 <= a < b < |xs + ys| ensures Precedes((xs + ys)[a], (xs + ys)[b]) {
      if b < |xs| {
        assert (xs + ys)[a] == xs[a] && (xs + ys)[b] == xs[b];
      } else if a < |xs| {
        assert (xs + ys)[a] in xs && (xs + ys)[b] in ys;
      } else {
        assert (xs + ys)[a] == ys[a - |xs|] && (xs + ys)[b] == ys[b - |xs|];
      }
    }
  }

  lemma ElementsByTagNameSpec(n: Node, q: Query)
    ensures forall r :: r in ElementsByTagName(n, q) <==> r != [] && ValidPath(n, r) && Matches(At(n, r), q)
    ensures forall k :: 0 <= k < |ElementsByTagName(n, q)| ==>
      ElementsByTagName(n, q)[k] != [] && ValidPath(n, ElementsByTagName(n, q)[k]) && Matches(At(n, ElementsByTagName(n, q)[k]), q)
    ensures InDocumentOrder(ElementsByTagName(n, q))
  {
    if n.Elem? {
      MatchesInSpec(n, q, 0);
    }
    var ps := ElementsByTagName(n, q);
    forall k | 0 <= k < |ps| ensures ps[k] != [] && ValidPath(n, ps[k]) && Matches(At(n, ps[k]), q) {
      assert ps[k] in ps;
    }
  }

  lemma DocumentElementsSpec(n: Node, q: Query)
    ensures forall k :: 0 <= k < |MatchesBelow(n, q)| ==>
      ValidPath(n, MatchesBelow(n, q)[k]) && Matches(At(n, MatchesBelow(n, q)[k]), q)
  {
    MatchesBelowSpec(n, q);
    var ps := MatchesBelow(n, q);
    forall k | 0 <= k < |ps| ensures ValidPath(n, ps[k]) && Matches(At(n, ps[k]), q) {
      assert ps[k] in ps;
    }
  }

  /** In a list in document order, an element that precedes every other one is the head. */
  lemma HeadIsLeast(ps: seq<Path>, f: Path)
    requires InDocumentOrder(ps) && f in ps
    requires forall r :: r in ps ==> r == f || Precedes(f, r)
    ensures ps[0] == f
  {
    var k :| 0 <= k < |ps| && ps[k] == f;
    if k > 0 {
      assert ps[0] in ps;
      PrecedesAsymmetric(ps[0], f);
    }
  }

  lemma LastIsGreatest(ps: seq<Path>, f: Path)
    requires InDocumentOrder(ps) && f in ps
    requires forall r :: r in ps ==> r == f || Precedes(r, f)
    ensures ps[|ps| - 1] == f
  {
    var k :| 0 <= k < |ps| && ps[k] == f;
    if k < |ps| - 1 {
      assert ps[|ps| - 1] in ps;
      PrecedesAsymmetric(ps[|ps| - 1], f);
    }
  }

  /** The two descriptions of Element.getElementsByTagName agree: the node list is
      empty exactly when the searches find nothing, and otherwise its first item is
      what FindFirstDesc finds and its last item what FindLastDesc finds. */
  lemma {:induction false} NodeListEnds(n: Node, q: Query)
    ensures ElementsByTagName(n, q) == [] <==> FindFirstDesc(n, q).None?
    ensures ElementsByTagName(n, q) == [] <==> FindLastDesc(n, q).None?
    ensures ElementsByTagName(n, q) != [] ==>
      FindFirstDesc(n, q) == Some(ElementsByTagName(n, q)[0]) &&
      FindLastDesc(n, q) == Some(ElementsByTagName(n, q)[|ElementsByTagName(n, q)| - 1])
  {
    var ps := ElementsByTagName(n, q);
    ElementsByTagNameSpec(n, q);
    FindFirstDescIsFirst(n, q);
    FindLastDescIsLast(n, q);
    if ps != [] {
      assert ps[0] in ps;
      HeadIsLeast(ps, FindFirstDesc(n, q).value);
      LastIsGreatest(ps, FindLastDesc(n, q).value);
    }
  }

  /** The same for Document.getElementsByTagName and FindFirst/FindLast. */
  lemma {:induction false} DocumentNodeListEnds(n: Node, q: Query)
    ensures MatchesBelow(n, q) == [] <==> FindFirst(n, q).None?
    ensures MatchesBelow(n, q) != [] ==>
      FindFirst(n, q) == Some(MatchesBelow(n, q)[0]) &&
      FindLast(n, q) == Some(MatchesBelow(n, q)[|MatchesBelow(n, q)| - 1])
  {
    var ps := MatchesBelow(n, q);
    MatchesBelowSpec(n, q);
    FindFirstIsFirst(n, q);
    FindLastIsLast(n, q);
    if ps != [] {
      assert ps[0] in ps;
      HeadIsLeast(ps, FindFirst(n, q).value);
      LastIsGreatest(ps, FindLast(n, q).value);
    }
  }

  /** The node at `p` exists and its attribute `key` is `value`. */
  predicate HasAttr(n: Node, p: Path, key: string, value: string)
  {
    ValidPath(n, p) && Attr(At(n, p), key) == value
  }

  /** Scanning the node list of `tag` elements for the first one whose attribute `key`
      equals `value` finds what FindFirstDesc finds for the combined query. */
  lemma FirstWithAttribute(n: Node, tag: string, key: string, value: string, i: nat)
    requires i <= |ElementsByTagName(n, Named(tag))|
    requires forall k :: 0 <= k < i ==> !HasAttr(n, ElementsByTagName(n, Named(tag))[k], key, value)
    ensures i < |ElementsByTagName(n, Named(tag))| && HasAttr(n, ElementsByTagName(n, Named(tag))[i], key, value)
      ==> FindFirstDesc(n, NamedWith(tag, key, value)) == Some(ElementsByTagName(n, Named(tag))[i])
    ensures i == |ElementsByTagName(n, Named(tag))| ==> FindFirstDesc(n, NamedWith(tag, key, value)).None?
  {
    var ps := ElementsByTagName(n, Named(tag));
    var q := NamedWith(tag, key, value);
    ElementsByTagNameSpec(n, Named(tag));
    FindFirstDescIsFirst(n, q);
    if FindFirstDesc(n, q).Some? {
      var f := FindFirstDesc(n, q).value;
      assert f in ps;
      var j :| 0 <= j < |ps| && ps[j] == f;
      if i < |ps| && HasAttr(n, ps[i], key, value) {
        assert Matches(At(n, ps[i]), q);
        if j > i {
          PrecedesAsymmetric(ps[i], f);
        }
      }
    }
  }

  // ----- size, a termination measure for rewrites that copy subtrees -----

  function Size(n: Node): nat
  {
    match n
    case Elem(_, _, cs) => 1 + SizeSeq(cs)
    case _ => 1
  }

  function SizeSeq(cs: seq<Node>): (r: nat)
    ensures forall i :: 0 <= i < |cs| ==> Size(cs[i]) <= r
  {
    if cs == [] then 0 else Size(cs[0]) + SizeSeq(cs[1..])
  }

  lemma {:induction false} SizeAtDescendant(n: Node, p: Path)
    requires ValidPath(n, p) && p != []
    ensures Size(At(n, p)) < Size(n)
    decreases |p|
  {
    if p[1..] != [] {
      SizeAtDescendant(n.children[p[0]], p[1..]);
    }
  }
}
