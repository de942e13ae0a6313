/**
 * The DITA map helpers of TestUtils: appending a topic reference to a map and
 * removing the first reference to a topic again.  The map file is given as its
 * parsed document element; whether the map and the topic exist as regular files,
 * and the path of the topic relative to the map's folder, are inputs.
 */
module DitaMap {
  import opened Wrappers
  import opened Dom

  /** The exceptions the helpers throw, one per failure. */
  datatype MapError =
    | MapFileMissing    // the map path is not an existing regular file
    | TopicFileMissing  // the topic path is not an existing regular file
    | NotAMap           // the document element is not named "map"
    | TopicRefNotFound  // no topicref below the map has the relative path as its href
    | NotAChildOfMap    // the first such topicref is nested deeper, so removeChild on the map fails

  /** String.replace('\\', '/'). */
  function ForwardSlashes(s: string): (r: string)
    ensures |r| == |s|
    ensures forall i :: 0 <= i < |s| ==> r[i] == (if s[i] == '\\' then '/' else s[i])
    ensures '\\' !in r
    ensures '\\' !in s ==> r == s
  {
    if s == [] then [] else [if s[0] == '\\' then '/' else s[0]] + ForwardSlashes(s[1..])
  }

  predicate IsMap(doc: Node)
  {
    doc.Elem? && doc.name == "map"
  }

  function TopicRef(href: string): Node
  {
    Elem("topicref", map["href" := href], [])
  }

  /** No topicref below the map refers to the relative path. */
  ghost predicate Unreferenced(doc: Node, relativePath: string)
  {
    forall p :: p != [] && ValidPath(doc, p) ==> !Matches(At(doc, p), RefTo(relativePath))
  }

  /** What removeTopicRefFromDitaMap looks for. */
  function RefTo(relativePath: string): Query
  {
    NamedWith("topicref", "href", relativePath)
  }

  /** The three nodes addTopicRefToDitaMap appends to the map element. */
  function Appended(relativePath: string): seq<Node>
  {
    [Text("\n  "), TopicRef(relativePath), Text("\n")]
  }

  /** addTopicRefToDitaMap on the parsed map `doc`: the map as it is written back. */
  function AddTopicRefToDitaMap(mapIsFile: bool, topicIsFile: bool, doc: Node, relativized: string): (r: Result<Node, MapError>)
    ensures r.Err? <==> !mapIsFile || !topicIsFile || !IsMap(doc)
    ensures r == Err(MapFileMissing) <==> !mapIsFile
    ensures r == Err(TopicFileMissing) <==> mapIsFile && !topicIsFile
    ensures r == Err(NotAMap) <==> mapIsFile && topicIsFile && !IsMap(doc)
    ensures r.Ok? ==> IsMap(r.value) && r.value.attrs == doc.attrs
    ensures r.Ok? ==> r.value.children == doc.children + Appended(ForwardSlashes(relativized))
  {
    if !mapIsFile then Err(MapFileMissing)
    else if !topicIsFile then Err(TopicFileMissing)
    else
      var relativePath := ForwardSlashes(relativized);
      if !IsMap(doc) then Err(NotAMap)
      else Ok(Elem(doc.name, doc.attrs, doc.children + Appended(relativePath)))
  }

  /** The map's old children come first, unchanged; then come a "\n  " text node, the new
      reference, carrying the relative path with forward slashes, and a "\n" text node.
      The new reference is the last topicref of the map in document order. */
  lemma AddAppendsLastTopicRef(mapIsFile: bool, topicIsFile: bool, doc: Node, relativized: string)
    requires AddTopicRefToDitaMap(mapIsFile, topicIsFile, doc, relativized).Ok?
    ensures var m := AddTopicRefToDitaMap(mapIsFile, topicIsFile, doc, relativized).value;
      |m.children| == |doc.children| + 3 && m.children[..|doc.children|] == doc.children &&
      m.children[|doc.children|] == Text("\n  ") && m.children[|doc.children| + 2] == Text("\n") &&
      FindLastDesc(m, Named("topicref")) == Some([|doc.children| + 1]) &&
      At(m, [|doc.children| + 1]) == TopicRef(ForwardSlashes(relativized))
  {
    var m := AddTopicRefToDitaMap(mapIsFile, topicIsFile, doc, relativized).value;
    var k := |doc.children| + 1;
    assert m.children[..|doc.children|] == doc.children;
    assert m.children[k] == TopicRef(ForwardSlashes(relativized)) && m.children[k + 1] == Text("\n");
    assert [k][1..] == [] && At(m, [k]) == m.children[k];
    assert ValidPath(m, [k]) && Matches(At(m, [k]), Named("topicref"));
    FindLastDescIsLast(m, Named("topicref"));
    forall r | r != [] && ValidPath(m, r) && Matches(At(m, r), Named("topicref"))
      ensures r == [k] || Precedes(r, [k])
    {
      assert r == [r[0]] + r[1..] && ValidPath(m.children[r[0]], r[1..]);
      assert At(m, r) == At(m.children[r[0]], r[1..]);
    }
    var f := FindLastDesc(m, Named("topicref")).value;
    PrecedesAsymmetric(f, [k]);
  }

  /** The children left after removing child `i`, and the whitespace-only text node
      right before it when there is one. */
  function WithoutChild(cs: seq<Node>, i: nat): (r: seq<Node>)
    requires i < |cs|
    ensures |r| == |cs| - 1 || |r| == |cs| - 2
  {
    if 0 < i && cs[i - 1].Text? && Blank(cs[i - 1].data) then cs[..i - 1] + cs[i + 1..]
    else cs[..i] + cs[i + 1..]
  }

  /** text.trim().isEmpty(): trim strips every character up to U+0020. */
  predicate Blank(s: string)
  {
    forall k :: 0 <= k < |s| ==> s[k] <= ' '
  }

  /** removeTopicRefFromDitaMap on the parsed map `doc`: the map as it is written back. */
  function TopicRefRemoved(mapIsFile: bool, doc: Node, relativized: string): Result<Node, MapError>
  {
    if !mapIsFile then Err(MapFileMissing)
    else
      var relativePath := ForwardSlashes(relativized);
      if !IsMap(doc) then Err(NotAMap)
      else match FindFirstDesc(doc, RefTo(relativePath))
        case None => Err(TopicRefNotFound)
        case Some(p) =>
          if |p| != 1 then Err(NotAChildOfMap)
          else Ok(Elem(doc.name, doc.attrs, WithoutChild(doc.children, p[0])))
  }

  /** The search loop of removeTopicRefFromDitaMap over the map's topicref node list. */
  method FindTopicRef(mapElement: Node, relativePath: string) returns (toRemove: Option<Path>)
    ensures toRemove == FindFirstDesc(mapElement, RefTo(relativePath))
  {
    var topicrefs := ElementsByTagName(mapElement, Named("topicref"));
    ElementsByTagNameSpec(mapElement, Named("topicref"));
    toRemove := None;
    var i := 0;
    while i < |topicrefs| && toRemove.None?
      invariant 0 <= i <= |topicrefs|
      invariant forall k :: 0 <= k < i && (toRemove.None? || k < i - 1) ==> !HasAttr(mapElement, topicrefs[k], "href", relativePath)
      invariant toRemove.Some? ==> 0 < i && toRemove.value == topicrefs[i - 1] && HasAttr(mapElement, topicrefs[i - 1], "href", relativePath)
    {
      var href := Attr(At(mapElement, topicrefs[i]), "href");
      if href == relativePath {
        toRemove := Some(topicrefs[i]);
      }
      i := i + 1;
    }
    if toRemove.Some? {
      FirstWithAttribute(mapElement, "topicref", "href", relativePath, i - 1);
    } else {
      FirstWithAttribute(mapElement, "topicref", "href", relativePath, i);
    }
  }

  /** removeTopicRefFromDitaMap, step by step as the Java helper takes it. */
  method RemoveTopicRefFromDitaMap(mapIsFile: bool, doc: Node, relativized: string) returns (r: Result<Node, MapError>)
    ensures r == TopicRefRemoved(mapIsFile, doc, relativized)
  {
    if !mapIsFile {
      return Err(MapFileMissing);
    }
    var relativePath := ForwardSlashes(relativized);
    if !IsMap(doc) {
      return Err(NotAMap);
    }
    var toRemove := FindTopicRef(doc, relativePath);
    if toRemove.None? {
      return Err(TopicRefNotFound);
    }
    var p := toRemove.value;
    if |p| != 1 {
      // the node (or the text before it) is not a child of the map: removeChild throws
      return Err(NotAChildOfMap);
    }
    var children := doc.children;
    var i := p[0];
    if 0 < i && children[i - 1].Text? && Blank(children[i - 1].data) {
      children := children[..i - 1] + children[i..];
      i := i - 1;
    }
    children := children[..i] + children[i + 1..];
    assert children == WithoutChild(doc.children, p[0]);
    r := Ok(Elem(doc.name, doc.attrs, children));
  }

  /** `p` is the first topicref below the map, in document order, that `q` matches. */
  ghost predicate FirstMatch(doc: Node, q: Query, p: Path)
  {
    p != [] && ValidPath(doc, p) && Matches(At(doc, p), q) &&
    forall r :: r != [] && ValidPath(doc, r) && Matches(At(doc, r), q) ==> r == p || Precedes(p, r)
  }

  /** The first match found by the search is the only first match there is. */
  lemma FirstMatchIsFound(doc: Node, q: Query, p: Path)
    requires FirstMatch(doc, q, p)
    ensures FindFirstDesc(doc, q) == Some(p)
  {
    FindFirstDescIsFirst(doc, q);
    var f := FindFirstDesc(doc, q).value;
    PrecedesAsymmetric(f, p);
  }

  /** The removal fails exactly in these cases, checked in this order, and succeeds
      exactly when the first matching topicref is a child of the map. */
  lemma RemoveErrors(mapIsFile: bool, doc: Node, relativized: string)
    ensures TopicRefRemoved(mapIsFile, doc, relativized) == Err(MapFileMissing) <==> !mapIsFile
    ensures TopicRefRemoved(mapIsFile, doc, relativized) == Err(NotAMap) <==> mapIsFile && !IsMap(doc)
    ensures TopicRefRemoved(mapIsFile, doc, relativized) == Err(TopicRefNotFound) <==>
      mapIsFile && IsMap(doc) && Unreferenced(doc, ForwardSlashes(relativized))
    ensures TopicRefRemoved(mapIsFile, doc, relativized) == Err(NotAChildOfMap) <==>
      mapIsFile && IsMap(doc) && exists p :: |p| > 1 && FirstMatch(doc, RefTo(ForwardSlashes(relativized)), p)
    ensures TopicRefRemoved(mapIsFile, doc, relativized).Ok? <==>
      mapIsFile && IsMap(doc) && exists i: nat :: FirstMatch(doc, RefTo(ForwardSlashes(relativized)), [i])
  {
    var q := RefTo(ForwardSlashes(relativized));
    FindFirstDescIsFirst(doc, q);
    if FindFirstDesc(doc, q).Some? {
      var p := FindFirstDesc(doc, q).value;
      assert p != [] && ValidPath(doc, p) && Matches(At(doc, p), q);
      assert FirstMatch(doc, q, p);
      if |p| == 1 {
        assert p == [p[0]];
      }
      forall p' | FirstMatch(doc, q, p') ensures p' == p {
        FirstMatchIsFound(doc, q, p');
      }
    } else {
      forall p' | FirstMatch(doc, q, p') ensures false {
        FirstMatchIsFound(doc, q, p');
      }
    }
  }

  /** On success the removed node is the first topicref in document order whose href is
      the relative path; it was a child of the map, and the other children keep their order. */
  lemma RemoveFirstReference(mapIsFile: bool, doc: Node, relativized: string)
    requires TopicRefRemoved(mapIsFile, doc, relativized).Ok?
    ensures var q := RefTo(ForwardSlashes(relativized));
      var m := TopicRefRemoved(mapIsFile, doc, relativized).value;
      exists i :: 0 <= i < |doc.children| && Matches(doc.children[i], q) &&
        (forall p :: p != [] && ValidPath(doc, p) && Matches(At(doc, p), q) ==> p == [i] || Precedes([i], p)) &&
        m == Elem("map", doc.attrs, WithoutChild(doc.children, i))
  {
    var q := RefTo(ForwardSlashes(relativized));
    FindFirstDescIsFirst(doc, q);
    var p := FindFirstDesc(doc, q).value;
    assert p == [p[0]] && [p[0]][1..] == [];
    assert At(doc, p) == doc.children[p[0]];
  }

  // ----- adding and removing through the map file -----

  /** No two text nodes are adjacent, as in every element the XML parser builds. */
  predicate NoAdjacentText(cs: seq<Node>)
  {
    forall i :: 0 < i < |cs| ==> !(cs[i - 1].Text? && cs[i].Text?)
  }

  /** One more child after children already parsed: a text node joins a text node
      before it. */
  function JoinText(init: seq<Node>, x: Node): (r: seq<Node>)
    requires NoAdjacentText(init)
    ensures r != [] && |r| <= |init| + 1 && NoAdjacentText(r)
  {
    if init != [] && init[|init| - 1].Text? && x.Text? then
      init[..|init| - 1] + [Text(init[|init| - 1].data + x.data)]
    else init + [x]
  }

  /** What writing a list of children out and parsing it again gives: adjacent text
      nodes become one. */
  function MergeAdjacentText(cs: seq<Node>): (r: seq<Node>)
    ensures |r| <= |cs| && (r == [] <==> cs == [])
    ensures NoAdjacentText(r)
    decreases |cs|
  {
    if cs == [] then [] else JoinText(MergeAdjacentText(cs[..|cs| - 1]), cs[|cs| - 1])
  }

  /** Parsing one more child. */
  lemma MergeSnoc(cs: seq<Node>, x: Node)
    ensures MergeAdjacentText(cs + [x]) == JoinText(MergeAdjacentText(cs), x)
  {
    assert (cs + [x])[..|cs|] == cs;
  }

  /** The map file as removeTopicRefFromDitaMap parses it after addTopicRefToDitaMap
      wrote `m` out.  Only the map's own children can hold adjacent text nodes: the
      elements below them come from the parser already. */
  function Reparsed(m: Node): Node
  {
    if m.Elem? then Elem(m.name, m.attrs, MergeAdjacentText(m.children)) else m
  }

  /** Parsing children that hold no adjacent text nodes changes nothing. */
  lemma {:induction false} MergeOfMerged(cs: seq<Node>)
    requires NoAdjacentText(cs)
    ensures MergeAdjacentText(cs) == cs
    decreases |cs|
  {
    if cs != [] {
      var init := cs[..|cs| - 1];
      assert NoAdjacentText(init) by {
        forall i | 0 < i < |init| ensures !(init[i - 1].Text? && init[i].Text?) {
          assert init[i - 1] == cs[i - 1] && init[i] == cs[i];
        }
      }
      MergeOfMerged(init);
      assert init != [] ==> init[|init| - 1] == cs[|cs| - 2];
      assert cs == init + [cs[|cs| - 1]];
    }
  }

  /** An element child is never joined to anything. */
  lemma MergeElement(cs: seq<Node>, x: Node)
    requires !x.Text?
    ensures MergeAdjacentText(cs + [x]) == MergeAdjacentText(cs) + [x]
  {
    MergeSnoc(cs, x);
  }

  /** A child after an element child is not joined to it. */
  lemma MergeAfterElement(cs: seq<Node>, x: Node)
    requires cs != [] && !MergeAdjacentText(cs)[|MergeAdjacentText(cs)| - 1].Text?
    ensures MergeAdjacentText(cs + [x]) == MergeAdjacentText(cs) + [x]
  {
    MergeSnoc(cs, x);
  }

  /** Three children after parsed children, the middle one an element. */
  lemma MergeThree(cs: seq<Node>, t1: Node, ref: Node, t2: Node)
    requires NoAdjacentText(cs) && !ref.Text?
    ensures MergeAdjacentText(cs + [t1] + [ref] + [t2]) == JoinText(cs, t1) + [ref] + [t2]
  {
    var c1 := cs + [t1];
    var c2 := c1 + [ref];
    MergeOfMerged(cs);
    MergeSnoc(cs, t1);
    MergeElement(c1, ref);
    MergeAfterElement(c2, t2);
  }

  /** The last child joined on: the children before it are kept, and the text it
      joins is the last one of them when that is a text node. */
  lemma JoinTextLast(cs: seq<Node>, d: string)
    requires NoAdjacentText(cs)
    ensures var joins := cs != [] && cs[|cs| - 1].Text?;
      var j := JoinText(cs, Text(d));
      |j| == (if joins then |cs| else |cs| + 1) &&
      j[..|j| - 1] == (if joins then cs[..|cs| - 1] else cs) &&
      j[|j| - 1] == Text(if joins then cs[|cs| - 1].data + d else d)
  {
    var j := JoinText(cs, Text(d));
    if cs != [] && cs[|cs| - 1].Text? {
      assert j == cs[..|cs| - 1] + [Text(cs[|cs| - 1].data + d)];
    } else {
      assert j == cs + [Text(d)];
    }
  }

  /** The map addTopicRefToDitaMap wrote, as the next parse reads it. */
  lemma ReparsedAdded(doc: Node, relativized: string)
    requires IsMap(doc) && NoAdjacentText(doc.children)
    ensures Reparsed(AddTopicRefToDitaMap(true, true, doc, relativized).value) ==
      Elem("map", doc.attrs, JoinText(doc.children, Text("\n  ")) + [TopicRef(ForwardSlashes(relativized))] + [Text("\n")])
  {
    var cs := doc.children;
    var t1, ref, t2 := Text("\n  "), TopicRef(ForwardSlashes(relativized)), Text("\n");
    assert AddTopicRefToDitaMap(true, true, doc, relativized).value.children == cs + [t1] + [ref] + [t2];
    MergeThree(cs, t1, ref, t2);
  }

  /** When `m` keeps the first k - 1 children of `doc` and then has a text node, one
      childless element matching `q` and another text node, that element is the first
      match in `m`, provided nothing below `doc` matches. */
  lemma OnlyMatchAt(doc: Node, m: Node, k: nat, q: Query)
    requires doc.Elem? && m.Elem? && 0 < k <= |doc.children| + 1 && |m.children| == k + 2
    requires m.children[..k - 1] == doc.children[..k - 1]
    requires m.children[k - 1].Text? && m.children[k + 1].Text?
    requires Matches(m.children[k], q) && m.children[k].children == []
    requires forall p :: p != [] && ValidPath(doc, p) ==> !Matches(At(doc, p), q)
    ensures FindFirstDesc(m, q) == Some([k])
  {
    var a := Elem(doc.name, doc.attrs, doc.children[..k - 1]);
    assert a.children <= m.children && a.children <= doc.children;
    assert [k][1..] == [] && At(m, [k]) == m.children[k] && ValidPath(m, [k]);
    forall r | r != [] && ValidPath(m, r) && Matches(At(m, r), q)
      ensures r == [k]
    {
      assert r == [r[0]] + r[1..] && ValidPath(m.children[r[0]], r[1..]);
      assert At(m, r) == At(m.children[r[0]], r[1..]);
      LongerChildren(a, m, r);
      LongerChildren(a, doc, r);
    }
    FindFirstDescIsFirst(m, q);
  }

  /** The children the map has after a reference is added, the file written and parsed
      again, and the reference removed. */
  function RoundTripChildren(cs: seq<Node>): seq<Node>
  {
    if cs != [] && cs[|cs| - 1].Text? then
      if Blank(cs[|cs| - 1].data) then cs[..|cs| - 1] + [Text("\n")]
      else cs[..|cs| - 1] + [Text(cs[|cs| - 1].data + "\n  "), Text("\n")]
    else cs + [Text("\n")]
  }

  /** Adding a reference to a map that had none, writing and parsing the file again and
      then removing the reference gives back the map's children, with a "\n" text node
      at the end: it replaces a blank text node that ended the map, and follows any other
      last child (a non-blank text node that ended the map keeps the "\n  " joined to it). */
  lemma AddThenRemove(doc: Node, relativized: string)
    requires IsMap(doc) && NoAdjacentText(doc.children)
    requires Unreferenced(doc, ForwardSlashes(relativized))
    ensures TopicRefRemoved(true, Reparsed(AddTopicRefToDitaMap(true, true, doc, relativized).value), relativized)
      == Ok(Elem("map", doc.attrs, RoundTripChildren(doc.children)))
  {
    var rel := ForwardSlashes(relativized);
    var j := JoinText(doc.children, Text("\n  "));
    ReparsedAdded(doc, relativized);
    FoundAdded(doc, rel);
    RemoveAdded(doc.children, TopicRef(rel));
    RemovedWhenFound(Elem("map", doc.attrs, j + [TopicRef(rel)] + [Text("\n")]), relativized, |j|);
  }

  /** In the re-parsed map the search finds the reference just added. */
  lemma FoundAdded(doc: Node, rel: string)
    requires IsMap(doc) && NoAdjacentText(doc.children)
    requires Unreferenced(doc, rel)
    ensures var j := JoinText(doc.children, Text("\n  "));
      FindFirstDesc(Elem("map", doc.attrs, j + [TopicRef(rel)] + [Text("\n")]), RefTo(rel)) == Some([|j|])
  {
    var cs := doc.children;
    var j := JoinText(cs, Text("\n  "));
    var m := Elem("map", doc.attrs, j + [TopicRef(rel)] + [Text("\n")]);
    JoinTextLast(cs, "\n  ");
    var k := |j|;
    assert m.children[..k - 1] == j[..k - 1] && m.children[k - 1] == j[k - 1];
    assert m.children[k] == TopicRef(rel) && m.children[k + 1] == Text("\n");
    if cs != [] && cs[|cs| - 1].Text? {
      OnlyMatchAt(doc, m, k, RefTo(rel));
    } else {
      assert cs[..k - 1] == cs;
      OnlyMatchAt(doc, m, k, RefTo(rel));
    }
  }

  /** The removal once the search found a child of the map. */
  lemma RemovedWhenFound(m: Node, relativized: string, k: nat)
    requires IsMap(m) && FindFirstDesc(m, RefTo(ForwardSlashes(relativized))) == Some([k])
    ensures k < |m.children|
    ensures TopicRefRemoved(true, m, relativized) == Ok(Elem(m.name, m.attrs, WithoutChild(m.children, k)))
  {
  }

  /** Removing the reference from the re-parsed children. */
  lemma RemoveAdded(cs: seq<Node>, ref: Node)
    requires NoAdjacentText(cs)
    ensures var j := JoinText(cs, Text("\n  "));
      WithoutChild(j + [ref] + [Text("\n")], |j|) == RoundTripChildren(cs)
  {
    var j := JoinText(cs, Text("\n  "));
    var ms := j + [ref] + [Text("\n")];
    var k := |j|;
    JoinTextLast(cs, "\n  ");
    assert ms[..k - 1] == j[..k - 1] && ms[k - 1] == j[k - 1] && ms[k + 1..] == [Text("\n")];
    if cs != [] && cs[|cs| - 1].Text? {
      RemoveJoined(ms, k, cs[..k - 1], cs[k - 1].data + "\n  ");
      BlankJoin(cs[k - 1].data);
    } else {
      RemoveJoined(ms, k, cs, "\n  ");
      BlankJoin("");
    }
  }

  /** Removing the child at `k`, which follows the text node `Text(d)`. */
  lemma RemoveJoined(cs: seq<Node>, k: nat, pre: seq<Node>, d: string)
    requires 0 < k < |cs| && cs[..k - 1] == pre && cs[k - 1] == Text(d)
    ensures WithoutChild(cs, k) == if Blank(d) then pre + cs[k + 1..] else pre + [Text(d)] + cs[k + 1..]
  {
    assert cs[..k] == pre + [Text(d)];
  }

  /** A text node with "\n  " joined to it is blank exactly when it was blank before. */
  lemma BlankJoin(s: string)
    ensures Blank(s + "\n  ") == Blank(s)
  {
    var t := s + "\n  ";
    assert t[|s|] == '\n' && t[|s| + 1] == ' ' && t[|s| + 2] == ' ';
    assert forall k :: 0 <= k < |s| ==> t[k] == s[k];
  }

  /** For a map whose children end in a "\n" text node, as a pretty-printed map's do,
      the round trip gives back the same map. */
  lemma AddThenRemoveRestores(doc: Node, relativized: string)
    requires IsMap(doc) && NoAdjacentText(doc.children)
    requires Unreferenced(doc, ForwardSlashes(relativized))
    requires doc.children != [] && doc.children[|doc.children| - 1] == Text("\n")
    ensures TopicRefRemoved(true, Reparsed(AddTopicRefToDitaMap(true, true, doc, relativized).value), relativized) == Ok(doc)
  {
    AddThenRemove(doc, relativized);
    var cs := doc.children;
    assert "\n"[0] == '\n' && Blank("\n");
    assert cs[..|cs| - 1] + [Text("\n")] == cs;
  }
}
