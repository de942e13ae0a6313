/**
 * The DITA topic helper of TestUtils: appending a text node to the last paragraph of
 * a topic's body.  The topic file is given as its parsed document element; whether
 * it exists as a regular file is an input.
 */
module DitaTopic {
  import opened Wrappers
  import opened Dom

  /** The exceptions insertTextInLastParagraph throws, one per failure. */
  datatype TopicError =
    | TopicFileMissing  // the topic path is not an existing regular file
    | EmptyText         // the text to insert is empty
    | NoBody            // no body, conbody or taskbody element in the document
    | NoParagraph       // no p element below the body element

  /** The body element names of topics, concepts and tasks, in the order they are tried. */
  const BodyTypes: seq<string> := ["body", "conbody", "taskbody"]

  /** findBodyElement from the body type at index `k` on: the first element, in document
      order, of the first body type that occurs in the document. */
  function BodyElementFrom(doc: Node, k: nat): (r: Option<Path>)
    ensures r.Some? ==> ValidPath(doc, r.value) && At(doc, r.value).Elem?
    decreases |BodyTypes| - k
  {
    if k >= |BodyTypes| then None
    else
      var nodes := MatchesBelow(doc, Named(BodyTypes[k]));
      DocumentElementsSpec(doc, Named(BodyTypes[k]));
      if |nodes| > 0 then Some(nodes[0]) else BodyElementFrom(doc, k + 1)
  }

  function BodyElement(doc: Node): Option<Path>
  {
    BodyElementFrom(doc, 0)
  }

  /** findBodyElement, as the loop over the body types that the Java helper runs. */
  method FindBodyElement(doc: Node) returns (body: Option<Path>)
    ensures body == BodyElement(doc)
  {
    var bodyTypes := BodyTypes;
    for k := 0 to |bodyTypes|
      invariant BodyElementFrom(doc, k) == BodyElement(doc)
    {
      var nodes := MatchesBelow(doc, Named(bodyTypes[k]));
      if |nodes| > 0 {
        return Some(nodes[0]);
      }
    }
    return None;
  }

  /** No element named `tag` anywhere in the document. */
  ghost predicate Absent(doc: Node, tag: string)
  {
    forall r :: ValidPath(doc, r) ==> !Matches(At(doc, r), Named(tag))
  }

  /** `p` is the first element named `tag` in document order. */
  ghost predicate FirstNamed(doc: Node, tag: string, p: Path)
  {
    ValidPath(doc, p) && Matches(At(doc, p), Named(tag)) &&
    forall r :: ValidPath(doc, r) && Matches(At(doc, r), Named(tag)) ==> r == p || Precedes(p, r)
  }

  /** The body types are tried in priority order, whatever the document order: the
      result is the first element of the first body type present, and there is none
      exactly when no body type occurs. */
  lemma {:induction false} BodyElementFromSpec(doc: Node, k: nat)
    ensures BodyElementFrom(doc, k).None? <==> forall j :: k <= j < |BodyTypes| ==> Absent(doc, BodyTypes[j])
    ensures BodyElementFrom(doc, k).Some? ==>
      exists j :: k <= j < |BodyTypes| && FirstNamed(doc, BodyTypes[j], BodyElementFrom(doc, k).value) &&
        forall i :: k <= i < j ==> Absent(doc, BodyTypes[i])
    decreases |BodyTypes| - k
  {
    if k < |BodyTypes| {
      var q := Named(BodyTypes[k]);
      DocumentNodeListEnds(doc, q);
      FindFirstIsFirst(doc, q);
      BodyElementFromSpec(doc, k + 1);
      if MatchesBelow(doc, q) != [] {
        assert FirstNamed(doc, BodyTypes[k], BodyElementFrom(doc, k).value);
      } else {
        assert Absent(doc, BodyTypes[k]);
        forall j | k <= j < |BodyTypes| && !Absent(doc, BodyTypes[j])
          ensures k + 1 <= j
        {
        }
      }
    }
  }

  lemma BodyElementSpec(doc: Node)
    ensures BodyElement(doc).None? <==> Absent(doc, "body") && Absent(doc, "conbody") && Absent(doc, "taskbody")
    ensures !Absent(doc, "body") ==> BodyElement(doc).Some? && FirstNamed(doc, "body", BodyElement(doc).value)
    ensures Absent(doc, "body") && !Absent(doc, "conbody") ==>
      BodyElement(doc).Some? && FirstNamed(doc, "conbody", BodyElement(doc).value)
    ensures Absent(doc, "body") && Absent(doc, "conbody") && !Absent(doc, "taskbody") ==>
      BodyElement(doc).Some? && FirstNamed(doc, "taskbody", BodyElement(doc).value)
  {
    BodyElementFromSpec(doc, 0);
    assert BodyTypes[0] == "body" && BodyTypes[1] == "conbody" && BodyTypes[2] == "taskbody";
    if BodyElement(doc).Some? {
      var j :| 0 <= j < |BodyTypes| && FirstNamed(doc, BodyTypes[j], BodyElement(doc).value) &&
        forall i :: 0 <= i < j ==> Absent(doc, BodyTypes[i]);
      assert Matches(At(doc, BodyElement(doc).value), Named(BodyTypes[j]));
    }
  }

  /** No p element below `body`. */
  ghost predicate NoParagraphIn(body: Node)
  {
    forall r :: r != [] && ValidPath(body, r) ==> !Matches(At(body, r), Named("p"))
  }

  /** `lp` is the last p element below `body` in document order. */
  ghost predicate LastParagraphOf(body: Node, lp: Path)
  {
    lp != [] && ValidPath(body, lp) && Matches(At(body, lp), Named("p")) &&
    forall r :: r != [] && ValidPath(body, r) && Matches(At(body, r), Named("p")) ==> r == lp || Precedes(r, lp)
  }

  /** Node.appendChild of a new text node (only elements are given children). */
  function AppendText(e: Node, text: string): Node
  {
    if e.Elem? then Elem(e.name, e.attrs, e.children + [Text(text)]) else e
  }

  /** insertTextInLastParagraph on the parsed topic `doc`: the topic as it is written back. */
  function TextInserted(topicIsFile: bool, doc: Node, textToInsert: string): Result<Node, TopicError>
  {
    if !topicIsFile then Err(TopicFileMissing)
    else if textToInsert == "" then Err(EmptyText)
    else match BodyElement(doc)
      case None => Err(NoBody)
      case Some(b) =>
        var paragraphs := ElementsByTagName(At(doc, b), Named("p"));
        if |paragraphs| == 0 then Err(NoParagraph)
        else
          var lp := paragraphs[|paragraphs| - 1];
          ElementsByTagNameSpec(At(doc, b), Named("p"));
          AtConcat(doc, b, lp);
          Ok(Replace(doc, b + lp, AppendText(At(doc, b + lp), textToInsert)))
  }

  /** insertTextInLastParagraph, step by step as the Java helper takes it. */
  method InsertTextInLastParagraph(topicIsFile: bool, doc: Node, textToInsert: string) returns (r: Result<Node, TopicError>)
    ensures r == TextInserted(topicIsFile, doc, textToInsert)
  {
    if !topicIsFile {
      return Err(TopicFileMissing);
    }
    if textToInsert == "" {
      return Err(EmptyText);
    }
    var bodyElement := FindBodyElement(doc);
    if bodyElement.None? {
      return Err(NoBody);
    }
    var b := bodyElement.value;
    var paragraphs := ElementsByTagName(At(doc, b), Named("p"));
    if |paragraphs| == 0 {
      return Err(NoParagraph);
    }
    var lastParagraph := b + paragraphs[|paragraphs| - 1];
    ElementsByTagNameSpec(At(doc, b), Named("p"));
    AtConcat(doc, b, paragraphs[|paragraphs| - 1]);
    r := Ok(Replace(doc, lastParagraph, AppendText(At(doc, lastParagraph), textToInsert)));
  }

  /** The insertion fails exactly in these cases, checked in this order. */
  lemma InsertErrors(topicIsFile: bool, doc: Node, textToInsert: string)
    ensures TextInserted(topicIsFile, doc, textToInsert) == Err(TopicFileMissing) <==> !topicIsFile
    ensures TextInserted(topicIsFile, doc, textToInsert) == Err(EmptyText) <==> topicIsFile && textToInsert == ""
    ensures TextInserted(topicIsFile, doc, textToInsert) == Err(NoBody) <==>
      topicIsFile && textToInsert != "" && Absent(doc, "body") && Absent(doc, "conbody") && Absent(doc, "taskbody")
    ensures TextInserted(topicIsFile, doc, textToInsert) == Err(NoParagraph) <==>
      topicIsFile && textToInsert != "" && BodyElement(doc).Some? && NoParagraphIn(At(doc, BodyElement(doc).value))
  {
    BodyElementSpec(doc);
    if BodyElement(doc).Some? {
      var body := At(doc, BodyElement(doc).value);
      ElementsByTagNameSpec(body, Named("p"));
      var paragraphs := ElementsByTagName(body, Named("p"));
      if paragraphs != [] {
        assert paragraphs[0] in paragraphs;
      }
    }
  }

  /** On success exactly one text node, holding the text, is appended to the last p
      element of the chosen body in document order, and every node that is neither
      that paragraph, one of its ancestors nor inside it is unchanged. */
  lemma InsertIntoLastParagraph(topicIsFile: bool, doc: Node, textToInsert: string)
    requires TextInserted(topicIsFile, doc, textToInsert).Ok?
    ensures var b := BodyElement(doc).value;
      var d := TextInserted(topicIsFile, doc, textToInsert).value;
      exists lp :: LastParagraphOf(At(doc, b), lp) && ValidPath(doc, b + lp) && ValidPath(d, b + lp) &&
        At(d, b + lp) == AppendText(At(doc, b + lp), textToInsert) &&
        forall r :: !(r <= b + lp) && !(b + lp <= r) ==>
          ValidPath(d, r) == ValidPath(doc, r) && (ValidPath(doc, r) ==> At(d, r) == At(doc, r))
  {
    var b := BodyElement(doc).value;
    var body := At(doc, b);
    var d := TextInserted(topicIsFile, doc, textToInsert).value;
    var paragraphs := ElementsByTagName(body, Named("p"));
    var lp := paragraphs[|paragraphs| - 1];
    LastOfNodeList(body);
    AtConcat(doc, b, lp);
    var x := AppendText(At(doc, b + lp), textToInsert);
    assert d == Replace(doc, b + lp, x);
    ReplaceAt(doc, b + lp, x);
    forall r | !(r <= b + lp) && !(b + lp <= r)
      ensures ValidPath(d, r) == ValidPath(doc, r) && (ValidPath(doc, r) ==> At(d, r) == At(doc, r))
    {
      ReplaceElsewhere(doc, b + lp, x, r);
    }
  }

  /** The last item of the body's p node list is its last p element in document order. */
  lemma LastOfNodeList(body: Node)
    requires ElementsByTagName(body, Named("p")) != []
    ensures LastParagraphOf(body, ElementsByTagName(body, Named("p"))[|ElementsByTagName(body, Named("p"))| - 1])
  {
    ElementsByTagNameSpec(body, Named("p"));
    NodeListEnds(body, Named("p"));
    FindLastDescIsLast(body, Named("p"));
  }

  /** Every ancestor of the last paragraph, from the document element down through the
      body to the paragraph's parent, keeps its name, attributes and number of children. */
  lemma InsertKeepsAncestors(topicIsFile: bool, doc: Node, textToInsert: string)
    requires TextInserted(topicIsFile, doc, textToInsert).Ok?
    ensures var b := BodyElement(doc).value;
      var d := TextInserted(topicIsFile, doc, textToInsert).value;
      exists lp :: LastParagraphOf(At(doc, b), lp) && ValidPath(doc, b + lp) &&
        forall r :: r < b + lp ==>
          ValidPath(doc, r) && ValidPath(d, r) && At(d, r).Elem? && At(doc, r).Elem? &&
          At(d, r).name == At(doc, r).name && At(d, r).attrs == At(doc, r).attrs &&
          |At(d, r).children| == |At(doc, r).children|
  {
    var b := BodyElement(doc).value;
    var body := At(doc, b);
    var paragraphs := ElementsByTagName(body, Named("p"));
    var lp := paragraphs[|paragraphs| - 1];
    LastOfNodeList(body);
    AtConcat(doc, b, lp);
    var x := AppendText(At(doc, b + lp), textToInsert);
    forall r | r < b + lp
      ensures ValidPath(doc, r) && ValidPath(Replace(doc, b + lp, x), r) &&
        At(Replace(doc, b + lp, x), r).Elem? && At(doc, r).Elem? &&
        At(Replace(doc, b + lp, x), r).name == At(doc, r).name &&
        At(Replace(doc, b + lp, x), r).attrs == At(doc, r).attrs &&
        |At(Replace(doc, b + lp, x), r).children| == |At(doc, r).children|
    {
      ReplaceAbove(doc, b + lp, x, r);
    }
  }
}
