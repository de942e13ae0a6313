/**
 * TestUtils.generateTranslatedXliff: the fake translator run over an XLIFF 1.2
 * document.  For every `file` element it takes the `target-language` attribute and
 * the first `body` below the file; every `trans-unit` below that body which has no
 * `target` but has a `source` gets a new `target` appended, preceded by the text
 * "\n   " and followed by "\n".  The new target's children copy the source's
 * children, the first text child prefixed with the language code and a colon.
 */
module Xliff {
  import opened Wrappers
  import opened Dom

  /** file.getAttribute("target-language"), "" when absent. */
  function TargetLanguage(file: Node): string
  {
    Attr(file, "target-language")
  }

  /** n.getElementsByTagName(tag).getLength() > 0 */
  predicate HasDescendant(n: Node, tag: string)
  {
    FindFirstDesc(n, Named(tag)).Some?
  }

  /** The index of the first TEXT_NODE in `cs`, or -1 when there is none. */
  function FirstTextIndex(cs: seq<Node>): (k: int)
    ensures -1 <= k < |cs|
    ensures k >= 0 ==> cs[k].Text? && forall m :: 0 <= m < k ==> !cs[m].Text?
    ensures k == -1 ==> forall m :: 0 <= m < |cs| ==> !cs[m].Text?
  {
    if cs == [] then -1
    else if cs[0].Text? then 0
    else
      var k := FirstTextIndex(cs[1..]);
      if k == -1 then -1 else k + 1
  }

  /** The children of a new target: deep copies of the source's children, where the
      first text child reads lang + ":" + its text when lang is not empty. */
  function PrefixFirstText(lang: string, cs: seq<Node>): (r: seq<Node>)
    ensures |r| == |cs|
  {
    if cs == [] then []
    else if lang != "" && cs[0].Text? then [Text(lang + ":" + cs[0].data)] + cs[1..]
    else [cs[0]] + PrefixFirstText(lang, cs[1..])
  }

  /** Child by child: only the first text child differs from the source, and only
      when a language is given. */
  lemma {:induction false} PrefixFirstTextAt(lang: string, cs: seq<Node>, k: nat)
    requires k < |cs|
    ensures PrefixFirstText(lang, cs)[k] ==
      if lang != "" && k == FirstTextIndex(cs) then Text(lang + ":" + cs[k].data) else cs[k]
  {
    if !(lang != "" && cs[0].Text?) && k > 0 {
      PrefixFirstTextAt(lang, cs[1..], k - 1);
    }
  }

  /** With no language, or no text child, the target's children equal the source's. */
  lemma PrefixFirstTextUnchanged(lang: string, cs: seq<Node>)
    requires lang == "" || FirstTextIndex(cs) == -1
    ensures PrefixFirstText(lang, cs) == cs
  {
    forall k | 0 <= k < |cs| ensures PrefixFirstText(lang, cs)[k] == cs[k] {
      PrefixFirstTextAt(lang, cs, k);
    }
  }

  /** The inner loop over the source's children with its prefixAdded flag. */
  method CopySourceChildren(lang: string, sourceChildren: seq<Node>) returns (targetChildren: seq<Node>)
    ensures targetChildren == PrefixFirstText(lang, sourceChildren)
  {
    targetChildren := [];
    var prefixAdded := false;
    for k := 0 to |sourceChildren|
      invariant |targetChildren| == k
      invariant prefixAdded == (lang != "" && 0 <= FirstTextIndex(sourceChildren) < k)
      invariant forall m :: 0 <= m < k ==> targetChildren[m] == PrefixFirstText(lang, sourceChildren)[m]
    {
      var node := sourceChildren[k];
      var clonedNode := node;
      if !prefixAdded && node.Text? && lang != "" {
        clonedNode := Text(lang + ":" + node.data);
        prefixAdded := true;
      }
      PrefixFirstTextAt(lang, sourceChildren, k);
      targetChildren := targetChildren + [clonedNode];
    }
  }

  lemma {:induction false} PrefixFirstTextSize(lang: string, cs: seq<Node>)
    ensures SizeSeq(PrefixFirstText(lang, cs)) == SizeSeq(cs)
  {
    if cs != [] {
      var r := PrefixFirstText(lang, cs);
      assert r[1..] == if lang != "" && cs[0].Text? then cs[1..] else PrefixFirstText(lang, cs[1..]);
      PrefixFirstTextSize(lang, cs[1..]);
    }
  }

  /** The first source element below a trans-unit, if there is one. */
  function SourcePath(unit: Node): Option<Path>
  {
    FindFirstDesc(unit, Named("source"))
  }

  /** Whether the fake translator appends a target to this element. */
  predicate NeedsTarget(n: Node)
  {
    n.Elem? && n.name == "trans-unit" && !HasDescendant(n, "target") && HasDescendant(n, "source")
  }

  /** What the loop over body.getElementsByTagName("trans-unit") does to the subtree `n`.
      The node list is live and in document order, so a unit is handled before its
      descendants and the units inside a new target copy are handled as well. */
  function FillUnit(lang: string, n: Node): Node
    decreases Size(n), 1
  {
    match n
    case Elem(name, attrs, cs) =>
      if NeedsTarget(n) then
        var sp := SourcePath(n).value;
        var src := At(n, sp);
        SizeAtDescendant(n, sp);
        PrefixFirstTextSize(lang, src.children);
        Elem(name, attrs, FillAll(lang, cs) + NewTarget(FillAll(lang, PrefixFirstText(lang, src.children))))
      else
        Elem(name, attrs, FillAll(lang, cs))
    case _ => n
  }

  /** The three nodes appended to a trans-unit. */
  function NewTarget(targetChildren: seq<Node>): seq<Node>
  {
    [Text("\n   "), Elem("target", map[], targetChildren), Text("\n")]
  }

  function FillAll(lang: string, cs: seq<Node>): (r: seq<Node>)
    ensures |r| == |cs|
    ensures forall i :: 0 <= i < |cs| ==> r[i] == FillUnit(lang, cs[i])
    decreases SizeSeq(cs), 2
  {
    if cs == [] then [] else [FillUnit(lang, cs[0])] + FillAll(lang, cs[1..])
  }

  /** The body with every trans-unit below it handled. */
  function FillBody(lang: string, body: Node): Node
  {
    match body
    case Elem(name, attrs, cs) => Elem(name, attrs, FillAll(lang, cs))
    case _ => body
  }

  /** One iteration of the loop over the file elements. */
  function ProcessFile(file: Node): Node
  {
    match FindFirstDesc(file, Named("body"))
    case None => file
    case Some(bp) => Replace(file, bp, FillBody(TargetLanguage(file), At(file, bp)))
  }

  /** generateTranslatedXliff on the parsed document `doc` (its document element). */
  function GenerateTranslatedXliff(doc: Node): Node
  {
    if Matches(doc, Named("file")) then ProcessFile(doc)
    else match doc
      case Elem(name, attrs, cs) =>
        Elem(name, attrs, seq(|cs|, i requires 0 <= i < |cs| => GenerateTranslatedXliff(cs[i])))
      case _ => doc
  }

  // ----- basic facts about FillUnit -----

  lemma FillUnitShape(lang: string, n: Node)
    ensures FillUnit(lang, n).Elem? == n.Elem?
    ensures n.Elem? ==> FillUnit(lang, n).name == n.name && FillUnit(lang, n).attrs == n.attrs
    ensures n.Elem? ==> |FillUnit(lang, n).children| >= |n.children|
    ensures !n.Elem? ==> FillUnit(lang, n) == n
  {
  }

  /** Every node of the original subtree is still there, at the same path, handled. */
  lemma {:induction false} FillUnitAt(lang: string, n: Node, p: Path)
    requires ValidPath(n, p)
    ensures ValidPath(FillUnit(lang, n), p)
    ensures At(FillUnit(lang, n), p) == FillUnit(lang, At(n, p))
    decreases |p|
  {
    if p != [] {
      var m := FillUnit(lang, n);
      assert m.children[p[0]] == FillUnit(lang, n.children[p[0]]);
      FillUnitAt(lang, n.children[p[0]], p[1..]);
    }
  }

  /** Handling units never removes an element: a tag found below `n` is still found. */
  lemma FillUnitKeepsDescendant(lang: string, n: Node, tag: string)
    requires HasDescendant(n, tag)
    ensures HasDescendant(FillUnit(lang, n), tag)
  {
    var p := FindFirstDesc(n, Named(tag)).value;
    FillUnitAt(lang, n, p);
    FillUnitShape(lang, At(n, p));
    MatchesShallow(At(FillUnit(lang, n), p), At(n, p), Named(tag));
    FindFirstDescIsFirst(FillUnit(lang, n), Named(tag));
  }

  lemma ChildHasNoMatch(n: Node, q: Query, i: nat)
    requires n.Elem? && i < |n.children|
    requires FindFirstDesc(n, q).None?
    ensures FindFirst(n.children[i], q).None?
  {
    FindFirstDescIsFirst(n, q);
    var c := n.children[i];
    if FindFirst(c, q).Some? {
      var p := FindFirst(c, q).value;
      assert ValidPath(n, [i]);
      AtConcat(n, [i], p);
    }
  }

  lemma DescendantHasNoMatch(n: Node, q: Query, p: Path)
    requires ValidPath(n, p) && p != []
    requires FindFirstDesc(n, q).None?
    ensures FindFirst(At(n, p), q).None?
  {
    FindFirstDescIsFirst(n, q);
    if FindFirst(At(n, p), q).Some? {
      var r := FindFirst(At(n, p), q).value;
      AtConcat(n, p, r);
    }
  }

  /** A subtree without any source element is left exactly as it was. */
  lemma {:induction false} FillUnitNoSource(lang: string, n: Node)
    requires FindFirst(n, Named("source")).None?
    ensures FillUnit(lang, n) == n
    decreases Size(n)
  {
    if n.Elem? {
      assert !HasDescendant(n, "source");
      forall i | 0 <= i < |n.children| ensures FillUnit(lang, n.children[i]) == n.children[i] {
        ChildHasNoMatch(n, Named("source"), i);
        FillUnitNoSource(lang, n.children[i]);
      }
      assert FillAll(lang, n.children) == n.children;
    }
  }

  /** A subtree without any trans-unit element is left exactly as it was. */
  lemma {:induction false} FillUnitNoUnits(lang: string, n: Node)
    requires FindFirst(n, Named("trans-unit")).None?
    ensures FillUnit(lang, n) == n
    decreases Size(n)
  {
    if n.Elem? {
      assert !NeedsTarget(n);
      forall i | 0 <= i < |n.children| ensures FillUnit(lang, n.children[i]) == n.children[i] {
        ChildHasNoMatch(n, Named("trans-unit"), i);
        FillUnitNoUnits(lang, n.children[i]);
      }
      assert FillAll(lang, n.children) == n.children;
    }
  }

  lemma FillAllNoUnits(lang: string, n: Node)
    requires n.Elem? && FindFirstDesc(n, Named("trans-unit")).None?
    ensures FillAll(lang, n.children) == n.children
  {
    forall i | 0 <= i < |n.children| ensures FillUnit(lang, n.children[i]) == n.children[i] {
      ChildHasNoMatch(n, Named("trans-unit"), i);
      FillUnitNoUnits(lang, n.children[i]);
    }
  }

  lemma NewTargetIsTarget(lang: string, n: Node)
    requires NeedsTarget(n)
    ensures HasDescendant(FillUnit(lang, n), "target")
  {
    var m := FillUnit(lang, n);
    var k := |n.children| + 1;
    assert m.children[k].Elem? && m.children[k].name == "target";
    assert [k][1..] == [];
    assert ValidPath(m, [k]);
    assert At(m, [k]) == At(m.children[k], []);
    FindFirstDescIsFirst(m, Named("target"));
  }

  // ----- the properties -----

  /** Running the fake translator over its own output changes nothing. */
  lemma {:induction false} FillUnitIdempotent(lang: string, n: Node)
    ensures FillUnit(lang, FillUnit(lang, n)) == FillUnit(lang, n)
    decreases Size(n)
  {
    if n.Elem? {
      var cs := n.children;
      var m := FillUnit(lang, n);
      forall i | 0 <= i < |cs| ensures FillUnit(lang, FillUnit(lang, cs[i])) == FillUnit(lang, cs[i]) {
        FillUnitIdempotent(lang, cs[i]);
      }
      assert FillAll(lang, FillAll(lang, cs)) == FillAll(lang, cs);
      if NeedsTarget(n) {
        NewTargetIsTarget(lang, n);
        assert !NeedsTarget(m);
        var src := At(n, SourcePath(n).value);
        var copy := PrefixFirstText(lang, src.children);
        SizeAtDescendant(n, SourcePath(n).value);
        PrefixFirstTextSize(lang, src.children);
        forall j | 0 <= j < |copy| ensures FillUnit(lang, FillUnit(lang, copy[j])) == FillUnit(lang, copy[j]) {
          FillUnitIdempotent(lang, copy[j]);
        }
        var t := NewTarget(FillAll(lang, copy));
        assert FillAll(lang, FillAll(lang, copy)) == FillAll(lang, copy);
        assert FillAll(lang, t) == t;
        var fc := FillAll(lang, cs);
        assert m.children == fc + t;
        assert FillAll(lang, fc + t) == FillAll(lang, fc) + FillAll(lang, t);
      } else {
        if n.name == "trans-unit" && HasDescendant(n, "target") {
          FillUnitKeepsDescendant(lang, n, "target");
        } else if n.name == "trans-unit" {
          assert !HasDescendant(n, "source");
          assert FindFirst(n, Named("source")).None?;
          FillUnitNoSource(lang, n);
        }
        assert !NeedsTarget(m);
      }
    }
  }

  /** Every trans-unit in the subtree has a target, or has no source to copy. */
  predicate EveryUnitDone(n: Node)
  {
    match n
    case Elem(name, _, cs) =>
      (name == "trans-unit" ==> HasDescendant(n, "target") || !HasDescendant(n, "source"))
      && forall i :: 0 <= i < |cs| ==> EveryUnitDone(cs[i])
    case _ => true
  }

  /** Every trans-unit in the subtree has a descendant named `tag`. */
  predicate EveryUnitHas(n: Node, tag: string)
  {
    match n
    case Elem(name, _, cs) =>
      (name == "trans-unit" ==> HasDescendant(n, tag))
      && forall i :: 0 <= i < |cs| ==> EveryUnitHas(cs[i], tag)
    case _ => true
  }

  lemma {:induction false} EveryUnitHasAt(n: Node, tag: string, p: Path)
    requires EveryUnitHas(n, tag) && ValidPath(n, p)
    ensures EveryUnitHas(At(n, p), tag)
    decreases |p|
  {
    if p != [] {
      EveryUnitHasAt(n.children[p[0]], tag, p[1..]);
    }
  }

  /** After the loop, no trans-unit that has a source is left without a target. */
  lemma {:induction false} FillUnitDone(lang: string, n: Node)
    ensures EveryUnitDone(FillUnit(lang, n))
    decreases Size(n)
  {
    if n.Elem? {
      var cs := n.children;
      var m := FillUnit(lang, n);
      forall i | 0 <= i < |cs| ensures EveryUnitDone(m.children[i]) {
        FillUnitDone(lang, cs[i]);
      }
      if NeedsTarget(n) {
        NewTargetIsTarget(lang, n);
        var src := At(n, SourcePath(n).value);
        var copy := PrefixFirstText(lang, src.children);
        SizeAtDescendant(n, SourcePath(n).value);
        PrefixFirstTextSize(lang, src.children);
        forall j | 0 <= j < |copy| ensures EveryUnitDone(FillUnit(lang, copy[j])) {
          FillUnitDone(lang, copy[j]);
        }
        var tgt := Elem("target", map[], FillAll(lang, copy));
        assert EveryUnitDone(tgt);
        assert m.children[|cs| + 1] == tgt;
      } else if n.name == "trans-unit" {
        if HasDescendant(n, "target") {
          FillUnitKeepsDescendant(lang, n, "target");
        } else {
          assert FindFirst(n, Named("source")).None?;
          FillUnitNoSource(lang, n);
        }
      }
    }
  }

  /** The check of TestUtilsTest: when every trans-unit has a source, every
      trans-unit has a target afterwards (and still has its source). */
  lemma {:induction false} EveryUnitGetsTarget(lang: string, n: Node)
    requires EveryUnitHas(n, "source")
    ensures EveryUnitHas(FillUnit(lang, n), "target")
    ensures EveryUnitHas(FillUnit(lang, n), "source")
    decreases Size(n), 1
  {
    if n.Elem? {
      var cs := n.children;
      var m := FillUnit(lang, n);
      var fc := FillAll(lang, cs);
      forall i | 0 <= i < |cs|
        ensures EveryUnitHas(fc[i], "target") && EveryUnitHas(fc[i], "source")
      {
        EveryUnitGetsTarget(lang, cs[i]);
      }
      if n.name == "trans-unit" {
        FillUnitKeepsDescendant(lang, n, "source");
      }
      if NeedsTarget(n) {
        NewTargetIsTarget(lang, n);
        var tgt := TargetCopyHasUnits(lang, n);
        assert m.children == fc + [Text("\n   "), tgt, Text("\n")];
        forall i | 0 <= i < |m.children|
          ensures EveryUnitHas(m.children[i], "target") && EveryUnitHas(m.children[i], "source")
        {
          if i < |fc| {
            assert m.children[i] == fc[i];
          }
        }
      } else {
        assert m.children == fc;
        if n.name == "trans-unit" {
          assert HasDescendant(n, "target");
          FillUnitKeepsDescendant(lang, n, "target");
        }
      }
    }
  }

  /** The target a unit gets is a copy of its source with every unit inside handled, so
      each of those units has a source and a target as well. */
  lemma {:induction false} TargetCopyHasUnits(lang: string, n: Node) returns (tgt: Node)
    requires NeedsTarget(n) && EveryUnitHas(n, "source")
    ensures tgt == FillUnit(lang, n).children[|n.children| + 1]
    ensures EveryUnitHas(tgt, "target") && EveryUnitHas(tgt, "source")
    decreases Size(n), 0
  {
    var sp := SourcePath(n).value;
    var src := At(n, sp);
    var copy := PrefixFirstText(lang, src.children);
    SizeAtDescendant(n, sp);
    PrefixFirstTextSize(lang, src.children);
    EveryUnitHasAt(n, "source", sp);
    var fc := FillAll(lang, copy);
    forall j | 0 <= j < |copy|
      ensures EveryUnitHas(fc[j], "target") && EveryUnitHas(fc[j], "source")
    {
      PrefixFirstTextAt(lang, src.children, j);
      assert EveryUnitHas(copy[j], "source");
      EveryUnitGetsTarget(lang, copy[j]);
    }
    tgt := Elem("target", map[], fc);
  }

  /** In valid XLIFF a trans-unit holds no other trans-unit.  Then a unit that already
      has a target, or has no source, is left exactly as it was. */
  lemma UnitUnchanged(lang: string, unit: Node)
    requires unit.Elem? && unit.name == "trans-unit"
    requires FindFirstDesc(unit, Named("trans-unit")).None?
    requires HasDescendant(unit, "target") || !HasDescendant(unit, "source")
    ensures FillUnit(lang, unit) == unit
  {
    FillAllNoUnits(lang, unit);
  }

  /** In valid XLIFF, a unit with a source and no target keeps its children, the source
      included, and gets exactly "\n   ", a target and "\n" appended; the target's
      children are the source's children with the first text child prefixed. */
  lemma NewTargetCopiesSource(lang: string, unit: Node)
    requires NeedsTarget(unit)
    requires FindFirstDesc(unit, Named("trans-unit")).None?
    ensures SourcePath(unit).Some? && ValidPath(unit, SourcePath(unit).value)
    ensures FillUnit(lang, unit) == Elem(unit.name, unit.attrs,
      unit.children + NewTarget(PrefixFirstText(lang, At(unit, SourcePath(unit).value).children)))
  {
    FillAllNoUnits(lang, unit);
    var sp := SourcePath(unit).value;
    var src := At(unit, sp);
    var copy := PrefixFirstText(lang, src.children);
    DescendantHasNoMatch(unit, Named("trans-unit"), sp);
    assert FindFirstDesc(src, Named("trans-unit")).None?;
    forall j | 0 <= j < |copy| ensures FillUnit(lang, copy[j]) == copy[j] {
      PrefixFirstTextAt(lang, src.children, j);
      if !copy[j].Text? {
        ChildHasNoMatch(src, Named("trans-unit"), j);
        FillUnitNoUnits(lang, copy[j]);
      }
    }
    assert FillAll(lang, copy) == copy;
  }

  // ----- per file and per document -----

  lemma FillBodyShape(lang: string, body: Node)
    ensures Matches(body, Named("body")) ==> Matches(FillBody(lang, body), Named("body"))
  {
  }

  lemma {:induction false} ProcessFileIdempotent(file: Node)
    ensures ProcessFile(ProcessFile(file)) == ProcessFile(file)
  {
    match FindFirstDesc(file, Named("body"))
    case None =>
    case Some(bp) =>
      var lang := TargetLanguage(file);
      var b := At(file, bp);
      var x := FillBody(lang, b);
      FillBodyShape(lang, b);
      ReplaceKeepsFirstDesc(file, Named("body"), x);
      var m := Replace(file, bp, x);
      assert TargetLanguage(m) == lang;
      ReplaceAt(file, bp, x);
      FillUnitIdempotent(lang, b);
      assert FillBody(lang, x) == x;
      ReplaceTwice(file, bp, x, x);
  }

  /** Running generateTranslatedXliff on its own output changes nothing. */
  lemma {:induction false} GenerateIdempotent(doc: Node)
    ensures GenerateTranslatedXliff(GenerateTranslatedXliff(doc)) == GenerateTranslatedXliff(doc)
  {
    if Matches(doc, Named("file")) {
      ProcessFileIdempotent(doc);
      match FindFirstDesc(doc, Named("body"))
      case None =>
      case Some(bp) =>
        assert Matches(ProcessFile(doc), Named("file"));
    } else if doc.Elem? {
      var g := GenerateTranslatedXliff(doc);
      forall i | 0 <= i < |doc.children|
        ensures GenerateTranslatedXliff(g.children[i]) == g.children[i]
      {
        GenerateIdempotent(doc.children[i]);
      }
    }
  }

  /** Every file's first body has no trans-unit left that has a source but no target. */
  predicate EveryFileDone(doc: Node)
  {
    if Matches(doc, Named("file")) then
      match FindFirstDesc(doc, Named("body"))
      case None => true
      case Some(bp) => EveryUnitDone(At(doc, bp))
    else match doc
      case Elem(_, _, cs) => forall i :: 0 <= i < |cs| ==> EveryFileDone(cs[i])
      case _ => true
  }

  lemma ProcessFileDone(file: Node)
    requires Matches(file, Named("file"))
    ensures Matches(ProcessFile(file), Named("file"))
    ensures EveryFileDone(ProcessFile(file))
  {
    match FindFirstDesc(file, Named("body"))
    case None =>
    case Some(bp) =>
      var b := At(file, bp);
      var x := FillBody(TargetLanguage(file), b);
      FillBodyShape(TargetLanguage(file), b);
      ReplaceKeepsFirstDesc(file, Named("body"), x);
      ReplaceAt(file, bp, x);
      FillUnitDone(TargetLanguage(file), b);
      assert FillUnit(TargetLanguage(file), b) == x;
  }

  lemma {:induction false} GenerateDone(doc: Node)
    ensures EveryFileDone(GenerateTranslatedXliff(doc))
  {
    if Matches(doc, Named("file")) {
      ProcessFileDone(doc);
    } else if doc.Elem? {
      forall i | 0 <= i < |doc.children| ensures EveryFileDone(GenerateTranslatedXliff(doc.children[i])) {
        GenerateDone(doc.children[i]);
      }
    }
  }

  /** Only the first body of a file changes: every node that is neither an ancestor
      nor a descendant of that body (another body, the header, ...) stays as it was. */
  lemma ProcessFileTouchesOnlyFirstBody(file: Node, r: Path)
    requires FindFirstDesc(file, Named("body")).Some?
    requires var bp := FindFirstDesc(file, Named("body")).value; !(r <= bp) && !(bp <= r)
    requires ValidPath(file, r)
    ensures ValidPath(ProcessFile(file), r) && At(ProcessFile(file), r) == At(file, r)
  {
    var bp := FindFirstDesc(file, Named("body")).value;
    ReplaceElsewhere(file, bp, FillBody(TargetLanguage(file), At(file, bp)), r);
  }

  /** A file whose first body holds no trans-unit that needs a target is unchanged. */
  lemma ProcessFileNoWork(file: Node)
    requires FindFirstDesc(file, Named("body")).Some?
    requires FindFirst(At(file, FindFirstDesc(file, Named("body")).value), Named("source")).None?
    ensures ProcessFile(file) == file
  {
    var bp := FindFirstDesc(file, Named("body")).value;
    var b := At(file, bp);
    FillUnitNoSource(TargetLanguage(file), b);
    assert FillBody(TargetLanguage(file), b) == b;
    ReplaceSame(file, bp);
  }
}
