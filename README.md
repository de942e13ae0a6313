# Fluenta test helpers and TextUtils, modelled in Dafny

Fluenta is a translation manager for DITA projects. Its tests rely on a set of helpers in
`TestUtils`:

- a fake translator that fills every XLIFF trans-unit lacking a target with a copy of its
  source, prefixed with the target language;
- two helpers that add a `topicref` to a DITA map and remove it again;
- a helper that appends text to the last paragraph of a DITA topic;
- a registry lookup that finds, or creates, the project for a DITA map.

The tests also pin down three small `TextUtils` functions: `geIndex`, `normalise` and
`pad`.

The model has these modules:

- `Dom` — the W3C DOM as a tree value: text, other and element nodes, addressed by
  child-index paths. `Precedes` is document order. `Replace` is an in-place edit.
  `ElementsByTagName` and `MatchesBelow` are the node lists of `Element.getElementsByTagName`
  and `Document.getElementsByTagName`.
- `Xliff` — `generateTranslatedXliff`, with the inner copy loop as a method.
- `DitaMap` — `addTopicRefToDitaMap`, and `removeTopicRefFromDitaMap` with its search loop
  as a method.
- `DitaTopic` — `findBodyElement`, a loop over the body types, and `insertTextInLastParagraph`.
- `Projects` — `createNewProjectForMap`, the `ProjectsManager` registry as a class, and
  `getOrCreateProjectForDitaMap` as a method that updates the registry.
- `TextUtils` — `geIndex`, `normalise` and `pad`, as the tests specify them.
- `Wrappers` — `Option` and `Result`.

The three DITA helpers that write a file back are modelled as functions from the parsed
document element to `Result<Node, Error>`. Each exception such a helper throws is one
error value. `generateTranslatedXliff` throws only on I/O, parse and transformer
failures, which are not modelled, so it is a function from `Node` to `Node`. The methods
that follow the Java helpers' loops step by step are proved equal to those functions.

## Model

| member | source | states |
|---|---|---|
| Dom.MatchesBelowSpec | test/com/maxprograms/utils/TestUtils.java:473 | the document's node list for a tag holds exactly the matching nodes, the document element included, in document order |
| Dom.MatchesBelow | test/com/maxprograms/utils/TestUtils.java:220 | definition: Document.getElementsByTagName as the paths of the matching nodes, the document element first, then its descendants in document order |
| Dom.ElementsByTagNameSpec | test/com/maxprograms/utils/TestUtils.java:362 | an element's node list holds exactly its matching proper descendants, in document order |
| Dom.ElementsByTagName | test/com/maxprograms/utils/TestUtils.java:228 | definition: Element.getElementsByTagName as the paths of the matching proper descendants in document order |
| Dom.Attr | test/com/maxprograms/utils/TestUtils.java:223 | definition: getAttribute gives the attribute's value, or "" when the element has no such attribute |
| Dom.NodeListEnds | test/com/maxprograms/utils/TestUtils.java:437-442 | an element's node list is empty exactly when there is no matching descendant; otherwise item 0 is the first match in document order and the last item the last match |
| Dom.DocumentNodeListEnds | test/com/maxprograms/utils/TestUtils.java:473-475 | the same for the document's node list: empty iff nothing matches, item 0 is the first match |
| Dom.FirstWithAttribute | test/com/maxprograms/utils/TestUtils.java:362-371 | scanning the topicref node list for the first item whose attribute has a given value finds the first such element in document order, or none when there is none |
| Dom.FindFirstIsFirst | test/com/maxprograms/utils/TestUtils.java:475 | the first match is a match, and every other match comes after it in document order; none means nothing matches |
| Dom.FindFirstDescIsFirst | test/com/maxprograms/utils/TestUtils.java:227 | the same for proper descendants, as `item(0)` of an element's node list |
| Dom.FindLastDescIsLast | test/com/maxprograms/utils/TestUtils.java:442 | the last matching proper descendant is a match, and every other match comes before it |
| Dom.ReplaceAt | test/com/maxprograms/utils/TestUtils.java:444 | after an in-place edit at a path, the edited node sits at that path |
| Dom.ReplaceElsewhere | test/com/maxprograms/utils/TestUtils.java:444 | an in-place edit leaves every node that is neither an ancestor nor a descendant of the edited one exactly as it was |
| Xliff.FirstTextIndex | test/com/maxprograms/utils/TestUtils.java:247 | the result is the index of the first TEXT_NODE child, or -1 exactly when there is none |
| Xliff.PrefixFirstText | test/com/maxprograms/utils/TestUtils.java:240-254 | the target's children are as many as the source's; definition: deep copies of the source's children, the first TEXT_NODE reading language + ":" + its text when the language is not empty |
| Xliff.NeedsTarget | test/com/maxprograms/utils/TestUtils.java:232-236 | definition: a trans-unit with no target element below it and at least one source element below it |
| Xliff.FillUnit | test/com/maxprograms/utils/TestUtils.java:230-259 | definition: the live loop over a body's trans-unit list, as recursion in document order; a unit that needs a target gets "\n   ", the target and "\n" appended, and the units below it, the new target's included, are handled in turn |
| Xliff.CopySourceChildren | test/com/maxprograms/utils/TestUtils.java:240-254 | the loop with its `prefixAdded` flag builds exactly the prefixed copy of the source's children |
| Xliff.PrefixFirstTextAt | test/com/maxprograms/utils/TestUtils.java:243-253 | target child k is source child k, except that the first text child reads language + ":" + its text when the language is not empty |
| Xliff.PrefixFirstTextUnchanged | test/com/maxprograms/utils/TestUtils.java:247 | with an empty target-language, or no text child, the target's children equal the source's |
| Xliff.FillUnitShape | test/com/maxprograms/utils/TestUtils.java:230-259 | handling units keeps every element's name and attributes and never removes children; text nodes are untouched |
| Xliff.FillUnitAt | test/com/maxprograms/utils/TestUtils.java:228-259 | every node of the original body is still at the same path afterwards, itself handled |
| Xliff.FillUnitKeepsDescendant | test/com/maxprograms/utils/TestUtils.java:232-258 | an element with a given tag below a node is still found below it afterwards |
| Xliff.FillUnitNoSource | test/com/maxprograms/utils/TestUtils.java:235-236 | a subtree without any source element is left exactly as it was |
| Xliff.FillUnitNoUnits | test/com/maxprograms/utils/TestUtils.java:228-231 | a subtree without any trans-unit is left exactly as it was |
| Xliff.NewTargetIsTarget | test/com/maxprograms/utils/TestUtils.java:256-258 | a unit that needed a target has a target descendant afterwards |
| Xliff.UnitUnchanged | test/com/maxprograms/utils/TestUtils.java:232-236 | for a trans-unit with no trans-unit nested inside it: one that already has a target, or has no source, is left exactly as it was |
| Xliff.NewTargetCopiesSource | test/com/maxprograms/utils/TestUtils.java:237-258 | for a trans-unit with no trans-unit nested inside it, with a source and no target: it keeps its children and gets exactly "\n   ", a target and "\n" appended; the target's children are the first source's children with the first text child prefixed |
| Xliff.FillUnitIdempotent | test/com/maxprograms/utils/TestUtils.java:230-259 | handling the units of a subtree twice gives the same result as handling them once |
| Xliff.FillUnitDone | test/com/maxprograms/utils/TestUtils.java:230-259 | afterwards no trans-unit that has a source is left without a target |
| Xliff.EveryUnitGetsTarget | test/com/maxprograms/utils/TestUtilsTest.java:196-205 | when every trans-unit has a source, afterwards every trans-unit has a target and still has a source |
| Xliff.FillBodyShape | test/com/maxprograms/utils/TestUtils.java:227-228 | the handled body is still a body element |
| Xliff.ProcessFile | test/com/maxprograms/utils/TestUtils.java:222-262 | definition: the first body element below the file, if any, with every trans-unit below it handled using the file's target-language attribute; a file without a body is unchanged |
| Xliff.ProcessFileIdempotent | test/com/maxprograms/utils/TestUtils.java:221-262 | processing a file element twice gives the same result as processing it once |
| Xliff.ProcessFileDone | test/com/maxprograms/utils/TestUtils.java:221-262 | a processed file is still a file, and its first body has no unit with a source but no target |
| Xliff.ProcessFileTouchesOnlyFirstBody | test/com/maxprograms/utils/TestUtils.java:225-228 | only the file's first body changes; every node off that body's line stays as it was |
| Xliff.ProcessFileNoWork | test/com/maxprograms/utils/TestUtils.java:225-236 | a file whose first body holds no source element is unchanged |
| Xliff.GenerateIdempotent | test/com/maxprograms/utils/TestUtils.java:214-274 | running the fake translator on its own output changes nothing |
| Xliff.GenerateDone | test/com/maxprograms/utils/TestUtils.java:220-263 | in the output, every file's first body has no unit with a source but no target |
| Xliff.GenerateTranslatedXliff | test/com/maxprograms/utils/TestUtils.java:214-263 | definition: every file element of the document processed in document order, the document element included when it is itself a file |
| DitaMap.ForwardSlashes | test/com/maxprograms/utils/TestUtils.java:302 | every backslash becomes '/', every other character stays, the length is kept, and a path without backslashes is unchanged |
| DitaMap.AddTopicRefToDitaMap | test/com/maxprograms/utils/TestUtils.java:286-314 | it fails exactly when the map is not a regular file, the topic is not a regular file, or the document element is not `map`, with three distinct errors checked in that order; on success the result is a map with the same attributes whose children are the old ones followed by "\n  ", a topicref whose href is the relative path with forward slashes, and "\n" |
| DitaMap.AddAppendsLastTopicRef | test/com/maxprograms/utils/TestUtils.java:309-314 | the old children come first and unchanged, and three nodes follow: "\n  ", a topicref whose href is the relative path with forward slashes, and "\n"; the new topicref is the map's last topicref in document order |
| DitaMap.FindTopicRef | test/com/maxprograms/utils/TestUtils.java:362-371 | the search loop returns the first topicref in document order whose href is the relative path, or none |
| DitaMap.RemoveTopicRefFromDitaMap | test/com/maxprograms/utils/TestUtils.java:342-385 | the step-by-step removal equals the specification `TopicRefRemoved` |
| DitaMap.RemoveErrors | test/com/maxprograms/utils/TestUtils.java:343-385 | removal fails, in this order, with a missing map exactly when the map is not a regular file; with an invalid map exactly when the document element is not `map`; with a missing reference exactly when no topicref below the map refers to the path; with a not-a-child error exactly when the first one that does is nested deeper than the map's children; and it succeeds exactly when that first one is a child of the map |
| DitaMap.FirstMatchIsFound | test/com/maxprograms/utils/TestUtils.java:362-371 | whatever path is the first matching topicref in document order is the one the search returns |
| DitaMap.WithoutChild | test/com/maxprograms/utils/TestUtils.java:377-385 | one or two children go; definition: child i is removed, and so is the child right before it when that is a blank text node |
| DitaMap.Blank | test/com/maxprograms/utils/TestUtils.java:378-380 | definition: `text.trim().isEmpty()`, every character at most U+0020 |
| DitaMap.TopicRefRemoved | test/com/maxprograms/utils/TestUtils.java:342-385 | definition: the error checks in the Java helper's order, then the first matching topicref in document order removed from the map with a blank text node right before it; a match nested below a child of the map fails with its own error, as `removeChild` throws for a node that is not a child |
| DitaMap.RemoveFirstReference | test/com/maxprograms/utils/TestUtils.java:362-385 | on success the removed node is a child of the map, the first matching topicref in document order; the other children keep their order, and a blank text node right before it goes too |
| DitaMap.AddThenRemove | test/com/maxprograms/utils/TestUtils.java:286-385 | on a parsed map (no two adjacent text nodes) without a reference to the topic, adding it, writing and parsing the map again, and removing it gives back the map's children followed by "\n": a blank text node that ended the map is replaced by the "\n"; a non-blank one keeps the "\n  " the parser joined to it |
| DitaMap.AddThenRemoveRestores | test/com/maxprograms/utils/TestUtils.java:286-385 | for a map whose children end in a "\n" text node, the round trip gives back exactly the same map |
| DitaMap.MergeOfMerged | test/com/maxprograms/utils/TestUtils.java:352 | parsing children that hold no adjacent text nodes leaves them as they are |
| DitaTopic.BodyElementFrom | test/com/maxprograms/utils/TestUtils.java:470-479 | a found body is an element at a valid path of the document |
| DitaTopic.FindBodyElement | test/com/maxprograms/utils/TestUtils.java:470-479 | the early-return loop over the body types equals `BodyElement` |
| DitaTopic.BodyElementFromSpec | test/com/maxprograms/utils/TestUtils.java:472-477 | from body type k on, the result is the first element of the first type present, and none exactly when no later type occurs |
| DitaTopic.BodyElementSpec | test/com/maxprograms/utils/TestUtils.java:470-479 | body wins over conbody, which wins over taskbody, whatever their document order; the first element of the chosen type is returned; none exactly when no body type occurs |
| DitaTopic.BodyElement | test/com/maxprograms/utils/TestUtils.java:470-479 | definition: the first element named body, conbody or taskbody, trying the three names in that order |
| DitaTopic.InsertTextInLastParagraph | test/com/maxprograms/utils/TestUtils.java:417-444 | the step-by-step insertion equals the specification `TextInserted` |
| DitaTopic.TextInserted | test/com/maxprograms/utils/TestUtils.java:417-444 | definition: the error checks in the Java helper's order, then a text node appended to the last p element below the body |
| DitaTopic.InsertErrors | test/com/maxprograms/utils/TestUtils.java:418-440 | the insertion fails, in this order: with a missing topic exactly when it is not a regular file; with an empty-text error exactly when the text is empty; with no body exactly when no body type occurs; with no paragraph exactly when the body holds no p element |
| DitaTopic.LastOfNodeList | test/com/maxprograms/utils/TestUtils.java:437-442 | the last item of the body's p node list is its last p element in document order |
| DitaTopic.InsertIntoLastParagraph | test/com/maxprograms/utils/TestUtils.java:437-444 | on success one text node holding the text is appended to the body's last p element, and every node that is not on that paragraph's line is unchanged |
| DitaTopic.InsertKeepsAncestors | test/com/maxprograms/utils/TestUtils.java:437-444 | the body's last p element exists, and every node on the path from the document element down to it, the body included, keeps its name, attributes and number of children |
| Projects.MapTitle | test/com/maxprograms/utils/TestUtils.java:165-168 | the title plus ".ditamap" is the file name when the name ends with it; otherwise the title is the file name |
| Projects.MapTitleExamples | test/com/maxprograms/utils/TestUtils.java:165-168 | "sample.ditamap" gives "sample", "sample.xml" stays, ".ditamap" gives "" |
| Projects.CreateNewProjectForMap | test/com/maxprograms/utils/TestUtils.java:162-175 | definition: the new project record with the given id, map path and target languages, the title from the file name, "Test project for " plus the path as description, en-US as source language, both dates set to now, and no memories or language status |
| Projects.ProjectsManager.constructor | test/com/maxprograms/utils/TestUtils.java:125 | a new registry holds the given projects |
| Projects.ProjectsManager.Add | test/com/maxprograms/utils/TestUtils.java:106 | adding appends the project to the registry's list |
| Projects.FindByMap | test/com/maxprograms/utils/TestUtils.java:99-103 | the result is the first project, in registry order, whose normalised map path is the key; none exactly when there is no such project |
| Projects.GetOrCreateProjectForDitaMap | test/com/maxprograms/utils/TestUtils.java:89-116 | the result and the registry afterwards are those of the specification `GetOrCreate` on the registry before |
| Projects.GetOrCreate | test/com/maxprograms/utils/TestUtils.java:89-116 | definition: a missing map fails; otherwise the first registered project with the same normalised map path, or else a new project appended to the registry |
| Projects.GetOrCreateFails | test/com/maxprograms/utils/TestUtils.java:91-93 | a missing map file is the only failure, and it leaves the registry alone |
| Projects.GetOrCreateFinds | test/com/maxprograms/utils/TestUtils.java:97-102 | a registered project with the same normalised map path is returned, the first one, whatever id is asked for; nothing is added |
| Projects.GetOrCreateAdds | test/com/maxprograms/utils/TestUtils.java:104-106 | with no project for the map, exactly one project is appended, with the given id, path, title, description, en-US source language, target languages and dates |
| Projects.SecondCallSameProject | test/com/maxprograms/utils/TestUtilsTest.java:143-149 | a second call for the same normalised map path, with any id, returns the first call's project and adds nothing |
| Projects.GetOrCreateKeepsUnique | test/com/maxprograms/utils/TestUtils.java:97-106 | find-or-create never leaves two projects with the same normalised map path in the registry |
| TextUtils.IndexFrom | test/com/maxprograms/utils/TextUtilsTest.java:31-56 | the result is the first index, from i on, holding the key, or -1 exactly when no later element equals it |
| TextUtils.GeIndex | test/com/maxprograms/utils/TextUtilsTest.java:31-56 | definition: the search from index 0 |
| TextUtils.GeIndexSpec | test/com/maxprograms/utils/TextUtilsTest.java:31-56 | geIndex is -1 exactly when the key is not in the array; otherwise it is an index holding the key, with no earlier occurrence |
| TextUtils.GeIndexExamples | test/com/maxprograms/utils/TextUtilsTest.java:31-56 | "cherry" is at 2 in four fruits, "grape" gives -1, the first element gives 0 and the last gives 2 |
| TextUtils.Trim | test/com/maxprograms/utils/TextUtilsTest.java:65-70 | a trimmed string is empty, or starts and ends with a character above U+0020 |
| TextUtils.TrimSpec | test/com/maxprograms/utils/TextUtilsTest.java:65-70 | the trimmed string is a slice of the input, and every character before and after that slice is at most U+0020 |
| TextUtils.TrimStart | test/com/maxprograms/utils/TextUtilsTest.java:65-70 | leading characters up to U+0020 are removed and nothing else: the result is a suffix of the input, every dropped character is at most U+0020, and the first kept one is above it |
| TextUtils.TrimEnd | test/com/maxprograms/utils/TextUtilsTest.java:65-70 | trailing characters up to U+0020 are removed and nothing else: the result is a prefix of the input, every dropped character is at most U+0020, and the last kept one is above it |
| TextUtils.TrimOfTrimmed | test/com/maxprograms/utils/TextUtilsTest.java:65-70 | a string that is empty or starts and ends above U+0020 is left unchanged by trimming |
| TextUtils.Collapse | test/com/maxprograms/utils/TextUtilsTest.java:59-91 | definition: every run of spaces and newlines becomes one space |
| TextUtils.CollapseCollapses | test/com/maxprograms/utils/TextUtilsTest.java:59-77 | after collapsing there is no newline and no two adjacent spaces; the result starts with a space exactly when the input starts with white space |
| TextUtils.CollapseKeepsWords | test/com/maxprograms/utils/TextUtilsTest.java:59-84 | collapsing keeps all the other characters, in order |
| TextUtils.CollapseOfCollapsed | test/com/maxprograms/utils/TextUtilsTest.java:86-91 | a string without newlines or double spaces is left unchanged by collapsing |
| TextUtils.CollapseIsSqueeze | test/com/maxprograms/utils/TextUtilsTest.java:59-84 | the run-by-run collapsing equals a left-to-right scan that drops white space following white space |
| TextUtils.NormaliseIdempotent | test/com/maxprograms/utils/TextUtilsTest.java:59-98 | normalising a normalised string changes nothing, with or without trimming |
| TextUtils.NormaliseShape | test/com/maxprograms/utils/TextUtilsTest.java:59-91 | the result has no newline and no double space; trimmed, it neither starts nor ends with a space; untrimmed, it starts with a space exactly when the input starts with white space |
| TextUtils.Normalise | test/com/maxprograms/utils/TextUtilsTest.java:59-98 | definition: collapsing, then trimming when asked to |
| TextUtils.NormaliseExtraSpaces | test/com/maxprograms/utils/TextUtilsTest.java:59-63 | "hello   world  how  are  you" normalises to "hello world how are you" |
| TextUtils.NormaliseLeadingTrailing | test/com/maxprograms/utils/TextUtilsTest.java:65-70 | "   hello world   " normalises to "hello world" |
| TextUtils.NormaliseNewlines | test/com/maxprograms/utils/TextUtilsTest.java:72-77 | "hello\nworld\nhow\nare\nyou" normalises to "hello world how are you" |
| TextUtils.NormaliseMixedWhitespace | test/com/maxprograms/utils/TextUtilsTest.java:79-84 | "  hello  \n  world  \n  test  " normalises to "hello world test" |
| TextUtils.NormaliseNoTrim | test/com/maxprograms/utils/TextUtilsTest.java:86-91 | without trimming, "  hello world  " becomes " hello world " |
| TextUtils.NormaliseEmpty | test/com/maxprograms/utils/TextUtilsTest.java:93-98 | the empty string normalises to the empty string |
| TextUtils.Decimal | test/com/maxprograms/utils/TextUtilsTest.java:101-122 | the decimal form is non-empty and made of digits, with a leading 0 only for zero |
| TextUtils.ValueOfDecimal | test/com/maxprograms/utils/TextUtilsTest.java:101-122 | the decimal form denotes the number |
| TextUtils.PadSpec | test/com/maxprograms/utils/TextUtilsTest.java:101-122 | the padded form is as long as the width, or as the number needs; it is zeros followed by the number's decimal form, and it still denotes the number |
| TextUtils.Pad | test/com/maxprograms/utils/TextUtilsTest.java:101-122 | definition: the decimal form, left-filled with "0" up to the width |
| TextUtils.PadExamples | test/com/maxprograms/utils/TextUtilsTest.java:101-122 | pad(5, 2) is "05", pad(42, 2) is "42", pad(7, 4) is "0007" and pad(0, 3) is "000" |

## Left out

- XML parsing and serialisation are not modelled: the parser, the transformer settings, and copying the DOCTYPE to the output. The helpers work on the parsed document element and return the element to be written.
- File system checks are boolean inputs: `Files.exists`/`isRegularFile` and `File.exists`. Three more things are inputs too: the relativized topic path, the map's absolute path and file name, and the path normaliser (`normalizePath`, built on `getCanonicalPath`).
- Identity and aliasing of DOM nodes are not modelled, because nodes are values. In-place edits (`appendChild`, `removeChild`, `setTextContent`, `cloneNode`) are expressed with `Dom.Replace` on values.
- Xliff.GenerateTranslatedXliff: a `file` element nested inside another `file` is never visited as a file. The document's file node list would reach it, but XLIFF 1.2 does not allow that nesting.
- Xliff.GenerateTranslatedXliff: the outer loops over live node lists are modelled as recursion over the tree. The recursion reaches the units inside a newly appended target, as the live list does.
- Xliff.EveryUnitGetsTarget: the test's check of the "language:" prefix in the target text is not stated. `getTextContent` concatenation is not modelled. Xliff.PrefixFirstTextAt and Xliff.NewTargetCopiesSource state the prefix child by child instead.
- `deleteRecursively` and `initPreferences` are not modelled: they are file system and preferences I/O.
- The Memory that `getOrCreateProjectForDitaMap` creates (lines 108-113) is not modelled. It goes to a separate memories manager and does not change the returned project.
- Projects.GetOrCreateProjectForDitaMap: the lookup by reflection and `controller.getProject(id)` are modelled as returning the found or created record itself. The model does not capture re-reading the record from disk or the persistence of the registry.
- Projects.ProjectsManager.Add: the code of `ProjectsManager.add` and `getProjects` is not part of this model. Add is assumed to append the project at the end of the registry's list, and the lookup is assumed to scan that list from the front.
- DitaMap.AddThenRemove: writing the map and parsing it again is modelled only as merging adjacent text nodes among the map's own children (`DitaMap.Reparsed`). Other serialisation effects are not modelled: entity and character escaping, attribute order, DOCTYPE handling and the XML declaration.
- The `history` list of a project is not modelled, because it is always created empty.
- Null arguments are not modelled; Dafny values cannot be null.
- The clock is a parameter (`now`). Date formatting is not modelled.
- TextUtils: the implementation is not part of this model. `normalise` and `pad` are defined to meet the tests.
- TextUtils.Normalise treats only ' ' and '\n' as white space to collapse, the characters the tests use. Trimming strips every character up to U+0020, as `String.trim` does.
- TextUtils.Pad takes a natural number; negative numbers are not modelled.
- The end-to-end tests (profiling, controller tests) are not modelled.
