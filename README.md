# Airport-name prefix search: verified Dafny model

This project models the search core of the `renue_test_task` airport-search program.
The program reads a CSV file of airports and indexes the value of one column, the one
chosen on the command line (1 to 14), in a prefix tree under the airport's numeric id. It answers prefix queries and writes the answers as a
JSON report.

The model covers five source files:

- `logic/CompressedTrie.java` is a compressed (radix) prefix tree. Keys are folded to
  lower case on insert and on search. Every edge carries a label, and a node's children
  are keyed by the first character of their labels. `insert` splits an edge when the key
  leaves it partway. `search` may stop inside an edge label. `collectAirportIds` unions
  the id sets of a subtree with an explicit stack and returns them sorted.
  Dafny: class `LogicCompressedTrie.CompressedTrie` over a node arena (`nodes: seq<Node>`,
  children referred to by index). Two ghost fields give it meaning. `paths[k]` is the
  string spelled from the root down to node `k`. `content` holds the (key, id) pairs the
  trie answers for. The invariant `Valid` is `RadixArena.Wf`. It says:
  - every non-root label is non-empty and starts with the character its child is
    stored under;
  - the paths form a tree ordered by the prefix relation;
  - every pair in `content` is stored at the node of its key;
  - every id at a node, stale copies made by a split included, belongs to a pair whose
    key extends that node's path.
  The stack walk of `collectAirportIds` is proved in `RadixCollect`.
- `logic/Trie.java` is an uncompressed, case-insensitive character trie with list-valued
  ids. Dafny: class `LogicTrie.Trie`.
- `Trie.java` with `Node.java` is the same trie without case folding. Dafny: class
  `RenueTrie.Trie`.
  Both character tries share the arena of `CharArena`. A ghost `log` records every
  `insert` call in order. A query's answer is stated as the multiset of ids logged under
  keys that extend the query (`CharArena.MatchIds`).
- `report/JsonReportVisitor.java` and `JsonReportVisitor.java` are the two visitors that
  collect `SearchResult`s and serialise them. Dafny: classes
  `ReportJsonVisitor.JsonReportVisitor` and `RenueJsonVisitor.JsonReportVisitor`.
  They share `JsonText`, which holds:
  - the escaper;
  - a reference decoder for JSON string contents following section 7 of RFC 8259,
    against which the escaper is proved;
  - decimal and list rendering of numbers;
  - the document frame.

`CaseFold` models `String.toLowerCase` as ASCII lower-casing. `Choice` holds two small
facts needed to pick an element from a non-empty set.

## Model

Source paths are relative to the repository root.

| member | source | states |
|---|---|---|
| CaseFold.Lower | src/main/java/gitlab/renue/logic/CompressedTrie.java:47 | lower-casing keeps the length of the key |
| CaseFold.LowerChars | src/main/java/gitlab/renue/logic/CompressedTrie.java:93 | every character is folded on its own, and no upper-case letter is left |
| CaseFold.LowerIdempotent | src/main/java/gitlab/renue/logic/CompressedTrie.java:93 | folding a folded string changes nothing, so a query and its folded form search the same key |
| CaseFold.LowerAppend | src/main/java/gitlab/renue/logic/Trie.java:44 | folding distributes over concatenation |
| CaseFold.LowerPrefix | src/main/java/gitlab/renue/logic/Trie.java:44 | a prefix of a key is still a prefix once both are folded |
| RadixArena.MatchesAdd | src/main/java/gitlab/renue/logic/CompressedTrie.java:82 | adding a pair adds its id to the answer of exactly the queries that are prefixes of its key |
| RadixArena.MatchesAntitone | src/main/java/gitlab/renue/logic/CompressedTrie.java:109-111 | a longer query never answers more ids than a shorter one |
| RadixArena.PathInjective | src/main/java/gitlab/renue/logic/CompressedTrie.java:14-28 | in a well-formed arena no two nodes spell the same string |
| RadixArena.Walk | src/main/java/gitlab/renue/logic/CompressedTrie.java:96-119 | from any node on the way to a stored key, the key is either at that node or continues through the child chosen by its next character |
| RadixArena.AllIdsStored | src/main/java/gitlab/renue/logic/CompressedTrie.java:130-147 | the ids held anywhere in the arena are exactly the ids of all stored pairs |
| RadixArena.NoChildNoMatch | src/main/java/gitlab/renue/logic/CompressedTrie.java:98-100 | a query that leaves a node where it has no child matches no stored pair |
| RadixArena.ThroughChild | src/main/java/gitlab/renue/logic/CompressedTrie.java:102-118 | when the query goes on below a node through an existing child: if it ends within the child's path its answer is the child's whole subtree, and if it diverges from the child's label it matches nothing |
| RadixArena.InsideEdge | src/main/java/gitlab/renue/logic/CompressedTrie.java:109-114 | the `startsWith` test on the rest of a label holds exactly when the query is a prefix of the child's path; otherwise the child's path is no prefix of the query either |
| RadixArena.ReachAt | src/main/java/gitlab/renue/logic/CompressedTrie.java:50-81 | the point an insert walks to is the longest prefix of the key that some node's path extends |
| RadixArena.IdAdded | src/main/java/gitlab/renue/logic/CompressedTrie.java:82 | adding the id to the node whose path is the key keeps the invariant, with the pair added |
| RadixArena.AtNodeFacts | src/main/java/gitlab/renue/logic/CompressedTrie.java:80-82 | a key that is a node's path is reached in full and is not lost |
| RadixArena.LeafAdded | src/main/java/gitlab/renue/logic/CompressedTrie.java:52-56 | hanging a new leaf with the rest of the key below a node with no child for the next character keeps the invariant, with the pair added |
| RadixArena.PathSetAppend | src/main/java/gitlab/renue/logic/CompressedTrie.java:53-55 | a new node adds exactly its path to the set of node paths |
| RadixArena.LeafFacts | src/main/java/gitlab/renue/logic/CompressedTrie.java:52-56 | when the walk stops at a node with no child for the next character, that node's path is the reach of the key, and the key is not lost |
| RadixArena.Gap | src/main/java/gitlab/renue/logic/CompressedTrie.java:63-70 | no node's path lies strictly between a node and its child |
| RadixArena.UniqueParent | src/main/java/gitlab/renue/logic/CompressedTrie.java:63-70 | every node is the child of exactly one parent, under one character |
| RadixArena.SplitEdges | src/main/java/gitlab/renue/logic/CompressedTrie.java:64-70 | after a split every label is still non-empty and starts with the character it is stored under |
| RadixArena.SplitTree | src/main/java/gitlab/renue/logic/CompressedTrie.java:64-70 | after a split the paths still form a prefix-ordered tree |
| RadixArena.SplitBelow | src/main/java/gitlab/renue/logic/CompressedTrie.java:64-70 | after a split every node path extending another is reached from it through the right child |
| RadixArena.SplitPreserves | src/main/java/gitlab/renue/logic/CompressedTrie.java:64-70 | a split keeps the whole invariant with the stored pairs unchanged and adds only the split point to the node paths; the copied and the retained ids stay within the subtree |
| RadixArena.SplitFacts | src/main/java/gitlab/renue/logic/CompressedTrie.java:60-72 | when the key leaves a label after `m` characters, it reaches that point, and it is lost exactly when it ends there |
| RadixArena.ElemsEmpty | src/main/java/gitlab/renue/logic/CompressedTrie.java:99 | proof helper, a plain fact about sequences used for the empty answer: a list has no elements exactly when it is empty |
| RadixArena.AscendingUnique | src/main/java/gitlab/renue/logic/CompressedTrie.java:144-146 | proof helper, a plain fact about sequences used by the sort and case proofs: two strictly ascending lists with the same elements are equal |
| RadixArena.MinOf | src/main/java/gitlab/renue/logic/CompressedTrie.java:145 | proof helper, a plain fact about sets used by the sort model: a non-empty set of ids has a least element |
| RadixArena.SelectStep | src/main/java/gitlab/renue/logic/CompressedTrie.java:145 | appending the least remaining id keeps the list strictly ascending and every id accounted for |
| RadixArena.SortedList | src/main/java/gitlab/renue/logic/CompressedTrie.java:144-146 | the sorted copy of a set is strictly ascending and has exactly the set's elements |
| RadixCollect.StartOuter | src/main/java/gitlab/renue/logic/CompressedTrie.java:131-133 | the stack holding only the start node satisfies the loop invariant |
| RadixCollect.PopInner | src/main/java/gitlab/renue/logic/CompressedTrie.java:136-137 | popping a node and adding its ids keeps the invariant: collected ids stay in the subtree, and every pair below the subtree is collected or below a stacked node |
| RadixCollect.PopCovered | src/main/java/gitlab/renue/logic/CompressedTrie.java:136 | the popped node leaves the set of nodes still to visit |
| RadixCollect.PushInner | src/main/java/gitlab/renue/logic/CompressedTrie.java:139-141 | pushing one child keeps the invariant for the children not yet pushed |
| RadixCollect.PushAntichain | src/main/java/gitlab/renue/logic/CompressedTrie.java:140 | the stack never holds a node together with one of its descendants |
| RadixCollect.PushCovered | src/main/java/gitlab/renue/logic/CompressedTrie.java:140 | the nodes below the stack, once children are pushed, are those before the pop minus the popped node |
| RadixCollect.FinishInner | src/main/java/gitlab/renue/logic/CompressedTrie.java:135-142 | after all children are pushed, the invariant holds again and the nodes still to visit have strictly decreased |
| RadixCollect.DoneOuter | src/main/java/gitlab/renue/logic/CompressedTrie.java:135-144 | once the stack is empty the collected set is exactly the ids of the pairs whose key extends the start node's path |
| LogicCompressedTrie.CompressedTrie.constructor | src/main/java/gitlab/renue/logic/CompressedTrie.java:35-37 | a new trie is a lone root with an empty label and answers nothing |
| LogicCompressedTrie.CompressedTrie.CommonPrefixLength | src/main/java/gitlab/renue/logic/CompressedTrie.java:156-164 | the result `n` is at most both lengths, the strings agree on their first `n` characters, and they differ at `n` when both go on |
| LogicCompressedTrie.CompressedTrie.AddLeaf | src/main/java/gitlab/renue/logic/CompressedTrie.java:52-56 | a new last node labelled with the rest of the key, with no children and holding only the id, becomes the child of node `k` under the key's next character; every other node is unchanged; the pair is added and the key's path joins the node paths |
| LogicCompressedTrie.CompressedTrie.SplitChild | src/main/java/gitlab/renue/logic/CompressedTrie.java:63-70 | the child keeps the first `m` characters of its label and its own ids; its only child, under the next label character, is a new last node with the rest of the label, the former children, a copy of the ids and the child's former path; every other node is unchanged, and no answer changes |
| LogicCompressedTrie.CompressedTrie.SplitInsert | src/main/java/gitlab/renue/logic/CompressedTrie.java:63-77 | the code as written: after the split the pair is added unless the key ends at the split point, where it is lost |
| LogicCompressedTrie.CompressedTrie.SplitInsertFixed | src/main/java/gitlab/renue/logic/CompressedTrie.java:63-77 | the corrected split: when the key ends at the split point the id is stored on the shortened node, so the pair is always added |
| LogicCompressedTrie.CompressedTrie.AddId | src/main/java/gitlab/renue/logic/CompressedTrie.java:82 | the id joins the ids of the node whose path is the key, every other node and all paths are unchanged, and the pair is added |
| LogicCompressedTrie.CompressedTrie.Insert | src/main/java/gitlab/renue/logic/CompressedTrie.java:45-83 | keeps the invariant; the folded pair is added unless the key is lost; only the key and its reach join the node paths; an empty key puts the id on the root |
| LogicCompressedTrie.CompressedTrie.InsertFixed | src/main/java/gitlab/renue/logic/CompressedTrie.java:45-83 | the corrected insert: keeps the invariant and always adds the folded pair |
| LogicCompressedTrie.CompressedTrie.Search | src/main/java/gitlab/renue/logic/CompressedTrie.java:91-122 | changes nothing and returns a strictly ascending list of exactly the ids of the pairs whose key extends the folded query (that a query ending inside a label is answered from the child's subtree is `RadixArena.ThroughChild`) |
| LogicCompressedTrie.CompressedTrie.CollectAirportIds | src/main/java/gitlab/renue/logic/CompressedTrie.java:130-147 | returns a strictly ascending list of exactly the ids of the pairs whose key extends the node's path |
| LogicCompressedTrie.SearchIgnoresCase | src/main/java/gitlab/renue/logic/CompressedTrie.java:47-93 | a query and its folded form give the same list |
| LogicCompressedTrie.SearchAll | src/main/java/gitlab/renue/logic/CompressedTrie.java:91-147 | the empty query returns every id held at any node |
| LogicCompressedTrie.InsertThenSearch | src/main/java/gitlab/renue/logic/CompressedTrie.java:45-122 | after an insert a query's answer is the old answer, plus the id exactly when the key was not lost and the folded query is a prefix of the folded key; in particular every prefix of the key, in any case, finds the id |
| LogicCompressedTrie.FixedInsertThenSearch | src/main/java/gitlab/renue/logic/CompressedTrie.java:45-122 | with the corrected insert, a query's answer is the old answer plus the id exactly when the folded query is a prefix of the folded key, with no exception |
| LogicCompressedTrie.ReinsertThenSearch | src/main/java/gitlab/renue/logic/CompressedTrie.java:82-122 | inserting a pair the trie already answers for changes no answer |
| LogicCompressedTrie.FirstInsert | src/main/java/gitlab/renue/logic/CompressedTrie.java:52-56 | the first key of a new trie becomes one leaf below the root |
| LogicCompressedTrie.LoseSecond | src/main/java/gitlab/renue/logic/CompressedTrie.java:63-77 | after inserting "abc" and then "ab", the split point "ab" is a node but only the first pair is answered for |
| LogicCompressedTrie.LostIdScenario | src/main/java/gitlab/renue/logic/CompressedTrie.java:72-77 | the code as written: after inserting ("abc", 1) and ("ab", 2), the query "ab" finds only `[1]` |
| LogicCompressedTrie.FixedScenario | src/main/java/gitlab/renue/logic/CompressedTrie.java:72-77 | with the corrected insert the same query finds `[1, 2]` |
| LogicCompressedTrie.RecoveredScenario | src/main/java/gitlab/renue/logic/CompressedTrie.java:80-82 | inserting ("ab", 2) again after it was lost stores it at the split node, and the query then finds `[1, 2]` |
| LogicCompressedTrie.TwoKeys | src/main/java/gitlab/renue/logic/CompressedTrie.java:63-76 | inserting "ab" and then "ac" splits the edge and the trie answers for both pairs |
| LogicCompressedTrie.BranchingScenario | src/main/java/gitlab/renue/logic/CompressedTrie.java:98-121 | on that trie "a" finds `[1, 2]`, "ab" finds `[1]`, and "ad", which diverges below the split, finds nothing |
| CharArena.MatchIdsAppend | src/main/java/gitlab/renue/logic/Trie.java:48 | logging a pair adds its id once to the answer of exactly the queries that are prefixes of its key |
| CharArena.IdsAtAppend | src/main/java/gitlab/renue/logic/Trie.java:48 | logging a pair adds its id once to the ids held for exactly its key |
| CharArena.NoneExtend | src/main/java/gitlab/renue/logic/Trie.java:59-62 | a query no logged key extends has an empty answer |
| CharArena.EmptyMatchesAll | src/main/java/gitlab/renue/logic/Trie.java:74-78 | the empty query's answer is every logged id, with its multiplicity |
| CharArena.UnderNone | src/main/java/gitlab/renue/logic/Trie.java:86-93 | no child characters contribute nothing |
| CharArena.UnderAdd | src/main/java/gitlab/renue/logic/Trie.java:90-92 | visiting one more child adds the answer of the query extended by its character |
| CharArena.NextIs | src/main/java/gitlab/renue/logic/Trie.java:90-92 | a key goes on past `p` with character `c` exactly when `p + [c]` is a prefix of it |
| CharArena.Decompose | src/main/java/gitlab/renue/logic/Trie.java:86-93 | a node's answer is its own ids plus the answers of its children, for any set of children that includes every next character in the log |
| CharArena.PathInjective | src/main/java/gitlab/renue/logic/Trie.java:17-25 | no two nodes spell the same string |
| CharArena.NextChars | src/main/java/gitlab/renue/logic/Trie.java:44-46 | every logged key that goes on below a node does so through an existing child |
| CharArena.NoChildNoMatch | src/main/java/gitlab/renue/logic/Trie.java:59-62 | a query whose next character has no child has an empty answer |
| CharArena.SubtreeShrinks | src/main/java/gitlab/renue/logic/Trie.java:90-92 | a child's subtree is strictly smaller than its parent's, which bounds the recursion |
| CharArena.NodeAdded | src/main/java/gitlab/renue/logic/Trie.java:45 | adding an empty child for a missing character keeps the invariant |
| CharArena.AbsentKey | src/main/java/gitlab/renue/logic/Trie.java:45 | a key with no node has no logged ids |
| CharArena.IdAppended | src/main/java/gitlab/renue/logic/Trie.java:48 | appending the id at the key's node keeps the invariant with the pair logged |
| CharArena.OnlyId | src/main/java/gitlab/renue/Trie.java:22-31 | proof helper, a plain fact about sequences used to pin a search result: a list whose multiset is one id is that one-element list |
| LogicTrie.Trie.constructor | src/main/java/gitlab/renue/logic/Trie.java:32-34 | a new trie is a lone root and has logged nothing |
| LogicTrie.Trie.Insert | src/main/java/gitlab/renue/logic/Trie.java:42-49 | logs the folded pair; creates nodes only along the folded key; appends the id once at the key's node and leaves every other node's ids unchanged |
| LogicTrie.Trie.Search | src/main/java/gitlab/renue/logic/Trie.java:57-66 | changes nothing and returns, as a multiset, the ids logged under keys extending the folded query |
| LogicTrie.Trie.CollectAirportIds | src/main/java/gitlab/renue/logic/Trie.java:74-78 | returns, as a multiset, the ids logged under keys extending the node's path |
| LogicTrie.Trie.CollectAirportIdsRecursive | src/main/java/gitlab/renue/logic/Trie.java:86-93 | returns the given list's ids plus those logged under keys extending the node's path |
| LogicTrie.InsertEffect | src/main/java/gitlab/renue/logic/Trie.java:42-66 | an insert adds its id once to the answer of exactly the queries whose folded form is a prefix of the folded key, so every prefix in any case finds it |
| LogicTrie.SearchIgnoresCase | src/main/java/gitlab/renue/logic/Trie.java:44-59 | a query and its folded form give the same ids |
| LogicTrie.SearchAll | src/main/java/gitlab/renue/logic/Trie.java:57-78 | the empty query returns every inserted id |
| LogicTrie.FoldScenario | src/main/java/gitlab/renue/logic/Trie.java:19-48 | inserting ("JFK", 7) and ("jfk", 7) makes "JF" find 7 twice |
| LogicTrie.MissScenario | src/main/java/gitlab/renue/logic/Trie.java:59-62 | a query whose character has no child finds the empty list |
| RenueTrie.Trie.constructor | src/main/java/gitlab/renue/Trie.java:9-11 | a new trie is a lone root and has logged nothing |
| RenueTrie.Trie.Insert | src/main/java/gitlab/renue/Trie.java:13-20 | logs the pair unchanged; creates nodes only along the key; appends the id once at the key's node and leaves every other node's ids unchanged |
| RenueTrie.Trie.Search | src/main/java/gitlab/renue/Trie.java:22-31 | changes nothing and returns, as a multiset, the ids logged under keys extending the query, with case significant |
| RenueTrie.Trie.CollectAirportIds | src/main/java/gitlab/renue/Trie.java:33-37 | returns, as a multiset, the ids logged under keys extending the node's path |
| RenueTrie.Trie.CollectAirportIdsRecursive | src/main/java/gitlab/renue/Trie.java:39-46 | returns the given list's ids plus those logged under keys extending the node's path |
| RenueTrie.InsertEffect | src/main/java/gitlab/renue/Trie.java:13-31 | an insert adds its id once to the answer of exactly the queries that are prefixes of the key |
| RenueTrie.SearchAll | src/main/java/gitlab/renue/Trie.java:22-30 | the empty query returns every inserted id |
| RenueTrie.CaseMissScenario | src/main/java/gitlab/renue/Trie.java:15-27 | after inserting "jfk" only, "JFK" finds nothing |
| RenueTrie.CaseHitScenario | src/main/java/gitlab/renue/Trie.java:15-24 | once "JFK" is also inserted, "JFK" finds exactly its own id |
| RenueTrie.DuplicateScenario | src/main/java/gitlab/renue/Trie.java:19-45 | inserting the same pair twice makes a prefix of the key ("jf") find its id twice |
| JsonText.EscapeChar | src/main/java/gitlab/renue/report/JsonReportVisitor.java:58-82 | each of the seven special characters becomes a backslash and a letter that the RFC 8259 decoder maps back to it; every other character is copied |
| JsonText.EscapedAppend | src/main/java/gitlab/renue/report/JsonReportVisitor.java:57 | escaping works character by character, so it distributes over concatenation |
| JsonText.Escaped | src/main/java/gitlab/renue/report/JsonReportVisitor.java:57-83 | the escape loop as a function: each character's replacement, in order; its properties are `EscapedAppend`, `EscapedLength`, `EscapedIdentity`, `EscapedNoBreak`, `EscapeRoundTrip` and `RawControlRefused` |
| JsonText.EscapedNoBreak | src/main/java/gitlab/renue/report/JsonReportVisitor.java:71-73 | the escaped text holds no raw line break, since a line feed is written as `\n` |
| JsonText.EscapeJson | src/main/java/gitlab/renue/report/JsonReportVisitor.java:54-85 | returns "null" for a missing string and otherwise the string with every character escaped in order |
| JsonText.EscapedLength | src/main/java/gitlab/renue/JsonReportVisitor.java:64-92 | the output is as long as the input plus the number of special characters |
| JsonText.EscapedIdentity | src/main/java/gitlab/renue/report/JsonReportVisitor.java:80-81 | a string without special characters is returned unchanged |
| JsonText.UnescapeStep | src/main/java/gitlab/renue/report/JsonReportVisitor.java:58-82 | the decoder reads one escaped character back and goes on with the rest |
| JsonText.EscapeRoundTrip | src/main/java/gitlab/renue/report/JsonReportVisitor.java:57-83 | for a string without raw control characters other than the seven, decoding the output by section 7 of RFC 8259 gives the string back |
| JsonText.RawControlRefused | src/main/java/gitlab/renue/report/JsonReportVisitor.java:80-81 | a control character outside the seven is copied raw, and a strict RFC 8259 decoder then refuses the output |
| JsonText.NatText | src/main/java/gitlab/renue/report/JsonReportVisitor.java:37 | a number is written as a non-empty string of decimal digits with no leading zero |
| JsonText.NatTextValue | src/main/java/gitlab/renue/report/JsonReportVisitor.java:37 | reading the digits back gives the number |
| JsonText.IntText | src/main/java/gitlab/renue/report/JsonReportVisitor.java:37-43 | `append(long)`: a minus sign for a negative number, then its decimal digits; its properties are `IntTextValue` |
| JsonText.IntTextValue | src/main/java/gitlab/renue/report/JsonReportVisitor.java:37-43 | the text starts with a minus sign exactly when the number is negative, the rest are digits that read back as its absolute value, and there is no line break |
| JsonText.ListText | src/main/java/gitlab/renue/report/JsonReportVisitor.java:42 | `append(List)`, that is `List.toString`: the elements' texts in order, separated by a comma and a space, in brackets; its properties are `ListTextShape` |
| JsonText.JoinNoBreak | src/main/java/gitlab/renue/report/JsonReportVisitor.java:42 | joining parts without line breaks by a separator without one gives a text without one |
| JsonText.ListTextShape | src/main/java/gitlab/renue/report/JsonReportVisitor.java:42 | the list text opens with `[`, closes with `]` and holds no line break; an empty list is `[]` and a one-element list is its element in brackets |
| JsonText.Header | src/main/java/gitlab/renue/report/JsonReportVisitor.java:37 | the opening of the report up to the first object, with the `initTime` number; that a document starts with it is `DocumentFrame`, and the other visitor's three appends writing it is `RenueJsonVisitor.RenueHeader` |
| JsonText.Footer | src/main/java/gitlab/renue/report/JsonReportVisitor.java:50 | the closing `  ]` line and `}`; that a document ends with it is `DocumentFrame` |
| JsonText.Lines | src/main/java/gitlab/renue/report/JsonReportVisitor.java:39-48 | the body the loop writes after `n` iterations: each object followed by a comma unless it is the last of all, and a line break; the same loop is at JsonReportVisitor.java:42-53; its properties are `LinesStep`, `LinesPrefix` and `LinesJoin` |
| JsonText.Document | src/main/java/gitlab/renue/report/JsonReportVisitor.java:35-52 | the whole report: header, body and footer; the same document is built at JsonReportVisitor.java:36-58, and its frame is `DocumentFrame` |
| JsonText.LinesStep | src/main/java/gitlab/renue/report/JsonReportVisitor.java:39-48 | one more loop iteration appends the next entry, a comma unless it is the last, and a newline |
| JsonText.LinesPrefix | src/main/java/gitlab/renue/report/JsonReportVisitor.java:44-47 | after `n` iterations the body is the first `n` entries joined by ",\n", followed by ",\n" when more follow and "\n" otherwise |
| JsonText.LinesJoin | src/main/java/gitlab/renue/report/JsonReportVisitor.java:39-48 | the body is all entries in order joined by ",\n" with a final newline, so there is no comma after the last; with no entries it is empty |
| JsonText.DocumentFrame | src/main/java/gitlab/renue/report/JsonReportVisitor.java:37-50 | the document starts with the header carrying `initTime`, ends with "  ]\n}", and with no results is just the two |
| ReportJsonVisitor.Entry | src/main/java/gitlab/renue/report/JsonReportVisitor.java:41-43 | one result object: the escaped query (or `null`) in quotes, the id list and the time; its properties are `EntryOneLine` |
| ReportJsonVisitor.EntryOneLine | src/main/java/gitlab/renue/report/JsonReportVisitor.java:41-43 | the object holds no line break, so each result takes exactly one line, and it ends with `}` |
| ReportJsonVisitor.EntryLayout | src/main/java/gitlab/renue/report/JsonReportVisitor.java:41-43 | the object is its three fixed pieces around the query, the list and the time, and none of the fixed pieces holds a line break |
| ReportJsonVisitor.Entries | src/main/java/gitlab/renue/report/JsonReportVisitor.java:39-48 | one object per collected result |
| ReportJsonVisitor.EntriesAppend | src/main/java/gitlab/renue/report/JsonReportVisitor.java:22-25 | a visited result adds its object at the end and leaves the earlier ones unchanged |
| ReportJsonVisitor.JsonReportVisitor.constructor | src/main/java/gitlab/renue/report/JsonReportVisitor.java:17-20 | a new visitor has the given `initTime` and no results |
| ReportJsonVisitor.JsonReportVisitor.Visit | src/main/java/gitlab/renue/report/JsonReportVisitor.java:22-25 | appends exactly the given result at the end |
| ReportJsonVisitor.JsonReportVisitor.ToJson | src/main/java/gitlab/renue/report/JsonReportVisitor.java:35-52 | the output is the header, one single-line object per result in visit order with commas between them, and the footer |
| RenueJsonVisitor.Entry | src/main/java/gitlab/renue/JsonReportVisitor.java:44-48 | one result object over five lines: the opening brace, the escaped query (or `null`) in quotes, the id list, the time and the closing brace; its properties are `EntryFiveLines` |
| RenueJsonVisitor.EntryFiveLines | src/main/java/gitlab/renue/JsonReportVisitor.java:44-48 | the object holds exactly four line breaks, all from the layout, so it spans exactly five lines whatever the query, ids and time |
| RenueJsonVisitor.EntryLayout | src/main/java/gitlab/renue/JsonReportVisitor.java:44-48 | the object is its five lines joined by line breaks |
| RenueJsonVisitor.CountBreaks | src/main/java/gitlab/renue/JsonReportVisitor.java:44-48 | proof helper: five pieces without line breaks, joined by line breaks, hold exactly four |
| RenueJsonVisitor.Entries | src/main/java/gitlab/renue/JsonReportVisitor.java:42-53 | one object per collected result |
| RenueJsonVisitor.EntriesAppend | src/main/java/gitlab/renue/JsonReportVisitor.java:23-26 | a visited result adds its object at the end and leaves the earlier ones unchanged |
| RenueJsonVisitor.RenueHeader | src/main/java/gitlab/renue/JsonReportVisitor.java:38-40 | the three header appends write the same header as the other visitor |
| RenueJsonVisitor.JsonReportVisitor.constructor | src/main/java/gitlab/renue/JsonReportVisitor.java:11-17 | a new visitor has `initTime` 0 and no results |
| RenueJsonVisitor.JsonReportVisitor.SetInitTime | src/main/java/gitlab/renue/JsonReportVisitor.java:19-21 | overwrites `initTime` and leaves the results unchanged |
| RenueJsonVisitor.JsonReportVisitor.Visit | src/main/java/gitlab/renue/JsonReportVisitor.java:23-26 | appends exactly the given result and leaves `initTime` unchanged |
| RenueJsonVisitor.JsonReportVisitor.ToJson | src/main/java/gitlab/renue/JsonReportVisitor.java:36-58 | the output is the header, one five-line object per result in visit order with commas between them, and the footer |

## Left out

- `writeToFile` in both visitors is file output. It is not modelled, and neither is the
  `outputFilePath` field, which only it uses.
- `AirportSearch.java`, both `CsvParser.java` files, both `ResponseFormatter.java`
  files and `logic/Node.java` are not part of this model. They are command-line
  handling, file reading and visitor dispatch; `logic/Node.java` is not used by the
  modelled code.
- CaseFold.Lower: `String.toLowerCase` is locale- and Unicode-dependent and may change a
  string's length. The model folds only the ASCII letters `A`-`Z`.
- Iteration order of `TreeMap`, `HashMap` and `ArrayDeque`: children are visited in an
  arbitrary order (`:|`). The compressed trie sorts its answer, so the order never shows
  there. For the character tries, answers are stated as multisets. The order of the
  returned list, which follows `HashMap` iteration, is left unspecified.
- Java `int` and `long` widths: ids, `initTime` and `time` are unbounded integers. No
  arithmetic is done on them, so no overflow can occur.
- `null` lists and ids are not modelled. `SearchResult` is a datatype whose result is a
  sequence, and `escapeJson`'s `null` argument is `None`. The `airportIds != null` test in
  `Trie.java` can never fail, because every node gets a list when it is created.
- A `null` key or query: `insert` and `search` in all three tries throw a
  `NullPointerException` on it (`toLowerCase()` at lines 47 and 93 of
  `logic/CompressedTrie.java` and lines 44 and 59 of `logic/Trie.java`, and `toCharArray()`
  at lines 15 and 24 of `Trie.java`). The model's strings cannot be
  `null`, so this exception is not modelled.
- RenueTrie.Trie.Insert and LogicTrie.Trie.Insert: `putIfAbsent` also allocates a
  `new Node()` that is thrown away when the child exists. The model creates a node only
  when the child is missing.
- CollectAirportIdsRecursive in both character tries: the shared result list is threaded
  through the recursion as a value (argument in, result out) instead of being mutated in
  place.
- The compressed trie's nodes are records in an arena addressed by index, not heap
  objects. Sharing the `children` map between the split node and the new lower node
  (line 65) is modelled as copying it, since the upper node gets a fresh map right after
  (line 69).
- `insert`'s split step is written as the helper methods `SplitChild`, `SplitInsert`,
  `AddLeaf` and `AddId`, which `Insert` calls from its loop.
- The `prefixLen == 0` branch of `search` (lines 105-107) can never be taken, since a
  child is stored under the first character of its label. The model keeps it as a proved
  dead branch.
- UTF-16 code units: Java's `char` is a UTF-16 code unit, and the tries and both
  `escapeJson` loops iterate over code units. Dafny characters are Unicode scalar values.
  A character outside the Basic Multilingual Plane is therefore two trie nodes (and two
  loop steps) in Java but one in the model. A string holding a lone surrogate, such as a
  query made of one, cannot be written in the model at all. For the same reason the
  reference decoder refuses `\u` escapes of surrogates; the escaper never produces any
  `\u` escape.
- `List.toString` of the result list is modelled as `"[" + join(", ") + "]"`.

## Findings

| source | as written | input that shows it | evidently intended | confidence | as-written member | corrected member |
|---|---|---|---|---|---|---|
| src/main/java/gitlab/renue/logic/CompressedTrie.java:63-77 | when the inserted key ends exactly where an edge is split (`i == length` at line 72), no leaf is made and the id is added to no node | `insert("abc", 1)`, `insert("ab", 2)`, `search("ab")` returns `[1]` | the id is stored on the shortened node, and `search("ab")` returns `[1, 2]` | not executed | LogicCompressedTrie.LostIdScenario | LogicCompressedTrie.FixedScenario |

`LostIdScenario` calls the insert as written (`CompressedTrie.Insert`, through
`SplitInsert`). `FixedScenario` calls `CompressedTrie.InsertFixed`, through
`SplitInsertFixed`; that insert's contract proves the pair is always stored.
