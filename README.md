# Mind Map Explorer — a Dafny model of its graph state and related-word filter

Mind Map Explorer is a small web application. The user types a seed word. A language
model is asked for related words. The answer is drawn as a graph that grows when a node
is clicked. This project models the two pieces of that application that hold logic:

- **The application state and its transitions** (`App.tsx`). The page keeps the nodes,
  the links, the text in the search box, a loading flag, the path of explored words, and
  the set of ids already expanded. A search replaces the map with a root and one child
  per related word. A click on a node is accepted only when nothing is loading and the
  node has not been expanded. On completion it appends one child per related word below
  the node. Reset empties the map. The model is the class `App.MindMapApp`, with these six
  fields and one method per transition. The click is split into `BeginExpand` (the guard
  and raising the loading flag, before the request) and `CompleteExpand` (what runs
  when the answer arrives).
- **The post-processing of the related-word service** (`services/geminiService.ts`).
  The model's answer is either empty text (giving `[]`), or a parsed list, or a failure
  (giving the fixed list `["Error", "Retry", "Wait"]`). For a parsed list, the service
  drops every word equal to the subject ignoring case. It then removes duplicates by exact
  equality, keeping first occurrences in order. This is modelled by the functions of
  `RelatedWords`.

The graph is also modelled as a value (`MindMap.Graph`, with `Seeded` and `Grow`). The
class's methods are proved to produce exactly those values. The lemmas about them state
the tree shape: ids are unique and the first node is the root. Every later node is the
target of exactly one link. That link comes from its parent, which sits earlier in the
list and one level higher. Links run parent to child (`source` is the parent).

Inputs the code takes from outside are parameters:
- `related` is the service's answer, which the source awaits. The service itself is
  `RelatedWords.FetchRelatedWords` applied to that reply.
- `suffixes` are the random id suffixes, one per related word.
- The random draws are modelled as arbitrary strings. `MindMap.FreshIds` states that the
  ids they give are new. The tree-shape results assume that.

Behaviour of the source worth noting:
- Duplicates are removed by exact equality (`new Set`, `services/geminiService.ts:28`),
  not ignoring case. So "Dog" and "dog" both survive (`RelatedWords.CaseVariantsSurvive`).
- A node's id enters the expanded set when its expansion completes, not when the click
  is accepted (`App.tsx:82`). While a request is out, only the global loading flag guards
  against a repeated click.
- Links are created with the parent as `source` and the child as `target`
  (`App.tsx:40`, `App.tsx:74`).

The node field the source calls `label` is named `word` here, because `label` is a
reserved word in Dafny.

## Model

| member | source | states |
|---|---|---|
| Text.ToLower | services/geminiService.ts:28 | lower-casing keeps the length and maps each character through ASCII `LowerChar` |
| Text.TrimEmptyIffBlank | App.tsx:17 | `s.trim()` is empty exactly when every character of `s` is JavaScript whitespace |
| Text.Trim | App.tsx:17 | `s.trim()` is a slice of `s` with only whitespace cut off before and after it, and a non-empty result neither starts nor ends with whitespace |
| Text.TrimsToEmpty | App.tsx:17 | the guard `!initialWord.trim()` is true exactly when the text is blank |
| RelatedWords.Filter | services/geminiService.ts:28 | the filtered list is no longer than the input and holds exactly the input words not equal to the subject ignoring case |
| RelatedWords.Dedup | services/geminiService.ts:28 | `Array.from(new Set(s))` has no repeated value, is no longer than `s`, and holds exactly the values of `s` |
| RelatedWords.FetchRelatedWords | services/geminiService.ts:25-31 | empty text gives `[]`; failure gives exactly `["Error","Retry","Wait"]`; a parsed list gives a repetition-free list, no longer than the parsed one, of exactly the parsed words that are not the subject ignoring case |
| RelatedWords.DedupInFirstOccurrenceOrder | services/geminiService.ts:28 | set-based de-duplication lists values by strictly increasing position of first occurrence, so it is an order-preserving subsequence |
| RelatedWords.FilterKeepsOrder | services/geminiService.ts:28 | filtering preserves the relative order of the first occurrences of the surviving words |
| RelatedWords.FirstOccurrenceOrderUnique | services/geminiService.ts:28 | two lists in first-occurrence order with the same values are equal |
| RelatedWords.FetchMatchesReference | services/geminiService.ts:26-28 | a list is the service's answer to a parsed list if and only if it is in the parsed list's first-occurrence order and holds exactly the parsed words other than the subject, ignoring case (subset, completeness and order in both directions) |
| RelatedWords.SubjectRemoved | services/geminiService.ts:28 | no word of the answer equals the subject ignoring case |
| RelatedWords.FetchIdempotent | services/geminiService.ts:28 | filtering and de-duplicating the answer again gives the same answer |
| RelatedWords.SubjectInAnyCaseDropped | services/geminiService.ts:28 | for subject "Cat", `["Cat","cat","Dog"]` gives `["Dog"]` |
| RelatedWords.CaseVariantsSurvive | services/geminiService.ts:28 | for subject "Cat", `["Dog","dog","Dog"]` gives `["Dog","dog"]`: duplicates are removed by exact equality |
| RelatedWords.FallbackNotFiltered | services/geminiService.ts:29-31 | the fallback list is returned unfiltered even when it holds the subject ignoring case |
| MindMap.Seeded | App.tsx:23-43 | a new search's map has the root and one node per related word, and one link per related word; its first node is the root: id the lower-cased word, the word as label, depth 0, no parent (`RootNode`) |
| MindMap.Grow | App.tsx:57-77 | an expansion keeps the old nodes and links as prefixes and adds exactly one node and one link per related word |
| MindMap.GrowWellFormed | App.tsx:57-79 | expanding a node of a well-formed graph with fresh ids gives a well-formed graph |
| MindMap.SeededWellFormed | App.tsx:23-44 | a new search with fresh ids builds a well-formed graph |
| MindMap.LinkEndpointsExist | App.tsx:73-77 | in a well-formed graph every link's source and target are ids of nodes of the graph |
| MindMap.LinkDepthStep | App.tsx:64-74 | a link's target is one level below its source, placed after it, and names the source as its parent |
| MindMap.UniqueParentLink | App.tsx:73-77 | the root is the target of no link and every other node of exactly one (the links into node j are exactly {j-1}) |
| MindMap.StaleCompletionBreaksShape | App.tsx:57-79 | a completion with at least one related word, applied to a well-formed map that no longer holds the clicked node (reset or replaced by a new search while the request was out), leaves a graph that is not well-formed |
| MindMap.SeededIds | App.tsx:23-40 | a new search's ids are the lower-cased word, then each child's lower-cased word, a dash and its suffix, in order |
| MindMap.SeededShape | App.tsx:23-41 | after a search with n related words R there are n+1 nodes and n links; the root has id lower(word), the word as label and depth 0; child i has label R[i], depth 1, parent the root and id lower(R[i])-suffix; link i runs from the root to child i |
| MindMap.GrowShape | App.tsx:61-75 | the i-th node an expansion appends has id lower(R[i])-S[i], label R[i], depth one more than the clicked node's and the clicked node as parent (`ChildNode`, `ChildId`); the i-th new link runs from the clicked node to it |
| App.AppendChildren | App.tsx:61-75 | the `forEach` loop pushes exactly `Children(parent, R, S)` after the existing nodes and collects exactly one link from the parent to each new child |
| App.MindMapApp.constructor | App.tsx:8-13 | the page starts with empty nodes, links, path and expanded set, an empty search box and no request out |
| App.MindMapApp.SetInitialWord | App.tsx:142 | typing sets the search box text and keeps the object invariant as it was |
| App.MindMapApp.StartGame | App.tsx:15-49 | blank text changes nothing; otherwise the map becomes `Seeded(word, R, S)`, the path is `[word]`, the expanded set is exactly `{lower(word)}`, the loading flag is clear and the box is empty; with fresh ids the invariant holds |
| App.MindMapApp.BeginExpand | App.tsx:51-54 | a click is accepted exactly when no request is out and the node is not expanded; an accepted click raises the loading flag and a rejected one changes nothing |
| App.MindMapApp.CompleteExpand | App.tsx:57-83 | the map becomes `Grow(old map, clicked, R, S)`, the clicked label is appended to the path, its id is added to the expanded set, and the loading flag is cleared; the invariant is kept when the clicked node is in the map and the ids are fresh |
| App.MindMapApp.Reset | App.tsx:86-91 | nodes, links, path and expanded set become empty; the loading flag and the search text are untouched |
| App.ClickTwice | App.tsx:51-54 | of two clicks before the first answer, at most one sends a request |
| App.OceanSearch | App.tsx:15-49 | searching "Ocean" with answer Wave, Coral, Salt gives 4 nodes, 3 links, path `["Ocean"]` and expanded set `{"ocean"}` |
| App.OceanSession | App.tsx:15-83 | then clicking "Wave" with answer Tide, Surf gives 6 nodes, 5 links, path `["Ocean","Wave"]`, "Wave" expanded, and a well-formed map |

`App.MindMapApp.Valid` is the object invariant: `MindMap.WellFormed` of the nodes and
links, and every expanded id is the id of a node.

## Left out

- The network call to the language model is not modelled: client construction, the
  prompt, the model name, the response schema and the temperature are left out. `JSON.parse`
  is modelled only by its outcome, a parsed list or a failure. Logging the error to the
  console is also left out.
- Everything in `components/GraphView.tsx` is left out: the force simulation, zoom, drag
  pinning, tick rendering and box sizing are drawing code over a third-party library, in
  floating point. That library's link force also replaces each link's endpoint ids with
  node objects. This is not part of this model either.
- The nodes' `x`/`y` coordinates and their random jitter near the parent are not modelled
  (floating point and `Math.random`).
- The page markup and styling are not modelled. This includes the "Generate Map" button
  being disabled while loading or while the text is blank. `StartGame` models the submit
  handler itself, which has no loading check.
- Asynchrony is not modelled. `StartGame` runs as one step. So the state during its
  request is not observable: the loading flag raised and the expanded set cleared, before
  the answer arrives. Only the click is split into two halves. The model does not cover
  interleavings under React: state-update batching, or the stale `isLoading` captured by
  `useCallback`.
- A completion that arrives after a reset or a new search is allowed, as in the source.
  `StaleCompletionBreaksShape` shows that, with at least one related word, it breaks the
  tree shape whenever the map no longer holds the clicked node. An empty answer leaves
  the map as it was.
- The random suffix is modelled as any string. In the source it is at most four base-36
  characters. Distinctness of the resulting ids is an assumption (`FreshIds`), because
  random draws cannot be proved distinct.
- `Text.ToLower`: lower-cases ASCII letters only; JavaScript's `toLowerCase` follows full
  Unicode case mapping. Strings are sequences of code points, not UTF-16 code units.
- `App.MindMapApp.CompleteExpand`: promises the object invariant only when the clicked
  node is in the map and the new ids are fresh. The source guarantees neither.
