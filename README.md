# ChatGPT export to T3Chat reducer, modelled in Dafny

This project models the reducer in `src/transform.js` of chatgpt-to-t3chat.
The reducer takes the conversations of a ChatGPT data export and returns flat
T3Chat `{threads, messages}`. In the export, each conversation's messages form
an edit-branching tree: a `mapping` from node id to `{parent, children, message}`.

The model has five modules, one per part of the reducer:

- `ExportTypes` (`types.dfy`): the export records (message, content shapes, node,
  conversation) and the output records (thread, message).
  - A conversation's `mapping` is an arena, `map<string, Node>`.
  - A conversation also carries `order`, the sequence in which `for...in`
    enumerates the mapping's keys.
- `ContentNormalizer` (`content.dfy`): `cleanContent`, `processContentPart` and
  `processMessageContent`. They strip the sentinel range U+E200..U+E2FF and
  flatten the three content shapes (string, `{text}`, `{parts}`) to text.
- `EditPath` (`edit_path.dfy`): `isIncompleteMessage`, `isEditNode`,
  `getLatestCompletePath` and `isInValidPath`.
  - Both imperative functions are methods, proved against specification functions:
    - `LatestPath` is the chain of chosen children below a node.
    - `ValidPath` is the decision `isInValidPath` makes.
  - The child that is followed has a reference definition, `NewestComplete`:
    the complete child with the greatest `create_time`, the earliest in
    `children` among ties.
  - A lemma proves that this is what the stable descending sort followed by
    the `for...break` scan finds.
- `Assembler` (`assembler.dfy`): `getModelFromMessage` and `createMessage`, with
  their drop rules and the model-name fallback chain.
- `Transform` (`transform.dfy`): `createThread`, `processor.processConversation`
  and the exported `transformData`.
  - The shared `messageMap` is a class, `MessageMap`. It has the JavaScript
    `Map`'s insertion order, so conversations that share a `conversation_id`
    are merged as the source merges them.
  - Its contents are specified by the value `Groups` and the functions
    `Push`, `PushAll` and `Grouped`.

Termination of the recursion in `getLatestCompletePath` and of the parent walk
in `isInValidPath` depends on the tree being acyclic. The model makes this a
precondition.
- Every conversation comes with a ghost witness `Ranks`.
- The witness has a rank that decreases from a node to its children, and a
  rank that decreases from a node to its parent.

Three behaviours of the code are easy to misread, and the model follows the
code in each:
- The thread id is read from the conversation's `conversation_id` field; the
  conversation has no `id` field.
- A falsy `text` (the empty string) falls through to `parts`.
- An empty string content yields `""`.

## Model

| member | source | states |
|---|---|---|
| EditPath.IsIncomplete | src/transform.js:20-25 | a message is incomplete exactly when its status is not `finished_successfully`; the `in_progress` test adds nothing |
| EditPath.NonEditNodeNoChoice | src/transform.js:27-29 | a node with at most one child (not an edit node) leaves no choice: its only child is followed exactly when it is complete |
| EditPath.TimeOf | src/transform.js:38-39 | the sort key is the child's message `create_time`, and 0 when the child, its message or its time is missing |
| EditPath.NewestComplete | src/transform.js:36-65 | the child followed is a complete child taken from `children`, and there is none exactly when no child is complete |
| EditPath.NewestCompleteIsNewest | src/transform.js:36-41 | the chosen child is at least as new as every complete child and strictly newer than every earlier complete child |
| EditPath.NewestCompleteUnique | src/transform.js:36-41 | any index that is newest and earliest among the complete children is the one chosen, so the choice is determined |
| EditPath.InsertByTime | src/transform.js:37-41 | one insertion step of the stable sort keeps the elements (as a multiset) and keeps them in descending `create_time` order |
| EditPath.SortByTime | src/transform.js:37-41 | the sorted children are a permutation of `children` in descending `create_time` order, with a missing time read as 0 |
| EditPath.SortedScanFindsNewest | src/transform.js:36-65 | the first complete child of the stably sorted list is the newest complete child, the earliest in `children` among ties |
| EditPath.FirstComplete | src/transform.js:44-65 | what the scan finds is an element of the list that exists, has a message and is complete |
| EditPath.FirstCompleteIsFirst | src/transform.js:44-65 | the scan stops at the first complete element, with nothing complete before it, and finds nothing exactly when no element is complete |
| EditPath.LatestPath | src/transform.js:31-68 | every node on the chain below a node has a complete message and lies strictly below the start in the tree |
| EditPath.LatestPathIsChain | src/transform.js:44-65 | the chain starts at the chosen child, each next id is the chosen child of the previous one, it stops at the first node with no complete child, and it is empty exactly when the start has no complete child |
| EditPath.LatestPathExcludesStart | src/transform.js:31-68 | the start node never appears on its own chain |
| EditPath.LatestCompletePath | src/transform.js:31-68 | the method adds to `validPaths` exactly the ids of the chain below the node and nothing else |
| EditPath.NearestEditOnChain | src/transform.js:86-103 | the upward walk stops at a present, non-empty node that is an edit node |
| EditPath.IsInValidPath | src/transform.js:70-107 | the method's answer is the specification `ValidPath`: false for an empty or missing id, true for a cached id or an edit node, true when no edit node is above, otherwise membership in the chain below the nearest edit ancestor |
| EditPath.NearestEditFound | src/transform.js:86-103 | the nearest edit ancestor is reached after some number of parent steps, and no node passed before it is an edit node |
| EditPath.NearestEditNone | src/transform.js:86-106 | when the walk finds no edit node, no node on the parent chain is an edit node |
| EditPath.UpChainRank | src/transform.js:86-103 | every parent step strictly decreases the upward rank, so the walk terminates |
| EditPath.UpChainInjective | src/transform.js:86-103 | the parent walk never visits a node twice |
| EditPath.NoEditNodeAllValid | src/transform.js:70-107 | in a tree without edit nodes every present, non-empty id is on the valid path |
| EditPath.CacheIrrelevant | src/transform.js:70-76 | the cache changes no answer for an id it does not hold |
| EditPath.LatestPathWalksUp | src/transform.js:44-65 | when parent and child links agree, the node at depth `k` of the chain reaches the edit node in `k + 1` parent steps |
| EditPath.NonChosenBranchExcluded | src/transform.js:44-65 | a node below a child of the edit node that is not chosen is not on the chain |
| EditPath.NonChosenBranchInvalid | src/transform.js:70-107 | a node whose nearest edit ancestor is reached through a child that is not chosen is not on the valid path |
| ContentNormalizer.Clean | src/transform.js:120-123 | the cleaned string is no longer than the input and contains no character of U+E200..U+E2FF |
| ContentNormalizer.CleanOne | src/transform.js:120-123 | a single character is deleted exactly when it lies in U+E200..U+E2FF |
| ContentNormalizer.CleanAppend | src/transform.js:120-123 | cleaning distributes over concatenation, so the surviving characters keep their order |
| ContentNormalizer.CleanCounts | src/transform.js:120-123 | every character outside the range keeps its number of occurrences and every sentinel disappears |
| ContentNormalizer.CleanKeepsClean | src/transform.js:120-123 | a string without sentinels is left unchanged |
| ContentNormalizer.CleanIdempotent | src/transform.js:120-123 | cleaning twice equals cleaning once |
| ContentNormalizer.ProcessPart | src/transform.js:145-161 | no part's text contains a sentinel character |
| ContentNormalizer.AudioTranscriptionPrecedes | src/transform.js:145-161 | `audio_transcription` contains the excluded substring `audio`, yet such a part yields its cleaned `text` because that test comes first |
| ContentNormalizer.ExcludedPartIsEmpty | src/transform.js:153-158 | an object part whose type contains `asset_pointer`, `audio` or `video` (other than `audio_transcription`) yields `""` |
| ContentNormalizer.ProcessParts | src/transform.js:136-137 | mapping the parts keeps their number and position |
| ContentNormalizer.NonEmpty | src/transform.js:138 | the filter keeps only non-empty strings of the input, keeps every non-empty one, and is empty exactly when every input string is empty |
| ContentNormalizer.NonEmptyAppend | src/transform.js:138 | filtering distributes over concatenation, so the kept strings stay in input order |
| ContentNormalizer.NonEmptyOne | src/transform.js:138 | a single string is kept exactly when it is non-empty |
| ContentNormalizer.JoinLines | src/transform.js:139 | the join keeps sentinel-freedom and is non-empty when its first piece is |
| ContentNormalizer.JoinLinesSnoc | src/transform.js:139 | joining one more piece appends `"\n"` and that piece, so the pieces appear in order separated by newlines |
| ContentNormalizer.JoinLength | src/transform.js:139 | the joined text's length is the pieces' total length plus one for each separator between neighbours |
| ContentNormalizer.JoinEmptyIff | src/transform.js:136-139 | joining the non-empty results gives `""` exactly when every result is `""` |
| ContentNormalizer.ProcessContent | src/transform.js:125-143 | the normalised content of every shape is free of sentinel characters |
| ContentNormalizer.PartsContentEmptyIff | src/transform.js:132-140 | a `parts` content with no truthy `text` normalises to `""` exactly when every part does |
| ContentNormalizer.JoinNonEmptySnoc | src/transform.js:136-139 | filtering and joining one more result adds nothing for `""`, gives the result alone after nothing, and otherwise appends a newline and the result |
| ContentNormalizer.PartsContentSnoc | src/transform.js:132-140 | a `parts` content with no truthy `text` grows part by part: a part yielding `""` adds nothing, any other part's text is appended on a line of its own |
| ContentNormalizer.ContainsIff | src/transform.js:155 | `includes` holds exactly when the substring occurs at some offset of the string |
| ContentNormalizer.IsExcludedTypeIff | src/transform.js:153-158 | a content type is excluded exactly when it contains `asset_pointer`, `audio` or `video` |
| Assembler.ModelOf | src/transform.js:163-175 | no model exactly for role `user`; otherwise a non-empty name, the first truthy of `model_slug` and `default_model_slug`, else `gpt-3.5-turbo` |
| Assembler.CreateMessage | src/transform.js:177-203 | a message is dropped exactly when it is a tool message, an assistant message to `web`, of an excluded content type, or blank after `trim`; otherwise the record copies thread id, role and id, has status `done`, the model chain and the normalised, non-empty, sentinel-free content |
| Assembler.TrimStart | src/transform.js:192 | stripping leading whitespace removes a prefix made only of JavaScript whitespace and leaves a suffix that is empty or starts with a non-whitespace character |
| Assembler.BlankIffTrimmedEmpty | src/transform.js:192 | `!content.trim()` (every character is JavaScript whitespace) holds exactly when nothing is left after stripping the leading whitespace |
| Assembler.CleanOnlyWhitespace | src/transform.js:120-123 | a string of sentinels and whitespace cleans to a blank string |
| Assembler.BlankAfterCleaningDropped | src/transform.js:189-192 | a string content made only of whitespace and sentinel glyphs is dropped |
| Assembler.TranscriptionMessageDropped | src/transform.js:179-187 | a message whose own content type is `audio_transcription` is dropped, unlike a part of that type |
| Transform.LatestCreated | src/transform.js:242-249 | `last_message_at` is absent exactly when no message has been kept, because the first kept message always sets it |
| Transform.LatestCreatedIsMax | src/transform.js:242-249 | the running maximum is absent exactly for no messages, and otherwise is some message's `created_at` and no earlier than any |
| Transform.CreateThread | src/transform.js:112-118 | a new thread takes its id from `conversation_id`, its title and both times from the conversation, and has no `last_message_at` |
| Transform.ThreadOfLastMessage | src/transform.js:112-118 | a thread carries the conversation's `conversation_id`, title and times; `last_message_at` is null exactly when no message is kept, and otherwise is the latest `created_at` of the kept messages |
| Transform.Push | src/transform.js:236-240 | pushing under a key keeps the map's keys distinct and in step with its entries |
| Transform.PushContents | src/transform.js:236-240 | one push adds exactly that message to the flattened values and no key other than its own |
| Transform.PushAll | src/transform.js:236-240 | a batch of pushes keeps the map well formed |
| Transform.PushAllContents | src/transform.js:236-240 | a batch of pushes adds exactly the batch's messages, each as often as it occurs, and no other key |
| Transform.PushAllNewKey | src/transform.js:236-240 | a non-empty batch under a key not yet in the map becomes a new last entry holding the batch |
| Transform.GroupedKeys | src/transform.js:270-275 | every key of the message map is the id of some input conversation |
| Transform.GroupAllKeys | src/transform.js:270-275 | after the conversations' batches are pushed one after another, every key of the map is the key of some batch |
| Transform.GroupAllHoldsAll | src/transform.js:270-278 | the map's values flattened hold, as a multiset, exactly the messages of all batches, whether or not keys repeat |
| Transform.GroupAllDistinct | src/transform.js:270-278 | when no two batches share a key, the map's values flattened in insertion order are the batches' messages concatenated in order |
| Transform.MessageMap.Append | src/transform.js:236-240 | the mutable map changes exactly as `Push` describes and stays well formed |
| Transform.KeepNode | src/transform.js:213-233 | one loop iteration yields a message exactly when the node has a message on the valid path that is complete and survives `createMessage`, whatever else the cache holds |
| Transform.KeptAt | src/transform.js:213-233 | one iteration of the loop over the mapping contributes at most one message |
| Transform.ProcessConversation | src/transform.js:207-256 | the returned thread is `ThreadOf` the conversation, and the map receives exactly the kept messages in iteration order under the conversation's id |
| Transform.TransformData | src/transform.js:270-278 | one thread per conversation, in input order, and the messages are the map's values flattened in key insertion order |
| Transform.KeptExactly | src/transform.js:212-252 | a message is kept from a conversation exactly when some node holds a complete message on the valid path from which `createMessage` builds it |
| Transform.KeptMessagesShape | src/transform.js:232-252 | every kept message carries the conversation's id as `threadId`, status `done`, and non-blank, sentinel-free content |
| Transform.LinearConversationKeepsAll | src/transform.js:86-106 | in a conversation without edit nodes every complete message that `createMessage` accepts is kept |
| Transform.NonChosenBranchDropped | src/transform.js:216-225 | a node below a child of its nearest edit node that is not chosen contributes nothing |
| Transform.AbandonedEditNodeKept | src/transform.js:80-84 | an edit node with a complete message is kept, whatever its ancestors chose, even when its parent edit node followed a newer sibling |
| Transform.AbandonedBranchChildKept | src/transform.js:86-99 | the newest complete child of such an edit node, if it is not an edit node itself, is kept too, so an abandoned branch can reach the output |
| Transform.GroupedHoldsAllKept | src/transform.js:270-275 | the output messages are exactly the kept messages of all conversations as a multiset, also when conversation ids repeat |
| Transform.DistinctIdsConcatenate | src/transform.js:270-275 | with distinct conversation ids the output is each conversation's kept messages in input order |
| Transform.EmittedMessagesSound | src/transform.js:270-278 | every emitted message is `done`, and comes from an input conversation whose id it carries, through a node with a complete message on the valid path |

## Left out

- `src/main.js` (the page's file input, zip reading, `JSON.parse` and download) is not part of this model: it is user-interface and input/output code.
- Timestamps are whole unix seconds. `dateUtils.toISOString` and the `Date` comparison in `processConversation` are left out; `created_at`, `updated_at` and `last_message_at` hold the integer time. Sub-millisecond differences that `Date` would erase, and fractional times, are not modelled.
- `JSON.stringify(part)` is a host serialiser; an object part carries its rendering as the field `json`, and the model does not relate it to the part's other fields.
- The regular expression in `cleanContent` is modelled as a per-character filter over the code points U+E200..U+E2FF.
- The duplicate, unexported `processor.transformData` at src/transform.js:258-266 is identical to the exported one and is modelled once, as `TransformData`.
- Malformed input that makes the source throw (a message without `author`, an undefined `create_time` that `toISOString` rejects, a `null` part reaching `part.content_type`) is excluded by the types and by the `WellFormed` precondition rather than modelled as an error.
- A cyclic `mapping` is excluded by `WellFormed` (through `Acyclic`), and the source does not throw on every such input. A parent cycle without an edit node makes the `while (currentId)` walk at src/transform.js:88-103 run forever; for example, `a` with parent `b` and a message, and `b` with parent `a`. A cycle along chosen complete children makes the recursion at src/transform.js:57-61 go on until the stack overflows. Neither non-termination is modelled.
- `Acyclic` is stronger than what the source needs: it also rules out cycles the source never follows, such as a cycle through an incomplete child, or a parent cycle that passes through an edit node (where the walk stops). Such conversations are outside the model, although the source handles some of them.
- `getLatestCompletePath` is called with a node in the source; the model passes the node's id, which names the same node in the arena.
- The ghost `Ranks` witness of acyclicity has no counterpart in the source; it only proves termination and plays no part in any result.
- Newest wins only below the nearest edit node, so `NonChosenBranchDropped` speaks only of nodes whose nearest edit node made the choice. An edit node is always on the valid path (src/transform.js:82-84), and every other node is judged only against its nearest edit ancestor (src/transform.js:93-99). So an edit node on an abandoned branch is kept together with its own chosen child. For example, take `e` with children `A` (time 100) and `B` (time 200), where `A` has children `a1` (300) and `a2` (400), all complete. `e` follows `B`, yet `A` and `a2` are kept; `AbandonedEditNodeKept` and `AbandonedBranchChildKept` state this.
- A conversation's messages come out in the `for...in` order of `mapping` (`order`), not sorted by `create_time`; the model promises no time order for them.
