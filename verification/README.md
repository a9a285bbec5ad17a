# A verified model of the telemetry cache and its path and document code

The repository keeps gNMI telemetry in memory. Updates arrive as notifications; a *target cache*
stores each one in a *path tree*, tells a client about what changed, and rebuilds JSON documents
from the stored leaves on request. Around it stand a schema-driven explosion of documents into leaf
updates, a get/update/delete engine over JSON trees, an xpath printer and two parsers, a
longest-match tree of patterns, and a reconciliation delta.

This project models that code and proves what it is for. Where the source changes state in place,
the model does too (the classes `OcTree.Tree`, `Target.Target`, `Dtree.Tree` and
`JsonEngine.TraceCtxt`, and the methods with loops); each such method is proved equal to a function
on values, and the theorems are about these functions.

| part | files |
|---|---|
| path tree as a flat map | Gnmi, PathTree, Globs, Lex, Visits, OcTree |
| path tree under per-node locks | ConcurrentTree, Linearizability |
| target cache as a state machine | TargetSpec, Target, TargetRuns, LastWriter, ClientFeed, Suppression, Accounting, Tally, Metadata, Splitting |
| document to leaves and back | Documents, Rebuild, RebuildFailure, RoundTrip, EmissionOrder, ExactRebuild, Explode, DocumentCycle, PathPresent |
| store, query, rebuild | EndToEnd |
| JSON tree engine and its laws | Cleaning, JsonEngine, JsonLens, JsonFrame, JsonWrites |
| xpath printer and parsers | Text, XPath, XPathRoundTrip, XPathMeaning, SimpleXPath, SimpleMeaning |
| reconciliation delta | Reconcile, Reconciled |
| pattern tree with longest match | Dtree, LongestMatch |

These results show what the code as written does not do, each with its exact condition:

* The list of removed leaves that a delete reports is always empty, against the comment on
  `DeleteConditional` (pkg/octree/tree.go:447-450; the base case at pkg/octree/tree.go:417).
  `OcTree.Tree.DeleteConditional` proves the surviving tree and the empty list;
  `ClientFeed.DeleteIsNotTold` and `Accounting.DeleteLeavesCounter` say exactly when the client feed
  and the leaf counter stay right in spite of it.
* Queries and deletes use different glob rules; `Globs.RulesAgree` says for which patterns they agree.
* Of several updates of one path with the same, newest timestamp the last to arrive stays. Runs that
  deliver the same updates end in the same map exactly when no path has two different newest
  updates (`LastWriter.ConvergesExactly`).
* The reconciliation rounds reach the intended data exactly when no path has a map intended and
  something else observed (`Reconciled.ReachesExactly`).
* The longest-match lookup finds a deepest matching pattern exactly when some longest one loses to no
  other at a wildcard (`LongestMatch.LpmFindsDeepest`).
* A get after an update finds the value exactly when the update does not give a key leaf of its own
  path another value (`JsonLens.GetAfterUpdate`); a get after a delete finds nothing exactly when no
  other entry has the key of the one deleted (`JsonLens.GetAfterDelete`).

## Model

| member | source | states |
|---|---|---|
| PathTree.AddPlainRefinesMap | pkg/octree/tree.go:196-238 | Adding a plain value sets exactly one path of the flat map; it fails, leaving the tree as it was, exactly when a leaf lies above the path or leaves lie below it; the normal form (no empty branch, nil only at the root) is kept. |
| PathTree.AddContainerRefinesMap | pkg/octree/tree.go:72-89 | Adding a container value adds one placeholder leaf, or changes nothing where a node exists already or a leaf lies above; the container's path stays open for any child that is added later. |
| PathTree.AddPlainLook | pkg/octree/tree.go:164-229 | On any tree, normal or not: when an Add of a plain value succeeds, and what every path holds afterwards. |
| PathTree.AbsPrefixFree | pkg/octree/tree.go:30-48 | The paths of a tree are prefix-free: no leaf lies above another. |
| PathTree.WriteIsAdd | pkg/octree/tree.go:233-256 | Writing at an existing node reached by Get is the same as an Add to its path. |
| PathTree.SetLeafRefinesMap | pkg/octree/tree.go:66-70 | Overwriting a leaf sets that one path of the flat map and keeps the normal form. |
| Globs.RulesAgree | pkg/octree/tree.go:281-327 | The query rule and the delete rule agree on all paths if and only if every `*` of the pattern is its last element. |
| Globs.QueryMatchMeaning | pkg/octree/tree.go:281-327 | A query matches a path if and only if, without a `*` at its end, it agrees element by element with a beginning of the path. |
| Globs.DeleteMatchMeaning | pkg/octree/tree.go:391-445 | A delete matches a path if and only if the two agree as far as both go and the path does not end before the pattern, unless at a `*`. |
| Globs.QueryMatchImpliesDeleteMatch | pkg/octree/tree.go:391-445 | Whatever a query visits, a delete of the same pattern matches. |
| Globs.InternalDeleteLook | pkg/octree/tree.go:391-445 | After one call of the recursive delete, each path below the node holds what it held before unless its leaf matches and satisfies the condition; the rest is in normal form. |
| Globs.DeleteRefinesFilter | pkg/octree/tree.go:391-462 | A conditional delete is a filter on the flat map: the survivors are exactly the leaves that do not both match and satisfy the condition, and childless ancestors are gone. |
| Visits.TraversalReadsMap | pkg/octree/tree.go:281-327 | A traversal without error reports each path of the flat map that matches the query, once, with its value, and no other path. |
| Visits.ExtendTraversal | pkg/octree/tree.go:281-303 | Traversing one more child, in any order of children, extends the set of hits by exactly those below the child; an error of the visitor ends it. |
| OcTree.Tree.NewBranch | pkg/octree/tree.go:72-89 | Builds the new branch on the heap, the placeholder of a container included. |
| OcTree.Tree.SlowAdd | pkg/octree/tree.go:144-162 | Under the writer lock: looks for the child again, creates it if missing, and goes on; the tree is the one Add specifies. |
| OcTree.Tree.IntermediateAdd | pkg/octree/tree.go:196-229 | One level of an Add in place, with the error cases of leaves on the way. |
| OcTree.Tree.Add | pkg/octree/tree.go:233-238 | In place, the tree becomes the one the value-level Add gives, with the same success flag; only this tree's own objects change. |
| OcTree.Tree.Get | pkg/octree/tree.go:242-256 | Returns the node object at the path, or null exactly when there is none. |
| OcTree.Tree.UpdateLeaf | pkg/octree/tree.go:66-70 | Updating a leaf object obtained from Get overwrites that leaf of the whole tree. |
| OcTree.Tree.Query | pkg/octree/tree.go:281-327 | The visitor is called exactly once for each leaf that matches the pattern and for no other, unless it stops the query. |
| OcTree.Tree.Walk | pkg/octree/tree.go:329-354 | A walk visits what a query with the empty path visits. |
| OcTree.Tree.WalkSorted | pkg/octree/tree.go:356-386 | Visits the same leaves in strictly increasing lexicographic order of their paths. |
| OcTree.Tree.InternalDelete | pkg/octree/tree.go:391-445 | Deletes in place what the value-level delete removes, tells the parent when to drop the node, and reports no leaf. |
| OcTree.Tree.DeleteConditional | pkg/octree/tree.go:451-462 | In place, the filter of the flat map; an emptied root becomes nil; the list of removed leaves is empty. |
| Lex.IncreasingUnique | pkg/octree/tree.go:356-386 | A set of names has one sorted order. |
| Lex.StrLessMeaning | pkg/octree/tree.go:356-386 | The order of names: a beginning comes first, otherwise the smaller character where two names part decides. |
| Linearizability.Linearizable | pkg/octree/tree.go:144-238 | Every interleaving, at the granularity of single lock and node accesses, of Adds (containers included) and root-locked deletes gives the tree and the results of some sequential order in which each finished call occurs once; so no insert is lost between giving up the reader lock and taking the writer lock. |
| Linearizability.RealTimeOrder | pkg/octree/tree.go:196-238 | In that order a call that had returned before another started comes first. |
| Linearizability.NoDeadlock | pkg/octree/tree.go:196-229 | In every reachable state some unfinished call can take a step. |
| ConcurrentTree.DeletingAlone | pkg/octree/tree.go:451-462 | While a delete holds the root's writer lock, no other call holds any lock. |
| Target.Target.UpdateOne | pkg/occache/cache.go:415-503 | One update of the target in place: stale rejection, suppression, collision, new leaf, own metadata; the whole new state is that of the specification, whose suppression `Suppression.ToldExactly` states on the cached values. |
| Target.Target.GnmiUpdate | pkg/occache/cache.go:321-402 | A whole notification in place: atomic groups, splitting, counting and client calls. |
| Target.Target.Remove | pkg/occache/cache.go:505-528 | Deletes the older leaves that match, resets a metadata entry, reports nothing. |
| Target.Target.UpdateMeta | pkg/occache/cache.go:558-617 | Sends the metadata notifications through the same path. |
| Target.Target.Reset | pkg/occache/cache.go:619-630 | Clears the metadata, and drops every root but the metadata's, telling the client of each. |
| TargetRuns.UpdateOneMap | pkg/occache/cache.go:415-503 | An update writes one path of the flat map when it is neither rejected nor ignored, and nothing otherwise; a path that had no leaf gets a new one. |
| TargetRuns.OutcomeMeaning | pkg/occache/cache.go:415-476 | Which outcome an update has: metadata type error, branch collision, tree error, stale and suppressed, each if and only if a condition on the map and the update holds; suppressed where the value stored at the path is equal, at whatever newer timestamp. |
| Gnmi.ValueMeaning | pkg/parser/gnmipath.go:305-346 | Which typed values decode to a given value, for every typed value and every value. |
| Gnmi.ContainerMeaning | pkg/octree/tree.go:72-89 | A notification is a container if and only if its first update carries a JSON object. |
| TargetRuns.UpdateCredits | pkg/occache/cache.go:450-503 | What each outcome adds to each counter, and that neither timestamp nor feed change before the client is told. |
| LastWriter.RunHoldsNewest | pkg/occache/cache.go:404-503 | After any run of plain updates on prefix-free real paths the tree maps each updated path to one of its newest updates and holds nothing else; the target timestamp is the largest seen, rejected updates included. |
| LastWriter.Converges | pkg/occache/cache.go:450-476 | Two runs that deliver the same updates in any order and with any repetitions end in the same map if no path has two different newest updates. |
| LastWriter.ConvergesExactly | pkg/occache/cache.go:450-476 | All runs that deliver the updates of a given run end in the same map if and only if no path has two different newest updates; equal timestamps below the newest do no harm. |
| LastWriter.TimestampConverges | pkg/occache/cache.go:404-413 | The target timestamp is the same after all of them in any case. |
| LastWriter.LastNewestStays | pkg/occache/cache.go:465-476 | Of the newest updates of one path the one that arrives last stays, after any run. |
| LastWriter.LatestIsMaximum | pkg/occache/cache.go:404-413 | The tracked timestamp is the maximum. |
| ClientFeed.FeedRebuildsCache | pkg/occache/cache.go:354-376 | After every step of every run of plain notifications and resets, a map fed by the client callbacks alone holds exactly the cached values of the real data, although suppressed updates are not told. |
| Suppression.ToldExactly | pkg/occache/cache.go:476-488 | A plain update of real data is told to the client if and only if it changes the cached values. |
| Suppression.NoCallIsIdle | pkg/occache/cache.go:354-376 | Over every run of plain notifications and resets each call that brings a leaf of real data changes the client's map, so no repeated value is told again. |
| Suppression.AtomicAlwaysTold | pkg/occache/cache.go:324-341 | An atomic group that is accepted is told even if it brings no new value. |
| Suppression.ToldIsTheNode | pkg/occache/cache.go:488-503 | The client is given the node that now stands at the path, of a container the branch. |
| ClientFeed.DeleteIsNotTold | pkg/occache/cache.go:505-528 | After a delete the feed and the cache agree if and only if there was no leaf of real data for it to remove. |
| Accounting.LeafCountIsExact | pkg/occache/cache.go:477-503 | After every step of every run of updates (atomic groups and containers included) and resets, the leaf counter is the number of leaves of real data. |
| Accounting.DeleteLeavesCounter | pkg/occache/cache.go:505-528 | After a delete of real data the counter is exact if and only if no leaf of real data was removed; after a delete in the metadata, if and only if it does not reset this counter or there are no leaves of real data at all. |
| Accounting.EachUpdateCountedOnce | pkg/occache/cache.go:321-402 | Over any run of single updates the update, suppressed and stale counters and the number of client calls grow by exactly the number of updates with that outcome. |
| Tally.NotificationCounted | pkg/occache/cache.go:321-402 | Any notification without deletes in the metadata: each update is counted in the place its outcome says, an accepted atomic group by its size, each delete as an update, an empty notification as such; one client call for each notified update; an error if and only if some update fails or an atomic group has deletes. |
| Tally.NewLeavesCounted | pkg/occache/cache.go:489-497 | Without deletes the count of added leaves grows by the number of new leaves of real data. |
| Metadata.FieldsHoldLastArrived | pkg/occache/cache.go:423-448 | After any run of single updates and atomic groups the sync flag and the boolean and text fields hold the value that arrived last with the right type, even where the tree rejected it as outdated; without one they are unset. |
| Metadata.DeleteResets | pkg/occache/cache.go:505-509 | A delete of real data leaves the metadata; a delete in the metadata takes out the entry it names, sets its counter to zero and leaves the rest, the sync flag included. |
| Metadata.ResetKeepsMetadata | pkg/occache/cache.go:619-630 | After a reset the tree holds the metadata and no real data, unless a root is named `*`, whose deletion empties the tree. |
| Metadata.ResetTells | pkg/occache/cache.go:619-630 | Dropping the roots tells the client of each, in order, and changes nothing but tree and feed. |
| Splitting.NotificationSplits | pkg/occache/cache.go:344-376 | A non-atomic notification acts as its single updates followed by its single deletes, continuing past errors. |
| Splitting.MixedNotification | pkg/occache/cache.go:344-376 | Its deletes filter out exactly the older leaves they match and what is left under a deleted path is at least as new as the notification; where one of its own updates was accepted, the path holds that update or a later one of the same notification. |
| Rebuild.AddDataTo | pkg/cache/cache.go:453-484 | Adds one leaf to a document as the specification does, error cases included. |
| Rebuild.AddContainer | pkg/cache/cache.go:486-510 | The same through a container. |
| Rebuild.AddList | pkg/cache/cache.go:512-598 | The same through a list entry: the first entry with the keys, or a new one at the end that holds the keys. |
| Rebuild.AddContainerValue | pkg/cache/cache.go:600-615 | The same for a leaf. |
| Rebuild.AddListValue | pkg/cache/cache.go:617-649 | The same for a value at a keyed last element, which always appends an entry (`RebuildFailure.KeyedLastAppends`). |
| Rebuild.Build | pkg/cache/cache.go:361-451 | The loop over the leaves of a query, stopping at the first error. |
| RebuildFailure.AddFailsExactly | pkg/cache/cache.go:453-649 | Adding a leaf to any document fails if and only if something on its way is of the wrong kind: neither nothing nor a map, or no list where the path has keys. |
| RebuildFailure.KeyedLastAppends | pkg/cache/cache.go:617-649 | A keyed last element makes a new entry at the end, even if there is one with the key; where there is no map it does nothing. |
| RoundTrip.AddKeepsPart | pkg/cache/cache.go:453-598 | Adding a leaf of a schema-valid document to any part of it succeeds, gives a part of it again, adds that leaf and loses none. |
| RoundTrip.WholePart | pkg/cache/cache.go:453-598 | A part that has all the leaves is the document up to the order of list entries. |
| RoundTrip.RebuildsDocument | pkg/cache/cache.go:453-615 | Folding the leaves of a schema-valid document, in any order and with any repetitions, gives the document up to the order of list entries. |
| ExactRebuild.RebuildsExactly | pkg/cache/cache.go:453-615 | Folding them in an emission order gives exactly the document. |
| DocumentCycle.GetGranularUpdates | pkg/yparser/json.go:38-152 | Explosion and rebuild are inverse: exactly in emission order, up to the order of list entries in any other. Key leaves that are not texts come back as the texts that the paths carry; a document whose keys are texts comes back as it is. |
| Explode.KeyLeavesAsTexts | pkg/yparser/json.go:249-266 | The texts of the key leaves: a string stays, any other value is printed, nil where the entry has none. |
| PathPresent.PresentIsPrefix | pkg/yentry/leafref.go:298-378 | On a document with strings or numbers in its key leaves, a fully keyed path is present if and only if it is a prefix of the path of some leaf, with the keys as the texts that the key leaves show. |
| PathPresent.PresentWithValue | pkg/yentry/leafref.go:298-378 | With a value asked for, a path without keys at its end is present if and only if it is the path of a leaf with that text as its value; with keys at its end the value does not matter. |
| PathPresent.PresentIsExploded | pkg/yentry/leafref.go:326-378 | With strings in the key leaves, these leaves are those of the explosion. |
| PathPresent.FirstDecides | pkg/yentry/leafref.go:341-359 | On any list the first entry that shows the key decides alone. |
| EndToEnd.CacheServesDocument | pkg/cache/cache.go:361-451 | Plain updates arrive in any order, outdated ones and repetitions included; if the newest updates of the paths that a query asks for are the leaves of a schema-valid document, what the query visits, in any order, folds to that document up to the order of list entries. |
| EndToEnd.QueryReadsNewest | pkg/cache/cache.go:323-340 | A query on the cache after any such run reads exactly the newest updates of the paths that match. |
| Cleaning.CopyAndCleanTxValues | pkg/parser/json.go:127-157 | Names lose everything up to their last colon; so do texts, except those with two colons side by side or a slash; an object keeps one of the values of names that become the same. |
| Cleaning.CleaningIsIdempotent | pkg/parser/json.go:127-157 | Cleaning a cleaned value again changes nothing. |
| Cleaning.CleaningOfTexts | pkg/parser/json.go:146-153 | Addresses and ports come back unchanged; of any other text what follows the last colon is left. |
| Cleaning.CleaningOfFields | pkg/parser/json.go:129-145 | A field is cleaned as its value alone is, under the last part of its name. |
| JsonEngine.FindIsGet | pkg/parser/json.go:319-404 | The find and the get action return the same result and the same found flag on every tree, unless find has to compare two maps or two lists, which stops the program (pkg/parser/json.go:357). |
| JsonEngine.TraceCtxt.ParseTree | pkg/parser/json.go:311-836 | The walk with its found flag computes the result of the specification, for get, update, delete and find on every tree; find must not meet the comparison of two maps or two lists at pkg/parser/json.go:357. |
| JsonEngine.TraceCtxt.ParseObject | pkg/parser/json.go:317-482 | The map case, with the comparison of find under the same condition. |
| JsonEngine.TraceCtxt.ParseItems | pkg/parser/json.go:483-700 | The list case: the first entry that has all keys is the one to go on with, under the same condition for find. |
| JsonEngine.TraceCtxt.AtEntry | pkg/parser/json.go:540-624 | What is done with that entry, at the end of the path and before it, under the same condition for find. |
| JsonEngine.TraceCtxt.ParseNothing | pkg/parser/json.go:701-826 | Writing into a nil tree, as the specification does; `JsonWrites.LandsExactly` and `JsonWrites.NilKeyedParent` say what that gives. |
| JsonEngine.FirstMeaning | pkg/parser/json.go:497-545 | The entry found is the first that has all the keys, if there is one. |
| JsonLens.GetAfterUpdate | pkg/parser/json.go:311-700 | With parents with keys there, parents without keys there or missing, and clean keys, a get after an update finds the cleaned value with the key leaves of the entry if and only if the update does not give a key leaf of the entry it goes through another value. |
| JsonLens.StaysReady | pkg/parser/json.go:311-700 | After an update that keeps the key leaves of its path any second update of the target can be made, whatever its value. |
| JsonLens.UpdateAfterUpdate | pkg/parser/json.go:311-700 | Of two updates that can be made at one target the last stays as if it were the only one if the first keeps the key leaves of the path; for two different values only if. |
| JsonLens.GetAfterDelete | pkg/parser/json.go:329-342 | On any tree, whether or not there is something to delete, a get after a delete finds nothing if and only if, where the target is an entry or a key leaf of one, the list holds no second entry of that key. |
| JsonLens.AbsentEntryNeedsMap | pkg/parser/json.go:674-699 | An entry that is not there yet comes into being if and only if the value is a map. |
| JsonFrame.UpdateKeepsOthers | pkg/parser/json.go:311-700 | An update that keeps the key leaves of its path leaves everything on a path apart from its own as it is. |
| JsonFrame.DeleteKeepsOthers | pkg/parser/json.go:311-700 | So does a delete that takes no key leaf of an entry on its path, whether or not its target exists. |
| JsonFrame.UpdateKeepsOthersExactly | pkg/parser/json.go:311-700 | Where the key occurs once and the entry has a leaf beside the target, an update leaves all other paths as they are if and only if it keeps the key leaves of its path. |
| JsonFrame.DeleteKeepsOthersExactly | pkg/parser/json.go:311-700 | The same for a delete: if and only if it takes no key leaf. |
| JsonWrites.GetFindsFirstEntry | pkg/parser/json.go:497-545 | A get of a list entry finds the first one whose key leaves, strings or numbers printed without decimals, show the key, and nothing if and only if there is none. |
| JsonWrites.LandsExactly | pkg/parser/json.go:311-826 | On any tree, nil included, a get after an update through parents without keys finds what was stored if and only if no scalar or list is in the way and a new keyed entry gets a map or nil; the value takes the place of a parent that is nil. |
| JsonWrites.NilLands | pkg/parser/json.go:701-826 | Into a nil tree: one element lands unless it is keyed and the value a scalar or a list; nil always lands; a scalar below a missing parent is lost. |
| JsonWrites.NilKeyedParent | pkg/parser/json.go:760-811 | Below a keyed parent that is nil the value itself becomes the entry, and the list is returned in the place of the map that should hold it. |
| JsonWrites.MissingKeyedParent | pkg/parser/json.go:471-481 | Below a keyed parent that does not exist the update is made in a map: it is found without the key and not with it. |
| JsonWrites.CreateIsUpdate | pkg/parser/json.go:311-826 | Create gives the same tree and flag as an update, unless it ends at an entry that is found. |
| JsonWrites.CreateKeepsEntry | pkg/parser/json.go:582-584 | An entry that exists is left as it is by create. |
| JsonWrites.GetAfterCreate | pkg/parser/json.go:311-700 | A get after create finds the entry as it was if there was one, otherwise what was stored, under the same condition as after an update. |
| JsonWrites.DeleteTellsFound | pkg/parser/json.go:311-836 | The found flag of a delete is set if and only if there was something at the path, on any tree. |
| JsonWrites.UpdateTellsFound | pkg/parser/json.go:311-836 | So is that of an update that can be made. |
| JsonWrites.DeleteDropsEmptyList | pkg/parser/json.go:331-342 | Deleting the only entry of a list removes the list. |
| XPath.GnmiPath2XPath | pkg/yparser/path.go:95-140 | Prints names without module prefix and keys in descending order. |
| XPath.PrefixCutOff | pkg/yparser/path.go:98-104 | A module prefix is cut off, and with it whatever follows a second colon. |
| XPath.SplitPath | pkg/yparser/path.go:394-442 | The one-pass loop with its bracket flag gives the non-empty segments, or an error when a bracket stays open. |
| XPath.ParseKeyValueString2 | pkg/yparser/path.go:509-525 | The key map of a bracketed text, or an error when a piece is no pair. |
| XPath.ParseStringPath | pkg/yparser/path.go:547-609 | The parts of the path: names and key maps, or an error when an element does not parse. |
| XPath.ToGNMIPath | pkg/yparser/path.go:319-343 | Assembles the parts. |
| XPath.AssembleParts | pkg/yparser/path.go:326-341 | Assembling undoes taking apart, so the two error cases of this loop cannot occur after ParseStringPath. |
| XPathRoundTrip.SegmentsMeaning | pkg/yparser/path.go:365-442 | The segments are the only way to cut the text into pieces with closed brackets and no outer slash that joined by slashes give the text back, and there is such a way if and only if no bracket stays open. |
| XPathRoundTrip.RoundTrip | pkg/yparser/path.go:319-343 | Parsing a printed path gives the path, for identifier names, and keys and values without separators, with slashes and opening brackets allowed and no value ending in a backslash. |
| XPathMeaning.ParserMeaning | pkg/yparser/path.go:319-609 | The parser on every text: it returns a path if and only if the text can be cut at slashes into pieces with closed brackets of which the non-empty ones read as the elements of the path. |
| XPathMeaning.ElementMeaning | pkg/yparser/path.go:509-609 | An element is read if and only if it is an identifier, alone or with bracketed pieces that have exactly one equals sign each; the last value of a name stays. |
| XPathMeaning.BareRoundTrip | pkg/yparser/path.go:95-140 | A path printed without keys parses to the path without its keys, whatever the keys are. |
| XPathRoundTrip.PrintInjective | pkg/yparser/path.go:95-140 | Printing is injective on these paths. |
| XPathRoundTrip.PrintUnique | pkg/yparser/path.go:107-130 | The printed form of any path does not depend on the order in which its keys are visited. |
| XPathRoundTrip.KeyedWhole | pkg/yparser/path.go:394-442 | A printed element with keys is never cut at a slash of its values, and stays open exactly when its last value ends in a backslash. |
| SimpleXPath.Xpath2GnmiPath | pkg/yparser/path.go:52-92 | The older parser, its index out of range as an error. |
| SimpleXPath.ParsersAgree | pkg/yparser/path.go:52-92 | On printed paths whose keys and values have no slashes, brackets or edge blanks, the two parsers return the same path, the printed one. |
| SimpleXPath.OffsetSkips | pkg/yparser/path.go:52-92 | With an offset the older parser leaves out that many elements at the beginning. |
| SimpleMeaning.ElementMeaning | pkg/yparser/path.go:66-88 | What the older parser reads from any element: names, keys and values with blanks trimmed, values without their brackets; the index runs out of range if and only if a piece has no equals sign. |
| Reconcile.CompareJSONData | pkg/parser/jsondiff.go:204-258 | An operation is in the result if and only if it is wanted: deletes of fields not intended, updates of missing or different fields, a replacement of a different scalar. |
| Reconcile.FindResourceDelta | pkg/parser/jsondiff.go:56-201 | The delta of any two lists, in order: everything stale and everything missing, each in the order of its list, if no pair differs; otherwise everything stale, what is missing before the first pair that differs, and the patch of that pair alone. |
| Reconcile.DifferMeaning | pkg/parser/jsondiff.go:204-258 | Two values under one path differ if and only if they are not equal, except that an empty map does not differ from what is no map. |
| Reconcile.MisfitIsDeleted | pkg/parser/jsondiff.go:241-246 | Where a map is intended and something else observed, the patch deletes every intended field and updates nothing. |
| Reconcile.TwoStaleSwapped | pkg/parser/jsondiff.go:185-194 | Exactly two stale paths come in the opposite order. |
| Reconciled.RoundShrinks | pkg/parser/jsondiff.go:56-201 | Where every intended map is observed as a map, applying the delta leaves strictly fewer paths that differ, in spite of the early return, and the data well-formed. |
| Reconciled.RoundStep | pkg/parser/jsondiff.go:56-201 | Under the same condition no path that agreed differs afterwards, some path that differed agrees, and the delta is empty if and only if nothing differs. |
| Reconciled.Converges | pkg/parser/jsondiff.go:56-201 | Under the same condition, after as many rounds as there are paths that differ, the observed data is the intended data. |
| Reconciled.ReachesExactly | pkg/parser/jsondiff.go:217-247 | After at least that many rounds the intended data is reached if and only if at first no path had a map intended and something else observed. |
| Reconciled.MisfitStays | pkg/parser/jsondiff.go:217-247 | Something else observed in place of an intended map stays as it is in every round. |
| Dtree.Tree.Add | pkg/dtree/dtree.go:26-68 | In place, the trie becomes the one the value-level add gives; only this tree's objects change. |
| Dtree.Tree.Get | pkg/dtree/dtree.go:72-105 | The full match, with the wildcard where the last branch has no value; `LongestMatch.FoundIsBest` says when there is one. |
| Dtree.Tree.GetLpm | pkg/dtree/dtree.go:128-160 | The branch object of the longest-match walk, or null exactly when the specification finds none. |
| LongestMatch.AddExact | pkg/dtree/dtree.go:26-68 | An add changes the value at exactly one pattern; its missing proper prefixes come into being without a value; everything else stays. |
| LongestMatch.AddThenFind | pkg/dtree/dtree.go:72-160 | An added value is found again by both lookups. |
| LongestMatch.FoundMatches | pkg/dtree/dtree.go:72-105 | A full match stands under a pattern that matches the whole path; if it has no value, the wildcard beside it has none either. |
| LongestMatch.FoundIsBest | pkg/dtree/dtree.go:72-105 | For every trie and path there is a full match if and only if the best pattern of the longest-match lookup matches the whole path; it is what stands there, or the value of the pattern with a wildcard at its end where there is none. |
| LongestMatch.LpmFindsBest | pkg/dtree/dtree.go:128-160 | For every trie and path, the lookup finds the one pattern that matches a beginning of the path and that every other matching pattern is a beginning of or loses to (by a wildcard where they part), and nothing if and only if no pattern matches. |
| LongestMatch.LpmFindsDeepest | pkg/dtree/dtree.go:128-160 | Where a pattern matches, the lookup finds one of the longest patterns that match if and only if some longest one loses to no other at a wildcard. |

## Left out

- `path.ToStrings`, `path.CompletePath` and value equality are code of imported libraries: the cache takes the flattening of paths and the equality of values as parameters; theorems that need it ask for soundness of equality or injectivity of the flattening.
- JSON encoding and decoding: values are decoded already and well-formed. With malformed JSON an Add can change the tree and still return an error.
- Nil values stored in the path tree, and leaves that are not notifications.
- Aliasing of the path slice that the tree visitors pass on. The JSON trees of Rebuild and JsonEngine are values that the methods reassign: rewriting maps and slices in place, and sharing them between documents, is not captured.
- A delete of `*` on a nil root calls the condition on nil and stops the program; the model keeps the empty tree.
- OcTree.Tree.UpdateLeaf: walks from the root to bring the ghost state up to date; the source writes to the leaf alone.
- OcTree.Tree.DeleteConditional: says nothing about a report of removed leaves, because the source never makes one.
- Linearizability.Linearizable: covers Adds and root-locked deletes; Gets, queries and leaf updates take no part, locks belong to the node at a path, and the preference of waiting writers is not modelled.
- Concurrent use of a target above the tree: its operations are sequential here.
- Target.Target.UpdateMeta: the metadata notifications are an input; how `metadata` clears and resets entries is assumed, since it is not part of this model. Latencies, sizes and connection state are left out.
- Target.Target.Reset: the metadata notifications sent after clearing are an input, for the same reason.
- Target.Target.GnmiUpdate: does not model that the updates and deletes of the notification are taken out while it is split and put back afterwards; the notification is a value.
- Explode.PathWithKeys: how a key value that is no string is printed is a parameter.
- EndToEnd.CacheServesDocument: reads at a path without wildcard keys; GetJson's other rules for stripping the requested path are left out.
- PathPresent.PresentIsPrefix: for an empty value, PresentWithValue being the other case; schema navigation with missing entries is left out, and how a number is printed is a parameter.
- JsonEngine.TraceCtxt.ParseTree: leaves out the leafref action, messages, the trace index and data, and `uint32` values, which decoded JSON does not have; the cleaned value and keys are inputs.
- JsonLens.GetAfterUpdate: not for updates through missing keyed parents, where the code builds a map that later reads expect to be a list; JsonWrites.MissingKeyedParent says what happens there.
- SimpleXPath.Xpath2GnmiPath: strings are sequences of characters, without encoding.
- Reconcile.FindResourceDelta: within the patch of one pair the order is any, as that of the Go maps it comes from.
- Reconciled.Converges: the device is not part of the repository; it is modelled as a map from paths to data that takes all deletes, then all updates, in two kinds: a delete removes what lies below its path as well, or only what lies at it. In the first kind nothing intended may lie below what is observed and not intended. The data at a path is a scalar or a map of scalars, since comparing two lists stops the program. A container inside another one has a path of its own and is no field of the outer one.
- Dtree.Tree.GetLpm: asks for a non-empty path, as the source indexes its first element.
- Leafref resolution, `getUpdatesFromJSON`, the yentry walkers, `parseKeyValueString`, YANG code generation, dispatching, resources and Kubernetes plumbing.
