# OPC UA time-series hub: a Dafny model of its core

The hub mirrors the address space of an OPC UA server into a `nodes` table. An
operator marks nodes for history collection, and the hub regenerates a
Telegraf configuration that collects those nodes. Each row carries two flags:
`history_enabled`, what the operator wants, and `included_in_config`, what the
configuration holds. The two are reconciled in three steps:

1. Every row is classified into an `Action` (Added, Removed,
   HistoryEnabledNoChange, HistoryDisabledNoChange).
2. The OPC UA input of the Telegraf configuration is rewritten with the nodes
   whose history is on.
3. The desired flag is moved into the applied one.

This project models that core and proves what it promises. It has these
modules:

- `Model` (model.dfy): the `Action` values and their labels, the `Node`
  record, and `FilterNodesByAction` as a loop proved against a recursive
  specification.
- `NodeIds` (nodeids.dfy): the printed form of a NodeId, as the client
  library writes it after section 5.3.1.10 of OPC UA Part 6. It also models
  the repository's own regular-expression parser `ParseNodeIDString`,
  including its backtracking cases.
- `Numerals` (numerals.dfy): Go's `strconv.Itoa`, `strconv.Atoi`,
  `strconv.FormatBool` and `fmt.Sscanf("%d")` on decimal text.
- `Browse` (browse.dfy): the address-space walker `Browse`. The server is a
  finite graph with attribute reads and forward references of the three
  hierarchical reference types (section 7 of OPC UA Part 3). The walker is a
  method with loops, proved equal to a recursive specification. Lemmas cover
  the depth bound, path building, the single result and child order.
- `Table` (table.dfy): the `nodes` table as a value, keyed by `node_id`. It
  has the upsert, the flag updates, the classification, the transition and
  the pre-order flattening of a walked tree. It proves the reconciliation
  result: applying the transition to a fresh classification of every row
  leaves the configuration up to date.
- `Hierarchy` (hierarchy.dfy): what `LoadHierarchy` returns. It holds the
  live rows, the self-parented roots in browse-name order, and the children
  of every loaded node. It also covers the fate of orphans and removed rows.
- `Store` (store.dfy): the database layer as a class `NodeStore` whose
  `table` field its methods update in place. Which statements and queries
  fail is fixed when the store is made. The class holds
  `insertNodesRecursively`, `LoadHierarchy` with both of its loops, and
  `SetDatabaseNodeStates` with its early return.
- `Config` (config.dfy): the Telegraf `Config` record, `ConvertToSimpleNodes`,
  the rewrite of the OPC UA stanza inside `UpdateConfig`, `CreateConfig` and
  `atoi`.
- `WebApi` (webapi.dfy): the four HTTP handlers, reduced to the order of
  their steps. They run over a `Server` object that holds the store and the
  process-wide `RequestData`.
- `NodeTree` (nodetree.dfy): the pure helpers of the operator's tree view.
  They cover visibility, search, the local history update, and expanding or
  collapsing a node.
- `Wrappers` (wrappers.dfy): `Option`, `Result` and `Outcome`.

Where the behaviour the code has differs from the evident design intent,
the model follows the code:

- **A re-walk resets both flags.** The upsert's `ON DUPLICATE KEY UPDATE` list
  includes `history_enabled` and `included_in_config`, and the walk always
  supplies false. So storing a walk again clears the operator's choice
  (`Table.RewalkResetsFlags`). The design intends the flags to survive a
  re-walk. "## Findings" records this, with a corrected upsert beside the
  one as written.
- **The configured nodes keep the order of the classified listing.** That
  query has no `ORDER BY`, so the order is whatever the server returns, not
  browse-name order.
- **The walker returns exactly one definition below the depth bound.** It
  does so whatever the node class. The list it builds for Variable and Object
  nodes is never returned.

## Model

| member | source | states |
|---|---|---|
| Model.ActionString | hub-api/internal/database/model.go:11-26 | the label is "Unknown" exactly for values outside the five named actions |
| Model.ActionLabelsDistinct | hub-api/internal/database/model.go:3-26 | two different named actions never share a label |
| Model.FilterNodesByAction | hub-api/internal/database/model.go:53-66 | the nested loop with its `break` yields the order-preserving filter by wanted action |
| Model.FilteredIsSubsequence | hub-api/internal/database/model.go:53-66 | the result is a subsequence of the input, in input order |
| Model.FilteredCount | hub-api/internal/database/model.go:56-63 | a wanted node appears as often as in the input, however often its action is listed; an unwanted one never does |
| Model.FilteredMembership | hub-api/internal/database/model.go:56-63 | a node is in the result iff it is in the input and its action is wanted |
| Model.FilteredNoActions | hub-api/internal/database/model.go:53-66 | an empty wanted list yields an empty result |
| Model.FilteredAppend | hub-api/internal/database/model.go:56-63 | filtering a concatenation filters each part |
| Model.FilteredBySet | hub-api/internal/database/model.go:57-61 | only the set of wanted actions matters, not their order or repetition |
| Numerals.NatDigits | hub-api/internal/configupdate/updateconfig.go:72 | decimal text of a natural number: digits only, no leading zero, reading back as the number |
| Numerals.ParseInt | hub-api/internal/configupdate/updateconfig.go:184 | a successful parse lies in the 64-bit range and starts with a sign or a digit |
| Numerals.ParseIntItoa | hub-api/internal/configupdate/updateconfig.go:72 | every 64-bit integer reads back from its `Itoa` text |
| Numerals.ScanInt | hub-api/internal/database/db.go:429-431 | `Sscanf("%d")` gives the digits' value when it fits 64 bits, and leaves 0 otherwise |
| Numerals.FormatBool | hub-api/internal/opcuaclient/opcuaclient.go:49 | the text is "true" exactly when the value is true |
| NodeIds.NamespacePrefixLength | hub-api/internal/database/db.go:418 | a leading `ns=<digits>;` group is recognised only with at least one digit and the closing ';' |
| NodeIds.ParseFailsExactly | hub-api/internal/database/db.go:418-423 | the parser fails iff the text is empty or holds a newline |
| NodeIds.ParseResultShape | hub-api/internal/database/db.go:418-440 | the namespace is in 0..2^63-1, the type is empty or one of i/s/g/b, the identifier is a non-empty suffix of the text |
| NodeIds.ParseWithoutNamespace | hub-api/internal/database/db.go:418-440 | a typed identifier alone parses with namespace 0 and its type letter |
| NodeIds.ParseWithNamespace | hub-api/internal/database/db.go:418-440 | `ns=<d>;` followed by a typed identifier parses into the scanned namespace, the letter and the value |
| NodeIds.ParsePrintedNodeId | hub-api/internal/database/db.go:448-449 | parsing a printed NodeId gives back its namespace, type letter and value |
| NodeIds.ParseBareNamespace | hub-api/internal/database/db.go:418-438 | "ns=2;" backtracks into identifier "ns=2;" with namespace 0 and no type |
| NodeIds.ParseBareTypeAfterNamespace | hub-api/internal/database/db.go:418-438 | "ns=2;i=" keeps namespace 2 and backtracks "i=" into the identifier |
| Browse.Lookup | hub-api/internal/opcuaclient/opcuaclient.go:69-86 | a node the server does not know reads with a bad NodeClass status |
| Browse.Join | hub-api/internal/opcuaclient/opcuaclient.go:53-58 | an empty prefix gives the name alone, otherwise prefix, '.', name |
| Browse.Uint8 | hub-api/internal/opcuaclient/opcuaclient.go:109 | the AccessLevel conversion keeps the low eight bits |
| Browse.Uint32 | hub-api/internal/opcuaclient/opcuaclient.go:83 | the NodeClass conversion keeps the low 32 bits |
| Browse.DataTypeName | hub-api/internal/opcuaclient/opcuaclient.go:119-147 | the twelve listed types get a fixed name (DateTime and UtcTime both "time.Time"), any other the printed NodeId |
| Browse.PrintedHasEquals | hub-api/internal/opcuaclient/opcuaclient.go:145-147 | a fallback name always holds '=', so it never collides with a fixed name |
| Browse.DecodeAttributes | hub-api/internal/opcuaclient/opcuaclient.go:80-155 | NodeClass and BrowseName must be Good; the other three may be BadAttributeIdInvalid and keep the zero value; writable iff the CurrentWrite bit is set; path is `join(path, name)` |
| Browse.Walk | hub-api/internal/opcuaclient/opcuaclient.go:61-190 | the walk returns exactly the recursive specification of `Browse` |
| Browse.BrowseChildren | hub-api/internal/opcuaclient/opcuaclient.go:164-177 | the closure's loop returns the targets' walks concatenated, or the first failure |
| Browse.ChildListPrefixFailure | hub-api/internal/opcuaclient/opcuaclient.go:169-173 | once a target fails, the whole list fails with that error |
| Browse.BrowseHeight | hub-api/internal/opcuaclient/opcuaclient.go:63-66 | a walk from level l returns a forest of height at most 11 - l, so nothing lies below level 10 |
| Browse.BrowsePaths | hub-api/internal/opcuaclient/opcuaclient.go:154-175 | every returned node's path is its parent's path joined with its own browse name |
| Browse.BrowseSingleResult | hub-api/internal/opcuaclient/opcuaclient.go:158-189 | a successful walk below the bound returns exactly one definition, for the node asked about, whatever its class |
| Browse.ChildrenInReferenceOrder | hub-api/internal/opcuaclient/opcuaclient.go:179-187 | children are the HasComponent, Organizes and HasProperty results concatenated in that order |
| Browse.Records | hub-api/internal/opcuaclient/opcuaclient.go:36-50 | nine columns in the documented order: browse name, data type, printed NodeId, unit, scale, min, max, the writable flag as "true" or "false", description |
| Browse.RecordsNodeIdParses | hub-api/internal/opcuaclient/opcuaclient.go:48-50 | the NodeId column parses back, through `ParseNodeIdString`, to the parts of the node's id |
| Table.Flag | hub-api/internal/database/db.go:211-215 | a boolean is stored as 1 for true and 0 for false |
| Table.EmptyTable | hub-api/internal/database/db.go:72-90 | the freshly created table is valid and empty |
| Table.Upsert | hub-api/internal/database/db.go:106-123 | a new id gets a new row; an existing row keeps its id, namespace and identifier parts and takes every other column, flags and `removed` included; other rows are unchanged |
| Table.UpsertValid | hub-api/internal/database/db.go:106-118 | the upsert keeps rows keyed by their id, flags 0/1 and ids distinct |
| Table.SetFlag | hub-api/internal/database/db.go:217-218 | an update by `node_id` changes one column of the matching row only |
| Table.SetFlagUnknown | hub-api/internal/database/db.go:135-139 | an update of an unknown id changes nothing |
| Table.SetFlagValid | hub-api/internal/database/db.go:217-218 | writing 0 or 1 keeps the table valid |
| Table.Classify | hub-api/internal/database/db.go:243-275 | NoAction iff a flag is not 0/1; otherwise the action stands for exactly the flag pair |
| Table.ClassifyOneToOne | hub-api/internal/database/db.go:243-272 | the four 0/1 pairs map one to one onto Added, Removed, HistoryEnabledNoChange, HistoryDisabledNoChange |
| Table.HistoryNode | hub-api/internal/database/db.go:258-276 | a listed node carries its row's id and the classification of its flags |
| Table.UpToDateIffFlagsAgree | hub-api/internal/database/db.go:291-316 | up to date iff both flags agree on every row, removed rows included |
| Table.UpToDateIffNothingPending | hub-api/internal/database/db.go:291-316 | up to date iff no row classifies as Added or Removed |
| Table.Transition | hub-api/internal/database/db.go:324-338 | Added sets `included_in_config` to 1, Removed to 0, other actions change nothing, no other column changes |
| Table.ApplyStatesKeys | hub-api/internal/database/db.go:320-343 | the transition adds and removes no row |
| Table.ApplyStatesRow | hub-api/internal/database/db.go:320-343 | each row ends as the successive transitions of the listed nodes naming it |
| Table.ApplyFreshListingUpToDate | hub-api/internal/database/db.go:320-343 | applied to a fresh classification of every row, the transition leaves the table up to date |
| Table.FreshRowAgrees | hub-api/internal/database/db.go:243-247 | after that transition each row's two flags agree |
| Table.ClassifiedTransitionAgrees | hub-api/internal/database/db.go:324-338 | moving a row by its own classification makes its flags agree |
| Table.ApplyStatesValid | hub-api/internal/database/db.go:320-343 | the transition keeps the table valid and changes only `included_in_config` |
| Table.WalkNode | hub-api/internal/database/db.go:448-467 | a walked node is stored under its printed id and the given parent, with every flag false and NoAction |
| Table.FlattenLength | hub-api/internal/database/db.go:443-500 | the pre-order list has one node per walked definition |
| Table.FlattenParentsFirst | hub-api/internal/database/db.go:457-490 | each node hangs from the given parent or from a node listed before it |
| Table.TopLevelParent | hub-api/internal/database/db.go:457 | the first top-level node is stored under the supplied parent id |
| Table.RewalkResetsFlags | hub-api/internal/database/db.go:463-465 | storing a walked node again clears both flags and `removed` of its existing row |
| Table.RewalkDropsConfiguredNode | hub-api/internal/database/db.go:115-117 | a re-walked node that was HistoryEnabledNoChange becomes HistoryDisabledNoChange, so the next configuration update drops it |
| Table.UpsertKeepingFlags | hub-api/internal/database/db.go:106-118 | the corrected upsert inserts a new row as `Upsert` does; an existing row differs from `Upsert`'s result only by keeping its two flags |
| Table.UpsertKeepingFlagsValid | hub-api/internal/database/db.go:106-118 | the corrected upsert keeps the table valid |
| Table.RewalkKeepsFlags | hub-api/internal/database/db.go:115-116 | with the corrected upsert, a re-walked row keeps both flags and so its classification |
| Table.RewalkKeepsUpToDate | hub-api/internal/database/db.go:106-118 | with the corrected upsert, re-walking an up-to-date table leaves it up to date |
| Table.WalkNodeParts | hub-api/internal/database/db.go:448-456 | the stored namespace, type and identifier are those of the walked NodeId |
| Hierarchy.LiveIds | hub-api/internal/database/db.go:168 | the loaded ids are exactly the rows with `removed = 0` |
| Hierarchy.HierarchyNode | hub-api/internal/database/db.go:174-181 | a loaded node carries its row's id, parent, browse name and history flag |
| Hierarchy.OrphanDropped | hub-api/internal/database/db.go:194-203 | a node whose parent was not loaded is neither a root nor anyone's child |
| Hierarchy.RemovedNotLoaded | hub-api/internal/database/db.go:168 | a removed row is not loaded, not a root and nobody's child |
| Hierarchy.SingleParent | hub-api/internal/database/db.go:194-203 | a node sits in at most one children list and then not among the roots |
| Store.FirstAbortMeaning | hub-api/internal/database/db.go:449-470 | every node before the first abort position is stored and the node at it fails to parse or upsert |
| Store.FirstFailingUpdate | hub-api/internal/database/db.go:322-339 | the position of the first failing update: all earlier updates succeed |
| Store.NodeStore.constructor | hub-api/internal/database/db.go:72-90 | a new store holds the empty table |
| Store.NodeStore.InsertOrUpdateNode | hub-api/internal/database/db.go:104-130 | the table becomes the upsert, or stays unchanged with an error |
| Store.NodeStore.MarkNodeAsRemoved | hub-api/internal/database/db.go:132-145 | `removed = 1` then `history_enabled = 0` on the matching row, each unless its statement fails; success iff the second statement succeeds, so a failure of the first is only logged |
| Store.NodeStore.UpdateNodeHistory | hub-api/internal/database/db.go:210-225 | sets `history_enabled` of the matching row to 1 or 0, or fails with the table unchanged |
| Store.NodeStore.GetHistoryNodes | hub-api/internal/database/db.go:228-284 | fails iff its query fails; otherwise every row, removed ones included, exactly once and classified |
| Store.NodeStore.IsTelegrafUpToDate | hub-api/internal/database/db.go:287-317 | fails iff its query fails; when reading the rows fails it answers true, as the unchecked row error at db.go:310-316 makes it; otherwise true iff the table is up to date |
| Store.NodeStore.SetDatabaseNodeStates | hub-api/internal/database/db.go:320-343 | applies the transitions of the nodes before the first failing update, and succeeds iff none fails |
| Store.NodeStore.QueryLiveRows | hub-api/internal/database/db.go:168 | the live rows, each once, in browse-name order |
| Store.NodeStore.LoadHierarchy | hub-api/internal/database/db.go:161-207 | fails iff the query fails; otherwise a hierarchy of the live rows as described by `IsHierarchyOf` |
| Store.NodeStore.LinkChildren | hub-api/internal/database/db.go:193-203 | every loaded non-root node with a loaded parent sits once in its parent's list, and nothing else does |
| Store.NodeStore.InsertNodesRecursively | hub-api/internal/database/db.go:443-500 | the forest is upserted in pre-order up to the first failing node; success iff none fails, returning exactly the pre-order nodes |
| Store.NodeStore.InsertTree | hub-api/internal/database/db.go:447-496 | one tree is stored as its root then its children, up to the first failure |
| Config.Getenv | hub-api/internal/configupdate/updateconfig.go:102 | an unset variable reads as "" |
| Config.SimpleNodeOf | hub-api/internal/configupdate/updateconfig.go:70-75 | name is the browse name, namespace the decimal text of the index, type and identifier copied |
| Config.ConvertToSimpleNodes | hub-api/internal/configupdate/updateconfig.go:67-78 | one entry per node, same length and order |
| Config.NamespaceRoundTrip | hub-api/internal/configupdate/updateconfig.go:72 | the namespace text parses back to the node's namespace index |
| Config.Rewrite | hub-api/internal/configupdate/updateconfig.go:98-113 | nodes give exactly one stanza with those nodes, the endpoint, "10s", "5s", "None", "None"; no nodes remove the stanza; the rest of the record is unchanged |
| Config.RewriteConfigures | hub-api/internal/configupdate/updateconfig.go:99-113 | after a rewrite the configured node list is exactly the given nodes |
| Config.RewriteOverrides | hub-api/internal/configupdate/updateconfig.go:99-113 | a later rewrite discards what an earlier one wrote |
| Config.RewriteIdempotent | hub-api/internal/configupdate/updateconfig.go:99-113 | rewriting twice with the same nodes and endpoint equals rewriting once |
| Config.UpdateConfig | hub-api/internal/configupdate/updateconfig.go:80-128 | a read, decode, encode or write failure exits at that stage; otherwise the file holds the rewrite with `TELEGRAF_OPCUA_ENDPOINT` |
| Config.Atoi | hub-api/internal/configupdate/updateconfig.go:183-188 | the parsed value, or 0 when parsing fails |
| Config.AtoiItoa | hub-api/internal/configupdate/updateconfig.go:183-188 | `atoi` reads back any 64-bit integer's text |
| Config.EnvFlag | hub-api/internal/configupdate/updateconfig.go:135 | a switch is on iff its variable is exactly "true" |
| Config.DefaultConfig | hub-api/internal/configupdate/updateconfig.go:131-167 | no stanza, one `influxdb_v2` output, one CPU input; every field from its variable; booleans iff "true"; numbers by `atoi` |
| Config.DefaultHasNoStanza | hub-api/internal/configupdate/updateconfig.go:167 | the default already equals its rewrite with no nodes |
| Config.CreateConfig | hub-api/internal/configupdate/updateconfig.go:130-181 | writes the default record, or exits at the encode or write stage |
| WebApi.DecodeInto | hub-api/internal/webapi/handler.go:71 | decoding sets the fields the body carries and keeps the previous values of the rest |
| WebApi.HistoryMessageInjective | hub-api/internal/webapi/handler.go:84-98 | the success message determines the path and whether history was enabled |
| WebApi.ConfiguredIffHistoryEnabled | hub-api/internal/webapi/handler.go:120 | the rewrite receives exactly the listed nodes whose row has history enabled |
| WebApi.PendingIffFlagsDisagree | hub-api/internal/webapi/handler.go:159 | the updates-required listing holds exactly the listed nodes whose flags disagree |
| WebApi.NoPendingIffUpToDate | hub-api/internal/webapi/handler.go:159 | nothing is pending iff the table is up to date |
| WebApi.PendingLabel | hub-api/internal/webapi/handler.go:159-174 | every reported node carries the label "Added" or "Removed" |
| WebApi.FillEntries | hub-api/internal/webapi/handler.go:166-174 | one entry per node, in order: the browse name and the action label |
| WebApi.Server.constructor | hub-api/internal/webapi/handler.go:18-22 | `RequestData` starts as Go's zero value |
| WebApi.Server.GetNodesHandler | hub-api/internal/webapi/handler.go:25-58 | 500 on the first failing step; otherwise the `LoadHierarchy` result with the up-to-date flag of the same table, which is true whenever reading the pending rows failed |
| WebApi.Server.UpdateNodeHistoryHandler | hub-api/internal/webapi/handler.go:60-99 | a malformed body answers 400 and changes nothing; otherwise the decoded flag is written and the message names the path and "Enabled" or "Disabled" |
| WebApi.Server.UpdateConfigFileWithHistoryNodes | hub-api/internal/webapi/handler.go:101-141 | the rewrite gets the Added and HistoryEnabledNoChange nodes; the transition runs over every listed node only after a successful write, and leaves the table up to date when no update fails |
| WebApi.Server.ApplyAndReply | hub-api/internal/webapi/handler.go:126-140 | the transition is applied up to the first failing update; a failed fetch keeps its earlier 500, a failed update answers 500, and success leaves the table up to date |
| WebApi.Server.GetUpdatesRequired | hub-api/internal/webapi/handler.go:143-178 | one entry per Added or Removed node in listing order, labelled "Added" or "Removed" |
| NodeTree.AugmentMarksAll | hub-web/src/NodeTree.js:24-30 | every node at every depth gets the given `visible` |
| NodeTree.AugmentKeepsShape | hub-web/src/NodeTree.js:24-30 | the tree and all other fields are unchanged |
| NodeTree.Lower | hub-web/src/NodeTree.js:34-37 | an ASCII capital becomes its small letter; other characters are kept |
| NodeTree.LowerString | hub-web/src/NodeTree.js:34-37 | each character is lowercased in place by `Lower`, so the length is kept (true of the ASCII mapping modelled here) |
| NodeTree.SearchAnyVisible | hub-web/src/NodeTree.js:33-46 | a searched forest shows something iff some node matches |
| NodeTree.SearchVisibility | hub-web/src/NodeTree.js:33-46 | a node is visible iff its path contains the term ignoring case, or some node below it does |
| NodeTree.SearchKeepsShape | hub-web/src/NodeTree.js:35-44 | searching changes only `visible` |
| NodeTree.SearchEmptyShowsAll | hub-web/src/NodeTree.js:33-46 | the empty term shows every node |
| NodeTree.TrimStart | hub-web/src/NodeTree.js:69 | the text is a blank prefix followed by the result, and the result is empty or starts with a character `trim` keeps |
| NodeTree.TrimEnd | hub-web/src/NodeTree.js:69 | the text is the result followed by a blank suffix, and the result is empty or ends with a character `trim` keeps |
| NodeTree.TrimEmptyIffBlank | hub-web/src/NodeTree.js:69 | a term trims to empty iff it is all white space |
| NodeTree.SearchTermEffect | hub-web/src/NodeTree.js:68-75 | a blank term shows everything; any other term marks the matches of the untrimmed term; the tree is kept |
| NodeTree.SetHistoryReaches | hub-web/src/NodeTree.js:109-120 | every node with the id not below another such node gets the flag |
| NodeTree.SetHistoryOnlyFlags | hub-web/src/NodeTree.js:109-120 | nothing changes but the flag of each reached node with the id: with those flags masked, the tree is as before, other nodes' flags and a matching node's subtree included |
| NodeTree.SetHistoryKeepsOthers | hub-web/src/NodeTree.js:111-117 | a top-level node with another id keeps its record, history flag included |
| NodeTree.SetHistoryStopsAtMatch | hub-web/src/NodeTree.js:111-113 | a matching node at top level takes the flag and keeps its whole subtree unchanged |
| NodeTree.SetHistoryAbsent | hub-web/src/NodeTree.js:109-120 | an id found nowhere leaves the tree unchanged |
| NodeTree.SetHistoryIdempotent | hub-web/src/NodeTree.js:109-120 | applying the same update twice equals applying it once |
| NodeTree.ToggleExpansion | hub-web/src/NodeTree.js:157-168 | the id flips membership, every other id keeps it |
| NodeTree.ToggleTwice | hub-web/src/NodeTree.js:157-168 | toggling the same id twice restores the set |

## Findings

| source | as written | input that shows it | evidently intended | confidence | as-written member | corrected member |
|---|---|---|---|---|---|---|
| hub-api/internal/database/db.go:115-116 | the upsert's `ON DUPLICATE KEY UPDATE` list overwrites `history_enabled` and `included_in_config` with the walked values, which are always false | a row with both flags 1 (HistoryEnabledNoChange), then the same node walked again | a re-walk keeps both flags, so the operator's choice and the configuration state survive | high, not executed | Table.RewalkDropsConfiguredNode | Table.RewalkKeepsFlags |

## Left out

- Database plumbing (`LoadDatabase`, `InitDB`, `DropNodesTable`, connect retries, the DSN) is driver code. Whether a request can open the database is a boolean parameter of each handler.
- The `last_updated` column and its timestamps are left out. Nothing reads them back.
- The `UNIQUE(node_id(500))` index is modelled as a key on the whole `node_id`. Ids that agree on their first 500 characters are not merged.
- Table.Upsert: matches `node_id` by exact string. The column has no explicit collation, and MySQL's default one ignores case and accents. The model does not merge ids that differ only in letter case or accents, as the unique key would.
- Table.SetFlag: matches `WHERE node_id = ?` by exact string, for the same reason. Under the default collation, an update also reaches a row whose id differs only in case or accents.
- Auto-increment ids are modelled as a counter that grows by one per inserted row. MySQL's gaps after a failed or duplicate insert are not modelled.
- The string order of `ORDER BY browse_name` is modelled as plain code-point order. The server's collation, which also governs the `node_id` key and its `WHERE` matches (see the two lines above), is not modelled.
- `UpdateHierarchy` (the OPC UA session, flag parsing, connect retries and `ua.ParseNodeID`) is left out. The walk takes an abstract address space, and `InsertNodesRecursively` takes the walk's result.
- The printed NodeId and `NodeClass.String` follow the client library, whose source is not part of this model. GUID and byte-string identifiers are taken in their printed form.
- The commented-out `MarkRemovedNodes` and the disabled re-walk ticker do not exist as behaviour and are not modelled.
- TOML decoding and encoding and the file read and write are modelled as outcomes: a `ConfigFile` value and two failure flags. Keys that the `Config` record does not declare are lost by decoding, and the model does not see them.
- HTTP and JSON mechanics are reduced to the first status and message a handler writes. The encoded response body of `GetNodesHandler` is its hierarchy and flag.
- WebApi.Server.UpdateNodeHistoryHandler: a body that fails to decode is assumed to leave `RequestData` untouched, although Go's decoder may have set some fields before the error.
- Concurrent requests that share `RequestData` are not modelled: requests run one at a time.
- The fetch-error paths of `UpdateConfigFileWithHistoryNodes` and `GetUpdatesRequired` write a 500 and carry on with no nodes. This is modelled as such, and the configuration then loses its OPC UA stanza.
- Store.NodeStore.InsertNodesRecursively: a NodeId that does not parse leads to a nil dereference (db.go:449-454), and the process ends there. The model returns `Failure(Panicked(id))` instead and does not model the process ending or a restart. The table state is the same: earlier upserts stay, and nothing later is stored.
- Store.NodeStore.InsertTree: stops on an unparsable NodeId with `Failure(Panicked(id))` where the source ends the process, as the line above says.
- Like the source, `Browse.Walk` builds the list of Variable and Object definitions (the local `nodes` in browse.dfy) and never returns it, so no contract mentions it.
- NodeTree.Lower: lowercases the ASCII letters only, because full Unicode case mapping of `toLowerCase` is a table outside this model.
- NodeTree.LowerString: maps one character to one, so it keeps the length. JavaScript's `toLowerCase` can change the length outside ASCII: U+0130 becomes two UTF-16 code units. The model does not cover that.
- React rendering, axios calls, modal state and the rest of the tree view outside the four helpers are UI code and are left out.
- Logging, the environment loader and start-up wiring (`util`, `main.go`) hold no logic worth modelling.
