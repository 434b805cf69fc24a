/**
 * The HTTP handlers of `webapi`, reduced to the order of their steps and
 * what each step passes on. The database is a `NodeStore`; whether a
 * connection can be opened is a parameter of each request; the
 * configuration file and the environment are the collaborators of the
 * `Config` module. A reply is the status and message written first.
 */
module WebApi {
  import opened Wrappers
  import opened Model
  import opened Table
  import opened Hierarchy
  import opened Store
  import Config

  const StatusOK := 200
  const StatusBadRequest := 400
  const StatusInternalServerError := 500

  datatype Reply = Reply(status: int, message: string)

  /** How applying the configuration ends: the process exits, or a reply is written. */
  datatype ApplyResult = Exited(stage: Config.Stage) | Replied(reply: Reply)

  /** What `GetNodesHandler` writes: an error, or the roots with the up-to-date flag. */
  datatype NodesReply = NodesFailed(reply: Reply) | NodesListed(hierarchy: Hierarchy, telegrafUpToDate: bool)

  /** One entry of the updates-required listing: the browse name and the action label. */
  datatype UpdateEntry = UpdateEntry(nodeId: string, dbActionRequired: string)

  /** The fields of the history request. */
  datatype HistoryRequest = HistoryRequest(nodeId: string, historyEnabled: bool, nodePath: string)

  /** A request body: one that does not decode, or the fields it carries. */
  datatype RequestBody =
    | Malformed
    | Fields(nodeId: Option<string>, historyEnabled: Option<bool>, nodePath: Option<string>)

  /** Decoding into a struct that already holds values sets only the fields the body carries. */
  function DecodeInto(previous: HistoryRequest, body: RequestBody): (r: HistoryRequest)
    requires body.Fields?
    ensures body.nodeId.Some? ==> r.nodeId == body.nodeId.value
    ensures body.nodeId.None? ==> r.nodeId == previous.nodeId
    ensures body.historyEnabled.Some? ==> r.historyEnabled == body.historyEnabled.value
    ensures body.historyEnabled.None? ==> r.historyEnabled == previous.historyEnabled
    ensures body.nodePath.Some? ==> r.nodePath == body.nodePath.value
    ensures body.nodePath.None? ==> r.nodePath == previous.nodePath
  {
    HistoryRequest(
      if body.nodeId.Some? then body.nodeId.value else previous.nodeId,
      if body.historyEnabled.Some? then body.historyEnabled.value else previous.historyEnabled,
      if body.nodePath.Some? then body.nodePath.value else previous.nodePath)
  }

  function HistoryMessage(nodePath: string, enabled: bool): string {
    "History for node " + nodePath + ": " + (if enabled then "Enabled" else "Disabled")
  }

  /** The success message names the path and the new setting unambiguously. */
  lemma HistoryMessageInjective(p: string, e: bool, q: string, f: bool)
    requires HistoryMessage(p, e) == HistoryMessage(q, f)
    ensures p == q && e == f
  {
    var m := HistoryMessage(p, e);
    // Seven characters from the end sits the 'E' of "Enabled" or the 'i' of "Disabled".
    SettingAtEnd(p, e);
    SettingAtEnd(q, f);
    assert |p| == |q|;
    assert m[17..17 + |p|] == p;
    assert m[17..17 + |q|] == q;
  }

  lemma SettingAtEnd(p: string, e: bool)
    ensures var m := HistoryMessage(p, e);
      |m| == 17 + |p| + (if e then 9 else 10) && m[|m| - 7] == (if e then 'E' else 'i')
  {
  }

  /** The actions the configuration is rewritten with. */
  const ConfiguredActions: seq<Action> := [Added, HistoryEnabledNoChange]

  /** The actions the updates-required listing reports. */
  const PendingActions: seq<Action> := [Added, Removed]

  function EntryOf(n: Node): UpdateEntry {
    UpdateEntry(n.browseName, ActionString(n.dbActionRequired))
  }

  /**
   * The configuration receives exactly the listed nodes whose row has
   * history enabled, whatever the row's other flags.
   */
  lemma ConfiguredIffHistoryEnabled(t: Table, nodes: seq<Node>, x: Node)
    requires ValidTable(t) && IsHistoryListing(t, nodes)
    ensures x in Filtered(nodes, ConfiguredActions) <==> x in nodes && t.rows[x.nodeId].historyEnabled == 1
  {
    FilteredMembership(nodes, ConfiguredActions, x);
    if x in nodes {
      ListedClassification(t, nodes, x);
      ClassifiedLists(t.rows[x.nodeId].historyEnabled, t.rows[x.nodeId].includedInConfig);
    }
  }

  /** The updates-required listing holds exactly the listed nodes whose two flags disagree. */
  lemma PendingIffFlagsDisagree(t: Table, nodes: seq<Node>, x: Node)
    requires ValidTable(t) && IsHistoryListing(t, nodes)
    ensures x in Filtered(nodes, PendingActions) <==>
      x in nodes && t.rows[x.nodeId].historyEnabled != t.rows[x.nodeId].includedInConfig
  {
    FilteredMembership(nodes, PendingActions, x);
    if x in nodes {
      ListedClassification(t, nodes, x);
      ClassifiedLists(t.rows[x.nodeId].historyEnabled, t.rows[x.nodeId].includedInConfig);
    }
  }

  /** A listed node carries the classification of its own row, whose flags are 0 or 1. */
  lemma ListedClassification(t: Table, nodes: seq<Node>, x: Node)
    requires ValidTable(t) && IsHistoryListing(t, nodes) && x in nodes
    ensures x.nodeId in t.rows
    ensures IsFlag(t.rows[x.nodeId].historyEnabled) && IsFlag(t.rows[x.nodeId].includedInConfig)
    ensures x.dbActionRequired == Classify(t.rows[x.nodeId].historyEnabled, t.rows[x.nodeId].includedInConfig)
  {
    var i :| 0 <= i < |nodes| && nodes[i] == x;
    assert ValidRow(x.nodeId, t.rows[x.nodeId]);
  }

  /** Which of the two handler lists a classified flag pair falls in. */
  lemma ClassifiedLists(historyEnabled: int, includedInConfig: int)
    requires IsFlag(historyEnabled) && IsFlag(includedInConfig)
    ensures Classify(historyEnabled, includedInConfig) in ConfiguredActions <==> historyEnabled == 1
    ensures Classify(historyEnabled, includedInConfig) in PendingActions <==> historyEnabled != includedInConfig
  {
  }

  /** Nothing is listed as requiring an update exactly when the configuration is up to date. */
  lemma NoPendingIffUpToDate(t: Table, nodes: seq<Node>)
    requires ValidTable(t) && IsHistoryListing(t, nodes)
    ensures Filtered(nodes, PendingActions) == [] <==> UpToDate(t)
  {
    UpToDateIffFlagsAgree(t);
    var pending := Filtered(nodes, PendingActions);
    if pending != [] {
      PendingIffFlagsDisagree(t, nodes, pending[0]);
    } else {
      forall k | k in t.rows
        ensures t.rows[k].historyEnabled == t.rows[k].includedInConfig
      {
        var i :| 0 <= i < |nodes| && nodes[i].nodeId == k;
        PendingIffFlagsDisagree(t, nodes, nodes[i]);
      }
    }
  }

  /** Every node the updates-required listing reports carries the label Added or Removed. */
  lemma PendingLabel(nodes: seq<Node>, x: Node)
    requires x in Filtered(nodes, PendingActions)
    ensures ActionString(x.dbActionRequired) in {"Added", "Removed"}
  {
    FilteredMembership(nodes, PendingActions, x);
  }

  /** The loop that fills the preallocated listing, one entry per node by index. */
  method FillEntries(modified: seq<Node>) returns (output: seq<UpdateEntry>)
    ensures |output| == |modified|
    ensures forall i :: 0 <= i < |modified| ==>
      output[i].nodeId == modified[i].browseName && output[i].dbActionRequired == ActionString(modified[i].dbActionRequired)
  {
    var entries := new UpdateEntry[|modified|];
    for i := 0 to |modified|
      invariant forall j :: 0 <= j < i ==> entries[j] == EntryOf(modified[j])
    {
      entries[i] := EntryOf(modified[i]);
    }
    output := entries[..];
  }

  /**
   * The web server: the database it opens for every request and the
   * process-wide `RequestData` that the history handler decodes into.
   */
  class Server {
    const store: NodeStore
    var requestData: HistoryRequest

    ghost predicate Valid()
      reads this, store
    {
      store.Valid()
    }

    constructor (store: NodeStore)
      requires store.Valid()
      ensures Valid() && this.store == store
      ensures requestData == HistoryRequest("", false, "")
    {
      this.store := store;
      requestData := HistoryRequest("", false, "");
    }

    /**
     * `GetNodesHandler`: the hierarchy, then the up-to-date check; the first
     * step that fails answers 500.
     */
    method GetNodesHandler(reachable: bool) returns (r: NodesReply)
      requires Valid()
      ensures !reachable ==> r == NodesFailed(Reply(StatusInternalServerError, "Failed to initialize DB"))
      ensures reachable && HierarchyQuery in store.failingQueries ==>
        r == NodesFailed(Reply(StatusInternalServerError, "Failed to load node hierarchy"))
      ensures reachable && HierarchyQuery !in store.failingQueries && PendingQuery in store.failingQueries ==>
        r == NodesFailed(Reply(StatusInternalServerError, "Failed to telegraf current state from database"))
      ensures r.NodesListed? <==> reachable && HierarchyQuery !in store.failingQueries && PendingQuery !in store.failingQueries
      ensures r.NodesListed? ==> IsHierarchyOf(store.table, r.hierarchy)
      ensures r.NodesListed? && PendingRowsRead in store.failingQueries ==> r.telegrafUpToDate
      ensures r.NodesListed? && PendingRowsRead !in store.failingQueries ==> (r.telegrafUpToDate <==> UpToDate(store.table))
    {
      if !reachable {
        return NodesFailed(Reply(StatusInternalServerError, "Failed to initialize DB"));
      }
      var roots := store.LoadHierarchy();
      if roots.Failure? {
        return NodesFailed(Reply(StatusInternalServerError, "Failed to load node hierarchy"));
      }
      var upToDate := store.IsTelegrafUpToDate();
      if upToDate.Failure? {
        return NodesFailed(Reply(StatusInternalServerError, "Failed to telegraf current state from database"));
      }
      return NodesListed(roots.value, upToDate.value);
    }

    /**
     * `UpdateNodeHistoryHandler`: decodes the body into `RequestData`, sets
     * the history flag of the node it names, and reports the new setting.
     */
    method UpdateNodeHistoryHandler(reachable: bool, body: RequestBody) returns (reply: Reply)
      requires Valid()
      modifies this, store
      ensures Valid()
      ensures !reachable || body.Malformed? ==> requestData == old(requestData) && store.table == old(store.table)
      ensures !reachable ==> reply == Reply(StatusInternalServerError, "Failed to initialize DB")
      ensures reachable && body.Malformed? ==> reply == Reply(StatusBadRequest, "Invalid request body")
      ensures reachable && body.Fields? ==> requestData == DecodeInto(old(requestData), body)
      ensures reachable && body.Fields? && (SetHistoryStatement, requestData.nodeId) in store.failingStatements ==>
        reply == Reply(StatusInternalServerError, "Failed to update node") && store.table == old(store.table)
      ensures reachable && body.Fields? && (SetHistoryStatement, requestData.nodeId) !in store.failingStatements ==>
        && reply == Reply(StatusOK, HistoryMessage(requestData.nodePath, requestData.historyEnabled))
        && store.table == SetFlag(old(store.table), HistoryEnabledColumn, requestData.nodeId, Flag(requestData.historyEnabled))
    {
      if !reachable {
        return Reply(StatusInternalServerError, "Failed to initialize DB");
      }
      if body.Malformed? {
        return Reply(StatusBadRequest, "Invalid request body");
      }
      requestData := DecodeInto(requestData, body);
      var r := store.UpdateNodeHistory(requestData.nodeId, requestData.historyEnabled);
      if r.Fail? {
        return Reply(StatusInternalServerError, "Failed to update node");
      }
      var modifyType := if requestData.historyEnabled then "Enabled" else "Disabled";
      return Reply(StatusOK, "History for node " + requestData.nodePath + ": " + modifyType);
    }

    /**
     * `UpdateConfigFileWithHistoryNodes`: lists the classified rows, rewrites
     * the configuration with the Added and HistoryEnabledNoChange nodes, and
     * only then moves every listed node's desired flag into the applied one.
     * A failed listing answers 500 but carries on with no nodes, so the OPC UA
     * stanza is removed.
     */
    method UpdateConfigFileWithHistoryNodes(reachable: bool, file: Config.ConfigFile, env: Config.Env,
                                            encodeFails: bool, writeFails: bool)
      returns (r: ApplyResult, written: Option<Config.Config>, ghost fetched: seq<Node>)
      requires Valid()
      modifies store
      ensures Valid()
      ensures !reachable ==> r == Replied(Reply(StatusInternalServerError, "Failed to initialize DB")) && written == None
      ensures reachable && HistoryQuery in store.failingQueries ==> fetched == []
      ensures reachable && HistoryQuery !in store.failingQueries ==> IsHistoryListing(old(store.table), fetched)
      ensures reachable && file.Unreadable? ==> r == Exited(Config.ReadStage)
      ensures reachable && file.Undecodable? ==> r == Exited(Config.DecodeStage)
      ensures reachable && file.Readable? && encodeFails ==> r == Exited(Config.EncodeStage)
      ensures reachable && file.Readable? && !encodeFails && writeFails ==> r == Exited(Config.WriteStage)
      ensures r.Exited? || !reachable ==> written == None && store.table == old(store.table)
      ensures written.Some? <==> reachable && file.Readable? && !encodeFails && !writeFails
      ensures written.Some? ==> written.value == Config.Rewrite(file.config,
        Config.SimpleNodes(Filtered(fetched, ConfiguredActions)), Config.Getenv(env, "TELEGRAF_OPCUA_ENDPOINT"))
      ensures written.Some? ==> var k := FirstFailingUpdate(fetched, store.failingStatements);
        && store.table == ApplyStates(old(store.table), fetched[..k])
        && (HistoryQuery in store.failingQueries ==> r == Replied(Reply(StatusInternalServerError, "Failed to fetch nodes")))
        && (HistoryQuery !in store.failingQueries && k == |fetched| ==>
              r == Replied(Reply(StatusOK, "Config file updated with history nodes")) && UpToDate(store.table))
        && (HistoryQuery !in store.failingQueries && k < |fetched| ==>
              r == Replied(Reply(StatusInternalServerError, "Failed to update node states in database")))
    {
      if !reachable {
        return Replied(Reply(StatusInternalServerError, "Failed to initialize DB")), None, [];
      }
      var listing := store.GetHistoryNodes();
      var nodes: seq<Node> := [];
      if listing.Success? {
        nodes := listing.value;
      }
      fetched := nodes;
      var configured := FilterNodesByAction(nodes, ConfiguredActions);
      var outcome := Config.UpdateConfig(file, configured, env, encodeFails, writeFails);
      if outcome.Fatal? {
        return Exited(outcome.stage), None, fetched;
      }
      written := Some(outcome.config);
      var reply := ApplyAndReply(nodes, listing.Failure?);
      return Replied(reply), written, fetched;
    }

    /**
     * The steps of `UpdateConfigFileWithHistoryNodes` after the file is
     * written: the transition runs over every fetched node, and the first
     * status written wins, so a failed fetch answers with its own 500.
     */
    method ApplyAndReply(nodes: seq<Node>, fetchFailed: bool) returns (reply: Reply)
      requires Valid()
      requires fetchFailed ==> nodes == []
      requires !fetchFailed ==> IsHistoryListing(store.table, nodes)
      modifies store
      ensures Valid()
      ensures var k := FirstFailingUpdate(nodes, store.failingStatements);
        && store.table == ApplyStates(old(store.table), nodes[..k])
        && (fetchFailed ==> reply == Reply(StatusInternalServerError, "Failed to fetch nodes"))
        && (!fetchFailed && k == |nodes| ==>
              reply == Reply(StatusOK, "Config file updated with history nodes") && UpToDate(store.table))
        && (!fetchFailed && k < |nodes| ==>
              reply == Reply(StatusInternalServerError, "Failed to update node states in database"))
    {
      ghost var before := store.table;
      var applied := store.SetDatabaseNodeStates(nodes);
      if fetchFailed {
        assert nodes[..0] == [];
        return Reply(StatusInternalServerError, "Failed to fetch nodes");
      }
      if applied.Fail? {
        return Reply(StatusInternalServerError, "Failed to update node states in database");
      }
      assert nodes[..|nodes|] == nodes;
      ApplyFreshListingUpToDate(before, nodes);
      return Reply(StatusOK, "Config file updated with history nodes");
    }

    /**
     * `GetUpdatesRequired`: lists the classified rows and fills one entry per
     * Added or Removed node, in listing order. A failed listing answers 500
     * and lists nothing.
     */
    method GetUpdatesRequired(reachable: bool) returns (status: int, output: seq<UpdateEntry>, ghost fetched: seq<Node>)
      requires Valid()
      ensures !reachable ==> status == StatusInternalServerError && output == []
      ensures reachable && HistoryQuery in store.failingQueries ==>
        status == StatusInternalServerError && fetched == [] && output == []
      ensures reachable && HistoryQuery !in store.failingQueries ==>
        status == StatusOK && IsHistoryListing(store.table, fetched)
      ensures |output| == |Filtered(fetched, PendingActions)|
      ensures forall i :: 0 <= i < |output| ==>
        && output[i].nodeId == Filtered(fetched, PendingActions)[i].browseName
        && output[i].dbActionRequired == ActionString(Filtered(fetched, PendingActions)[i].dbActionRequired)
        && output[i].dbActionRequired in {"Added", "Removed"}
    {
      if !reachable {
        return StatusInternalServerError, [], [];
      }
      var listing := store.GetHistoryNodes();
      var nodes: seq<Node> := [];
      status := StatusOK;
      if listing.Failure? {
        status := StatusInternalServerError;
      } else {
        nodes := listing.value;
      }
      fetched := nodes;
      var modified := FilterNodesByAction(nodes, PendingActions);
      output := FillEntries(modified);
      forall i | 0 <= i < |output|
        ensures output[i].dbActionRequired in {"Added", "Removed"}
      {
        PendingLabel(nodes, modified[i]);
      }
    }
  }
}
