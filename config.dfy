/**
 * The Telegraf configuration synthesizer of `configupdate`: the `Config`
 * record the TOML file decodes into, the projection of database nodes onto
 * the `[[inputs.opcua.nodes]]` entries, the rewrite of the OPC UA input
 * stanza, and the default configuration built from the environment.
 *
 * The file system and the TOML codec are collaborators: reading and
 * decoding are summed up by a `ConfigFile` value, and whether encoding or
 * writing fails is a parameter. `log.Fatal` ends the process, so those
 * failures are an outcome, `Fatal`, naming the stage that failed.
 */
module Config {
  import opened Wrappers
  import opened Numerals
  import opened Model

  /** The process environment; a variable that is not set reads as "". */
  type Env = map<string, string>

  function Getenv(env: Env, key: string): (v: string)
    ensures key !in env ==> v == ""
    ensures key in env ==> v == env[key]
  {
    if key in env then env[key] else ""
  }

  datatype SimpleNode = SimpleNode(name: string, namespace: string, identifierType: string, identifier: string)

  datatype Opcua = Opcua(
    endpoint: string,
    connectTimeout: string,
    requestTimeout: string,
    securityPolicy: string,
    securityMode: string,
    nodes: seq<SimpleNode>)

  datatype Cpu = Cpu(perCpu: bool, totalCpu: bool, collectCpuTime: bool, reportActive: bool, coreTags: bool)

  /** An empty `opcua` sequence stands for the nil slice: no stanza is written. */
  datatype Inputs = Inputs(cpu: seq<Cpu>, opcua: seq<Opcua>)

  datatype Output = Output(urls: seq<string>, token: string, organization: string, bucket: string)

  datatype Agent = Agent(
    interval: string,
    roundInterval: bool,
    metricBatchSize: int,
    metricBufferLimit: int,
    collectionJitter: string,
    flushInterval: string,
    flushJitter: string,
    precision: string,
    debug: bool)

  datatype Config = Config(
    globalTags: map<string, string>,
    agent: Agent,
    outputs: map<string, seq<Output>>,
    inputs: Inputs)

  /** What reading and decoding the configuration file yields. */
  datatype ConfigFile = Unreadable | Undecodable | Readable(config: Config)

  datatype Stage = ReadStage | DecodeStage | EncodeStage | WriteStage

  /** How a rewrite of the file ends: the process exits, or the file now holds `config`. */
  datatype WriteOutcome = Fatal(stage: Stage) | Written(config: Config)

  const ConnectTimeout := "10s"
  const RequestTimeout := "5s"
  const SecurityNone := "None"

  /**
   * `s` is the entry of node `n`: the browse name as its name, the namespace
   * index as decimal text, and the identifier type and identifier as they are.
   */
  predicate Projects(s: SimpleNode, n: Node) {
    && s.name == n.browseName
    && s.namespace == Itoa(n.namespace)
    && s.identifierType == n.identifierType
    && s.identifier == n.identifier
  }

  /** The entry of one database node in the OPC UA input. */
  function SimpleNodeOf(n: Node): (s: SimpleNode)
    ensures Projects(s, n)
  {
    SimpleNode(n.browseName, Itoa(n.namespace), n.identifierType, n.identifier)
  }

  function SimpleNodes(nodes: seq<Node>): seq<SimpleNode> {
    seq(|nodes|, i requires 0 <= i < |nodes| => SimpleNodeOf(nodes[i]))
  }

  /**
   * `ConvertToSimpleNodes`: fills a slice of the same length, entry by entry,
   * with the entry of each node.
   */
  method ConvertToSimpleNodes(nodes: seq<Node>) returns (simple: seq<SimpleNode>)
    ensures |simple| == |nodes|
    ensures forall i :: 0 <= i < |nodes| ==> simple[i] == SimpleNodeOf(nodes[i])
  {
    simple := FillByIndex(nodes, SimpleNodeOf);
  }

  /**
   * A slice allocated at full length and filled entry by entry with `f` of
   * the input. The loop is generic in `f`, so its proof never looks inside
   * the entry of a node (and the decimal text of its namespace).
   */
  method FillByIndex<A, B(0)>(xs: seq<A>, f: A -> B) returns (ys: seq<B>)
    ensures |ys| == |xs|
    ensures forall i :: 0 <= i < |xs| ==> ys[i] == f(xs[i])
  {
    var a := new B[|xs|];
    for i := 0 to |xs|
      invariant forall j :: 0 <= j < i ==> a[j] == f(xs[j])
    {
      a[i] := f(xs[i]);
    }
    ys := a[..];
  }

  /** Entries that project the nodes one by one are the projection of the nodes. */
  lemma SimpleNodesAgree(nodes: seq<Node>, simple: seq<SimpleNode>)
    requires |simple| == |nodes|
    requires forall i :: 0 <= i < |nodes| ==> simple[i] == SimpleNodeOf(nodes[i])
    ensures simple == SimpleNodes(nodes)
  {
  }

  /** The namespace text of an entry reads back as the node's namespace index. */
  lemma NamespaceRoundTrip(n: Node)
    requires MinInt64 <= n.namespace <= MaxInt64
    ensures ParseInt(SimpleNodeOf(n).namespace) == Success(n.namespace)
    ensures Atoi(SimpleNodeOf(n).namespace) == n.namespace
  {
    ParseIntItoa(n.namespace);
  }

  /**
   * The in-memory part of `UpdateConfig`: with at least one node the
   * `opcua` input becomes a single stanza holding exactly those nodes, with
   * fixed timeouts and no security; with none the stanza is removed.
   * Nothing else in the record changes.
   */
  function Rewrite(config: Config, nodes: seq<SimpleNode>, endpoint: string): (r: Config)
    ensures r.globalTags == config.globalTags && r.agent == config.agent
    ensures r.outputs == config.outputs && r.inputs.cpu == config.inputs.cpu
    ensures nodes == [] <==> r.inputs.opcua == []
    ensures nodes != [] ==> |r.inputs.opcua| == 1 && r.inputs.opcua[0].nodes == nodes
    ensures nodes != [] ==>
      && r.inputs.opcua[0].endpoint == endpoint
      && r.inputs.opcua[0].connectTimeout == "10s" && r.inputs.opcua[0].requestTimeout == "5s"
      && r.inputs.opcua[0].securityPolicy == "None" && r.inputs.opcua[0].securityMode == "None"
  {
    if |nodes| > 0 then
      config.(inputs := config.inputs.(opcua := [Opcua(endpoint, ConnectTimeout, RequestTimeout, SecurityNone, SecurityNone, nodes)]))
    else
      config.(inputs := config.inputs.(opcua := []))
  }

  /** Every node entry of every OPC UA stanza, stanza by stanza. */
  function ConfiguredNodes(stanzas: seq<Opcua>): seq<SimpleNode> {
    if stanzas == [] then [] else stanzas[0].nodes + ConfiguredNodes(stanzas[1..])
  }

  /** After a rewrite the configuration collects exactly the given nodes, in order. */
  lemma RewriteConfigures(config: Config, nodes: seq<SimpleNode>, endpoint: string)
    ensures ConfiguredNodes(Rewrite(config, nodes, endpoint).inputs.opcua) == nodes
  {
    var stanzas := Rewrite(config, nodes, endpoint).inputs.opcua;
    if nodes != [] {
      assert stanzas[1..] == [];
      assert ConfiguredNodes(stanzas) == nodes + [];
    }
  }

  /**
   * The latest rewrite decides the stanza alone: rewriting a rewritten
   * record gives what one rewrite of the original gives.
   */
  lemma RewriteOverrides(config: Config, first: seq<SimpleNode>, firstEndpoint: string,
                         nodes: seq<SimpleNode>, endpoint: string)
    ensures Rewrite(Rewrite(config, first, firstEndpoint), nodes, endpoint) == Rewrite(config, nodes, endpoint)
  {
    var once := Rewrite(config, nodes, endpoint);
    var twice := Rewrite(Rewrite(config, first, firstEndpoint), nodes, endpoint);
    assert twice.inputs == once.inputs;
  }

  /** Rewriting twice with the same nodes and endpoint is rewriting once. */
  lemma RewriteIdempotent(config: Config, nodes: seq<SimpleNode>, endpoint: string)
    ensures Rewrite(Rewrite(config, nodes, endpoint), nodes, endpoint) == Rewrite(config, nodes, endpoint)
  {
    RewriteOverrides(config, nodes, endpoint, nodes, endpoint);
  }

  /**
   * `UpdateConfig`: converts the nodes, reads and decodes the file, rewrites
   * the OPC UA stanza with the endpoint from `TELEGRAF_OPCUA_ENDPOINT`, and
   * encodes and writes the record back. Each failure exits the process at
   * its stage, before anything is written.
   */
  method UpdateConfig(file: ConfigFile, nodes: seq<Node>, env: Env, encodeFails: bool, writeFails: bool)
    returns (r: WriteOutcome)
    ensures file.Unreadable? <==> r == Fatal(ReadStage)
    ensures file.Undecodable? <==> r == Fatal(DecodeStage)
    ensures r.Fatal? && r.stage == EncodeStage <==> file.Readable? && encodeFails
    ensures r.Fatal? && r.stage == WriteStage <==> file.Readable? && !encodeFails && writeFails
    ensures r.Written? <==> file.Readable? && !encodeFails && !writeFails
    ensures r.Written? ==> r.config == Rewrite(file.config, SimpleNodes(nodes), Getenv(env, "TELEGRAF_OPCUA_ENDPOINT"))
  {
    var simple := ConvertToSimpleNodes(nodes);
    SimpleNodesAgree(nodes, simple);
    if file.Unreadable? {
      return Fatal(ReadStage);
    }
    if file.Undecodable? {
      return Fatal(DecodeStage);
    }
    var config := file.config;
    if |simple| > 0 {
      var stanza := Opcua(Getenv(env, "TELEGRAF_OPCUA_ENDPOINT"), ConnectTimeout, RequestTimeout, SecurityNone, SecurityNone, simple);
      config := config.(inputs := config.inputs.(opcua := [stanza]));
    } else {
      config := config.(inputs := config.inputs.(opcua := []));
    }
    if encodeFails {
      return Fatal(EncodeStage);
    }
    if writeFails {
      return Fatal(WriteStage);
    }
    return Written(config);
  }

  /** `atoi`: the value `strconv.Atoi` parses, or 0 when it reports an error. */
  function Atoi(s: string): (v: int)
    ensures MinInt64 <= v <= MaxInt64
    ensures ParseInt(s).Success? ==> v == ParseInt(s).value
    ensures ParseInt(s).Failure? ==> v == 0
  {
    match ParseInt(s)
    case Success(i) => i
    case Failure(_) => 0
  }

  /** Any 64-bit integer written as decimal text is read back by `atoi`. */
  lemma AtoiItoa(n: int)
    requires MinInt64 <= n <= MaxInt64
    ensures Atoi(Itoa(n)) == n
  {
    ParseIntItoa(n);
  }

  /** A boolean setting is on exactly when its variable reads "true". */
  function EnvFlag(env: Env, key: string): (b: bool)
    ensures b <==> key in env && env[key] == "true"
  {
    Getenv(env, key) == "true"
  }

  /**
   * The record `CreateConfig` builds: agent settings from the environment,
   * one `influxdb_v2` output, one CPU input, and no OPC UA stanza.
   */
  function DefaultConfig(env: Env): (c: Config)
    ensures c.globalTags == map[] && c.inputs.opcua == []
    ensures c.outputs.Keys == {"influxdb_v2"} && |c.outputs["influxdb_v2"]| == 1
    ensures c.outputs["influxdb_v2"][0].urls == [Getenv(env, "TELEGRAF_INFLUX_URL")]
    ensures |c.inputs.cpu| == 1
    ensures c.agent.roundInterval <==> Getenv(env, "TELEGRAF_ROUND_INTERVAL") == "true"
    ensures c.inputs.cpu[0].perCpu <==> Getenv(env, "TELEGRAF_CPU_PERCPU") == "true"
    ensures c.inputs.cpu[0].totalCpu <==> Getenv(env, "TELEGRAF_TOTAL_CPU") == "true"
    ensures c.inputs.cpu[0].collectCpuTime <==> Getenv(env, "TELEGRAF_COLLECT_CPU_TIME") == "true"
    ensures c.inputs.cpu[0].reportActive <==> Getenv(env, "TELEGRAF_REPORT_ACTIVE") == "true"
    ensures c.inputs.cpu[0].coreTags <==> Getenv(env, "TELEGRAF_CORE_TAGS") == "true"
    ensures ParseInt(Getenv(env, "TELEGRAF_METRIC_BATCH_SIZE")).Failure? ==> c.agent.metricBatchSize == 0
    ensures ParseInt(Getenv(env, "TELEGRAF_METRIC_BUFFER_LIMIT")).Failure? ==> c.agent.metricBufferLimit == 0
    ensures ParseInt(Getenv(env, "TELEGRAF_METRIC_BATCH_SIZE")).Success? ==>
      c.agent.metricBatchSize == ParseInt(Getenv(env, "TELEGRAF_METRIC_BATCH_SIZE")).value
    ensures ParseInt(Getenv(env, "TELEGRAF_METRIC_BUFFER_LIMIT")).Success? ==>
      c.agent.metricBufferLimit == ParseInt(Getenv(env, "TELEGRAF_METRIC_BUFFER_LIMIT")).value
    ensures c.agent.interval == Getenv(env, "TELEGRAF_INTERVAL")
    ensures c.agent.collectionJitter == Getenv(env, "TELEGRAF_COLLECTION_JITTER")
    ensures c.agent.flushInterval == Getenv(env, "TELEGRAF_FLUSH_INTERVAL")
    ensures c.agent.flushJitter == Getenv(env, "TELEGRAF_FLUSH_JITTER")
    ensures c.agent.precision == Getenv(env, "TELEGRAF_PRECISION")
    ensures var out := c.outputs["influxdb_v2"][0];
      && out.token == Getenv(env, "TELEGRAF_INFLUX_TOKEN")
      && out.organization == Getenv(env, "TELEGRAF_INFLUX_ORG")
      && out.bucket == Getenv(env, "TELEGRAF_INFLUX_BUCKET")
    ensures !c.agent.debug
  {
    Config(
      map[],
      Agent(
        Getenv(env, "TELEGRAF_INTERVAL"),
        EnvFlag(env, "TELEGRAF_ROUND_INTERVAL"),
        Atoi(Getenv(env, "TELEGRAF_METRIC_BATCH_SIZE")),
        Atoi(Getenv(env, "TELEGRAF_METRIC_BUFFER_LIMIT")),
        Getenv(env, "TELEGRAF_COLLECTION_JITTER"),
        Getenv(env, "TELEGRAF_FLUSH_INTERVAL"),
        Getenv(env, "TELEGRAF_FLUSH_JITTER"),
        Getenv(env, "TELEGRAF_PRECISION"),
        false),
      map["influxdb_v2" := [Output(
        [Getenv(env, "TELEGRAF_INFLUX_URL")],
        Getenv(env, "TELEGRAF_INFLUX_TOKEN"),
        Getenv(env, "TELEGRAF_INFLUX_ORG"),
        Getenv(env, "TELEGRAF_INFLUX_BUCKET"))]],
      Inputs(
        [Cpu(
          EnvFlag(env, "TELEGRAF_CPU_PERCPU"),
          EnvFlag(env, "TELEGRAF_TOTAL_CPU"),
          EnvFlag(env, "TELEGRAF_COLLECT_CPU_TIME"),
          EnvFlag(env, "TELEGRAF_REPORT_ACTIVE"),
          EnvFlag(env, "TELEGRAF_CORE_TAGS"))],
        []))
  }

  /** A fresh configuration is already what a rewrite with no nodes produces. */
  lemma DefaultHasNoStanza(env: Env, endpoint: string)
    ensures Rewrite(DefaultConfig(env), [], endpoint) == DefaultConfig(env)
    ensures ConfiguredNodes(DefaultConfig(env).inputs.opcua) == []
  {
  }

  /**
   * `CreateConfig`: encodes the default record and writes it; either failure
   * exits the process.
   */
  method CreateConfig(env: Env, encodeFails: bool, writeFails: bool) returns (r: WriteOutcome)
    ensures encodeFails ==> r == Fatal(EncodeStage)
    ensures !encodeFails && writeFails ==> r == Fatal(WriteStage)
    ensures !encodeFails && !writeFails ==> r == Written(DefaultConfig(env))
  {
    var cfg := DefaultConfig(env);
    if encodeFails {
      return Fatal(EncodeStage);
    }
    if writeFails {
      return Fatal(WriteStage);
    }
    return Written(cfg);
  }
}
