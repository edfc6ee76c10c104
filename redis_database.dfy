/** RedisDatabaseProvider: the one lazily created connection to Redis, the
    database and subscriber handles taken from it, and the discovery of the
    master endpoints whose servers the remote cache counts and flushes. */
module RedisDatabase {
  import opened Runtime

  /** A Redis endpoint, as its host and port text. */
  type EndPoint = string

  /** StackExchange.Redis `ServerType`. */
  datatype ServerType = Standalone | Cluster | Sentinel | Twemproxy | Envoy

  /** A node of a cluster configuration: its endpoint and whether it is a replica. */
  datatype ClusterNode = ClusterNode(endpoint: EndPoint, isReplica: bool)

  /** What `GetServer(ep)` reports about an endpoint of the connection. */
  datatype ServerInfo = ServerInfo(
    endpoint: EndPoint,
    isConnected: bool,
    serverType: ServerType,
    isReplica: bool,
    clusterNodes: seq<ClusterNode>)

  /** The endpoints of the non-replica nodes, in configuration order. */
  function NonReplicaNodes(nodes: seq<ClusterNode>): (r: seq<EndPoint>)
    ensures |r| <= |nodes|
    ensures forall e :: e in r <==> exists n | n in nodes :: !n.isReplica && n.endpoint == e
    decreases |nodes|
  {
    if nodes == [] then []
    else
      var rest := NonReplicaNodes(nodes[1..]);
      assert forall n :: n in nodes <==> n == nodes[0] || n in nodes[1..];
      if nodes[0].isReplica then rest else [nodes[0].endpoint] + rest
  }

  /** One node contributes its endpoint exactly when it is not a replica. */
  lemma NonReplicaNodesSingle(n: ClusterNode)
    ensures NonReplicaNodes([n]) == if n.isReplica then [] else [n.endpoint]
  {
    assert [n][1..] == [];
  }

  /** The selection keeps configuration order: the nodes of a concatenation
      contribute those of the first part, then those of the second. With
      `NonReplicaNodesSingle` this fixes the result node by node. */
  lemma {:induction false} NonReplicaNodesConcat(a: seq<ClusterNode>, b: seq<ClusterNode>)
    ensures NonReplicaNodes(a + b) == NonReplicaNodes(a) + NonReplicaNodes(b)
    decreases |a|
  {
    if a != [] {
      assert (a + b)[0] == a[0];
      assert (a + b)[1..] == a[1..] + b;
      NonReplicaNodesConcat(a[1..], b);
    } else {
      assert a + b == b;
    }
  }

  /** The endpoint ends the scan: a connected cluster node, or a connected
      standalone server that is not a replica. */
  predicate Stops(s: ServerInfo) {
    s.isConnected && (s.serverType == Cluster || (s.serverType == Standalone && !s.isReplica))
  }

  /** What the endpoint that ends the scan contributes: the masters of its
      cluster configuration, or itself. */
  function Contribution(s: ServerInfo): (r: seq<EndPoint>)
    ensures s.serverType != Cluster ==> r == [s.endpoint]
    ensures s.serverType == Cluster ==> forall e :: e in r <==> exists n | n in s.clusterNodes :: !n.isReplica && n.endpoint == e
    ensures s.serverType == Cluster ==> r == NonReplicaNodes(s.clusterNodes)
  {
    if s.serverType == Cluster then NonReplicaNodes(s.clusterNodes) else [s.endpoint]
  }

  /** The master endpoints of `servers`: the contribution of the first endpoint
      that ends the scan, and none when no endpoint does. */
  function Masters(servers: seq<ServerInfo>): seq<EndPoint>
    decreases |servers|
  {
    if servers == [] then []
    else if Stops(servers[0]) then Contribution(servers[0])
    else Masters(servers[1..])
  }

  /** The first endpoint that ends the scan decides the result alone. */
  lemma {:induction false} FirstStopDecides(servers: seq<ServerInfo>, i: int)
    requires 0 <= i < |servers| && Stops(servers[i])
    requires forall j | 0 <= j < i :: !Stops(servers[j])
    ensures Masters(servers) == Contribution(servers[i])
    decreases i
  {
    if i > 0 {
      assert !Stops(servers[0]);
      assert servers[1..][i - 1] == servers[i];
      FirstStopDecides(servers[1..], i - 1);
    }
  }

  /** When no endpoint ends the scan there are no masters. */
  lemma {:induction false} NoStopNoMasters(servers: seq<ServerInfo>)
    requires forall j | 0 <= j < |servers| :: !Stops(servers[j])
    ensures Masters(servers) == []
    decreases |servers|
  {
    if servers != [] {
      assert !Stops(servers[0]);
      NoStopNoMasters(servers[1..]);
    }
  }

  /** Unconnected endpoints, standalone replicas and servers of other types are
      skipped: an endpoint that does not end the scan does not change the result. */
  lemma SkippedEndpoint(s: ServerInfo, rest: seq<ServerInfo>)
    requires !s.isConnected || (s.serverType != Cluster && (s.serverType != Standalone || s.isReplica))
    ensures Masters([s] + rest) == Masters(rest)
  {
    assert ([s] + rest)[1..] == rest;
  }

  /** At most one endpoint contributes: the result is empty or is the
      contribution of one endpoint that ends the scan, all before it not. */
  lemma {:induction false} AtMostOneContributes(servers: seq<ServerInfo>)
    ensures Masters(servers) == [] || exists i | 0 <= i < |servers| ::
      Stops(servers[i]) && Masters(servers) == Contribution(servers[i]) && forall j | 0 <= j < i :: !Stops(servers[j])
    decreases |servers|
  {
    if servers != [] && !Stops(servers[0]) {
      AtMostOneContributes(servers[1..]);
      if Masters(servers) != [] {
        var i :| 0 <= i < |servers[1..]| && Stops(servers[1..][i]) && Masters(servers[1..]) == Contribution(servers[1..][i])
          && forall j | 0 <= j < i :: !Stops(servers[1..][j]);
        assert servers[i + 1] == servers[1..][i];
        forall j | 0 <= j < i + 1 ensures !Stops(servers[j]) {
          if j > 0 {
            assert servers[j] == servers[1..][j - 1];
          }
        }
      }
    } else if servers != [] {
      assert 0 <= 0 < |servers| && Stops(servers[0]);
    }
  }

  /** A connection multiplexer: the servers it sees, one per endpoint, in endpoint order. */
  datatype Connection = Connection(servers: seq<ServerInfo>)

  /** Handles taken from the connection. */
  datatype DatabaseHandle = DatabaseHandle(connection: Connection, index: int)
  datatype SubscriberHandle = SubscriberHandle(connection: Connection)
  datatype ServerHandle = ServerHandle(connection: Connection, endpoint: EndPoint)

  /** `GetMastersServersEndpoints()` over the endpoints of a connection: the
      scan adds the contribution of the first endpoint that ends it, then breaks. */
  method ScanMasters(servers: seq<ServerInfo>) returns (masters: seq<EndPoint>)
    ensures masters == Masters(servers)
  {
    masters := [];
    var i := 0;
    while i < |servers|
      invariant 0 <= i <= |servers|
      invariant masters == []
      invariant Masters(servers) == Masters(servers[i..])
    {
      var server := servers[i];
      assert servers[i..][1..] == servers[i + 1..];
      if server.isConnected {
        if server.serverType == Cluster {
          masters := masters + NonReplicaNodes(server.clusterNodes);
          break;
        }
        if server.serverType == Standalone && !server.isReplica {
          masters := masters + [server.endpoint];
          break;
        }
      }
      i := i + 1;
    }
  }

  /** RedisDbOptions, as far as the provider uses it: the database index. */
  datatype RedisDbOptions = RedisDbOptions(database: int)

  class RedisDatabaseProvider {
    const options: RedisDbOptions
    /** The servers a connection sees once it is made. */
    const topology: seq<ServerInfo>
    /** The `Lazy<ConnectionMultiplexer>`: Null until first used. */
    var connection: Nullable<Connection>
    /** How many times `CreateConnectionMultiplexer` ran. */
    var connects: nat

    ghost predicate Valid()
      reads this
    {
      && connects <= 1
      && (connection.NonNull? <==> connects == 1)
      && (connection.NonNull? ==> connection.value == Connection(topology))
    }

    constructor (options: RedisDbOptions, topology: seq<ServerInfo>)
      ensures Valid() && connection.Null? && connects == 0
      ensures this.options == options && this.topology == topology
    {
      this.options := options;
      this.topology := topology;
      connection := Null;
      connects := 0;
    }

    /** `_connectionMultiplexer.Value`: connects on first use only, and returns
        the same connection afterwards. */
    method Multiplexer() returns (c: Connection)
      requires Valid()
      modifies this
      ensures Valid() && connection == NonNull(c) && connects == 1
      ensures c == Connection(topology)
      ensures old(connection).NonNull? ==> c == old(connection).value && connects == old(connects)
    {
      if connection.Null? {
        connection := NonNull(Connection(topology));
        connects := connects + 1;
      }
      c := connection.value;
    }

    /** `GetDatabase()`: the configured database of the shared connection. */
    method GetDatabase() returns (db: DatabaseHandle)
      requires Valid()
      modifies this
      ensures Valid() && connects == 1
      ensures db == DatabaseHandle(connection.value, options.database)
    {
      var c := Multiplexer();
      db := DatabaseHandle(c, options.database);
    }

    /** `GetSubscriber()`: the subscriber of the shared connection. */
    method GetSubscriber() returns (sub: SubscriberHandle)
      requires Valid()
      modifies this
      ensures Valid() && connects == 1
      ensures sub == SubscriberHandle(connection.value)
    {
      var c := Multiplexer();
      sub := SubscriberHandle(c);
    }

    /** `GetMastersServersEndpoints()`. */
    method GetMastersServersEndpoints() returns (masters: seq<EndPoint>)
      requires Valid()
      modifies this
      ensures Valid() && connects == 1
      ensures masters == Masters(topology)
    {
      var c := Multiplexer();
      masters := ScanMasters(c.servers);
    }

    /** `GetServers()`: one server of the shared connection per master
        endpoint, in discovery order. */
    method GetServers() returns (servers: seq<ServerHandle>)
      requires Valid()
      modifies this
      ensures Valid() && connects == 1
      ensures |servers| == |Masters(topology)|
      ensures forall i | 0 <= i < |servers| :: servers[i] == ServerHandle(connection.value, Masters(topology)[i])
    {
      var endpoints := GetMastersServersEndpoints();
      servers := [];
      var i := 0;
      while i < |endpoints|
        invariant Valid() && connects == 1
        invariant 0 <= i <= |endpoints|
        invariant |servers| == i
        invariant forall j | 0 <= j < i :: servers[j] == ServerHandle(connection.value, endpoints[j])
      {
        var c := Multiplexer();
        servers := servers + [ServerHandle(c, endpoints[i])];
        i := i + 1;
      }
    }
  }

  /** The database, the subscriber and the servers all come from one connection,
      made once. */
  method SharedConnection(options: RedisDbOptions, topology: seq<ServerInfo>) returns (db: DatabaseHandle, sub: SubscriberHandle, servers: seq<ServerHandle>, connects: nat)
    ensures connects == 1
    ensures db.connection == sub.connection && db.index == options.database
    ensures forall i | 0 <= i < |servers| :: servers[i].connection == db.connection
  {
    var provider := new RedisDatabaseProvider(options, topology);
    db := provider.GetDatabase();
    sub := provider.GetSubscriber();
    servers := provider.GetServers();
    connects := provider.connects;
  }
}
