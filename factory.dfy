/**
 * Client construction: normalising the bootstrap endpoint string, asking the
 * bootstrap endpoints for the cluster configuration until one answers, and
 * choosing between a direct and a load-balanced connection by the number of
 * servers in that configuration.
 *
 * The remote calls are parameters: `request(endpoint)` is what
 * `requestClusterConfiguration` returns for that endpoint (dial, ask
 * GetConfiguration, close), `dial(addr)` and `dialLb(target, service)` are the
 * errors `Dial` and `DialWithLoadBalancer` return, `None` when they connect.
 */
module Factory {
  import opened Common
  import opened GoStrings
  import ClientApi

  /** The scheme of the virtual target that the multi-address resolver serves. */
  const MultiPrefix: string := "multi:///"

  /** The separator between endpoints, both in the input and in the multi-address target. */
  const EndpointSeparator: char := ','

  /** The error for a cluster configuration that lists no server. */
  const NoServersFound: Error := Error("no raft servers found")

  /** One cluster member as the configuration reports it; only its API address is used. */
  datatype Server = Server(apiAddr: string)

  /** The cluster configuration one bootstrap endpoint reports. */
  datatype Configuration = Configuration(serverList: seq<Server>)

  /** What `NewClient` produces: a client over a connection, or why there is none. */
  datatype ClientResult =
    | Direct(addr: string)                          // Create(Dial(addr))
    | LoadBalanced(target: string, service: string) // Create(DialWithLoadBalancer(target, service))
    | Failed(err: Error)
    | NoConfiguration   // no endpoint was given, so there is no configuration to read

  /** The API addresses of the servers, in list order. */
  function ApiAddrs(servers: seq<Server>): (addrs: seq<string>)
    ensures |addrs| == |servers|
    ensures forall i :: 0 <= i < |servers| ==> addrs[i] == servers[i].apiAddr
  {
    seq(|servers|, i requires 0 <= i < |servers| => servers[i].apiAddr)
  }

  // ---------------------------------------------------------------------------
  // splitAndTrim
  // ---------------------------------------------------------------------------

  /** The pieces trimmed of white space, in order, with the pieces that trim to nothing dropped. */
  function KeepTrimmed(pieces: seq<string>): (kept: seq<string>)
    ensures |kept| <= |pieces|
    ensures forall i :: 0 <= i < |kept| ==> kept[i] != [] && IsTrimmed(kept[i])
  {
    if pieces == [] then []
    else
      var t := TrimSpace(pieces[0]);
      (if t == [] then [] else [t]) + KeepTrimmed(pieces[1..])
  }

  /** Every kept string is the trimmed form of some piece. */
  lemma {:induction false} KeptComesFromPiece(pieces: seq<string>, x: string)
    requires x in KeepTrimmed(pieces)
    ensures exists i :: 0 <= i < |pieces| && TrimSpace(pieces[i]) == x
  {
    var t := TrimSpace(pieces[0]);
    if x != t {
      var rest := pieces[1..];
      assert x in KeepTrimmed(rest);
      KeptComesFromPiece(rest, x);
      var i :| 0 <= i < |rest| && TrimSpace(rest[i]) == x;
      assert pieces[i + 1] == rest[i];
    }
  }

  /** Every piece that does not trim to nothing is kept in its trimmed form. */
  lemma {:induction false} PieceIsKept(pieces: seq<string>, i: nat)
    requires i < |pieces| && TrimSpace(pieces[i]) != []
    ensures TrimSpace(pieces[i]) in KeepTrimmed(pieces)
  {
    if i > 0 {
      var rest := pieces[1..];
      assert rest[i - 1] == pieces[i];
      PieceIsKept(rest, i - 1);
    }
  }

  /**
   * A string is kept exactly when it is non-empty and is the trimmed form of
   * one of the pieces.
   */
  lemma KeepTrimmedMembers(pieces: seq<string>, x: string)
    ensures x in KeepTrimmed(pieces) <==>
              x != [] && exists i :: 0 <= i < |pieces| && TrimSpace(pieces[i]) == x
  {
    if x in KeepTrimmed(pieces) {
      KeptComesFromPiece(pieces, x);
    }
    if x != [] && exists i :: 0 <= i < |pieces| && TrimSpace(pieces[i]) == x {
      var i :| 0 <= i < |pieces| && TrimSpace(pieces[i]) == x;
      PieceIsKept(pieces, i);
    }
  }

  /** Pieces that are all non-empty and trimmed are kept as they are. */
  lemma {:induction false} KeepTrimmedOfTrimmed(pieces: seq<string>)
    requires forall i :: 0 <= i < |pieces| ==> pieces[i] != [] && IsTrimmed(pieces[i])
    ensures KeepTrimmed(pieces) == pieces
  {
    if pieces != [] {
      assert pieces == [pieces[0]] + pieces[1..];
      KeepTrimmedOfTrimmed(pieces[1..]);
      TrimSpaceOfTrimmed(pieces[0]);
    }
  }

  /** Pieces that are all white space leave nothing. */
  lemma {:induction false} KeepTrimmedOfBlank(pieces: seq<string>)
    requires forall i :: 0 <= i < |pieces| ==> AllSpace(pieces[i])
    ensures KeepTrimmed(pieces) == []
  {
    if pieces != [] {
      KeepTrimmedOfBlank(pieces[1..]);
      TrimSpaceEmpty(pieces[0]);
    }
  }

  /** Input made only of separators and white space yields no endpoint. */
  lemma SplitAndTrimOfBlank(str: string, sep: char)
    requires forall i :: 0 <= i < |str| ==> str[i] == sep || IsSpace(str[i])
    ensures KeepTrimmed(Split(str, sep)) == []
  {
    var pieces := Split(str, sep);
    SplitPiecesFromText(str, sep);
    forall k | 0 <= k < |pieces| ensures AllSpace(pieces[k]) {
      forall j | 0 <= j < |pieces[k]| ensures IsSpace(pieces[k][j]) {
        var c := pieces[k][j];
        assert c in str && c != sep;
      }
    }
    KeepTrimmedOfBlank(pieces);
  }

  /**
   * `splitAndTrim(str, sep)`: the pieces of `str` between separators, each
   * trimmed of white space, in their original order, without the empty ones.
   * Every endpoint returned is non-empty and equal to its own trimmed form.
   */
  method SplitAndTrim(str: string, sep: char) returns (arr: seq<string>)
    ensures arr == KeepTrimmed(Split(str, sep))
    ensures forall i :: 0 <= i < |arr| ==> arr[i] != [] && TrimSpace(arr[i]) == arr[i]
  {
    var pieces := Split(str, sep);
    arr := [];
    for k := 0 to |pieces|
      invariant arr + KeepTrimmed(pieces[k..]) == KeepTrimmed(pieces)
    {
      var s := TrimSpace(pieces[k]);
      assert pieces[k..][1..] == pieces[k + 1..];
      var rest := KeepTrimmed(pieces[k + 1..]);
      assert KeepTrimmed(pieces[k..]) == (if s == [] then [] else [s]) + rest;
      if |s| > 0 {
        assert arr + ([s] + rest) == (arr + [s]) + rest;
        arr := arr + [s];
      } else {
        assert [] + rest == rest;
      }
    }
    assert arr + [] == arr;
    forall i | 0 <= i < |arr| ensures TrimSpace(arr[i]) == arr[i] {
      TrimSpaceOfTrimmed(arr[i]);
    }
  }

  // ---------------------------------------------------------------------------
  // formatMultipointEndpoint
  // ---------------------------------------------------------------------------

  /** The virtual target naming every server: the multi-address scheme, then the addresses joined by commas. */
  function MultipointTarget(servers: seq<Server>): (target: string)
    ensures |target| >= |MultiPrefix| && target[..|MultiPrefix|] == MultiPrefix
  {
    MultiPrefix + Join(ApiAddrs(servers), EndpointSeparator)
  }

  /**
   * `formatMultipointEndpoint(conf)`: "multi:///" followed by the servers' API
   * addresses joined by ',' in list order. No server gives exactly
   * "multi:///", one server gives its address without any comma.
   */
  method FormatMultipointEndpoint(conf: Configuration) returns (multipoint: string)
    ensures multipoint == MultipointTarget(conf.serverList)
    ensures |conf.serverList| == 0 ==> multipoint == MultiPrefix
    ensures |conf.serverList| == 1 ==> multipoint == MultiPrefix + conf.serverList[0].apiAddr
  {
    var servers := conf.serverList;
    multipoint := MultiPrefix;
    for i := 0 to |servers|
      invariant multipoint == MultiPrefix + Join(ApiAddrs(servers[..i]), EndpointSeparator)
    {
      if i > 0 {
        multipoint := multipoint + [EndpointSeparator];
      }
      multipoint := multipoint + servers[i].apiAddr;
      assert ApiAddrs(servers[..i + 1]) == ApiAddrs(servers[..i]) + [servers[i].apiAddr];
      JoinAppend(ApiAddrs(servers[..i]), servers[i].apiAddr, EndpointSeparator);
    }
    assert servers[..|servers|] == servers;
  }

  /** An address the multi-address target can carry unambiguously: non-empty, trimmed, comma-free. */
  predicate PlainAddress(addr: string)
  {
    addr != [] && IsTrimmed(addr) && EndpointSeparator !in addr
  }

  /**
   * Round trip: when every address is plain, splitting and trimming what
   * follows "multi:///" in the target gives back the address list.
   */
  lemma MultipointRoundTrip(servers: seq<Server>)
    requires forall i :: 0 <= i < |servers| ==> PlainAddress(servers[i].apiAddr)
    ensures MultipointTarget(servers)[..|MultiPrefix|] == MultiPrefix
    ensures KeepTrimmed(Split(MultipointTarget(servers)[|MultiPrefix|..], EndpointSeparator))
            == ApiAddrs(servers)
  {
    var addrs := ApiAddrs(servers);
    var target := MultipointTarget(servers);
    assert target[|MultiPrefix|..] == Join(addrs, EndpointSeparator);
    if addrs == [] {
      assert Split("", EndpointSeparator) == [""];
      assert KeepTrimmed([""]) == KeepTrimmed([]) + [];
    } else {
      SplitOfJoin(addrs, EndpointSeparator);
      KeepTrimmedOfTrimmed(addrs);
    }
  }

  // ---------------------------------------------------------------------------
  // findClusterConfiguration
  // ---------------------------------------------------------------------------

  /**
   * The position of the first endpoint whose request succeeds, or the number
   * of endpoints when none does.
   */
  function FirstConfigured(endpoints: seq<string>, request: string -> Outcome<Configuration>): (k: nat)
    ensures k <= |endpoints|
    ensures forall j :: 0 <= j < k ==> request(endpoints[j]).Err?
    ensures k < |endpoints| ==> request(endpoints[k]).Ok?
  {
    if endpoints == [] then 0
    else if request(endpoints[0]).Ok? then 0
    else 1 + FirstConfigured(endpoints[1..], request)
  }

  /**
   * `findClusterConfiguration(endpoints)`: the endpoints are requested in
   * order until one succeeds, and `requested` lists the endpoints requested,
   * each once. The first success gives its configuration and no error, and no
   * later endpoint is requested; when every request fails, the last one's
   * error is returned with no configuration; with no endpoints there is
   * neither a configuration nor an error.
   */
  method FindClusterConfiguration(endpoints: seq<string>, request: string -> Outcome<Configuration>)
    returns (conf: Option<Configuration>, err: Option<Error>, requested: seq<string>)
    ensures var k := FirstConfigured(endpoints, request);
            requested == endpoints[..if k < |endpoints| then k + 1 else k]
    ensures var k := FirstConfigured(endpoints, request);
            k < |endpoints| ==> conf == Some(request(endpoints[k]).value) && err == None
    ensures FirstConfigured(endpoints, request) == |endpoints| > 0 ==>
              conf == None && err == Some(request(endpoints[|endpoints| - 1]).error)
    ensures endpoints == [] ==> conf == None && err == None
  {
    conf, err, requested := None, None, [];
    var i := 0;
    while i < |endpoints|
      invariant i <= |endpoints|
      invariant requested == endpoints[..i]
      invariant forall j :: 0 <= j < i ==> request(endpoints[j]).Err?
      invariant conf == None
      invariant i == 0 ==> err == None
      invariant i > 0 ==> err == Some(request(endpoints[i - 1]).error)
      decreases |endpoints| - i
    {
      var reply := request(endpoints[i]);
      requested := requested + [endpoints[i]];
      if reply.Ok? {
        conf, err := Some(reply.value), None;
        FirstConfiguredAt(endpoints, request, i);
        assert requested == endpoints[..i + 1];
        return;
      }
      conf, err := None, Some(reply.error);
      assert endpoints[..i + 1] == endpoints[..i] + [endpoints[i]];
      i := i + 1;
    }
    FirstConfiguredNone(endpoints, request);
  }

  /** When every endpoint before `i` fails and `i` succeeds, `i` is the first success. */
  lemma {:induction false} FirstConfiguredAt(endpoints: seq<string>, request: string -> Outcome<Configuration>, i: nat)
    requires i < |endpoints| && request(endpoints[i]).Ok?
    requires forall j :: 0 <= j < i ==> request(endpoints[j]).Err?
    ensures FirstConfigured(endpoints, request) == i
  {
    if i > 0 {
      assert request(endpoints[0]).Err?;
      forall j | 0 <= j < i - 1 ensures request(endpoints[1..][j]).Err? {
        assert endpoints[1..][j] == endpoints[j + 1];
      }
      FirstConfiguredAt(endpoints[1..], request, i - 1);
    }
  }

  /** When every endpoint fails, there is no first success. */
  lemma {:induction false} FirstConfiguredNone(endpoints: seq<string>, request: string -> Outcome<Configuration>)
    requires forall j :: 0 <= j < |endpoints| ==> request(endpoints[j]).Err?
    ensures FirstConfigured(endpoints, request) == |endpoints|
  {
    if endpoints != [] {
      assert request(endpoints[0]).Err?;
      forall j | 0 <= j < |endpoints| - 1 ensures request(endpoints[1..][j]).Err? {
        assert endpoints[1..][j] == endpoints[j + 1];
      }
      FirstConfiguredNone(endpoints[1..], request);
    }
  }

  // ---------------------------------------------------------------------------
  // NewClient
  // ---------------------------------------------------------------------------

  /**
   * `NewClient(commaSeparatedEndpoints, ...)`. The endpoints are split on ','
   * and trimmed; the first configuration found decides the connection:
   *   - no endpoint at all: there is no configuration (the code reads a nil one);
   *   - every request failed: the last request's error, unchanged;
   *   - no server: the "no raft servers found" error;
   *   - one server: `Dial` on its API address, whose error is returned unchanged;
   *   - more: `DialWithLoadBalancer` on the multi-address target with the
   *     service name, whose error is returned unchanged; the target lists
   *     every server, so that with plain addresses it splits back into them.
   */
  method NewClient(commaSeparatedEndpoints: string,
                   request: string -> Outcome<Configuration>,
                   dial: string -> Option<Error>,
                   dialLb: (string, string) -> Option<Error>)
    returns (r: ClientResult)
    ensures var endpoints := KeepTrimmed(Split(commaSeparatedEndpoints, EndpointSeparator));
            r.NoConfiguration? <==> endpoints == []
    ensures var endpoints := KeepTrimmed(Split(commaSeparatedEndpoints, EndpointSeparator));
            endpoints != [] && FirstConfigured(endpoints, request) == |endpoints| ==>
              r == Failed(request(endpoints[|endpoints| - 1]).error)
    ensures var endpoints := KeepTrimmed(Split(commaSeparatedEndpoints, EndpointSeparator));
            var k := FirstConfigured(endpoints, request);
            k < |endpoints| ==>
              var servers := request(endpoints[k]).value.serverList;
              && (|servers| == 0 ==> r == Failed(NoServersFound))
              && (|servers| == 1 ==>
                    var addr := servers[0].apiAddr;
                    r == if dial(addr).Some? then Failed(dial(addr).value) else Direct(addr))
              && (|servers| > 1 ==>
                    var target := MultipointTarget(servers);
                    r == if dialLb(target, ClientApi.ServiceName).Some?
                         then Failed(dialLb(target, ClientApi.ServiceName).value)
                         else LoadBalanced(target, ClientApi.ServiceName))
              && (r.LoadBalanced? && (forall i :: 0 <= i < |servers| ==> PlainAddress(servers[i].apiAddr)) ==>
                    KeepTrimmed(Split(r.target[|MultiPrefix|..], EndpointSeparator)) == ApiAddrs(servers))
  {
    var endpoints := SplitAndTrim(commaSeparatedEndpoints, EndpointSeparator);
    var conf, err, _ := FindClusterConfiguration(endpoints, request);
    if err.Some? {
      return Failed(err.value);
    }
    if conf.None? {
      return NoConfiguration;
    }
    var servers := conf.value.serverList;
    if |servers| == 0 {
      return Failed(NoServersFound);
    } else if |servers| == 1 {
      var dialErr := dial(servers[0].apiAddr);
      if dialErr.Some? {
        return Failed(dialErr.value);
      }
      return Direct(servers[0].apiAddr);
    } else {
      var multipointEndpoint := FormatMultipointEndpoint(conf.value);
      var dialErr := dialLb(multipointEndpoint, ClientApi.ServiceName);
      if dialErr.Some? {
        return Failed(dialErr.value);
      }
      if forall i :: 0 <= i < |servers| ==> PlainAddress(servers[i].apiAddr) {
        MultipointRoundTrip(servers);
      }
      return LoadBalanced(multipointEndpoint, ClientApi.ServiceName);
    }
  }
}
