/** Join and Leave of the macvlan network driver (macvlan_joinleave.go):
    binding an endpoint to a freshly created macvlan interface, choosing the
    gateways to hand to the sandbox, and persisting the endpoint. */
module MacvlanJoinLeave {
  import opened Wrappers
  import opened IPAddr
  import opened MacvlanSubnets

  /** Prefix of the interface name inside the sandbox (`containerVethPrefix`). */
  const ContainerVethPrefix: string := "eth"

  datatype Family = IPv4 | IPv6

  /** The immutable configuration of a macvlan network. */
  datatype NetworkConfig = NetworkConfig(
    parent: string,
    macvlanMode: string,
    internal: bool,
    ipv4Subnets: seq<IpSubnet>,
    ipv6Subnets: seq<IpSubnet>)

  /** The errors Join and Leave return. */
  datatype JoinError =
    | NetworkNotFound(nid: string)            // from getNetwork
    | EndpointNotFound(eid: string)           // "could not find endpoint with id %s"
    | InvalidEndpointId(eid: string)          // from getEndpoint, for an empty id
    | IfaceNameFailed(cause: string)          // "error generating an interface name: %s"
    | MacvlanFailed(cause: string)            // createMacVlan's error, returned as is
    | NoValidSubnet(family: Family, eid: string) // "could not find a valid ipv4 subnet for endpoint %s"
    | InvalidGateway(family: Family)          // "gateway %s is not a valid ipv4 address: %v"
    | JoinInfoRefused(cause: string)          // an error returned by a join-info setter
    | StoreFailed(shortId: string, cause: string) // "failed to save macvlan endpoint %.7s to store: %v"

  /** `%.7s`: at most the first seven characters of an identifier. */
  function ShortId(id: string): (r: string)
    ensures |r| == if |id| < 7 then |id| else 7
    ensures r <= id
  {
    if |id| <= 7 then id else id[..7]
  }

  /** The names handed to the join info: host-side interface, container-side
      prefix and the name requested through the endpoint options. */
  datatype InterfaceNames = InterfaceNames(srcName: string, dstPrefix: string, dstName: string)

  /** What the join info holds: the gateways set, whether the gateway service
      was disabled, and the interface names. */
  datatype JoinInfoState = JoinInfoState(
    gateway: Option<Address>,
    gatewayV6: Option<Address>,
    gatewayServiceDisabled: bool,
    names: Option<InterfaceNames>)

  /** The error each fallible join-info setter reports, if it reports one. */
  datatype Refusals = Refusals(gateway: Option<string>, gatewayV6: Option<string>, names: Option<string>)

  /** What the gateway part of Join leaves in the join info, and the error it
      ends Join with, if any. */
  datatype GatewayOutcome = GatewayOutcome(joinInfo: JoinInfoState, err: Option<JoinError>)

  /** The gateway of the subnet that governs the address: no governing subnet
      and a gateway that does not parse are errors. */
  function GatewayFor(family: Family, eid: string, ip: IPNet, subnets: seq<IpSubnet>): (r: Result<Address, JoinError>)
    ensures r.Success? <==> SubnetFor(ip, subnets).Some? && SubnetFor(ip, subnets).value.gwIP.Some?
    ensures r.Success? ==> r.value == SubnetFor(ip, subnets).value.gwIP.value.ip
    ensures r.Failure? && SubnetFor(ip, subnets).None? ==> r.error == NoValidSubnet(family, eid)
    ensures r.Failure? && SubnetFor(ip, subnets).Some? ==> r.error == InvalidGateway(family)
  {
    match SubnetFor(ip, subnets)
    case None => Failure(NoValidSubnet(family, eid))
    case Some(s) =>
      if s.gwIP.None? then Failure(InvalidGateway(family)) else Success(s.gwIP.value.ip)
  }

  /** The gateway policy of Join, step by step as the driver takes it:
      a non-internal network resolves the IPv4 gateway when IPv4 subnets are
      configured, then the IPv6 gateway when the endpoint has an IPv6 address
      and IPv6 subnets are configured, and disables the gateway service when
      no subnet of either family is configured; an internal network only
      disables the gateway service. */
  function GatewaySection(cfg: NetworkConfig, eid: string, addr: IPNet, addrv6: Option<IPNet>,
                          ji: JoinInfoState, refusals: Refusals): (r: GatewayOutcome)
    ensures r.joinInfo.names == ji.names
    ensures r.err.Some? ==> !cfg.internal
    ensures r.err.Some? ==> r.joinInfo.gatewayV6 == ji.gatewayV6
                            && r.joinInfo.gatewayServiceDisabled == ji.gatewayServiceDisabled
  {
    if cfg.internal then
      GatewayOutcome(ji.(gatewayServiceDisabled := true), None)
    else
      var v4 := if |cfg.ipv4Subnets| > 0 then Some(GatewayFor(IPv4, eid, addr, cfg.ipv4Subnets)) else None;
      if v4.Some? && v4.value.Failure? then GatewayOutcome(ji, Some(v4.value.error))
      else if v4.Some? && refusals.gateway.Some? then GatewayOutcome(ji, Some(JoinInfoRefused(refusals.gateway.value)))
      else
        var ji1 := if v4.Some? then ji.(gateway := Some(v4.value.value)) else ji;
        var v6 := if addrv6.Some? && |cfg.ipv6Subnets| > 0
                  then Some(GatewayFor(IPv6, eid, addrv6.value, cfg.ipv6Subnets)) else None;
        if v6.Some? && v6.value.Failure? then GatewayOutcome(ji1, Some(v6.value.error))
        else if v6.Some? && refusals.gatewayV6.Some? then GatewayOutcome(ji1, Some(JoinInfoRefused(refusals.gatewayV6.value)))
        else
          var ji2 := if v6.Some? then ji1.(gatewayV6 := Some(v6.value.value)) else ji1;
          var none := |cfg.ipv4Subnets| == 0 && |cfg.ipv6Subnets| == 0;
          GatewayOutcome(if none then ji2.(gatewayServiceDisabled := true) else ji2, None)
  }

  /** An internal network sets no gateway, never fails on subnet matching,
      and always disables the gateway service. */
  lemma InternalNetworkOnlyDisablesGatewayService(cfg: NetworkConfig, eid: string, addr: IPNet,
                                                  addrv6: Option<IPNet>, ji: JoinInfoState, refusals: Refusals)
    requires cfg.internal
    ensures GatewaySection(cfg, eid, addr, addrv6, ji, refusals)
         == GatewayOutcome(ji.(gatewayServiceDisabled := true), None)
  {
  }

  /** The internal branch of Join as written: its debug line formats the
      endpoint's IPv6 address whenever IPv6 subnets are configured, without
      the presence check the non-internal branch makes. Go evaluates that
      argument at every log level, so an endpoint without an IPv6 address
      ends Join in a nil-pointer panic, reported here as `None`; otherwise
      the branch disables the gateway service. */
  function InternalBranchAsWritten(cfg: NetworkConfig, addrv6: Option<IPNet>, ji: JoinInfoState): (r: Option<JoinInfoState>)
    requires cfg.internal
    ensures r.None? ==> addrv6.None?
    ensures r.Some? ==> r.value.gatewayServiceDisabled && r.value.names == ji.names
  {
    if |cfg.ipv6Subnets| > 0 && addrv6.None? then None
    else Some(ji.(gatewayServiceDisabled := true))
  }

  /** Wherever the branch as written does not panic, it does what the
      intended policy does. */
  lemma InternalBranchAgreesUnlessPanic(cfg: NetworkConfig, eid: string, addr: IPNet,
                                        addrv6: Option<IPNet>, ji: JoinInfoState, refusals: Refusals)
    requires cfg.internal
    requires InternalBranchAsWritten(cfg, addrv6, ji).Some?
    ensures GatewaySection(cfg, eid, addr, addrv6, ji, refusals)
         == GatewayOutcome(InternalBranchAsWritten(cfg, addrv6, ji).value, None)
  {
  }

  /** An internal network with an IPv6 subnet and an endpoint without an
      IPv6 address: the branch as written panics, while the intended policy
      (`GatewaySection`) only disables the gateway service and succeeds. */
  lemma InternalJoinWithoutIPv6AddressPanics(eid: string, addr: IPNet, ji: JoinInfoState, refusals: Refusals)
    ensures var cfg := NetworkConfig("eth0", "bridge", true, [], [IpSubnet(None, None)]);
      InternalBranchAsWritten(cfg, None, ji).None?
      && GatewaySection(cfg, eid, addr, None, ji, refusals) == GatewayOutcome(ji.(gatewayServiceDisabled := true), None)
  {
  }

  /** The gateway service ends up disabled by the gateway part of Join exactly
      when the network is internal or has neither IPv4 nor IPv6 subnets. */
  lemma GatewayServiceDisabledIff(cfg: NetworkConfig, eid: string, addr: IPNet,
                                  addrv6: Option<IPNet>, ji: JoinInfoState, refusals: Refusals)
    requires !ji.gatewayServiceDisabled
    ensures GatewaySection(cfg, eid, addr, addrv6, ji, refusals).joinInfo.gatewayServiceDisabled
        <==> cfg.internal || (|cfg.ipv4Subnets| == 0 && |cfg.ipv6Subnets| == 0)
  {
  }

  /** On a non-internal network with IPv4 subnets, the gateway part of Join
      fails with the IPv4 no-valid-subnet error exactly when no subnet the
      search reaches governs the endpoint's address; when the part succeeds,
      the gateway set is the gateway of the first governing subnet in list
      order. */
  lemma {:induction false} IPv4GatewayIsFirstGoverningSubnet(cfg: NetworkConfig, eid: string, addr: IPNet,
                                                             addrv6: Option<IPNet>, ji: JoinInfoState, refusals: Refusals)
    requires !cfg.internal && |cfg.ipv4Subnets| > 0
    ensures var out := GatewaySection(cfg, eid, addr, addrv6, ji, refusals);
      (out.err == Some(NoValidSubnet(IPv4, eid)) <==>
         forall k :: 0 <= k < |cfg.ipv4Subnets| && PassedOver(addr, cfg.ipv4Subnets, k)
           ==> !Qualifies(addr, cfg.ipv4Subnets[k]))
      && (out.err.None? ==>
            exists k :: 0 <= k < |cfg.ipv4Subnets| && PassedOver(addr, cfg.ipv4Subnets, k)
              && Qualifies(addr, cfg.ipv4Subnets[k]) && cfg.ipv4Subnets[k].gwIP.Some?
              && out.joinInfo.gateway == Some(cfg.ipv4Subnets[k].gwIP.value.ip))
  {
    var subnets := cfg.ipv4Subnets;
    SubnetIndexForNone(addr, subnets);
    var out := GatewaySection(cfg, eid, addr, addrv6, ji, refusals);
    if out.err.None? {
      var k := SubnetIndexFor(addr, subnets).value;
      assert out.joinInfo.gateway == Some(subnets[k].gwIP.value.ip);
    }
  }

  /** On a non-internal network, the IPv6 gateway is resolved only when the
      endpoint has an IPv6 address and IPv6 subnets are configured; without
      either, the IPv6 gateway is left alone and no IPv6 error is raised. */
  lemma IPv6SkippedWithoutAddressOrSubnets(cfg: NetworkConfig, eid: string, addr: IPNet,
                                           addrv6: Option<IPNet>, ji: JoinInfoState, refusals: Refusals)
    requires !cfg.internal && (addrv6.None? || |cfg.ipv6Subnets| == 0)
    ensures var out := GatewaySection(cfg, eid, addr, addrv6, ji, refusals);
      out.joinInfo.gatewayV6 == ji.gatewayV6
      && (out.err.Some? ==> out.err.value in {NoValidSubnet(IPv4, eid), InvalidGateway(IPv4)}
                             || (refusals.gateway.Some? && out.err.value == JoinInfoRefused(refusals.gateway.value)))
  {
  }

  /** With IPv6 resolution due (the IPv4 step passed), the gateway part of
      Join fails with the IPv6 no-valid-subnet error exactly when no IPv6
      subnet the search reaches governs the address; when the part succeeds,
      the IPv6 gateway set is the gateway of the first governing subnet. */
  lemma {:induction false} IPv6GatewayIsFirstGoverningSubnet(cfg: NetworkConfig, eid: string, addr: IPNet,
                                                             addrv6: IPNet, ji: JoinInfoState, refusals: Refusals)
    requires !cfg.internal && |cfg.ipv6Subnets| > 0
    requires |cfg.ipv4Subnets| == 0 || (GatewayFor(IPv4, eid, addr, cfg.ipv4Subnets).Success? && refusals.gateway.None?)
    ensures var out := GatewaySection(cfg, eid, addr, Some(addrv6), ji, refusals);
      (out.err == Some(NoValidSubnet(IPv6, eid)) <==>
         forall k :: 0 <= k < |cfg.ipv6Subnets| && PassedOver(addrv6, cfg.ipv6Subnets, k)
           ==> !Qualifies(addrv6, cfg.ipv6Subnets[k]))
      && (out.err.None? ==>
            exists k :: 0 <= k < |cfg.ipv6Subnets| && PassedOver(addrv6, cfg.ipv6Subnets, k)
              && Qualifies(addrv6, cfg.ipv6Subnets[k]) && cfg.ipv6Subnets[k].gwIP.Some?
              && out.joinInfo.gatewayV6 == Some(cfg.ipv6Subnets[k].gwIP.value.ip))
  {
    var subnets := cfg.ipv6Subnets;
    SubnetIndexForNone(addrv6, subnets);
    var out := GatewaySection(cfg, eid, addr, Some(addrv6), ji, refusals);
    if out.err.None? {
      var k := SubnetIndexFor(addrv6, subnets).value;
      assert out.joinInfo.gatewayV6 == Some(subnets[k].gwIP.value.ip);
    }
  }

  /** With no refusing setter, the gateway part of Join on a non-internal
      network with subnets either succeeds having set a gateway for every
      family it resolved, or fails on a resolution; it never disables the
      gateway service. */
  lemma ResolvedOrFailed(cfg: NetworkConfig, eid: string, addr: IPNet,
                         addrv6: Option<IPNet>, ji: JoinInfoState)
    requires !cfg.internal && (|cfg.ipv4Subnets| > 0 || |cfg.ipv6Subnets| > 0)
    ensures var out := GatewaySection(cfg, eid, addr, addrv6, ji, Refusals(None, None, None));
      out.joinInfo.gatewayServiceDisabled == ji.gatewayServiceDisabled
      && (out.err.None? <==>
            (|cfg.ipv4Subnets| > 0 ==> GatewayFor(IPv4, eid, addr, cfg.ipv4Subnets).Success?)
            && (addrv6.Some? && |cfg.ipv6Subnets| > 0 ==> GatewayFor(IPv6, eid, addrv6.value, cfg.ipv6Subnets).Success?))
      && (out.err.None? && |cfg.ipv4Subnets| > 0 ==> out.joinInfo.gateway.Some?)
      && (out.err.None? && addrv6.Some? && |cfg.ipv6Subnets| > 0 ==> out.joinInfo.gatewayV6.Some?)
  {
  }

  /** A macvlan endpoint. Only the host-side interface name changes after
      creation. */
  class Endpoint {
    const id: string
    const addr: IPNet
    const addrv6: Option<IPNet>
    var srcName: string

    constructor (id: string, addr: IPNet, addrv6: Option<IPNet>)
      ensures this.id == id && this.addr == addr && this.addrv6 == addrv6 && srcName == ""
    {
      this.id, this.addr, this.addrv6 := id, addr, addrv6;
      srcName := "";
    }
  }

  /** A macvlan network and its endpoints by id. */
  class Network {
    const id: string
    const config: NetworkConfig
    var endpoints: map<string, Endpoint>

    constructor (id: string, config: NetworkConfig)
      ensures this.id == id && this.config == config && endpoints == map[]
    {
      this.id, this.config := id, config;
      endpoints := map[];
    }

    /** `n.endpoint(eid)`: the endpoint with that id, or null. */
    function LookupEndpoint(eid: string): (e: Endpoint?)
      reads this
      ensures e != null <==> eid in endpoints
      ensures e != null ==> e == endpoints[eid]
    {
      if eid in endpoints then endpoints[eid] else null
    }

    /** `n.getEndpoint(eid)`: an empty id is an error; otherwise the endpoint
        with that id, or null. */
    method GetEndpoint(eid: string) returns (r: Result<Endpoint?, JoinError>)
      ensures r.Failure? <==> eid == ""
      ensures r.Failure? ==> r.error == InvalidEndpointId(eid)
      ensures r.Success? ==> r.value == LookupEndpoint(eid)
    {
      if eid == "" {
        return Failure(InvalidEndpointId(eid));
      }
      return Success(LookupEndpoint(eid));
    }

    /** `getSubnetforIPv4`: the IPv4 subnet governing the address. */
    method GetSubnetForIPv4(ip: IPNet) returns (r: Option<IpSubnet>)
      ensures r == SubnetFor(ip, config.ipv4Subnets)
    {
      r := GetSubnetForIP(ip, config.ipv4Subnets);
    }

    /** `getSubnetforIPv6`: the IPv6 subnet governing the address. */
    method GetSubnetForIPv6(ip: IPNet) returns (r: Option<IpSubnet>)
      ensures r == SubnetFor(ip, config.ipv6Subnets)
    {
      r := GetSubnetForIP(ip, config.ipv6Subnets);
    }
  }

  /** The join-info output object Join writes to. It records what it is
      given; a setter listed in `refusals` reports that error and records
      nothing. */
  class JoinInfo {
    var gateway: Option<Address>
    var gatewayV6: Option<Address>
    var gatewayServiceDisabled: bool
    var names: Option<InterfaceNames>
    const refusals: Refusals

    constructor (refusals: Refusals)
      ensures State() == JoinInfoState(None, None, false, None) && this.refusals == refusals
    {
      gateway, gatewayV6, gatewayServiceDisabled, names := None, None, false, None;
      this.refusals := refusals;
    }

    function State(): JoinInfoState
      reads this
    {
      JoinInfoState(gateway, gatewayV6, gatewayServiceDisabled, names)
    }

    method SetGateway(gw: Address) returns (err: Option<string>)
      modifies this
      ensures err == refusals.gateway
      ensures State() == if err.None? then old(State()).(gateway := Some(gw)) else old(State())
    {
      err := refusals.gateway;
      if err.None? {
        gateway := Some(gw);
      }
    }

    method SetGatewayIPv6(gw: Address) returns (err: Option<string>)
      modifies this
      ensures err == refusals.gatewayV6
      ensures State() == if err.None? then old(State()).(gatewayV6 := Some(gw)) else old(State())
    {
      err := refusals.gatewayV6;
      if err.None? {
        gatewayV6 := Some(gw);
      }
    }

    method DisableGatewayService()
      modifies this
      ensures State() == old(State()).(gatewayServiceDisabled := true)
    {
      gatewayServiceDisabled := true;
    }

    /** `jinfo.InterfaceName().SetNames(...)`. */
    method SetNames(srcName: string, dstPrefix: string, dstName: string) returns (err: Option<string>)
      modifies this
      ensures err == refusals.names
      ensures State() == if err.None? then old(State()).(names := Some(InterfaceNames(srcName, dstPrefix, dstName)))
                         else old(State())
    {
      err := refusals.names;
      if err.None? {
        names := Some(InterfaceNames(srcName, dstPrefix, dstName));
      }
    }
  }

  /** What the store keeps of an endpoint. */
  datatype EndpointRecord = EndpointRecord(id: string, srcName: string, addr: IPNet, addrv6: Option<IPNet>)

  /** The driver's persistent store, reduced to the endpoint records it holds;
      `failure` is the error every update reports, if any. */
  class Store {
    var records: map<string, EndpointRecord>
    const failure: Option<string>

    constructor (failure: Option<string>)
      ensures records == map[] && this.failure == failure
    {
      records := map[];
      this.failure := failure;
    }

    /** `d.storeUpdate(ep)`: upserts the endpoint's record unless the store fails. */
    method Update(ep: Endpoint) returns (err: Option<string>)
      modifies this`records
      ensures err == failure
      ensures records == if err.None? then old(records)[ep.id := EndpointRecord(ep.id, ep.srcName, ep.addr, ep.addrv6)]
                         else old(records)
    {
      err := failure;
      if err.None? {
        records := records[ep.id := EndpointRecord(ep.id, ep.srcName, ep.addr, ep.addrv6)];
      }
    }
  }

  /** The macvlan driver: its networks by id. */
  class Driver {
    var networks: map<string, Network>

    constructor ()
      ensures networks == map[]
    {
      networks := map[];
    }

    /** `d.getNetwork(nid)`. */
    function GetNetwork(nid: string): (r: Result<Network, JoinError>)
      reads this
      ensures r.Success? <==> nid in networks
      ensures r.Success? ==> r.value == networks[nid]
      ensures r.Failure? ==> r.error == NetworkNotFound(nid)
    {
      if nid in networks then Success(networks[nid]) else Failure(NetworkNotFound(nid))
    }

    /** The network has an endpoint with that id. */
    predicate HasEndpoint(nid: string, eid: string)
      reads this, networks.Values
    {
      nid in networks && eid in networks[nid].endpoints
    }

    /** The endpoint Join binds, as a frame. */
    function Bound(nid: string, eid: string): set<Endpoint>
      reads this, networks.Values
    {
      if HasEndpoint(nid, eid) then {networks[nid].endpoints[eid]} else {}
    }

    /** The gateway part of Join, applied to the join info. */
    method ApplyGatewayPolicy(cfg: NetworkConfig, eid: string, ep: Endpoint, jinfo: JoinInfo)
      returns (err: Option<JoinError>)
      modifies jinfo
      ensures var out := GatewaySection(cfg, eid, ep.addr, ep.addrv6, old(jinfo.State()), jinfo.refusals);
        jinfo.State() == out.joinInfo && err == out.err
    {
      if !cfg.internal {
        if |cfg.ipv4Subnets| > 0 {
          var s := GetSubnetForIP(ep.addr, cfg.ipv4Subnets);
          if s == None {
            return Some(NoValidSubnet(IPv4, eid));
          }
          if s.value.gwIP.None? {
            return Some(InvalidGateway(IPv4));
          }
          var e := jinfo.SetGateway(s.value.gwIP.value.ip);
          if e.Some? {
            return Some(JoinInfoRefused(e.value));
          }
        }
        if ep.addrv6.Some? && |cfg.ipv6Subnets| > 0 {
          var s := GetSubnetForIP(ep.addrv6.value, cfg.ipv6Subnets);
          if s == None {
            return Some(NoValidSubnet(IPv6, eid));
          }
          if s.value.gwIP.None? {
            return Some(InvalidGateway(IPv6));
          }
          var e := jinfo.SetGatewayIPv6(s.value.gwIP.value.ip);
          if e.Some? {
            return Some(JoinInfoRefused(e.value));
          }
        }
        if |cfg.ipv4Subnets| == 0 && |cfg.ipv6Subnets| == 0 {
          jinfo.DisableGatewayService();
        }
      } else {
        jinfo.DisableGatewayService();
      }
      return None;
    }

    /** Join: binds the endpoint to a new macvlan interface, applies the
        gateway policy to the join info, publishes the interface names and
        persists the endpoint. `generated` is what the interface-name generator
        reports, `createMacVlan` what creating the interface reports for a
        name, parent and mode, and `ifname` the name requested through the
        endpoint options. */
    method Join(nid: string, eid: string, jinfo: JoinInfo, ifname: string,
                generated: Result<string, string>,
                createMacVlan: (string, string, string) -> Result<string, string>,
                store: Store)
      returns (err: Option<JoinError>)
      modifies jinfo, store, Bound(nid, eid)
      ensures nid !in networks ==> err == Some(NetworkNotFound(nid))
      ensures nid in networks && eid !in networks[nid].endpoints ==> err == Some(EndpointNotFound(eid))
      ensures HasEndpoint(nid, eid) && generated.Failure? ==> err == Some(IfaceNameFailed(generated.error))
      ensures HasEndpoint(nid, eid) && generated.Success?
              && createMacVlan(generated.value, networks[nid].config.parent, networks[nid].config.macvlanMode).Failure?
              ==> err == Some(MacvlanFailed(createMacVlan(generated.value, networks[nid].config.parent,
                                                          networks[nid].config.macvlanMode).error))
      // Nothing changes unless the interface was created.
      ensures !Created(nid, eid, generated, createMacVlan)
              ==> err.Some? && unchanged(jinfo, store) && unchanged(Bound(nid, eid))
      // Once created, the interface name stays bound to the endpoint whatever follows.
      ensures Created(nid, eid, generated, createMacVlan)
              ==> var ep := networks[nid].endpoints[eid];
                  var name := CreatedName(nid, eid, generated, createMacVlan);
                  var out := GatewaySection(networks[nid].config, eid, ep.addr, ep.addrv6, old(jinfo.State()), jinfo.refusals);
                  ep.srcName == name
                  && (out.err.Some? ==> err == out.err && jinfo.State() == out.joinInfo && unchanged(store))
                  && (out.err.None? && jinfo.refusals.names.Some? ==>
                        err == Some(JoinInfoRefused(jinfo.refusals.names.value))
                        && jinfo.State() == out.joinInfo && unchanged(store))
                  && (out.err.None? && jinfo.refusals.names.None? ==>
                        jinfo.State() == out.joinInfo.(names := Some(InterfaceNames(name, ContainerVethPrefix, ifname)))
                        && (store.failure.Some? ==> err == Some(StoreFailed(ShortId(ep.id), store.failure.value))
                                                    && unchanged(store))
                        && (store.failure.None? ==>
                              err == None && store.records == old(store.records)[ep.id := EndpointRecord(ep.id, name, ep.addr, ep.addrv6)]))
    {
      var network := GetNetwork(nid);
      if network.Failure? {
        return Some(network.error);
      }
      var n := network.value;
      var endpoint := n.LookupEndpoint(eid);
      if endpoint == null {
        return Some(EndpointNotFound(eid));
      }
      if generated.Failure? {
        return Some(IfaceNameFailed(generated.error));
      }
      var containerIfName := generated.value;
      var created := createMacVlan(containerIfName, n.config.parent, n.config.macvlanMode);
      if created.Failure? {
        return Some(MacvlanFailed(created.error));
      }
      var vethName := created.value;
      endpoint.srcName := vethName;
      // Re-fetching the endpoint: with nothing else running, the network's
      // map has not changed since the first lookup.
      var ep := n.LookupEndpoint(eid);
      assert ep == endpoint;
      err := ApplyGatewayPolicy(n.config, eid, ep, jinfo);
      if err.Some? {
        return err;
      }
      var e := jinfo.SetNames(vethName, ContainerVethPrefix, ifname);
      if e.Some? {
        return Some(JoinInfoRefused(e.value));
      }
      e := store.Update(ep);
      if e.Some? {
        return Some(StoreFailed(ShortId(ep.id), e.value));
      }
      return None;
    }

    /** Join gets as far as creating the macvlan interface: the network and
        endpoint exist and both the name generator and the creation succeed. */
    predicate Created(nid: string, eid: string, generated: Result<string, string>,
                      createMacVlan: (string, string, string) -> Result<string, string>)
      reads this, networks.Values
    {
      HasEndpoint(nid, eid) && generated.Success?
      && createMacVlan(generated.value, networks[nid].config.parent, networks[nid].config.macvlanMode).Success?
    }

    /** The name of the interface Join created. */
    function CreatedName(nid: string, eid: string, generated: Result<string, string>,
                         createMacVlan: (string, string, string) -> Result<string, string>): string
      reads this, networks.Values
      requires Created(nid, eid, generated, createMacVlan)
    {
      createMacVlan(generated.value, networks[nid].config.parent, networks[nid].config.macvlanMode).value
    }

    /** Leave: checks that the network and the endpoint exist, and changes
        nothing. */
    method Leave(nid: string, eid: string) returns (err: Option<JoinError>)
      ensures err.None? <==> nid in networks && eid != "" && eid in networks[nid].endpoints
      ensures nid !in networks ==> err == Some(NetworkNotFound(nid))
      ensures nid in networks && eid == "" ==> err == Some(InvalidEndpointId(eid))
      ensures nid in networks && eid != "" && eid !in networks[nid].endpoints ==> err == Some(EndpointNotFound(eid))
    {
      var network := GetNetwork(nid);
      if network.Failure? {
        return Some(network.error);
      }
      var endpoint := network.value.GetEndpoint(eid);
      if endpoint.Failure? {
        return Some(endpoint.error);
      }
      if endpoint.value == null {
        return Some(EndpointNotFound(eid));
      }
      return None;
    }
  }
}
