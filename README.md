# Macvlan Join/Leave and swarm container-spec conversion, in Dafny

This project models two parts of the moby daemon and proves properties of them.

**The macvlan network driver's Join and Leave**
(`daemon/libnetwork/drivers/macvlan/macvlan_joinleave.go`):

- the subnet search that picks the configured subnet governing an endpoint address;
- the gateway policy that Join applies to the sandbox's join info;
- the endpoint lifecycle: Join binds the created macvlan interface name to the endpoint, publishes the interface names and persists the endpoint;
- Leave, which only checks that the network and the endpoint exist.

The driver, its networks, its endpoints, the join-info object and the store are classes with mutable fields. Join and Leave are methods on the driver. The subnet search is a method with a loop, proved equal to a recursive reference function. The gateway policy is also stated as a function (`GatewaySection`), and Join is proved to leave the join info in the state that function computes.

**The swarm ↔ Engine API container-spec conversion**
(`daemon/cluster/convert/container.go`). Both sides are datatypes (`ApiTypes`, `SwarmApi`), and every conversion is a function (`ContainerConvert`) with:

- the exactly-one-of rules for credential specs and config targets;
- the filtering of secret and config references that have no usable target;
- the validation of mount types and bind propagations against the enum tables;
- round-trip lemmas in both directions, part by part and for the whole spec.

The source builds its slices with loops, so `ContainerConvertImpl` has one method per loop, each proved to compute its reference function.

Files:

- `wrappers.dfy`: `Option`, `Result`.
- `ipaddr.dfy`: addresses as bit sequences, parsed CIDRs, containment.
- `macvlan_subnets.dfy`: the subnet search.
- `macvlan_joinleave.dfy`: the gateway policy, the driver classes, Join and Leave.
- `ascii.dfy`: upper- and lower-casing of enum names.
- `api_types.dfy`, `swarm_api.dfy`: the two representations and the swarm enum tables.
- `container_convert.dfy`: the conversions as functions, with their lemmas.
- `container_convert_impl.dfy`: the conversion loops as methods.

Collaborators the driver calls are parameters of `Join`:

- the interface-name generator: a `Result` value;
- macvlan creation: a total function from name, parent and mode to a `Result`;
- the join-info setters and the store update: small classes that record what they are given and carry a constant error, when they report one.

Behaviours of the source worth knowing, which the model keeps:

- Join does not detect a second join of the same endpoint. It creates another interface, rebinds `srcName` and succeeds again (`MacvlanJoinLeave.Driver.Join`).
- A Join that fails after the macvlan interface was created still leaves `srcName` bound to it (`MacvlanJoinLeave.Driver.Join`).
- The "gateway … is not a valid ipv4 address" and "… ipv6 address" errors do not name the endpoint; only the "could not find a valid … subnet" errors do (`MacvlanJoinLeave.GatewayFor`).
- Converting a mount to the control plane drops the bind options `CreateMountpoint`, `ReadOnlyNonRecursive` and `ReadOnlyForceRecursive`: only propagation and `NonRecursive` are carried (`ContainerConvert.MountToGRPCConverts`). An API mount with one of them set loses it on the trip to the control plane and back, while the trip from the control plane carries all of them (`ContainerConvert.MountFromGRPC`).
- Leave only checks that the network and the endpoint exist. It succeeds for an endpoint that was never joined (`MacvlanJoinLeave.Driver.Leave`).

## Model

| member | source | states |
|---|---|---|
| MacvlanSubnets.SubnetIndexFor | daemon/libnetwork/drivers/macvlan/macvlan_joinleave.go:144-162 | a position it returns holds a qualifying subnet (parses, same mask length, contains the address) and every subnet before it parses and does not qualify |
| MacvlanSubnets.SubnetFor | daemon/libnetwork/drivers/macvlan/macvlan_joinleave.go:144-162 | a subnet it returns is one of the list and qualifies for the address |
| MacvlanSubnets.SubnetIndexForIsFirstMatch | daemon/libnetwork/drivers/macvlan/macvlan_joinleave.go:144-162 | the search returns position k if and only if k qualifies and every earlier subnet parses and does not qualify: the first match in list order |
| MacvlanSubnets.SubnetIndexForNone | daemon/libnetwork/drivers/macvlan/macvlan_joinleave.go:144-162 | the search returns nothing if and only if no subnet the search reaches qualifies |
| MacvlanSubnets.MismatchedMaskNeverChosen | daemon/libnetwork/drivers/macvlan/macvlan_joinleave.go:150-155 | a subnet whose prefix length differs from the address's mask length is never returned, even when it contains the address |
| MacvlanSubnets.UnparseableStopsSearch | daemon/libnetwork/drivers/macvlan/macvlan_joinleave.go:145-149 | a subnet that does not parse, with no qualifier before it, ends the search with nothing, whatever follows it |
| MacvlanSubnets.UniqueQualifierChosen | daemon/libnetwork/drivers/macvlan/macvlan_joinleave.go:144-162 | when every subnet parses and exactly one qualifies, that one is returned |
| MacvlanSubnets.GetSubnetForIP | daemon/libnetwork/drivers/macvlan/macvlan_joinleave.go:144-162 | the loop (stop on a parse failure, skip a mask-length mismatch, return the first containing subnet) returns the first match in list order |
| MacvlanJoinLeave.ShortId | daemon/libnetwork/drivers/macvlan/macvlan_joinleave.go:111 | `%.7s`: a prefix of the id, of length min(7, len) |
| MacvlanJoinLeave.GatewayFor | daemon/libnetwork/drivers/macvlan/macvlan_joinleave.go:53-86 | succeeds exactly when the search finds a subnet whose gateway parses, with that gateway; otherwise fails with "no valid subnet" naming the endpoint, or "invalid gateway" |
| MacvlanJoinLeave.GatewaySection | daemon/libnetwork/drivers/macvlan/macvlan_joinleave.go:52-104 | the gateway policy of Join as a function of the configuration, the addresses and the setters' errors: it never touches the interface names; only a non-internal network can fail; a failure leaves the IPv6 gateway and the gateway-service flag as they were |
| MacvlanJoinLeave.InternalNetworkOnlyDisablesGatewayService | daemon/libnetwork/drivers/macvlan/macvlan_joinleave.go:91-104 | on an internal network Join sets no gateway, raises no error and disables the gateway service |
| MacvlanJoinLeave.GatewayServiceDisabledIff | daemon/libnetwork/drivers/macvlan/macvlan_joinleave.go:87-104 | the gateway service is disabled if and only if the network is internal or has neither IPv4 nor IPv6 subnets |
| MacvlanJoinLeave.IPv4GatewayIsFirstGoverningSubnet | daemon/libnetwork/drivers/macvlan/macvlan_joinleave.go:53-66 | with IPv4 subnets on a non-internal network, the section fails with the IPv4 no-valid-subnet error if and only if no reached subnet governs the address; when the section succeeds, the gateway set is that of the first governing subnet |
| MacvlanJoinLeave.IPv6SkippedWithoutAddressOrSubnets | daemon/libnetwork/drivers/macvlan/macvlan_joinleave.go:71-86 | without an IPv6 address or IPv6 subnets, the IPv6 gateway is left alone and any error is an IPv4 one |
| MacvlanJoinLeave.IPv6GatewayIsFirstGoverningSubnet | daemon/libnetwork/drivers/macvlan/macvlan_joinleave.go:71-83 | with IPv6 resolution due (the IPv4 step passed), the section fails with the IPv6 no-valid-subnet error if and only if no reached IPv6 subnet governs the address; when the section succeeds, the IPv6 gateway is that of the first governing subnet |
| MacvlanJoinLeave.ResolvedOrFailed | daemon/libnetwork/drivers/macvlan/macvlan_joinleave.go:53-90 | when no join-info setter reports an error: a non-internal network with subnets never disables the gateway service; the section succeeds exactly when every due resolution succeeds, and then a gateway is set for each family resolved |
| MacvlanJoinLeave.InternalJoinWithoutIPv6AddressPanics | daemon/libnetwork/drivers/macvlan/macvlan_joinleave.go:91-104 | an internal network with an IPv6 subnet and an endpoint without an IPv6 address: the branch as written panics on the missing address, while the intended policy only disables the gateway service |
| MacvlanJoinLeave.InternalBranchAsWritten | daemon/libnetwork/drivers/macvlan/macvlan_joinleave.go:91-104 | the internal branch as written: it panics only when the endpoint has no IPv6 address; otherwise it disables the gateway service and leaves the interface names alone |
| MacvlanJoinLeave.InternalBranchAgreesUnlessPanic | daemon/libnetwork/drivers/macvlan/macvlan_joinleave.go:91-104 | wherever the branch as written does not panic, it ends exactly as the intended policy does |
| MacvlanJoinLeave.Network.LookupEndpoint | daemon/libnetwork/drivers/macvlan/macvlan_joinleave.go:32-35 | the endpoint with that id if the network has one, null otherwise |
| MacvlanJoinLeave.Network.GetEndpoint | daemon/libnetwork/drivers/macvlan/macvlan_joinleave.go:123-129 | an empty id is an error; otherwise the endpoint or null, with no error |
| MacvlanJoinLeave.Network.GetSubnetForIPv4 | daemon/libnetwork/drivers/macvlan/macvlan_joinleave.go:134-137 | the governing subnet among the network's IPv4 subnets |
| MacvlanJoinLeave.Network.GetSubnetForIPv6 | daemon/libnetwork/drivers/macvlan/macvlan_joinleave.go:139-142 | the governing subnet among the network's IPv6 subnets |
| MacvlanJoinLeave.JoinInfo.SetGateway | daemon/libnetwork/drivers/macvlan/macvlan_joinleave.go:63-66 | records the IPv4 gateway unless the setter reports an error; nothing else changes |
| MacvlanJoinLeave.JoinInfo.SetGatewayIPv6 | daemon/libnetwork/drivers/macvlan/macvlan_joinleave.go:80-83 | records the IPv6 gateway unless the setter reports an error; nothing else changes |
| MacvlanJoinLeave.JoinInfo.DisableGatewayService | daemon/libnetwork/drivers/macvlan/macvlan_joinleave.go:87-90 | marks the gateway service disabled; nothing else changes |
| MacvlanJoinLeave.JoinInfo.SetNames | daemon/libnetwork/drivers/macvlan/macvlan_joinleave.go:105-109 | records source name, destination prefix and requested name unless the setter reports an error |
| MacvlanJoinLeave.Store.Update | daemon/libnetwork/drivers/macvlan/macvlan_joinleave.go:110-112 | upserts the endpoint's record (id, interface name, addresses) unless the store fails |
| MacvlanJoinLeave.Driver.GetNetwork | daemon/libnetwork/drivers/macvlan/macvlan_joinleave.go:28-31 | the network with that id, or a not-found error naming it |
| MacvlanJoinLeave.Driver.ApplyGatewayPolicy | daemon/libnetwork/drivers/macvlan/macvlan_joinleave.go:52-104 | the join info ends in the state `GatewaySection` computes from the old state, and the error is the one it names |
| MacvlanJoinLeave.Driver.Join | daemon/libnetwork/drivers/macvlan/macvlan_joinleave.go:21-115 | unknown network or endpoint, name-generation and creation failures are returned with nothing changed; once the interface exists its name stays bound to the endpoint; the join info ends in the gateway policy's state plus the names; the store is written only after every gateway and naming step succeeded, and its failure is reported with the 7-character id |
| MacvlanJoinLeave.Driver.Leave | daemon/libnetwork/drivers/macvlan/macvlan_joinleave.go:118-132 | succeeds if and only if the network exists, the id is not empty and the endpoint exists, with the matching error otherwise; changes nothing |
| Ascii.ToUpper | daemon/cluster/convert/container.go:389 | same length, each character upper-cased |
| Ascii.ToLower | daemon/cluster/convert/container.go:108 | same length, each character lower-cased |
| Ascii.UpperOfLower | daemon/cluster/convert/container.go:108-114 | an upper-case enum name lower-cased is lower-case and upper-cases back to itself |
| Ascii.LowerOfUpper | daemon/cluster/convert/container.go:389-396 | a lower-case name upper-cased is upper-case and lower-cases back to itself |
| SwarmApi.MountTypeTablesInverse | daemon/cluster/convert/container.go:108 | the mount-type name and value tables are inverse bijections |
| SwarmApi.PropagationTablesInverse | daemon/cluster/convert/container.go:114 | the propagation name and value tables are inverse bijections |
| SwarmApi.EnumNamesAreUpper | daemon/cluster/convert/container.go:389-396 | every enum name is upper-case letters and underscores |
| ContainerConvert.Message | daemon/cluster/convert/container.go:322-377 | every error has a text; an error wrapped as an invalid credential spec or an invalid config ends with the text of its cause, as `errors.Wrap` gives it |
| ContainerConvert.InitRoundTrip | daemon/cluster/convert/container.go:158-171 | an optional bool survives the trip to the control plane and back; nil stays nil |
| ContainerConvert.InitRoundTripGRPC | daemon/cluster/convert/container.go:158-171 | an optional wrapped bool survives the trip to the API and back |
| ContainerConvert.InitFromGRPC | daemon/cluster/convert/container.go:158-164 | nil stays nil; a wrapped bool gives its value |
| ContainerConvert.InitToGRPC | daemon/cluster/convert/container.go:166-171 | nil stays nil; a bool is wrapped with its value |
| ContainerConvert.SecretReferencesToGRPC | daemon/cluster/convert/container.go:173-195 | same length; each reference converted at the same index |
| ContainerConvert.SecretReferencesFromGRPC | daemon/cluster/convert/container.go:197-219 | no longer than the input; every result has a file target |
| ContainerConvert.WithFileTarget | daemon/cluster/convert/container.go:199-205 | holds exactly the references of the input that have a file target |
| ContainerConvert.SecretsFromGRPCKeepFileTargets | daemon/cluster/convert/container.go:197-219 | converting from the control plane keeps exactly the file-targeted references, in order |
| ContainerConvert.SecretsRoundTrip | daemon/cluster/convert/container.go:173-219 | references that all have a file target survive the trip to the control plane and back |
| ContainerConvert.SecretsRoundTripGRPC | daemon/cluster/convert/container.go:173-219 | file-targeted references survive the trip to the API and back |
| ContainerConvert.ConfigReferenceToGRPC | daemon/cluster/convert/container.go:227-249 | succeeds if and only if exactly one of runtime and file is set; neither and both are distinct errors; id and name are copied |
| ContainerConvert.ConfigReferencesToGRPC | daemon/cluster/convert/container.go:221-255 | the reference definition of the list conversion: a success has one reference per input reference (its full contract is `ConfigReferencesToGRPCSpec`) |
| ContainerConvert.ConfigReferencesToGRPCSpec | daemon/cluster/convert/container.go:221-255 | succeeds if and only if every reference has exactly one target; then same length, converted index by index; otherwise the error of the first bad reference |
| ContainerConvert.ConfigsFailAtFirstInvalid | daemon/cluster/convert/container.go:228-231 | the list conversion fails with the error of the first invalid reference |
| ContainerConvert.ConfigReferencesFromGRPC | daemon/cluster/convert/container.go:257-282 | no longer than the input; every result has exactly one target |
| ContainerConvert.WithConfigTarget | daemon/cluster/convert/container.go:263-276 | holds exactly the references of the input that have a runtime or file target |
| ContainerConvert.ConfigsFromGRPCKeepTargeted | daemon/cluster/convert/container.go:257-282 | converting from the control plane keeps exactly the targeted references, in order, and converting them back succeeds |
| ContainerConvert.ConfigsRoundTrip | daemon/cluster/convert/container.go:221-282 | references with exactly one target are accepted and survive the trip to the control plane and back |
| ContainerConvert.ConfigsRoundTripGRPC | daemon/cluster/convert/container.go:221-282 | targeted references survive the trip to the API and back |
| ContainerConvert.CredentialSpecToGRPC | daemon/cluster/convert/container.go:456-495 | succeeds if and only if exactly one of config, file and registry is set |
| ContainerConvert.CredentialSpecErrors | daemon/cluster/convert/container.go:456-475 | none set is the "must either provide" error; two sources set name both, in the order config, file, registry; all three set name the first two joined and registry apart |
| ContainerConvert.CredentialSpecFromGRPC | daemon/cluster/convert/container.go:443-454 | the API spec has at most one source set, and exactly one if and only if the control-plane spec names a non-empty source |
| ContainerConvert.CredentialSpecTwoSourcesMessage | daemon/cluster/convert/container.go:470-471 | the message for config and file set |
| ContainerConvert.CredentialSpecThreeSourcesMessage | daemon/cluster/convert/container.go:472-473 | the message for all three sources set |
| ContainerConvert.CredentialSpecRoundTrip | daemon/cluster/convert/container.go:443-495 | a spec with exactly one source survives the trip to the control plane and back |
| ContainerConvert.CredentialSpecRoundTripGRPC | daemon/cluster/convert/container.go:443-495 | a control-plane spec comes back unchanged exactly when it names a non-empty source; otherwise the trip back fails as having no source |
| ContainerConvert.IsolationRoundTripGRPC | daemon/cluster/convert/container.go:524-544 | default, process and hyperv survive the trip to the API and back; any other value comes back as the default |
| ContainerConvert.IsolationRoundTrip | daemon/cluster/convert/container.go:524-544 | an isolation comes back in lower case when it is hyperv or process in any case; anything else, including empty, comes back as "default" |
| ContainerConvert.IsolationFromGRPC | daemon/cluster/convert/container.go:524-534 | an unknown value, and only an unknown value, gives the empty isolation; every name it gives is lower case |
| ContainerConvert.IsHyperV | daemon/cluster/convert/container.go:537-539 | true exactly for the six letters of hyperv, each in either case |
| ContainerConvert.IsProcess | daemon/cluster/convert/container.go:540-542 | true exactly for the seven letters of process, each in either case |
| ContainerConvert.IsolationToGRPC | daemon/cluster/convert/container.go:536-544 | always a known isolation value; unless it is the default, converting it back gives the lower-cased input |
| ContainerConvert.UlimitsToGRPC | daemon/cluster/convert/container.go:560-572 | same length; name, soft and hard copied index by index |
| ContainerConvert.UlimitsFromGRPC | daemon/cluster/convert/container.go:546-558 | same length; name, soft and hard copied index by index |
| ContainerConvert.UlimitsRoundTrip | daemon/cluster/convert/container.go:546-572 | ulimits survive the trip to the control plane and back |
| ContainerConvert.UlimitsRoundTripGRPC | daemon/cluster/convert/container.go:546-572 | ulimits survive the trip to the API and back |
| ContainerConvert.MountToGRPC | daemon/cluster/convert/container.go:382-409 | succeeds if and only if the type and, when bind options are given, the propagation are empty or name a table entry once upper-cased |
| ContainerConvert.MountToGRPCConverts | daemon/cluster/convert/container.go:382-409 | the type is checked before the propagation; an empty type stays bind; bind options exist exactly when a propagation is given or non-recursive is set; non-recursive is carried and the other bind flags are not |
| ContainerConvert.MountRoundTripGRPC | daemon/cluster/convert/container.go:104-144 | a mount with table values and none of the dropped bind flags survives the trip to the API and back |
| ContainerConvert.MountRoundTrip | daemon/cluster/convert/container.go:104-144 | a mount with lower-case table names and none of the dropped bind flags survives the trip to the control plane and back |
| ContainerConvert.MountsFromGRPC | daemon/cluster/convert/container.go:103-144 | same length; each mount converted at the same index |
| ContainerConvert.MountFromGRPC | daemon/cluster/convert/container.go:104-143 | source, target and read-only are carried; an unknown type gives the empty name; bind options exist exactly when they did, with all four flags carried |
| ContainerConvert.MountsToGRPCSpec | daemon/cluster/convert/container.go:381-434 | succeeds if and only if every mount is valid; then same length, converted index by index; otherwise the error of the first invalid mount |
| ContainerConvert.MountsToGRPC | daemon/cluster/convert/container.go:381-434 | the reference definition of the mounts loop: a success has one mount per input mount (its full contract is `MountsToGRPCSpec`) |
| ContainerConvert.MountsFailAtFirstInvalid | daemon/cluster/convert/container.go:382-400 | the list conversion fails with the error of the first invalid mount |
| ContainerConvert.MountsRoundTripGRPC | daemon/cluster/convert/container.go:103-144 | canonical control-plane mounts survive the trip to the API and back |
| ContainerConvert.MountsRoundTrip | daemon/cluster/convert/container.go:381-434 | canonical API mounts are accepted and survive the trip to the control plane and back |
| ContainerConvert.PrivilegesToGRPC | daemon/cluster/convert/container.go:322-332 | succeeds if and only if the credential spec, if any, has exactly one source; its error is wrapped as an invalid credential spec |
| ContainerConvert.PrivilegesFromGRPC | daemon/cluster/convert/container.go:56-101 | the no-new-privileges flag is carried; a credential spec exists exactly when it did, and names at most one source |
| ContainerConvert.PrivilegesRoundTrip | daemon/cluster/convert/container.go:57-62 | privileges with a valid credential spec survive the trip to the control plane and back |
| ContainerConvert.PrivilegesRoundTripGRPC | daemon/cluster/convert/container.go:57-62 | privileges whose credential spec names a non-empty source survive the trip to the API and back |
| ContainerConvert.ContainerSpecFromGRPC | daemon/cluster/convert/container.go:18-21 | nil stays nil and a spec gives a spec |
| ContainerConvert.ContainerToGRPCFails | daemon/cluster/convert/container.go:284-441 | succeeds if and only if the credential spec, every config and every mount are valid; the credential spec error comes first, then the config error wrapped as an invalid config |
| ContainerConvert.ContainerToGRPC | daemon/cluster/convert/container.go:284-441 | the reference definition of the whole conversion: a success has one config and one mount per input one (its errors are stated by `ContainerToGRPCFails`, its parts by `ContainerToGRPCParts`) |
| ContainerConvert.ContainerToGRPCParts | daemon/cluster/convert/container.go:284-441 | on valid input every part is converted by its own conversion |
| ContainerConvert.ContainerSpecRoundTripGRPC | daemon/cluster/convert/container.go:18-441 | a control-plane spec the API can represent survives the trip to the API and back |
| ContainerConvert.ContainerSpecRoundTrip | daemon/cluster/convert/container.go:18-441 | an API spec the control plane can represent is accepted and survives the trip to the control plane and back |
| ContainerConvertImpl.SecretReferencesToGRPC | daemon/cluster/convert/container.go:173-195 | the append loop computes `SecretReferencesToGRPC` |
| ContainerConvertImpl.SecretReferencesFromGRPC | daemon/cluster/convert/container.go:197-219 | the loop that skips references without a file target computes `SecretReferencesFromGRPC` |
| ContainerConvertImpl.ConfigReferencesToGRPC | daemon/cluster/convert/container.go:221-255 | the loop with early returns computes `ConfigReferencesToGRPC`, including the error of the first bad reference |
| ContainerConvertImpl.ConfigReferencesFromGRPC | daemon/cluster/convert/container.go:257-282 | the loop that checks runtime before file and skips the rest computes `ConfigReferencesFromGRPC` |
| ContainerConvertImpl.UlimitsFromGRPC | daemon/cluster/convert/container.go:546-558 | filling a slice of the input's length by index computes `UlimitsFromGRPC` |
| ContainerConvertImpl.UlimitsToGRPC | daemon/cluster/convert/container.go:560-572 | filling a slice of the input's length by index computes `UlimitsToGRPC` |
| ContainerConvertImpl.ContainerSpecFromGRPC | daemon/cluster/convert/container.go:18-156 | the conversion computes `ContainerSpecFromGRPC` |
| ContainerConvertImpl.MountsFromGRPC | daemon/cluster/convert/container.go:103-144 | the mounts loop of `containerSpecFromGRPC` computes `MountsFromGRPC` |
| ContainerConvertImpl.MountToGRPC | daemon/cluster/convert/container.go:382-409 | one pass of the mounts loop computes `MountToGRPC` |
| ContainerConvertImpl.ContainerToGRPC | daemon/cluster/convert/container.go:284-441 | the conversion with its early returns computes `ContainerToGRPC` |
| ContainerConvertImpl.PrivilegesToGRPC | daemon/cluster/convert/container.go:322-332 | the conversion of the privileges computes `PrivilegesToGRPC`, including the wrapped credential spec error |
| ContainerConvertImpl.MountsToGRPC | daemon/cluster/convert/container.go:381-434 | the loop over the mounts with its early return computes `MountsToGRPC`, including the error of the first invalid mount |

## Left out

- Tracing spans and debug or warning logging are left out; they carry no behaviour, apart from the dereference recorded under Findings.
- Interface-name generation, netlink macvlan creation, the join-info object and the store are not modelled. They are foreign calls; `Join` takes their outcomes as parameters or as the small stand-in classes `JoinInfo` and `Store`.
- The driver's store update is reduced to an upsert of the endpoint's id, interface name and addresses into a map. Its serialisation and backing store are not modelled.
- `netlabel.GetIfname` is not modelled. The requested interface name is a parameter of `Join`.
- The invalid-gateway errors do not carry the gateway text or the parse error the source formats into them. The gateway text is not modelled (see the next line), and the parse error comes from library code.
- Text parsing of CIDR strings by `net.ParseCIDR` is not modelled. A configured subnet or gateway is its parse result, `None` when the text does not parse.
- IPv4-mapped IPv6 addresses are not modelled. `net.IPNet.Contains` normalises them with `To4`; here an address contains another only when both have the same width.
- A missing IPv4 endpoint address is not modelled. The source dereferences `ep.addr` without a nil check on both paths (macvlan_joinleave.go:55 and :94); the model gives every endpoint an IPv4 address. Only the IPv6 address is ever guarded (:71), which is the point of the finding below.
- Concurrency is not modelled. Join's second endpoint lookup is proved to return the endpoint already found; the source guards against a concurrent removal there.
- The bodies of `getNetwork`, `n.endpoint` and `getEndpoint` are not part of this model. They are map lookups here; `getEndpoint` rejects an empty id.
- Durations and the health-check conversions (`healthConfigFromGRPC`, `healthConfigToGRPC`) are left out. Protobuf duration conversion is library code.
- The JSON encoding of tmpfs options is left out. It is library code.
- DNS config, SELinux, Seccomp, AppArmor, volume and tmpfs options, and the plain field copies (labels, command, args, user, groups, hosts and others) are left out. They are assignment with no logic; a representative subset of fields is carried.
- Ascii.ToUpper, Ascii.ToLower: ASCII-only case mapping, weaker than Go's Unicode mapping. The enum names are ASCII, so only exotic user input such as U+0131 would differ.
- ContainerConvert.Message: `%q` is modelled as plain double quotes around the text, without Go's escaping of special characters.
- Nil and empty slices are not distinguished. The source skips `configReferencesToGRPC` for nil configs; the result is empty either way.

## Findings

| source | as written | input that shows it | evidently intended | confidence | as-written member | corrected member |
|---|---|---|---|---|---|---|
| daemon/libnetwork/drivers/macvlan/macvlan_joinleave.go:96-99 | on an internal network with IPv6 subnets, the debug line reads `ep.addrv6.IP` with no nil check; Go evaluates the argument at every log level | an internal network with one IPv6 subnet and an endpoint without an IPv6 address: nil-pointer panic in Join | the same guard as line 71 (`ep.addrv6 != nil`), so Join only disables the gateway service and goes on | medium, not executed | MacvlanJoinLeave.InternalJoinWithoutIPv6AddressPanics | MacvlanJoinLeave.InternalNetworkOnlyDisablesGatewayService |
