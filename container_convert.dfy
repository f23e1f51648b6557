/** Conversion of a service's container spec between the Engine API types and
    the swarm control plane's gRPC messages (daemon/cluster/convert/container.go),
    as functions, with the properties the conversions keep. */
module ContainerConvert {
  import opened Wrappers
  import opened Ascii
  import Api = ApiTypes
  import Swarm = SwarmApi

  /** The errors the conversion toward the control plane returns. */
  datatype ConvertError =
    | CredentialSpecMissing
    | CredentialSpecBoth(first: string, second: string)
    | CredentialSpecAll(leading: seq<string>, last: string)
    | ConfigTargetMissing
    | ConfigTargetConflict
    | InvalidMountType(typ: string)
    | InvalidMountPropagation(propagation: string)
    | InvalidCredentialSpec(cause: ConvertError)
    | InvalidConfig(cause: ConvertError)

  /** `strings.Join`. */
  function JoinStrings(parts: seq<string>, sep: string): string
    decreases |parts|
  {
    if |parts| == 0 then "" else if |parts| == 1 then parts[0] else parts[0] + sep + JoinStrings(parts[1..], sep)
  }

  /** Go's `%q` for a string without characters that need escaping. */
  function Quote(s: string): string {
    "\"" + s + "\""
  }

  /** The text of the error. */
  function Message(e: ConvertError): (r: string)
    ensures r != ""
    ensures e.InvalidCredentialSpec? || e.InvalidConfig? ==>
              |Message(e.cause)| < |r| && r[|r| - |Message(e.cause)|..] == Message(e.cause)
  {
    match e
    case CredentialSpecMissing => "must either provide \"file\", \"registry\", or \"config\" for credential spec"
    case CredentialSpecBoth(a, b) => "cannot specify both " + a + " and " + b + " credential specs"
    case CredentialSpecAll(leading, last) => "cannot specify both " + JoinStrings(leading, ", ") + ", and " + last + " credential specs"
    case ConfigTargetMissing => "either File or Runtime should be set"
    case ConfigTargetConflict => "cannot specify both File and Runtime"
    case InvalidMountType(t) => "invalid MountType: " + Quote(t)
    case InvalidMountPropagation(p) => "invalid MountPropagation: " + Quote(p)
    case InvalidCredentialSpec(cause) => "invalid CredentialSpec: " + Message(cause)
    case InvalidConfig(cause) => "invalid Config: " + Message(cause)
  }

  // ----- Init -----

  function InitFromGRPC(v: Option<Swarm.BoolValue>): (r: Option<bool>)
    ensures r.Some? <==> v.Some?
    ensures r.Some? ==> r.value == v.value.value
  {
    match v
    case None => None
    case Some(b) => Some(b.value)
  }

  function InitToGRPC(v: Option<bool>): (r: Option<Swarm.BoolValue>)
    ensures r.Some? <==> v.Some?
    ensures r.Some? ==> r.value.value == v.value
  {
    match v
    case None => None
    case Some(b) => Some(Swarm.BoolValue(b))
  }

  /** An optional bool survives the trip to the control plane and back; nil stays nil. */
  lemma InitRoundTrip(v: Option<bool>)
    ensures InitFromGRPC(InitToGRPC(v)) == v
  {
  }

  /** An optional wrapped bool survives the trip to the API and back. */
  lemma InitRoundTripGRPC(v: Option<Swarm.BoolValue>)
    ensures InitToGRPC(InitFromGRPC(v)) == v
  {
  }

  // ----- Secret references -----

  function FileTargetToGRPC(f: Api.FileTarget): Swarm.FileTarget {
    Swarm.FileTarget(f.name, f.uid, f.gid, f.mode)
  }

  function FileTargetFromGRPC(f: Swarm.FileTarget): Api.FileTarget {
    Api.FileTarget(f.name, f.uid, f.gid, f.mode)
  }

  function SecretReferenceToGRPC(s: Api.SecretReference): Swarm.SecretReference {
    Swarm.SecretReference(s.secretID, s.secretName,
                          if s.file.Some? then Some(FileTargetToGRPC(s.file.value)) else None)
  }

  /** `secretReferencesToGRPC`: every reference, in order. */
  function SecretReferencesToGRPC(sr: seq<Api.SecretReference>): (r: seq<Swarm.SecretReference>)
    ensures |r| == |sr|
    ensures forall i :: 0 <= i < |sr| ==> r[i] == SecretReferenceToGRPC(sr[i])
    decreases |sr|
  {
    if sr == [] then []
    else SecretReferencesToGRPC(sr[..|sr| - 1]) + [SecretReferenceToGRPC(sr[|sr| - 1])]
  }

  function SecretReferenceFromGRPC(s: Swarm.SecretReference): Api.SecretReference
    requires s.target.Some?
  {
    Api.SecretReference(Some(FileTargetFromGRPC(s.target.value)), s.secretID, s.secretName)
  }

  /** `secretReferencesFromGRPC`: the references with a file target, in order;
      the others are dropped. */
  function SecretReferencesFromGRPC(sr: seq<Swarm.SecretReference>): (r: seq<Api.SecretReference>)
    ensures |r| <= |sr|
    ensures forall i :: 0 <= i < |r| ==> r[i].file.Some?
    decreases |sr|
  {
    if sr == [] then []
    else
      var rest := SecretReferencesFromGRPC(sr[..|sr| - 1]);
      var s := sr[|sr| - 1];
      if s.target.None? then rest else rest + [SecretReferenceFromGRPC(s)]
  }

  /** The references of the list that have a file target, in order. */
  function WithFileTarget(sr: seq<Swarm.SecretReference>): (r: seq<Swarm.SecretReference>)
    ensures forall s :: s in r <==> s in sr && s.target.Some?
    decreases |sr|
  {
    if sr == [] then []
    else
      var rest := WithFileTarget(sr[..|sr| - 1]);
      var s := sr[|sr| - 1];
      assert sr == sr[..|sr| - 1] + [s];
      if s.target.None? then rest else rest + [s]
  }

  lemma SecretReferencesToGRPCAppend(sr: seq<Api.SecretReference>, s: Api.SecretReference)
    ensures SecretReferencesToGRPC(sr + [s]) == SecretReferencesToGRPC(sr) + [SecretReferenceToGRPC(s)]
  {
    assert (sr + [s])[..|sr|] == sr;
  }

  /** Converting from the control plane keeps exactly the references with a
      file target, in order: converting the result back gives that sublist. */
  lemma {:induction false} SecretsFromGRPCKeepFileTargets(sr: seq<Swarm.SecretReference>)
    ensures SecretReferencesToGRPC(SecretReferencesFromGRPC(sr)) == WithFileTarget(sr)
    decreases |sr|
  {
    if sr != [] {
      var s := sr[|sr| - 1];
      SecretsFromGRPCKeepFileTargets(sr[..|sr| - 1]);
      if s.target.Some? {
        SecretReferencesToGRPCAppend(SecretReferencesFromGRPC(sr[..|sr| - 1]), SecretReferenceFromGRPC(s));
      }
    }
  }

  /** A list whose references all have a file target is its own filtering. */
  lemma {:induction false} WithFileTargetOfTargeted(sr: seq<Swarm.SecretReference>)
    requires forall i :: 0 <= i < |sr| ==> sr[i].target.Some?
    ensures WithFileTarget(sr) == sr
    decreases |sr|
  {
    if sr != [] {
      WithFileTargetOfTargeted(sr[..|sr| - 1]);
      assert sr == sr[..|sr| - 1] + [sr[|sr| - 1]];
    }
  }

  /** References that all have a file target survive the trip to the control
      plane and back. */
  lemma {:induction false} SecretsRoundTrip(sr: seq<Api.SecretReference>)
    requires forall i :: 0 <= i < |sr| ==> sr[i].file.Some?
    ensures SecretReferencesFromGRPC(SecretReferencesToGRPC(sr)) == sr
    decreases |sr|
  {
    if sr != [] {
      var init, last := sr[..|sr| - 1], sr[|sr| - 1];
      SecretsRoundTrip(init);
      SecretReferencesToGRPCAppend(init, last);
      assert sr == init + [last];
      SecretReferencesFromGRPCAppend(SecretReferencesToGRPC(init), SecretReferenceToGRPC(last));
      assert SecretReferenceFromGRPC(SecretReferenceToGRPC(last)) == last;
    }
  }

  lemma SecretReferencesFromGRPCAppend(sr: seq<Swarm.SecretReference>, s: Swarm.SecretReference)
    requires s.target.Some?
    ensures SecretReferencesFromGRPC(sr + [s]) == SecretReferencesFromGRPC(sr) + [SecretReferenceFromGRPC(s)]
  {
    assert (sr + [s])[..|sr|] == sr;
  }

  /** References that all have a file target survive the trip to the API and back. */
  lemma SecretsRoundTripGRPC(sr: seq<Swarm.SecretReference>)
    requires forall i :: 0 <= i < |sr| ==> sr[i].target.Some?
    ensures SecretReferencesToGRPC(SecretReferencesFromGRPC(sr)) == sr
  {
    SecretsFromGRPCKeepFileTargets(sr);
    WithFileTargetOfTargeted(sr);
  }

  // ----- Config references -----

  /** Exactly one of the runtime and file targets is set. */
  predicate HasOneConfigTarget(c: Api.ConfigReference) {
    c.runtime != c.file.Some?
  }

  function ConfigReferenceToGRPC(c: Api.ConfigReference): (r: Result<Swarm.ConfigReference, ConvertError>)
    ensures r.Success? <==> HasOneConfigTarget(c)
    ensures r.Failure? ==> r.error == if c.runtime then ConfigTargetConflict else ConfigTargetMissing
    ensures r.Success? ==> r.value.configID == c.configID && r.value.configName == c.configName
  {
    if !c.runtime && c.file.None? then Failure(ConfigTargetMissing)
    else if c.runtime && c.file.Some? then Failure(ConfigTargetConflict)
    else if c.runtime then Success(Swarm.ConfigReference(c.configID, c.configName, Swarm.ConfigRuntime))
    else Success(Swarm.ConfigReference(c.configID, c.configName, Swarm.ConfigFile(FileTargetToGRPC(c.file.value))))
  }

  /** `configReferencesToGRPC`: fails on the first reference that has both or
      neither target; otherwise converts every reference, in order. */
  function ConfigReferencesToGRPC(cs: seq<Api.ConfigReference>): (r: Result<seq<Swarm.ConfigReference>, ConvertError>)
    ensures r.Success? ==> |r.value| == |cs|
    decreases |cs|
  {
    if cs == [] then Success([])
    else
      match ConfigReferencesToGRPC(cs[..|cs| - 1])
      case Failure(e) => Failure(e)
      case Success(rest) =>
        match ConfigReferenceToGRPC(cs[|cs| - 1])
        case Failure(e) => Failure(e)
        case Success(c) => Success(rest + [c])
  }

  /** The list conversion succeeds exactly when every reference has exactly
      one target, and then converts them index by index; otherwise it fails
      with the error of the first bad reference. */
  lemma {:induction false} ConfigReferencesToGRPCSpec(cs: seq<Api.ConfigReference>)
    ensures ConfigReferencesToGRPC(cs).Success? <==> forall i :: 0 <= i < |cs| ==> HasOneConfigTarget(cs[i])
    ensures ConfigReferencesToGRPC(cs).Success? ==>
              |ConfigReferencesToGRPC(cs).value| == |cs|
              && forall i :: 0 <= i < |cs| ==> ConfigReferencesToGRPC(cs).value[i] == ConfigReferenceToGRPC(cs[i]).value
    ensures ConfigReferencesToGRPC(cs).Failure? ==>
              exists k :: 0 <= k < |cs| && !HasOneConfigTarget(cs[k])
                          && ConfigReferencesToGRPC(cs).error == ConfigReferenceToGRPC(cs[k]).error
                          && forall j :: 0 <= j < k ==> HasOneConfigTarget(cs[j])
    decreases |cs|
  {
    if cs != [] {
      var init, last := cs[..|cs| - 1], cs[|cs| - 1];
      ConfigReferencesToGRPCSpec(init);
      assert forall i :: 0 <= i < |init| ==> init[i] == cs[i];
      if ConfigReferencesToGRPC(init).Failure? {
        var k :| 0 <= k < |init| && !HasOneConfigTarget(init[k])
                 && ConfigReferencesToGRPC(init).error == ConfigReferenceToGRPC(init[k]).error
                 && forall j :: 0 <= j < k ==> HasOneConfigTarget(init[j]);
        assert 0 <= k < |cs| && !HasOneConfigTarget(cs[k]);
      } else if !HasOneConfigTarget(last) {
        assert forall j :: 0 <= j < |cs| - 1 ==> HasOneConfigTarget(cs[j]);
      }
    }
  }

  /** When every reference before position i converts and the one at i
      does not, the list conversion fails with the error of the one at i. */
  lemma ConfigsFailAtFirstInvalid(cs: seq<Api.ConfigReference>, i: nat)
    requires i < |cs| && !HasOneConfigTarget(cs[i])
    requires ConfigReferencesToGRPC(cs[..i]).Success?
    ensures ConfigReferencesToGRPC(cs) == Failure(ConfigReferenceToGRPC(cs[i]).error)
  {
    ConfigReferencesToGRPCSpec(cs[..i]);
    assert forall j :: 0 <= j < i ==> cs[..i][j] == cs[j];
    ConfigReferencesToGRPCSpec(cs);
    var k :| 0 <= k < |cs| && !HasOneConfigTarget(cs[k])
             && ConfigReferencesToGRPC(cs).error == ConfigReferenceToGRPC(cs[k]).error
             && forall j :: 0 <= j < k ==> HasOneConfigTarget(cs[j]);
    assert k == i;
  }

  function ConfigReferenceFromGRPC(c: Swarm.ConfigReference): Api.ConfigReference
    requires !c.target.NoConfigTarget?
  {
    if c.target.ConfigRuntime? then Api.ConfigReference(None, true, c.configID, c.configName)
    else Api.ConfigReference(Some(FileTargetFromGRPC(c.target.file)), false, c.configID, c.configName)
  }

  /** `configReferencesFromGRPC`: the references with a runtime or file
      target, in order; the others are dropped. */
  function ConfigReferencesFromGRPC(cs: seq<Swarm.ConfigReference>): (r: seq<Api.ConfigReference>)
    ensures |r| <= |cs|
    ensures forall i :: 0 <= i < |r| ==> HasOneConfigTarget(r[i])
    decreases |cs|
  {
    if cs == [] then []
    else
      var rest := ConfigReferencesFromGRPC(cs[..|cs| - 1]);
      var c := cs[|cs| - 1];
      if c.target.NoConfigTarget? then rest else rest + [ConfigReferenceFromGRPC(c)]
  }

  /** The references of the list that have a target, in order. */
  function WithConfigTarget(cs: seq<Swarm.ConfigReference>): (r: seq<Swarm.ConfigReference>)
    ensures forall c :: c in r <==> c in cs && !c.target.NoConfigTarget?
    decreases |cs|
  {
    if cs == [] then []
    else
      var rest := WithConfigTarget(cs[..|cs| - 1]);
      var c := cs[|cs| - 1];
      assert cs == cs[..|cs| - 1] + [c];
      if c.target.NoConfigTarget? then rest else rest + [c]
  }

  lemma ConfigReferencesToGRPCAppend(cs: seq<Api.ConfigReference>, c: Api.ConfigReference)
    requires ConfigReferencesToGRPC(cs).Success? && HasOneConfigTarget(c)
    ensures ConfigReferencesToGRPC(cs + [c]) == Success(ConfigReferencesToGRPC(cs).value + [ConfigReferenceToGRPC(c).value])
  {
    assert (cs + [c])[..|cs|] == cs;
  }

  /** Converting from the control plane keeps exactly the references with a
      target, in order: converting the result back succeeds and gives that
      sublist. */
  lemma {:induction false} ConfigsFromGRPCKeepTargeted(cs: seq<Swarm.ConfigReference>)
    ensures ConfigReferencesToGRPC(ConfigReferencesFromGRPC(cs)) == Success(WithConfigTarget(cs))
    decreases |cs|
  {
    if cs != [] {
      var c := cs[|cs| - 1];
      ConfigsFromGRPCKeepTargeted(cs[..|cs| - 1]);
      if !c.target.NoConfigTarget? {
        ConfigReferencesToGRPCAppend(ConfigReferencesFromGRPC(cs[..|cs| - 1]), ConfigReferenceFromGRPC(c));
      }
    }
  }

  lemma {:induction false} WithConfigTargetOfTargeted(cs: seq<Swarm.ConfigReference>)
    requires forall i :: 0 <= i < |cs| ==> !cs[i].target.NoConfigTarget?
    ensures WithConfigTarget(cs) == cs
    decreases |cs|
  {
    if cs != [] {
      WithConfigTargetOfTargeted(cs[..|cs| - 1]);
      assert cs == cs[..|cs| - 1] + [cs[|cs| - 1]];
    }
  }

  /** References with exactly one target survive the trip to the control
      plane and back. */
  lemma {:induction false} ConfigsRoundTrip(cs: seq<Api.ConfigReference>)
    requires forall i :: 0 <= i < |cs| ==> HasOneConfigTarget(cs[i])
    ensures ConfigReferencesToGRPC(cs).Success?
    ensures ConfigReferencesFromGRPC(ConfigReferencesToGRPC(cs).value) == cs
    decreases |cs|
  {
    if cs != [] {
      var init, last := cs[..|cs| - 1], cs[|cs| - 1];
      assert forall i :: 0 <= i < |init| ==> HasOneConfigTarget(init[i]) by {
        forall i | 0 <= i < |init| ensures HasOneConfigTarget(init[i]) {
          assert init[i] == cs[i];
        }
      }
      ConfigsRoundTrip(init);
      var g := ConfigReferencesToGRPC(init).value;
      var x := ConfigReferenceToGRPC(last).value;
      ConfigReferencesToGRPCAppend(init, last);
      assert cs == init + [last];
      ConfigReferencesFromGRPCAppend(g, x);
      assert ConfigReferenceFromGRPC(x) == last;
    }
  }

  lemma ConfigReferencesFromGRPCAppend(cs: seq<Swarm.ConfigReference>, c: Swarm.ConfigReference)
    requires !c.target.NoConfigTarget?
    ensures ConfigReferencesFromGRPC(cs + [c]) == ConfigReferencesFromGRPC(cs) + [ConfigReferenceFromGRPC(c)]
  {
    assert (cs + [c])[..|cs|] == cs;
  }

  /** References that all have a target survive the trip to the API and back. */
  lemma ConfigsRoundTripGRPC(cs: seq<Swarm.ConfigReference>)
    requires forall i :: 0 <= i < |cs| ==> !cs[i].target.NoConfigTarget?
    ensures ConfigReferencesToGRPC(ConfigReferencesFromGRPC(cs)) == Success(cs)
  {
    ConfigsFromGRPCKeepTargeted(cs);
    WithConfigTargetOfTargeted(cs);
  }

  // ----- Credential spec -----

  /** The quoted names under which the error messages list the sources. */
  const ConfigOption: string := "\"config\""
  const FileOption: string := "\"file\""
  const RegistryOption: string := "\"registry\""

  /** The quoted names of the sources that are set, in the order
      config, file, registry. */
  function CredentialSources(c: Api.CredentialSpec): (opts: seq<string>)
    ensures |opts| == (if c.config != "" then 1 else 0) + (if c.file != "" then 1 else 0)
                      + (if c.registry != "" then 1 else 0)
  {
    (if c.config != "" then [ConfigOption] else [])
    + (if c.file != "" then [FileOption] else [])
    + (if c.registry != "" then [RegistryOption] else [])
  }

  predicate ExactlyOneSource(c: Api.CredentialSpec) {
    || (c.config != "" && c.file == "" && c.registry == "")
    || (c.config == "" && c.file != "" && c.registry == "")
    || (c.config == "" && c.file == "" && c.registry != "")
  }

  /** `credentialSpecToGRPC`: succeeds exactly when one source is set (see
      `CredentialSpecErrors` for the errors). */
  function CredentialSpecToGRPC(c: Api.CredentialSpec): (r: Result<Swarm.CredentialSpec, ConvertError>)
    ensures r.Success? <==> ExactlyOneSource(c)
  {
    var opts := CredentialSources(c);
    var l := |opts|;
    if l == 0 then Failure(CredentialSpecMissing)
    else if l == 2 then Failure(CredentialSpecBoth(opts[0], opts[1]))
    else if l > 2 then Failure(CredentialSpecAll(opts[..l - 1], opts[l - 1]))
    else if c.config != "" then Success(Swarm.CredentialSpec(Swarm.CredentialConfig(c.config)))
    else if c.file != "" then Success(Swarm.CredentialSpec(Swarm.CredentialFile(c.file)))
    else if c.registry != "" then Success(Swarm.CredentialSpec(Swarm.CredentialRegistry(c.registry)))
    else Success(Swarm.CredentialSpec(Swarm.NoCredentialSource))
  }

  /** No source set is the "must either provide" error; two sources set name
      both, in the order config, file, registry; three sources set name all
      three, the last one apart. */
  lemma CredentialSpecErrors(c: Api.CredentialSpec)
    ensures c.config == "" && c.file == "" && c.registry == "" ==>
              CredentialSpecToGRPC(c) == Failure(CredentialSpecMissing)
    ensures c.config != "" && c.file != "" && c.registry == "" ==>
              CredentialSpecToGRPC(c) == Failure(CredentialSpecBoth(ConfigOption, FileOption))
    ensures c.config != "" && c.file == "" && c.registry != "" ==>
              CredentialSpecToGRPC(c) == Failure(CredentialSpecBoth(ConfigOption, RegistryOption))
    ensures c.config == "" && c.file != "" && c.registry != "" ==>
              CredentialSpecToGRPC(c) == Failure(CredentialSpecBoth(FileOption, RegistryOption))
    ensures c.config != "" && c.file != "" && c.registry != "" ==>
              CredentialSpecToGRPC(c) == Failure(CredentialSpecAll([ConfigOption, FileOption], RegistryOption))
  {
    var opts := CredentialSources(c);
    if c.config != "" && c.file != "" && c.registry != "" {
      assert opts == [ConfigOption, FileOption, RegistryOption];
      assert opts[..2] == [ConfigOption, FileOption];
    }
  }

  /** `credentialSpecFromGRPC`: the source that is set, as the matching field. */
  function CredentialSpecFromGRPC(c: Swarm.CredentialSpec): (r: Api.CredentialSpec)
    ensures |CredentialSources(r)| <= 1
    ensures ExactlyOneSource(r) <==> HasCredentialSource(c)
  {
    match c.source
    case NoCredentialSource => Api.CredentialSpec("", "", "")
    case CredentialConfig(s) => Api.CredentialSpec(s, "", "")
    case CredentialFile(s) => Api.CredentialSpec("", s, "")
    case CredentialRegistry(s) => Api.CredentialSpec("", "", s)
  }

  /** The message for config and file set. */
  lemma CredentialSpecTwoSourcesMessage(c: Api.CredentialSpec)
    requires c.config != "" && c.file != "" && c.registry == ""
    ensures Message(CredentialSpecToGRPC(c).error) == "cannot specify both \"config\" and \"file\" credential specs"
  {
    CredentialSpecErrors(c);
    ConfigAndFilePrefixText();
  }

  lemma ConfigAndFilePrefixText()
    ensures "cannot specify both " + ConfigOption + " and " + FileOption
         == "cannot specify both \"config\" and \"file\""
  {
    var prefix := "cannot specify both " + ConfigOption;
    assert prefix == "cannot specify both \"config\"";
    var middle := prefix + " and ";
    assert middle == "cannot specify both \"config\" and ";
  }

  /** The message for all three sources set. */
  lemma CredentialSpecThreeSourcesMessage(c: Api.CredentialSpec)
    requires c.config != "" && c.file != "" && c.registry != ""
    ensures Message(CredentialSpecToGRPC(c).error)
         == "cannot specify both \"config\", \"file\", and \"registry\" credential specs"
  {
    CredentialSpecErrors(c);
    AllSourcesMessageText();
  }

  lemma AllSourcesMessageText()
    ensures Message(CredentialSpecAll([ConfigOption, FileOption], RegistryOption))
         == "cannot specify both \"config\", \"file\", and \"registry\" credential specs"
  {
    JoinConfigAndFile();
    AllSourcesPrefixText();
  }

  lemma JoinConfigAndFile()
    ensures JoinStrings([ConfigOption, FileOption], ", ") == "\"config\", \"file\""
  {
    assert JoinStrings([FileOption], ", ") == FileOption;
  }

  lemma AllSourcesPrefixText()
    ensures "cannot specify both " + "\"config\", \"file\"" + ", and " + RegistryOption
         == "cannot specify both \"config\", \"file\", and \"registry\""
  {
    var prefix := "cannot specify both " + "\"config\", \"file\"";
    assert prefix == "cannot specify both \"config\", \"file\"";
    var middle := prefix + ", and ";
    assert middle == "cannot specify both \"config\", \"file\", and ";
  }

  /** A spec with exactly one source survives the trip to the control plane and back. */
  lemma CredentialSpecRoundTrip(c: Api.CredentialSpec)
    requires ExactlyOneSource(c)
    ensures CredentialSpecToGRPC(c).Success?
    ensures CredentialSpecFromGRPC(CredentialSpecToGRPC(c).value) == c
  {
  }

  /** A control-plane spec survives the trip to the API and back exactly when
      it names a non-empty source; otherwise the trip back fails as having
      no source. */
  lemma CredentialSpecRoundTripGRPC(c: Swarm.CredentialSpec)
    ensures var back := CredentialSpecToGRPC(CredentialSpecFromGRPC(c));
      back == if HasCredentialSource(c) then Success(c) else Failure(CredentialSpecMissing)
  {
  }

  /** The control-plane spec names a source with a non-empty value. */
  predicate HasCredentialSource(c: Swarm.CredentialSpec) {
    match c.source
    case NoCredentialSource => false
    case CredentialConfig(s) => s != ""
    case CredentialFile(s) => s != ""
    case CredentialRegistry(s) => s != ""
  }

  // ----- Isolation -----

  /** `IsolationFromGRPC`: an unknown value becomes the empty isolation. */
  function IsolationFromGRPC(i: int): (r: Api.Isolation)
    ensures r == "" <==> !(Swarm.IsolationDefault <= i <= Swarm.IsolationHyperV)
    ensures IsLowerName(r)
  {
    if i == Swarm.IsolationHyperV then "hyperv"
    else if i == Swarm.IsolationProcess then "process"
    else if i == Swarm.IsolationDefault then "default"
    else ""
  }

  /** `Isolation.IsHyperV`, case-insensitive. */
  predicate IsHyperV(i: Api.Isolation): (r: bool)
    ensures r <==> |i| == 6 && forall k :: 0 <= k < 6 ==> i[k] == "hyperv"[k] || i[k] == "HYPERV"[k]
  {
    ToLower(i) == "hyperv"
  }

  /** `Isolation.IsProcess`, case-insensitive. */
  predicate IsProcess(i: Api.Isolation): (r: bool)
    ensures r <==> |i| == 7 && forall k :: 0 <= k < 7 ==> i[k] == "process"[k] || i[k] == "PROCESS"[k]
  {
    ToLower(i) == "process"
  }

  /** `isolationToGRPC`: anything but hyperv and process is the default. */
  function IsolationToGRPC(i: Api.Isolation): (r: int)
    ensures Swarm.IsolationDefault <= r <= Swarm.IsolationHyperV
    ensures r != Swarm.IsolationDefault ==> IsolationFromGRPC(r) == ToLower(i)
  {
    if IsHyperV(i) then Swarm.IsolationHyperV
    else if IsProcess(i) then Swarm.IsolationProcess
    else Swarm.IsolationDefault
  }

  /** A known isolation value survives the trip to the API and back; an
      unknown one comes back as the default. */
  lemma IsolationRoundTripGRPC(i: int)
    ensures IsolationToGRPC(IsolationFromGRPC(i))
         == if 0 <= i <= 2 then i else Swarm.IsolationDefault
  {
    if i == Swarm.IsolationHyperV {
      LowerIsolationName("hyperv");
    } else if i == Swarm.IsolationProcess {
      LowerIsolationName("process");
      assert "process" != "hyperv";
    } else if i == Swarm.IsolationDefault {
      LowerIsolationName("default");
      assert "default" != "hyperv" && "default" != "process";
    } else {
      assert ToLower("") == "";
    }
  }

  lemma LowerIsolationName(s: string)
    requires s == "hyperv" || s == "process" || s == "default"
    ensures ToLower(s) == s
  {
    assert IsLowerName(s);
    LowerOfLower(s);
  }

  /** An isolation comes back from the control plane in lower case; anything
      but hyperv and process (including the empty isolation) comes back as
      "default". */
  lemma IsolationRoundTrip(i: Api.Isolation)
    ensures IsolationFromGRPC(IsolationToGRPC(i))
         == if ToLower(i) == "hyperv" || ToLower(i) == "process" then ToLower(i) else "default"
  {
  }

  // ----- Ulimits -----

  function UlimitToGRPC(u: Api.Ulimit): Swarm.Ulimit {
    Swarm.Ulimit(u.name, u.soft, u.hard)
  }

  function UlimitFromGRPC(u: Swarm.Ulimit): Api.Ulimit {
    Api.Ulimit(u.name, u.soft, u.hard)
  }

  /** `ulimitsToGRPC`: same length, Name/Soft/Hard copied index by index. */
  function UlimitsToGRPC(us: seq<Api.Ulimit>): (r: seq<Swarm.Ulimit>)
    ensures |r| == |us|
    ensures forall i :: 0 <= i < |us| ==>
              r[i].name == us[i].name && r[i].soft == us[i].soft && r[i].hard == us[i].hard
    decreases |us|
  {
    if us == [] then [] else UlimitsToGRPC(us[..|us| - 1]) + [UlimitToGRPC(us[|us| - 1])]
  }

  /** `ulimitsFromGRPC`: same length, Name/Soft/Hard copied index by index. */
  function UlimitsFromGRPC(us: seq<Swarm.Ulimit>): (r: seq<Api.Ulimit>)
    ensures |r| == |us|
    ensures forall i :: 0 <= i < |us| ==>
              r[i].name == us[i].name && r[i].soft == us[i].soft && r[i].hard == us[i].hard
    decreases |us|
  {
    if us == [] then [] else UlimitsFromGRPC(us[..|us| - 1]) + [UlimitFromGRPC(us[|us| - 1])]
  }

  /** Ulimits survive the trip to the control plane and back. */
  lemma UlimitsRoundTrip(us: seq<Api.Ulimit>)
    ensures UlimitsFromGRPC(UlimitsToGRPC(us)) == us
  {
  }

  /** Ulimits survive the trip to the API and back. */
  lemma UlimitsRoundTripGRPC(us: seq<Swarm.Ulimit>)
    ensures UlimitsToGRPC(UlimitsFromGRPC(us)) == us
  {
  }

  // ----- Mounts -----

  /** A name table lookup: an unknown value has the empty name. */
  function NameOf(table: map<int, string>, v: int): string {
    if v in table then table[v] else ""
  }

  /** One mount of `containerSpecFromGRPC`: enum values become their
      lower-cased names. */
  function MountFromGRPC(m: Swarm.Mount): (r: Api.Mount)
    ensures r.source == m.source && r.target == m.target && r.readOnly == m.readOnly
    ensures m.typ !in Swarm.MountTypeName ==> r.typ == ""
    ensures r.bindOptions.Some? <==> m.bindOptions.Some?
    ensures r.bindOptions.Some? ==>
              var (rb, mb) := (r.bindOptions.value, m.bindOptions.value);
              rb.nonRecursive == mb.nonRecursive && rb.createMountpoint == mb.createMountpoint
              && rb.readOnlyNonRecursive == mb.readOnlyNonRecursive
              && rb.readOnlyForceRecursive == mb.readOnlyForceRecursive
  {
    Api.Mount(ToLower(NameOf(Swarm.MountTypeName, m.typ)), m.source, m.target, m.readOnly,
              match m.bindOptions
              case None => None
              case Some(b) =>
                Some(Api.BindOptions(ToLower(NameOf(Swarm.PropagationName, b.propagation)),
                                     b.nonRecursive, b.createMountpoint,
                                     b.readOnlyNonRecursive, b.readOnlyForceRecursive)))
  }

  /** The mount type is empty or names an entry of the table once upper-cased. */
  predicate ValidMountType(t: string) {
    t == "" || ToUpper(t) in Swarm.MountTypeValue
  }

  /** The propagation is empty or names an entry of the table once upper-cased. */
  predicate ValidPropagation(p: string) {
    p == "" || ToUpper(p) in Swarm.PropagationValue
  }

  /** The mount's type and, if bind options are given, their propagation
      are valid. */
  predicate ValidMount(m: Api.Mount) {
    ValidMountType(m.typ) && (m.bindOptions.Some? ==> ValidPropagation(m.bindOptions.value.propagation))
  }

  /** One mount of `containerToGRPC`: fails exactly on an invalid type or
      propagation (see `MountToGRPCConverts` for what it produces). */
  function MountToGRPC(m: Api.Mount): (r: Result<Swarm.Mount, ConvertError>)
    ensures r.Success? <==> ValidMount(m)
  {
    var typ := ToUpper(m.typ);
    if typ !in Swarm.MountTypeValue && m.typ != "" then Failure(InvalidMountType(m.typ))
    else
      var t := if typ in Swarm.MountTypeValue then Swarm.MountTypeValue[typ] else 0;
      match m.bindOptions
      case None => Success(Swarm.Mount(t, m.source, m.target, m.readOnly, None))
      case Some(b) =>
        var prop := ToUpper(b.propagation);
        if prop !in Swarm.PropagationValue && b.propagation != "" then Failure(InvalidMountPropagation(b.propagation))
        else
          var opts := if prop in Swarm.PropagationValue
                      then Some(Swarm.BindOptions(Swarm.PropagationValue[prop], false, false, false, false))
                      else None;
          var opts' := if b.nonRecursive
                       then Some((if opts.Some? then opts.value else Swarm.BindOptions(0, false, false, false, false))
                                   .(nonRecursive := true))
                       else opts;
          Success(Swarm.Mount(t, m.source, m.target, m.readOnly, opts'))
  }

  /** The type is checked first, then the propagation; an empty type is left
      at the zero value (bind). A non-recursive bind forces bind options to
      exist, with the default propagation, even when no propagation is given.
      Only propagation and non-recursive are carried over from the bind
      options; the other fields are copied. */
  lemma MountToGRPCConverts(m: Api.Mount)
    ensures !ValidMountType(m.typ) ==> MountToGRPC(m) == Failure(InvalidMountType(m.typ))
    ensures ValidMountType(m.typ) && m.bindOptions.Some? && !ValidPropagation(m.bindOptions.value.propagation) ==>
              MountToGRPC(m) == Failure(InvalidMountPropagation(m.bindOptions.value.propagation))
    ensures MountToGRPC(m).Success? ==>
              var r := MountToGRPC(m).value;
              r.typ == (if m.typ == "" then 0 else Swarm.MountTypeValue[ToUpper(m.typ)])
              && r.source == m.source && r.target == m.target && r.readOnly == m.readOnly
              && (r.bindOptions.Some? <==>
                    (m.bindOptions.Some? && (m.bindOptions.value.propagation != "" || m.bindOptions.value.nonRecursive)))
    ensures MountToGRPC(m).Success? && MountToGRPC(m).value.bindOptions.Some? ==>
              var b := m.bindOptions.value;
              var rb := MountToGRPC(m).value.bindOptions.value;
              rb.propagation == (if b.propagation == "" then 0 else Swarm.PropagationValue[ToUpper(b.propagation)])
              && rb.nonRecursive == b.nonRecursive
              && !rb.createMountpoint && !rb.readOnlyNonRecursive && !rb.readOnlyForceRecursive
  {
  }

  /** A control-plane mount whose enum values are in the tables and whose
      bind options carry none of the flags the API-side conversion drops. */
  predicate CanonicalMountGRPC(m: Swarm.Mount) {
    m.typ in Swarm.MountTypeName
    && (m.bindOptions.Some? ==>
          var b := m.bindOptions.value;
          b.propagation in Swarm.PropagationName
          && !b.createMountpoint && !b.readOnlyNonRecursive && !b.readOnlyForceRecursive)
  }

  /** Such a mount survives the trip to the API and back. */
  lemma MountRoundTripGRPC(m: Swarm.Mount)
    requires CanonicalMountGRPC(m)
    ensures MountToGRPC(MountFromGRPC(m)) == Success(m)
  {
    MountTypeNameRoundTrip(m.typ);
    if m.bindOptions.Some? {
      PropagationNameRoundTrip(m.bindOptions.value.propagation);
    }
  }

  /** A mount type's lower-cased name is not empty and maps back to it once
      upper-cased. */
  lemma MountTypeNameRoundTrip(t: int)
    requires t in Swarm.MountTypeName
    ensures var n := ToLower(NameOf(Swarm.MountTypeName, t));
      n != "" && ToUpper(n) in Swarm.MountTypeValue && Swarm.MountTypeValue[ToUpper(n)] == t
  {
    Swarm.EnumNamesAreUpper();
    Swarm.MountTypeTablesInverse();
    var name := Swarm.MountTypeName[t];
    UpperOfLower(name);
    assert |ToLower(name)| > 0;
  }

  /** A propagation's lower-cased name is not empty and maps back to it once
      upper-cased. */
  lemma PropagationNameRoundTrip(p: int)
    requires p in Swarm.PropagationName
    ensures var n := ToLower(NameOf(Swarm.PropagationName, p));
      n != "" && ToUpper(n) in Swarm.PropagationValue && Swarm.PropagationValue[ToUpper(n)] == p
  {
    Swarm.EnumNamesAreUpper();
    Swarm.PropagationTablesInverse();
    var name := Swarm.PropagationName[p];
    UpperOfLower(name);
    assert |ToLower(name)| > 0;
  }

  /** An API mount with a lower-case type from the table and, if bind options
      are given, a lower-case propagation from the table and none of the flags
      that are not carried over. */
  predicate CanonicalMount(m: Api.Mount) {
    IsLowerName(m.typ) && ToUpper(m.typ) in Swarm.MountTypeValue
    && (m.bindOptions.Some? ==>
          var b := m.bindOptions.value;
          IsLowerName(b.propagation) && ToUpper(b.propagation) in Swarm.PropagationValue
          && !b.createMountpoint && !b.readOnlyNonRecursive && !b.readOnlyForceRecursive)
  }

  /** Such a mount survives the trip to the control plane and back. */
  lemma MountRoundTrip(m: Api.Mount)
    requires CanonicalMount(m)
    ensures MountToGRPC(m).Success? && MountFromGRPC(MountToGRPC(m).value) == m
  {
    Swarm.MountTypeTablesInverse();
    Swarm.PropagationTablesInverse();
    LowerOfUpper(m.typ);
    if m.bindOptions.Some? {
      LowerOfUpper(m.bindOptions.value.propagation);
    }
  }

  /** Every mount, in order (the mounts loop of `containerSpecFromGRPC`). */
  function MountsFromGRPC(ms: seq<Swarm.Mount>): (r: seq<Api.Mount>)
    ensures |r| == |ms|
    ensures forall i :: 0 <= i < |ms| ==> r[i] == MountFromGRPC(ms[i])
    decreases |ms|
  {
    if ms == [] then [] else MountsFromGRPC(ms[..|ms| - 1]) + [MountFromGRPC(ms[|ms| - 1])]
  }

  /** Every mount, in order, failing on the first invalid one (the mounts
      loop of `containerToGRPC`). */
  function MountsToGRPC(ms: seq<Api.Mount>): (r: Result<seq<Swarm.Mount>, ConvertError>)
    ensures r.Success? ==> |r.value| == |ms|
    decreases |ms|
  {
    if ms == [] then Success([])
    else
      match MountsToGRPC(ms[..|ms| - 1])
      case Failure(e) => Failure(e)
      case Success(rest) =>
        match MountToGRPC(ms[|ms| - 1])
        case Failure(e) => Failure(e)
        case Success(m) => Success(rest + [m])
  }

  /** The list conversion succeeds exactly when every mount is valid, and
      then converts them index by index; otherwise it fails with the error of
      the first invalid mount. */
  lemma {:induction false} MountsToGRPCSpec(ms: seq<Api.Mount>)
    ensures MountsToGRPC(ms).Success? <==> forall i :: 0 <= i < |ms| ==> MountToGRPC(ms[i]).Success?
    ensures MountsToGRPC(ms).Success? ==>
              |MountsToGRPC(ms).value| == |ms|
              && forall i :: 0 <= i < |ms| ==> MountsToGRPC(ms).value[i] == MountToGRPC(ms[i]).value
    ensures MountsToGRPC(ms).Failure? ==>
              exists k :: 0 <= k < |ms| && MountToGRPC(ms[k]).Failure?
                          && MountsToGRPC(ms).error == MountToGRPC(ms[k]).error
                          && forall j :: 0 <= j < k ==> MountToGRPC(ms[j]).Success?
    decreases |ms|
  {
    if ms != [] {
      var init, last := ms[..|ms| - 1], ms[|ms| - 1];
      MountsToGRPCSpec(init);
      assert forall i :: 0 <= i < |init| ==> init[i] == ms[i];
      if MountsToGRPC(init).Failure? {
        var k :| 0 <= k < |init| && !MountToGRPC(init[k]).Success?
                 && MountsToGRPC(init).error == MountToGRPC(init[k]).error
                 && forall j :: 0 <= j < k ==> MountToGRPC(init[j]).Success?;
        assert 0 <= k < |ms| && !MountToGRPC(ms[k]).Success?;
      } else if !MountToGRPC(last).Success? {
        assert forall j :: 0 <= j < |ms| - 1 ==> MountToGRPC(ms[j]).Success?;
      }
    }
  }

  /** When every mount before position i converts and the one at i does
      not, the list conversion fails with the error of the one at i. */
  lemma MountsFailAtFirstInvalid(ms: seq<Api.Mount>, i: nat)
    requires i < |ms| && MountToGRPC(ms[i]).Failure?
    requires MountsToGRPC(ms[..i]).Success?
    ensures MountsToGRPC(ms) == Failure(MountToGRPC(ms[i]).error)
  {
    MountsToGRPCSpec(ms[..i]);
    assert forall j :: 0 <= j < i ==> ms[..i][j] == ms[j];
    MountsToGRPCSpec(ms);
    var k :| 0 <= k < |ms| && MountToGRPC(ms[k]).Failure?
             && MountsToGRPC(ms).error == MountToGRPC(ms[k]).error
             && forall j :: 0 <= j < k ==> MountToGRPC(ms[j]).Success?;
    assert k == i;
  }

  lemma {:induction false} MountsRoundTripGRPC(ms: seq<Swarm.Mount>)
    requires forall i :: 0 <= i < |ms| ==> CanonicalMountGRPC(ms[i])
    ensures MountsToGRPC(MountsFromGRPC(ms)) == Success(ms)
  {
    var back := MountsFromGRPC(ms);
    forall i | 0 <= i < |ms| ensures MountToGRPC(back[i]) == Success(ms[i]) {
      MountRoundTripGRPC(ms[i]);
    }
    MountsToGRPCSpec(back);
    assert MountsToGRPC(back).Success?;
    assert MountsToGRPC(back).value == ms;
  }

  // ----- Privileges and the whole spec -----

  function PrivilegesFromGRPC(p: Swarm.Privileges): (r: Api.Privileges)
    ensures r.noNewPrivileges == p.noNewPrivileges
    ensures r.credentialSpec.Some? <==> p.credentialSpec.Some?
    ensures r.credentialSpec.Some? ==> |CredentialSources(r.credentialSpec.value)| <= 1
  {
    Api.Privileges(if p.credentialSpec.Some? then Some(CredentialSpecFromGRPC(p.credentialSpec.value)) else None,
                   p.noNewPrivileges)
  }

  /** The privileges part of `containerToGRPC`: an invalid credential spec
      fails the conversion, wrapped. */
  function PrivilegesToGRPC(p: Api.Privileges): (r: Result<Swarm.Privileges, ConvertError>)
    ensures r.Success? <==> (p.credentialSpec.Some? ==> ExactlyOneSource(p.credentialSpec.value))
    ensures r.Failure? ==> r.error == InvalidCredentialSpec(CredentialSpecToGRPC(p.credentialSpec.value).error)
  {
    match p.credentialSpec
    case None => Success(Swarm.Privileges(None, p.noNewPrivileges))
    case Some(cs) =>
      match CredentialSpecToGRPC(cs)
      case Failure(e) => Failure(InvalidCredentialSpec(e))
      case Success(g) => Success(Swarm.Privileges(Some(g), p.noNewPrivileges))
  }

  /** `containerSpecFromGRPC`: nil stays nil. */
  function ContainerSpecFromGRPC(c: Option<Swarm.ContainerSpec>): (r: Option<Api.ContainerSpec>)
    ensures r.Some? <==> c.Some?
  {
    match c
    case None => None
    case Some(s) =>
      Some(Api.ContainerSpec(
        s.image, s.hostname, s.env, s.tty,
        InitFromGRPC(s.init),
        IsolationFromGRPC(s.isolation),
        SecretReferencesFromGRPC(s.secrets),
        ConfigReferencesFromGRPC(s.configs),
        UlimitsFromGRPC(s.ulimits),
        if s.privileges.Some? then Some(PrivilegesFromGRPC(s.privileges.value)) else None,
        MountsFromGRPC(s.mounts)))
  }

  /** `containerToGRPC`: fails on an invalid credential spec, then on an
      invalid config reference, then on the first invalid mount, each error
      wrapped as the source wraps it. */
  function ContainerToGRPC(c: Api.ContainerSpec): (r: Result<Swarm.ContainerSpec, ConvertError>)
    ensures r.Success? ==> |r.value.configs| == |c.configs| && |r.value.mounts| == |c.mounts|
  {
    var privileges :=
      if c.privileges.Some? then
        match PrivilegesToGRPC(c.privileges.value)
        case Failure(e) => Failure(e)
        case Success(p) => Success(Some(p))
      else Success(None);
    if privileges.Failure? then Failure(privileges.error)
    else
      match ConfigReferencesToGRPC(c.configs)
      case Failure(e) => Failure(InvalidConfig(e))
      case Success(configs) =>
        match MountsToGRPC(c.mounts)
        case Failure(e) => Failure(e)
        case Success(mounts) =>
          Success(Swarm.ContainerSpec(
            c.image, c.hostname, c.env, c.tty,
            InitToGRPC(c.init),
            IsolationToGRPC(c.isolation),
            SecretReferencesToGRPC(c.secrets),
            configs,
            UlimitsToGRPC(c.ulimits),
            privileges.value,
            mounts))
  }

  /** The conversion succeeds exactly when the credential spec, every config
      reference and every mount are valid; the credential spec is checked
      first, then the configs (the error wrapped as an invalid config), then
      the mounts. */
  lemma ContainerToGRPCFails(c: Api.ContainerSpec)
    ensures ContainerToGRPC(c).Success? <==>
              (c.privileges.Some? ==> PrivilegesToGRPC(c.privileges.value).Success?)
              && (forall i :: 0 <= i < |c.configs| ==> HasOneConfigTarget(c.configs[i]))
              && (forall i :: 0 <= i < |c.mounts| ==> MountToGRPC(c.mounts[i]).Success?)
    ensures c.privileges.Some? && PrivilegesToGRPC(c.privileges.value).Failure? ==>
              ContainerToGRPC(c) == Failure(PrivilegesToGRPC(c.privileges.value).error)
    ensures (c.privileges.Some? ==> PrivilegesToGRPC(c.privileges.value).Success?)
            && ConfigReferencesToGRPC(c.configs).Failure? ==>
              ContainerToGRPC(c) == Failure(InvalidConfig(ConfigReferencesToGRPC(c.configs).error))
    ensures (c.privileges.Some? ==> PrivilegesToGRPC(c.privileges.value).Success?)
            && ConfigReferencesToGRPC(c.configs).Success? && MountsToGRPC(c.mounts).Failure? ==>
              ContainerToGRPC(c) == Failure(MountsToGRPC(c.mounts).error)
  {
    ConfigReferencesToGRPCSpec(c.configs);
    MountsToGRPCSpec(c.mounts);
  }

  /** A control-plane spec the API can represent without loss: known
      isolation, every secret and config with a target, a credential spec (if
      any) naming a non-empty source, and canonical mounts. */
  predicate CanonicalSpecGRPC(s: Swarm.ContainerSpec) {
    0 <= s.isolation <= 2
    && (forall i :: 0 <= i < |s.secrets| ==> s.secrets[i].target.Some?)
    && (forall i :: 0 <= i < |s.configs| ==> !s.configs[i].target.NoConfigTarget?)
    && (s.privileges.Some? && s.privileges.value.credentialSpec.Some? ==>
          HasCredentialSource(s.privileges.value.credentialSpec.value))
    && (forall i :: 0 <= i < |s.mounts| ==> CanonicalMountGRPC(s.mounts[i]))
  }

  /** Privileges whose credential spec (if any) names a non-empty source
      survive the trip to the API and back. */
  lemma PrivilegesRoundTripGRPC(p: Swarm.Privileges)
    requires p.credentialSpec.Some? ==> HasCredentialSource(p.credentialSpec.value)
    ensures PrivilegesToGRPC(PrivilegesFromGRPC(p)) == Success(p)
  {
    if p.credentialSpec.Some? {
      CredentialSpecRoundTripGRPC(p.credentialSpec.value);
    }
  }

  /** On valid input the conversion converts every part. */
  lemma ContainerToGRPCParts(c: Api.ContainerSpec, privileges: Option<Swarm.Privileges>,
                             configs: seq<Swarm.ConfigReference>, mounts: seq<Swarm.Mount>)
    requires c.privileges.None? ==> privileges.None?
    requires c.privileges.Some? ==> privileges.Some? && PrivilegesToGRPC(c.privileges.value) == Success(privileges.value)
    requires ConfigReferencesToGRPC(c.configs) == Success(configs)
    requires MountsToGRPC(c.mounts) == Success(mounts)
    ensures ContainerToGRPC(c)
         == Success(Swarm.ContainerSpec(c.image, c.hostname, c.env, c.tty, InitToGRPC(c.init),
                                        IsolationToGRPC(c.isolation), SecretReferencesToGRPC(c.secrets),
                                        configs, UlimitsToGRPC(c.ulimits), privileges, mounts))
  {
  }

  /** Such a spec survives the trip to the API and back. */
  lemma ContainerSpecRoundTripGRPC(s: Swarm.ContainerSpec)
    requires CanonicalSpecGRPC(s)
    ensures ContainerToGRPC(ContainerSpecFromGRPC(Some(s)).value) == Success(s)
  {
    var a := ContainerSpecFromGRPC(Some(s)).value;
    if s.privileges.Some? {
      PrivilegesRoundTripGRPC(s.privileges.value);
    }
    ConfigsRoundTripGRPC(s.configs);
    MountsRoundTripGRPC(s.mounts);
    ContainerToGRPCParts(a, s.privileges, s.configs, s.mounts);
    InitRoundTripGRPC(s.init);
    IsolationRoundTripGRPC(s.isolation);
    SecretsRoundTripGRPC(s.secrets);
    UlimitsRoundTripGRPC(s.ulimits);
  }

  /** Privileges whose credential spec (if any) has exactly one source
      survive the trip to the control plane and back. */
  lemma PrivilegesRoundTrip(p: Api.Privileges)
    requires p.credentialSpec.Some? ==> ExactlyOneSource(p.credentialSpec.value)
    ensures PrivilegesToGRPC(p).Success? && PrivilegesFromGRPC(PrivilegesToGRPC(p).value) == p
  {
    if p.credentialSpec.Some? {
      CredentialSpecRoundTrip(p.credentialSpec.value);
    }
  }

  /** Canonical mounts survive the trip to the control plane and back. */
  lemma {:induction false} MountsRoundTrip(ms: seq<Api.Mount>)
    requires forall i :: 0 <= i < |ms| ==> CanonicalMount(ms[i])
    ensures MountsToGRPC(ms).Success? && MountsFromGRPC(MountsToGRPC(ms).value) == ms
  {
    forall i | 0 <= i < |ms| ensures MountToGRPC(ms[i]).Success? && MountFromGRPC(MountToGRPC(ms[i]).value) == ms[i] {
      MountRoundTrip(ms[i]);
    }
    MountsToGRPCSpec(ms);
    assert MountsToGRPC(ms).Success?;
    assert MountsFromGRPC(MountsToGRPC(ms).value) == ms;
  }

  /** An API spec the control plane can represent without loss: a
      lower-case known isolation, every secret with a file target, every
      config with exactly one target, a credential spec (if any) with
      exactly one source, and canonical mounts. */
  predicate CanonicalSpec(c: Api.ContainerSpec) {
    c.isolation in {"hyperv", "process", "default"}
    && (forall i :: 0 <= i < |c.secrets| ==> c.secrets[i].file.Some?)
    && (forall i :: 0 <= i < |c.configs| ==> HasOneConfigTarget(c.configs[i]))
    && (c.privileges.Some? && c.privileges.value.credentialSpec.Some? ==>
          ExactlyOneSource(c.privileges.value.credentialSpec.value))
    && (forall i :: 0 <= i < |c.mounts| ==> CanonicalMount(c.mounts[i]))
  }

  /** Such a spec is accepted and survives the trip to the control plane and back. */
  lemma ContainerSpecRoundTrip(c: Api.ContainerSpec)
    requires CanonicalSpec(c)
    ensures ContainerToGRPC(c).Success?
    ensures ContainerSpecFromGRPC(Some(ContainerToGRPC(c).value)) == Some(c)
  {
    var privileges: Option<Swarm.Privileges> := None;
    if c.privileges.Some? {
      PrivilegesRoundTrip(c.privileges.value);
      privileges := Some(PrivilegesToGRPC(c.privileges.value).value);
    }
    ConfigsRoundTrip(c.configs);
    MountsRoundTrip(c.mounts);
    ContainerToGRPCParts(c, privileges, ConfigReferencesToGRPC(c.configs).value, MountsToGRPC(c.mounts).value);
    InitRoundTrip(c.init);
    LowerIsolationName(c.isolation);
    IsolationRoundTrip(c.isolation);
    SecretsRoundTrip(c.secrets);
    UlimitsRoundTrip(c.ulimits);
  }
}
