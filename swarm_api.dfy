/** The swarm control plane's side of a container spec (swarmkit's gRPC
    messages), reduced to the fields the conversions act on, with the enum
    name and value tables the conversions consult. */
module SwarmApi {
  import opened Wrappers
  import opened Ascii

  datatype FileTarget = FileTarget(name: string, uid: string, gid: string, mode: nat)

  /** The secret's `Target` oneof, whose only case is a file target. */
  datatype SecretReference = SecretReference(secretID: string, secretName: string, target: Option<FileTarget>)

  /** The config's `Target` oneof. */
  datatype ConfigTarget = NoConfigTarget | ConfigFile(file: FileTarget) | ConfigRuntime

  datatype ConfigReference = ConfigReference(configID: string, configName: string, target: ConfigTarget)

  /** The credential spec's `Source` oneof. */
  datatype CredentialSource =
    | NoCredentialSource
    | CredentialConfig(config: string)
    | CredentialFile(file: string)
    | CredentialRegistry(registry: string)

  datatype CredentialSpec = CredentialSpec(source: CredentialSource)

  /** The protobuf wrapper of an optional bool. */
  datatype BoolValue = BoolValue(value: bool)

  datatype Ulimit = Ulimit(name: string, soft: int, hard: int)

  /** `ContainerSpec_Isolation` values. */
  const IsolationDefault: int := 0
  const IsolationProcess: int := 1
  const IsolationHyperV: int := 2

  /** `Mount_MountType_name` and `Mount_MountType_value`. */
  const MountTypeName: map<int, string> :=
    map[0 := "BIND", 1 := "VOLUME", 2 := "TMPFS", 3 := "NPIPE", 4 := "CLUSTER"]
  const MountTypeValue: map<string, int> :=
    map["BIND" := 0, "VOLUME" := 1, "TMPFS" := 2, "NPIPE" := 3, "CLUSTER" := 4]

  /** `Mount_BindOptions_MountPropagation_name` and `..._value`. */
  const PropagationName: map<int, string> :=
    map[0 := "RPRIVATE", 1 := "PRIVATE", 2 := "RSHARED", 3 := "SHARED", 4 := "RSLAVE", 5 := "SLAVE"]
  const PropagationValue: map<string, int> :=
    map["RPRIVATE" := 0, "PRIVATE" := 1, "RSHARED" := 2, "SHARED" := 3, "RSLAVE" := 4, "SLAVE" := 5]

  /** The mount-type name and value tables are inverse to each other. */
  lemma MountTypeTablesInverse()
    ensures forall t :: t in MountTypeName ==> MountTypeName[t] in MountTypeValue && MountTypeValue[MountTypeName[t]] == t
    ensures forall n :: n in MountTypeValue ==> MountTypeValue[n] in MountTypeName && MountTypeName[MountTypeValue[n]] == n
  {
  }

  /** The propagation name and value tables are inverse to each other. */
  lemma PropagationTablesInverse()
    ensures forall t :: t in PropagationName ==> PropagationName[t] in PropagationValue && PropagationValue[PropagationName[t]] == t
    ensures forall n :: n in PropagationValue ==> PropagationValue[n] in PropagationName && PropagationName[PropagationValue[n]] == n
  {
  }

  /** Every enum name is an upper-case word. */
  lemma EnumNamesAreUpper()
    ensures forall t :: t in MountTypeName ==> IsUpperName(MountTypeName[t])
    ensures forall t :: t in PropagationName ==> IsUpperName(PropagationName[t])
  {
    assert IsUpperName("BIND") && IsUpperName("VOLUME") && IsUpperName("TMPFS") && IsUpperName("NPIPE");
    assert IsUpperName("CLUSTER") && IsUpperName("RPRIVATE") && IsUpperName("PRIVATE");
    assert IsUpperName("RSHARED") && IsUpperName("SHARED") && IsUpperName("RSLAVE") && IsUpperName("SLAVE");
  }

  datatype BindOptions = BindOptions(
    propagation: int,
    nonRecursive: bool,
    createMountpoint: bool,
    readOnlyNonRecursive: bool,
    readOnlyForceRecursive: bool)

  datatype Mount = Mount(typ: int, source: string, target: string, readOnly: bool, bindOptions: Option<BindOptions>)

  datatype Privileges = Privileges(credentialSpec: Option<CredentialSpec>, noNewPrivileges: bool)

  datatype ContainerSpec = ContainerSpec(
    image: string,
    hostname: string,
    env: seq<string>,
    tty: bool,
    init: Option<BoolValue>,
    isolation: int,
    secrets: seq<SecretReference>,
    configs: seq<ConfigReference>,
    ulimits: seq<Ulimit>,
    privileges: Option<Privileges>,
    mounts: seq<Mount>)
}
