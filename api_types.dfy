/** The Engine API's side of a swarm service's container spec (the Go
    packages api/types/swarm, api/types/container and api/types/mount),
    reduced to the fields the conversions act on. */
module ApiTypes {
  import opened Wrappers

  /** The file a secret or config is mounted as (`SecretReferenceFileTarget`,
      `ConfigReferenceFileTarget`: the same four fields). */
  datatype FileTarget = FileTarget(name: string, uid: string, gid: string, mode: nat)

  datatype SecretReference = SecretReference(file: Option<FileTarget>, secretID: string, secretName: string)

  /** A config reference; `runtime` stands for a non-nil (empty) runtime target. */
  datatype ConfigReference = ConfigReference(file: Option<FileTarget>, runtime: bool, configID: string, configName: string)

  /** A credential spec: an empty string means the source is not set. */
  datatype CredentialSpec = CredentialSpec(config: string, file: string, registry: string)

  datatype Ulimit = Ulimit(name: string, soft: int, hard: int)

  /** `container.Isolation` is a string ("default", "process", "hyperv", or empty). */
  type Isolation = string

  datatype BindOptions = BindOptions(
    propagation: string,
    nonRecursive: bool,
    createMountpoint: bool,
    readOnlyNonRecursive: bool,
    readOnlyForceRecursive: bool)

  datatype Mount = Mount(typ: string, source: string, target: string, readOnly: bool, bindOptions: Option<BindOptions>)

  datatype Privileges = Privileges(credentialSpec: Option<CredentialSpec>, noNewPrivileges: bool)

  datatype ContainerSpec = ContainerSpec(
    image: string,
    hostname: string,
    env: seq<string>,
    tty: bool,
    init: Option<bool>,
    isolation: Isolation,
    secrets: seq<SecretReference>,
    configs: seq<ConfigReference>,
    ulimits: seq<Ulimit>,
    privileges: Option<Privileges>,
    mounts: seq<Mount>)
}
