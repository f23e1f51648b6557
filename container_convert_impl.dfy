/** The conversions of daemon/cluster/convert/container.go as the loops the
    source runs, each proved to compute the reference function of
    `ContainerConvert`. */
module ContainerConvertImpl {
  import opened Wrappers
  import Api = ApiTypes
  import Swarm = SwarmApi
  import C = ContainerConvert
  import Ascii

  /** `secretReferencesToGRPC`. */
  method SecretReferencesToGRPC(sr: seq<Api.SecretReference>) returns (refs: seq<Swarm.SecretReference>)
    ensures refs == C.SecretReferencesToGRPC(sr)
  {
    refs := [];
    for i := 0 to |sr|
      invariant refs == C.SecretReferencesToGRPC(sr[..i])
    {
      var s := sr[i];
      var ref := Swarm.SecretReference(s.secretID, s.secretName, None);
      if s.file.Some? {
        var f := s.file.value;
        ref := ref.(target := Some(Swarm.FileTarget(f.name, f.uid, f.gid, f.mode)));
      }
      assert sr[..i + 1][..i] == sr[..i];
      refs := refs + [ref];
    }
    assert sr[..|sr|] == sr;
  }

  /** `secretReferencesFromGRPC`: a reference without a file target is skipped. */
  method SecretReferencesFromGRPC(sr: seq<Swarm.SecretReference>) returns (refs: seq<Api.SecretReference>)
    ensures refs == C.SecretReferencesFromGRPC(sr)
  {
    refs := [];
    for i := 0 to |sr|
      invariant refs == C.SecretReferencesFromGRPC(sr[..i])
    {
      var s := sr[i];
      assert sr[..i + 1][..i] == sr[..i];
      if s.target.None? {
        continue;
      }
      var target := s.target.value;
      refs := refs + [Api.SecretReference(Some(Api.FileTarget(target.name, target.uid, target.gid, target.mode)),
                                          s.secretID, s.secretName)];
    }
    assert sr[..|sr|] == sr;
  }

  /** `configReferencesToGRPC`: returns on the first reference with neither
      or both targets. */
  method ConfigReferencesToGRPC(cs: seq<Api.ConfigReference>)
    returns (r: Result<seq<Swarm.ConfigReference>, C.ConvertError>)
    ensures r == C.ConfigReferencesToGRPC(cs)
  {
    var refs := [];
    for i := 0 to |cs|
      invariant C.ConfigReferencesToGRPC(cs[..i]) == Success(refs)
    {
      var s := cs[i];
      assert cs[..i + 1][..i] == cs[..i];
      if !s.runtime && s.file.None? {
        C.ConfigsFailAtFirstInvalid(cs, i);
        return Failure(C.ConfigTargetMissing);
      } else if s.runtime && s.file.Some? {
        C.ConfigsFailAtFirstInvalid(cs, i);
        return Failure(C.ConfigTargetConflict);
      }
      var ref := Swarm.ConfigReference(s.configID, s.configName, Swarm.NoConfigTarget);
      if s.runtime {
        ref := ref.(target := Swarm.ConfigRuntime);
      } else {
        var f := s.file.value;
        ref := ref.(target := Swarm.ConfigFile(Swarm.FileTarget(f.name, f.uid, f.gid, f.mode)));
      }
      refs := refs + [ref];
    }
    assert cs[..|cs|] == cs;
    r := Success(refs);
  }

  /** `configReferencesFromGRPC`: a reference with no known target is skipped;
      a runtime target wins over a file target. */
  method ConfigReferencesFromGRPC(cs: seq<Swarm.ConfigReference>) returns (refs: seq<Api.ConfigReference>)
    ensures refs == C.ConfigReferencesFromGRPC(cs)
  {
    refs := [];
    for i := 0 to |cs|
      invariant refs == C.ConfigReferencesFromGRPC(cs[..i])
    {
      var s := cs[i];
      assert cs[..i + 1][..i] == cs[..i];
      var r := Api.ConfigReference(None, false, s.configID, s.configName);
      match s.target {
        case ConfigRuntime =>
          r := r.(runtime := true);
        case ConfigFile(f) =>
          r := r.(file := Some(Api.FileTarget(f.name, f.uid, f.gid, f.mode)));
        case NoConfigTarget =>
          continue;
      }
      refs := refs + [r];
    }
    assert cs[..|cs|] == cs;
  }

  /** `ulimitsFromGRPC`: a slice of the same length, filled index by index. */
  method UlimitsFromGRPC(u: seq<Swarm.Ulimit>) returns (r: seq<Api.Ulimit>)
    ensures r == C.UlimitsFromGRPC(u)
  {
    var ulimits := new Api.Ulimit[|u|];
    for i := 0 to |u|
      invariant forall j :: 0 <= j < i ==> ulimits[j] == Api.Ulimit(u[j].name, u[j].soft, u[j].hard)
    {
      ulimits[i] := Api.Ulimit(u[i].name, u[i].soft, u[i].hard);
    }
    r := ulimits[..];
  }

  /** `ulimitsToGRPC`: a slice of the same length, filled index by index. */
  method UlimitsToGRPC(u: seq<Api.Ulimit>) returns (r: seq<Swarm.Ulimit>)
    ensures r == C.UlimitsToGRPC(u)
  {
    var ulimits := new Swarm.Ulimit[|u|];
    for i := 0 to |u|
      invariant forall j :: 0 <= j < i ==> ulimits[j] == Swarm.Ulimit(u[j].name, u[j].soft, u[j].hard)
    {
      ulimits[i] := Swarm.Ulimit(u[i].name, u[i].soft, u[i].hard);
    }
    r := ulimits[..];
  }

  /** The mounts loop of `containerSpecFromGRPC`: enum values become their
      lower-cased names. */
  method MountsFromGRPC(ms: seq<Swarm.Mount>) returns (mounts: seq<Api.Mount>)
    ensures mounts == C.MountsFromGRPC(ms)
  {
    mounts := [];
    for i := 0 to |ms|
      invariant mounts == C.MountsFromGRPC(ms[..i])
    {
      var m := ms[i];
      var mount := Api.Mount(Ascii.ToLower(C.NameOf(Swarm.MountTypeName, m.typ)), m.source, m.target, m.readOnly, None);
      if m.bindOptions.Some? {
        var b := m.bindOptions.value;
        mount := mount.(bindOptions := Some(Api.BindOptions(Ascii.ToLower(C.NameOf(Swarm.PropagationName, b.propagation)),
                                                            b.nonRecursive, b.createMountpoint,
                                                            b.readOnlyNonRecursive, b.readOnlyForceRecursive)));
      }
      assert mount == C.MountFromGRPC(m);
      assert ms[..i + 1][..i] == ms[..i];
      mounts := mounts + [mount];
    }
    assert ms[..|ms|] == ms;
  }

  /** `containerSpecFromGRPC`. */
  method ContainerSpecFromGRPC(c: Option<Swarm.ContainerSpec>) returns (r: Option<Api.ContainerSpec>)
    ensures r == C.ContainerSpecFromGRPC(c)
  {
    if c.None? {
      return None;
    }
    var s := c.value;
    var secrets := SecretReferencesFromGRPC(s.secrets);
    var configs := ConfigReferencesFromGRPC(s.configs);
    var ulimits := UlimitsFromGRPC(s.ulimits);
    var privileges: Option<Api.Privileges> := None;
    if s.privileges.Some? {
      var p := s.privileges.value;
      var credentialSpec: Option<Api.CredentialSpec> := None;
      if p.credentialSpec.Some? {
        credentialSpec := Some(C.CredentialSpecFromGRPC(p.credentialSpec.value));
      }
      privileges := Some(Api.Privileges(credentialSpec, p.noNewPrivileges));
    }
    var mounts := MountsFromGRPC(s.mounts);
    r := Some(Api.ContainerSpec(s.image, s.hostname, s.env, s.tty, C.InitFromGRPC(s.init),
                                C.IsolationFromGRPC(s.isolation), secrets, configs, ulimits, privileges, mounts));
  }

  /** One pass of the mounts loop of `containerToGRPC`: the type, then the
      propagation, then the non-recursive flag. */
  method MountToGRPC(m: Api.Mount) returns (r: Result<Swarm.Mount, C.ConvertError>)
    ensures r == C.MountToGRPC(m)
  {
    var mount := Swarm.Mount(0, m.source, m.target, m.readOnly, None);
    var typ := Ascii.ToUpper(m.typ);
    if typ in Swarm.MountTypeValue {
      mount := mount.(typ := Swarm.MountTypeValue[typ]);
    } else if m.typ != "" {
      return Failure(C.InvalidMountType(m.typ));
    }
    if m.bindOptions.Some? {
      var b := m.bindOptions.value;
      var prop := Ascii.ToUpper(b.propagation);
      if prop in Swarm.PropagationValue {
        mount := mount.(bindOptions := Some(Swarm.BindOptions(Swarm.PropagationValue[prop], false, false, false, false)));
      } else if b.propagation != "" {
        return Failure(C.InvalidMountPropagation(b.propagation));
      }
      if b.nonRecursive {
        if mount.bindOptions.None? {
          mount := mount.(bindOptions := Some(Swarm.BindOptions(0, false, false, false, false)));
        }
        mount := mount.(bindOptions := Some(mount.bindOptions.value.(nonRecursive := true)));
      }
    }
    r := Success(mount);
  }

  /** The privileges part of `containerToGRPC`: an invalid credential spec
      is returned wrapped. */
  method PrivilegesToGRPC(p: Api.Privileges) returns (r: Result<Swarm.Privileges, C.ConvertError>)
    ensures r == C.PrivilegesToGRPC(p)
  {
    var credentialSpec: Option<Swarm.CredentialSpec> := None;
    if p.credentialSpec.Some? {
      var cs := C.CredentialSpecToGRPC(p.credentialSpec.value);
      if cs.Failure? {
        return Failure(C.InvalidCredentialSpec(cs.error));
      }
      credentialSpec := Some(cs.value);
    }
    r := Success(Swarm.Privileges(credentialSpec, p.noNewPrivileges));
  }

  /** The mounts loop of `containerToGRPC`: returns on the first invalid mount. */
  method MountsToGRPC(ms: seq<Api.Mount>) returns (r: Result<seq<Swarm.Mount>, C.ConvertError>)
    ensures r == C.MountsToGRPC(ms)
  {
    var mounts: seq<Swarm.Mount> := [];
    for i := 0 to |ms|
      invariant C.MountsToGRPC(ms[..i]) == Success(mounts)
    {
      assert ms[..i + 1][..i] == ms[..i];
      var mount := MountToGRPC(ms[i]);
      if mount.Failure? {
        C.MountsFailAtFirstInvalid(ms, i);
        return Failure(mount.error);
      }
      mounts := mounts + [mount.value];
    }
    assert ms[..|ms|] == ms;
    r := Success(mounts);
  }

  /** `containerToGRPC`: the credential spec is checked first, then the
      configs, then the mounts in order; the first error is returned. */
  method ContainerToGRPC(c: Api.ContainerSpec) returns (r: Result<Swarm.ContainerSpec, C.ConvertError>)
    ensures r == C.ContainerToGRPC(c)
  {
    C.ContainerToGRPCFails(c);
    var secrets := SecretReferencesToGRPC(c.secrets);
    var ulimits := UlimitsToGRPC(c.ulimits);
    var privileges: Option<Swarm.Privileges> := None;
    if c.privileges.Some? {
      var p := PrivilegesToGRPC(c.privileges.value);
      if p.Failure? {
        return Failure(p.error);
      }
      privileges := Some(p.value);
    }
    var configs: seq<Swarm.ConfigReference> := [];
    if c.configs != [] {
      var rc := ConfigReferencesToGRPC(c.configs);
      if rc.Failure? {
        return Failure(C.InvalidConfig(rc.error));
      }
      configs := rc.value;
    }
    assert C.ConfigReferencesToGRPC(c.configs) == Success(configs);
    var mounts := MountsToGRPC(c.mounts);
    if mounts.Failure? {
      return Failure(mounts.error);
    }
    C.ContainerToGRPCParts(c, privileges, configs, mounts.value);
    r := Success(Swarm.ContainerSpec(c.image, c.hostname, c.env, c.tty, C.InitToGRPC(c.init),
                                     C.IsolationToGRPC(c.isolation), secrets, configs, ulimits, privileges,
                                     mounts.value));
  }
}
