/** The process-wide registries that the template API group's install code
    calls into: the version registry and group registry of the
    `registered` package, and the shared conversion scheme `kapi.Scheme`.
    Their code lives outside this model; this module holds them as plain
    state in one object, and each call is a method whose contract is what
    the install code relies on. Calls that may fail for reasons the install
    code cannot see refuse according to fixed parts of the registry's state
    (`enableRefuses`, `groupRefuses`), so that every outcome is determined
    by the state the install code starts from. */
module Registered {

  datatype Option<T> = None | Some(value: T)

  /** unversioned.GroupVersion: a (group name, version string) pair, compared structurally. */
  datatype GroupVersion = GroupVersion(group: string, version: string)

  /** The `error` values that cross the install code's boundary. */
  datatype Error =
    | EnableRejected(versions: seq<GroupVersion>)
    | GroupRejected(group: string)
    | UnsupportedVersion(requested: GroupVersion, valid: Option<seq<GroupVersion>>)

  /** What the install code hands to the library REST mapper constructor
      besides the import prefix (a constant) and the resolver: the versions
      in worst-to-best order and the ignored-kind and root-scoped-kind sets.
      The resolver passed is always `interfacesFor`, modelled separately as
      `Install.InterfacesFor`, so it is not a field here. */
  datatype RESTMapperArgs = RESTMapperArgs(
    worstToBest: seq<GroupVersion>,
    ignoredKinds: set<string>,
    rootScoped: set<string>)

  /** apimachinery.GroupMeta, without the self-linker (an opaque library
      object) and the resolver. The resolver stored here is always
      `interfacesFor`, modelled separately as `Install.InterfacesFor`, so it
      is not a field of `GroupMeta`. */
  datatype GroupMeta = GroupMeta(
    groupVersion: GroupVersion,
    groupVersions: seq<GroupVersion>,
    restMapper: RESTMapperArgs)

  function AsSet(vs: seq<GroupVersion>): set<GroupVersion>
  {
    set v | v in vs
  }

  class Registry {
    /** Versions announced with RegisterVersions. */
    var registeredVersions: set<GroupVersion>
    /** The hosting process's allow policy, fixed before initialisation. */
    const allowed: set<GroupVersion>
    /** Whether EnableVersions refuses (for reasons the install code cannot see). */
    const enableRefuses: bool
    /** Group names RegisterGroup refuses besides those already registered. */
    const groupRefuses: set<string>
    /** Versions switched on with EnableVersions. */
    var enabledVersions: set<GroupVersion>
    /** Published group metadata, keyed by group name. */
    var groups: map<string, GroupMeta>
    /** Whether the internal (hub) types were added to the scheme. */
    var internalTypesAdded: bool
    /** External versions whose types were added to the scheme. */
    var schemeVersions: set<GroupVersion>

    constructor (allowed: set<GroupVersion>, enableRefuses: bool, groupRefuses: set<string>,
                 enabled: set<GroupVersion>, groups: map<string, GroupMeta>)
      ensures this.allowed == allowed && this.enableRefuses == enableRefuses && this.groupRefuses == groupRefuses
      ensures enabledVersions == enabled && this.groups == groups
      ensures registeredVersions == {} && !internalTypesAdded && schemeVersions == {}
    {
      this.allowed := allowed;
      this.enableRefuses := enableRefuses;
      this.groupRefuses := groupRefuses;
      registeredVersions := {};
      enabledVersions := enabled;
      this.groups := groups;
      internalTypesAdded := false;
      schemeVersions := {};
    }

    /** registered.RegisterVersions */
    method RegisterVersions(vs: seq<GroupVersion>)
      modifies this`registeredVersions
      ensures registeredVersions == old(registeredVersions) + AsSet(vs)
    {
      registeredVersions := registeredVersions + AsSet(vs);
    }

    /** registered.IsAllowedVersion: the allow policy, which does not change
        during initialisation. */
    predicate IsAllowedVersion(v: GroupVersion): (allowedNow: bool)
      ensures allowedNow <==> v in allowed
    {
      v in allowed
    }

    /** registered.IsEnabledVersion: reads the current enabled set. */
    predicate IsEnabledVersion(v: GroupVersion): (enabledNow: bool)
      reads this
      ensures enabledNow <==> v in enabledVersions
    {
      v in enabledVersions
    }

    /** registered.EnableVersions: fails exactly when the registry refuses;
        on success every given version is enabled, and a refusal leaves the
        enabled set as it was. */
    method EnableVersions(vs: seq<GroupVersion>) returns (err: Option<Error>)
      modifies this`enabledVersions
      ensures err.Some? <==> enableRefuses
      ensures err.None? ==> enabledVersions == old(enabledVersions) + AsSet(vs)
      ensures err.Some? ==> err.value == EnableRejected(vs) && enabledVersions == old(enabledVersions)
    {
      if enableRefuses {
        err := Some(EnableRejected(vs));
      } else {
        enabledVersions := enabledVersions + AsSet(vs);
        err := None;
      }
    }

    /** registered.RegisterGroup: publishes the metadata under the name of
        its preferred version's group. It fails exactly when that name is
        already present or is one the registry refuses; a refused call
        leaves the earlier registrations in place. */
    method RegisterGroup(meta: GroupMeta) returns (err: Option<Error>)
      modifies this`groups
      ensures err.Some? <==> meta.groupVersion.group in old(groups) || meta.groupVersion.group in groupRefuses
      ensures err.None? ==> groups == old(groups)[meta.groupVersion.group := meta]
      ensures err.Some? ==> err.value == GroupRejected(meta.groupVersion.group) && groups == old(groups)
    {
      var name := meta.groupVersion.group;
      if name in groups || name in groupRefuses {
        err := Some(GroupRejected(name));
      } else {
        groups := groups[name := meta];
        err := None;
      }
    }

    /** registered.Group, reduced to the version list the install code reads. */
    function GroupVersionsOf(name: string): (r: Option<seq<GroupVersion>>)
      reads this
      ensures r.Some? <==> name in groups
      ensures r.Some? ==> r.value == groups[name].groupVersions
    {
      if name in groups then Some(groups[name].groupVersions) else None
    }

    /** Adding the group's internal types to the scheme. */
    method AddInternalTypes()
      modifies this`internalTypesAdded
      ensures internalTypesAdded
    {
      internalTypesAdded := true;
    }

    /** Adding one external version's types to the scheme. */
    method AddVersionTypes(v: GroupVersion)
      modifies this`schemeVersions
      ensures schemeVersions == old(schemeVersions) + {v}
    {
      schemeVersions := schemeVersions + {v};
    }
  }
}
