# Template API group installation, modelled in Dafny

This project models the install step of the template API group
(`pkg/template/api/install/install.go`). That step decides which external
wire versions of the group are active, gated by the process's allow policy
and kept in catalog order. If none are active, it logs a line and stops.
Otherwise it enables those versions and adds the group's types to the
shared conversion scheme. It then assembles the group's metadata and
publishes it in the process-wide group registry. The metadata holds the
preferred version, the full version list and the input for the REST
mapper. Finally, the step answers, per version, with the capability bundle
(the shared scheme as object converter and the shared metadata accessor),
or with an "unsupported version" error.

Two modules:

- `Registered` (`registered.dfy`) holds the process-wide state the install
  code calls into as one object, `Registry`. This state is the
  registered, allowed and enabled version sets, the group registry, and
  the shared scheme. The scheme is reduced to two things: whether the
  internal types were added, and which external versions were added. The
  registry package and the scheme are not part of this model. Each call
  into them is a method whose contract is what the install code relies on.
  `EnableVersions` and `RegisterGroup` may fail for reasons this code
  cannot see. Those reasons are two fixed fields of the registry:
  `enableRefuses` says whether `EnableVersions` refuses, and
  `groupRefuses` lists group names `RegisterGroup` refuses. Every outcome
  is therefore determined by the state initialisation starts from. On
  success their effect is exact. `RegisterGroup` also refuses a group name
  that is already present and then leaves the earlier registration in
  place; this is an assumption about the registry, not behaviour of
  install.go.
- `Install` (`install.dfy`) holds install.go itself. `GateVersions`,
  `AddVersionsToScheme` and `NewRESTMapper` are the source's loops as
  methods. Each is proved against a specification function (`Gate`,
  `SchemeAdditions`, `WorstToBest`), and lemmas prove what the source
  promises about those functions. `EnableGroupVersions` is
  `enableVersions`, and `Init` is `init` for any catalog.
  `InitTemplateGroup` is `init` over the group's own catalog
  `availableVersions = [v1]`. `InterfacesFor` is `interfacesFor`. A panic
  is the outcome `Fatal(err)`.

`LegacyGroupName` (the empty string) and `v1.LegacySchemeGroupVersion`
(`("", "v1")`) are defined in the group's register files, which are not
part of this model. Their values are restated here as constants.

## Model

| member | source | states |
|---|---|---|
| `Install.GateIsOrderedSelection` | pkg/template/api/install/install.go:29-34 | The enabled list is the catalog's sub-list at strictly increasing positions, and those positions are exactly the ones holding an allowed version: order is kept and only disallowed entries are dropped. |
| `Install.GateMembership` | pkg/template/api/install/install.go:29-34 | A version is in the enabled list if and only if it is in the catalog and the allow predicate holds for it. |
| `Install.GateEmpty` | pkg/template/api/install/install.go:29-38 | The enabled list is empty exactly when the policy allows no catalog entry, which is the case that makes `init` return early. |
| `Install.GateVersions` | pkg/template/api/install/install.go:29-34 | The append loop builds exactly the gated list `Gate(catalog, allowed)`. |
| `Install.SchemeAdditionsExactly` | pkg/template/api/install/install.go:74-87 | The scheme loop adds v1 if v1 is both in the list and enabled, and adds nothing else. A version that is not enabled, or not known to the group, is skipped, and the loop carries on. |
| `Install.SchemeAdditionsWithin` | pkg/template/api/install/install.go:74-86 | Every version the scheme loop adds is in the list it was given and is enabled. |
| `Install.AddVersionsToScheme` | pkg/template/api/install/install.go:70-88 | The internal types are always added. The scheme's version set grows by exactly `SchemeAdditions(list, enabled)`. No error is raised, and the enabled set and group registry are untouched (frame). |
| `Install.WorstToBest` | pkg/template/api/install/install.go:91-94 | The reordered list has the same length as the input, and element `k` is input element `len-1-k`. |
| `Install.NewRESTMapper` | pkg/template/api/install/install.go:90-98 | The list handed to the mapper constructor is the exact reverse of the enabled list. The ignored-kind and root-scoped-kind sets are empty. |
| `Install.InterfacesFor` | pkg/template/api/install/install.go:100-112 | Succeeds if and only if the version is v1, with the bundle {shared scheme, shared accessor}. Any other version gets an UnsupportedVersion error that names it and carries the group's registered version list, read live from the registry. It is a function, so it is deterministic and changes no state. |
| `Install.EnableGroupVersions` | pkg/template/api/install/install.go:52-68 | Adds to the scheme as `AddVersionsToScheme` does. On success it publishes metadata whose preferred version is the list's first entry, whose version list is the list unchanged, and whose mapper input is the reversed list. It succeeds exactly when the group name is neither registered already nor refused by the registry. A registry error is returned unchanged, with the registry left as it was. |
| `Install.Init` | pkg/template/api/install/install.go:27-46 | Registers the catalog. If no version is allowed, the outcome is NotActive, with no enabling, no scheme change and no group published. Otherwise an error from `EnableVersions` or from `RegisterGroup` becomes `Fatal` carrying that error. The outcome is `Fatal(EnableRejected)` exactly when some version is allowed and `EnableVersions` refuses; nothing else then runs, and no state changes. It is `Fatal(GroupRejected)` exactly when `EnableVersions` accepts and `RegisterGroup` refuses; the versions are then enabled and in the scheme, but no group is published. It is Activated exactly when some version is allowed and both calls accept. Activation enables the gated list, fills the scheme and publishes the assembled metadata. Given `RegisterGroup`'s assumed refusal of a present name, a group name already present always ends fatally and leaves the earlier registration intact. |
| `Install.InitTemplateGroup` | pkg/template/api/install/install.go:25-46 | Over `availableVersions = [v1]`: the group is inactive exactly when v1 is not allowed. It is active exactly when v1 is allowed, `EnableVersions` accepts, and the legacy group name is neither registered already nor refused. Once active, v1 is preferred, the version list is [v1], v1's types are in the scheme, and the resolver rejects every other version, naming [v1] as the valid list. |
| `Registered.Registry.RegisterVersions` | pkg/template/api/install/install.go:28 | Assumed: the catalog's versions join the registered set. |
| `Registered.Registry.IsAllowedVersion` | pkg/template/api/install/install.go:31 | Assumed: the allow policy is a set of versions fixed for the whole initialisation, and the check is membership in it. |
| `Registered.Registry.IsEnabledVersion` | pkg/template/api/install/install.go:75 | Assumed: the check is membership in the current enabled set, so it sees what `EnableVersions` changed. |
| `Registered.Registry.EnableVersions` | pkg/template/api/install/install.go:40 | Assumed: fails exactly when the registry's `enableRefuses` holds. On success every given version is enabled. On failure it returns an error carrying the versions, and nothing changes. |
| `Registered.Registry.RegisterGroup` | pkg/template/api/install/install.go:64 | Assumed: fails exactly when the group name is already present or is in `groupRefuses`, and a refusal leaves the registry unchanged. On success the metadata is stored under its preferred version's group name. |
| `Registered.Registry.GroupVersionsOf` | pkg/template/api/install/install.go:109 | Assumed: yields the published version list of a registered group, and nothing for an unregistered one. |
| `Registered.Registry.AddInternalTypes` | pkg/template/api/install/install.go:72 | Assumed: afterwards the scheme holds the internal types. |
| `Registered.Registry.AddVersionTypes` | pkg/template/api/install/install.go:81 | Assumed: afterwards the scheme holds that version's types, and nothing else changes. |

## Left out

- Logging (`glog.Infof`, `glog.Errorf`) and the text of the `fmt.Errorf` message. The model keeps only which branch is taken and the values the error carries.
- The internals of the `registered` package (how the allow policy is configured, what `EnableVersions` does on failure, how `Group` copies metadata). They are modelled only by the contracts listed above.
- `Install.InterfacesFor`: when the group is not registered, what `registered.Group` returns is not part of this model. The error then carries `None` as its valid list, and the model does not say whether the Go code would dereference a nil result there.
- The conversion functions that `AddToSchemeInCoreGroup` installs and the rest of `kapi.Scheme`. Adding to the scheme is modelled as a flag and a set of versions.
- `kapi.NewDefaultRESTMapper`: its path construction, and the claim that the most preferred version wins ties, depend on library code. Only the arguments it receives are modelled.
- `meta.NewAccessor`, `runtime.SelfLinker` and `importPrefix` are opaque library objects and a constant, so they are not fields of the modelled `GroupMeta` or `RESTMapperArgs`.
- The resolver stored in `GroupMeta` and passed to the mapper constructor is always `interfacesFor`, modelled separately as `Install.InterfacesFor`, so it is not a field of `GroupMeta` or `RESTMapperArgs`.
- `newRESTMapper` returns no error, so the model has no mapper-construction error.
- `addVersionsToScheme` returns nothing, so adding to the scheme cannot fail in the model.
- `Install.EnableGroupVersions` requires a non-empty list: the Go code indexes `externalVersions[0]`, and its only caller passes a non-empty list.
- Concurrent reads of the resolver and mapper after initialisation. The model is sequential.
