/** Installation of the template API group: which of its wire versions are
    active, what goes into the shared scheme, what is handed to the REST
    mapper constructor, the published group metadata, and the per-version
    capability resolver. */
module Install {
  import opened Registered

  /** The group name of the template API's legacy (ungrouped) version. */
  const LegacyGroupName: string := ""
  /** v1.LegacySchemeGroupVersion, the one external version this group knows. */
  const LegacySchemeGroupVersion: GroupVersion := GroupVersion(LegacyGroupName, "v1")
  /** availableVersions: every external version, most preferred first. */
  const AvailableVersions: seq<GroupVersion> := [LegacySchemeGroupVersion]

  /** How initialisation ends: the group is not active (a log line), it is
      active, or initialisation panics with the error it met. */
  datatype Outcome = NotActive | Activated | Fatal(err: Error)

  datatype Result<T> = Ok(value: T) | Err(error: Error)

  /** The shared objects a capability bundle refers to. */
  datatype ObjectConvertor = SharedScheme
  datatype MetadataAccessor = SharedAccessor

  /** meta.VersionInterfaces */
  datatype VersionInterfaces = VersionInterfaces(convertor: ObjectConvertor, accessor: MetadataAccessor)

  // ---------------------------------------------------------------------
  // Version gating

  /** The catalog entries the allow policy admits, in catalog order. */
  function Gate(catalog: seq<GroupVersion>, allowed: set<GroupVersion>): (r: seq<GroupVersion>)
  {
    if catalog == [] then []
    else
      var n := |catalog| - 1;
      Gate(catalog[..n], allowed) + (if catalog[n] in allowed then [catalog[n]] else [])
  }

  /** The catalog positions the allow policy admits, in increasing order. */
  function GatePositions(catalog: seq<GroupVersion>, allowed: set<GroupVersion>): (ix: seq<nat>)
  {
    if catalog == [] then []
    else
      var n := |catalog| - 1;
      GatePositions(catalog[..n], allowed) + (if catalog[n] in allowed then [n] else [])
  }

  /** `r` is the sub-list of `catalog` at the strictly increasing positions
      `ix`, and those positions are exactly the ones holding an allowed entry. */
  ghost predicate SelectsExactly(r: seq<GroupVersion>, catalog: seq<GroupVersion>, allowed: set<GroupVersion>, ix: seq<nat>)
  {
    && |ix| == |r|
    && (forall k :: 0 <= k < |ix| ==> ix[k] < |catalog| && r[k] == catalog[ix[k]])
    && (forall j, k :: 0 <= j < k < |ix| ==> ix[j] < ix[k])
    && (forall i :: 0 <= i < |catalog| ==> (catalog[i] in allowed <==> i in ix))
  }

  /** The gate keeps catalog order and drops exactly the disallowed entries. */
  lemma {:induction false} GateIsOrderedSelection(catalog: seq<GroupVersion>, allowed: set<GroupVersion>)
    ensures SelectsExactly(Gate(catalog, allowed), catalog, allowed, GatePositions(catalog, allowed))
  {
    if catalog != [] {
      var n := |catalog| - 1;
      GateIsOrderedSelection(catalog[..n], allowed);
      var ix := GatePositions(catalog[..n], allowed);
      assert forall k :: 0 <= k < |ix| ==> ix[k] < n;
    }
  }

  /** A version survives the gate if and only if it is in the catalog and allowed. */
  lemma {:induction false} GateMembership(catalog: seq<GroupVersion>, allowed: set<GroupVersion>, v: GroupVersion)
    ensures v in Gate(catalog, allowed) <==> v in catalog && v in allowed
  {
    var r, ix := Gate(catalog, allowed), GatePositions(catalog, allowed);
    GateIsOrderedSelection(catalog, allowed);
    if v in r {
      var k :| 0 <= k < |r| && r[k] == v;
      assert ix[k] in ix;
    }
    if v in catalog && v in allowed {
      var i :| 0 <= i < |catalog| && catalog[i] == v;
      var k :| 0 <= k < |ix| && ix[k] == i;
      assert r[k] == v;
    }
  }

  /** The gate yields nothing exactly when the policy allows no catalog entry. */
  lemma {:induction false} GateEmpty(catalog: seq<GroupVersion>, allowed: set<GroupVersion>)
    ensures Gate(catalog, allowed) == [] <==> forall v :: v in catalog ==> v !in allowed
  {
    var r := Gate(catalog, allowed);
    if r != [] {
      GateMembership(catalog, allowed, r[0]);
    }
    forall v | v in catalog && v in allowed
      ensures r != []
    {
      GateMembership(catalog, allowed, v);
    }
  }

  /** The filtering loop at the start of `init`. */
  method GateVersions(reg: Registry, catalog: seq<GroupVersion>) returns (externalVersions: seq<GroupVersion>)
    ensures externalVersions == Gate(catalog, reg.allowed)
  {
    externalVersions := [];
    for i := 0 to |catalog|
      invariant externalVersions == Gate(catalog[..i], reg.allowed)
    {
      assert catalog[..i + 1][..i] == catalog[..i];
      if reg.IsAllowedVersion(catalog[i]) {
        externalVersions := externalVersions + [catalog[i]];
      }
    }
    assert catalog[..|catalog|] == catalog;
  }

  // ---------------------------------------------------------------------
  // Scheme registration

  /** The external versions the scheme loop adds, given the list it walks
      and the enabled set it consults. */
  function SchemeAdditions(vs: seq<GroupVersion>, enabled: set<GroupVersion>): (added: set<GroupVersion>)
  {
    if vs == [] then {}
    else
      var n := |vs| - 1;
      var v := vs[n];
      SchemeAdditions(vs[..n], enabled) + (if v in enabled && v == LegacySchemeGroupVersion then {v} else {})
  }

  /** Only the known v1 version can be added, and only when it is both in
      the list and enabled; every other entry is skipped. */
  lemma {:induction false} SchemeAdditionsExactly(vs: seq<GroupVersion>, enabled: set<GroupVersion>)
    ensures SchemeAdditions(vs, enabled)
            == if LegacySchemeGroupVersion in vs && LegacySchemeGroupVersion in enabled
               then {LegacySchemeGroupVersion} else {}
  {
    if vs != [] {
      var n := |vs| - 1;
      SchemeAdditionsExactly(vs[..n], enabled);
      assert vs == vs[..n] + [vs[n]];
    }
  }

  /** The scheme loop adds nothing outside the list it is given. */
  lemma {:induction false} SchemeAdditionsWithin(vs: seq<GroupVersion>, enabled: set<GroupVersion>)
    ensures SchemeAdditions(vs, enabled) <= AsSet(vs) * enabled
  {
    SchemeAdditionsExactly(vs, enabled);
  }

  /** addVersionsToScheme */
  method AddVersionsToScheme(reg: Registry, vs: seq<GroupVersion>)
    modifies reg`internalTypesAdded, reg`schemeVersions
    ensures reg.internalTypesAdded
    ensures reg.schemeVersions == old(reg.schemeVersions) + SchemeAdditions(vs, reg.enabledVersions)
  {
    reg.AddInternalTypes();
    for i := 0 to |vs|
      invariant reg.internalTypesAdded
      invariant reg.schemeVersions == old(reg.schemeVersions) + SchemeAdditions(vs[..i], reg.enabledVersions)
    {
      var v := vs[i];
      assert vs[..i + 1][..i] == vs[..i];
      if !reg.IsEnabledVersion(v) {
        continue;
      }
      if v == LegacySchemeGroupVersion {
        reg.AddVersionTypes(v);
      } else {
        continue;
      }
    }
    assert vs[..|vs|] == vs;
  }

  // ---------------------------------------------------------------------
  // REST mapper input

  /** The versions from least to most preferred. */
  function WorstToBest(vs: seq<GroupVersion>): (r: seq<GroupVersion>)
    ensures |r| == |vs|
    ensures forall k :: 0 <= k < |vs| ==> r[k] == vs[|vs| - 1 - k]
  {
    if vs == [] then [] else [vs[|vs| - 1]] + WorstToBest(vs[..|vs| - 1])
  }

  /** newRESTMapper, up to the call of the library constructor: what it passes. */
  method NewRESTMapper(vs: seq<GroupVersion>) returns (args: RESTMapperArgs)
    ensures args.worstToBest == WorstToBest(vs)
    ensures args.ignoredKinds == {} && args.rootScoped == {}
  {
    var worstToBest: seq<GroupVersion> := [];
    var i := |vs| - 1;
    while i >= 0
      invariant -1 <= i < |vs|
      invariant |worstToBest| == |vs| - 1 - i
      invariant forall k :: 0 <= k < |worstToBest| ==> worstToBest[k] == vs[|vs| - 1 - k]
    {
      worstToBest := worstToBest + [vs[i]];
      i := i - 1;
    }
    args := RESTMapperArgs(worstToBest, {}, {});
  }

  // ---------------------------------------------------------------------
  // Interface resolution

  /** interfacesFor: the fixed bundle for the known version; for any other
      version an error naming it and the group's live version list. */
  function InterfacesFor(reg: Registry, version: GroupVersion): (r: Result<VersionInterfaces>)
    reads reg
    ensures r.Ok? <==> version == LegacySchemeGroupVersion
    ensures r.Ok? ==> r.value == VersionInterfaces(SharedScheme, SharedAccessor)
    ensures r.Err? ==> r.error.UnsupportedVersion? && r.error.requested == version
    ensures r.Err? ==> (r.error.valid.Some? <==> LegacyGroupName in reg.groups)
    ensures r.Err? && r.error.valid.Some? ==> r.error.valid.value == reg.groups[LegacyGroupName].groupVersions
  {
    if version == LegacySchemeGroupVersion then
      Ok(VersionInterfaces(SharedScheme, SharedAccessor))
    else
      Err(UnsupportedVersion(version, reg.GroupVersionsOf(LegacyGroupName)))
  }

  // ---------------------------------------------------------------------
  // Group metadata and initialisation

  /** The metadata published for a non-empty enabled list. */
  function Assembled(vs: seq<GroupVersion>): (meta: GroupMeta)
    requires vs != []
  {
    GroupMeta(vs[0], vs, RESTMapperArgs(WorstToBest(vs), {}, {}))
  }

  /** enableVersions */
  method EnableGroupVersions(reg: Registry, externalVersions: seq<GroupVersion>) returns (err: Option<Error>)
    requires externalVersions != []
    modifies reg`internalTypesAdded, reg`schemeVersions, reg`groups
    ensures reg.internalTypesAdded
    ensures reg.schemeVersions == old(reg.schemeVersions) + SchemeAdditions(externalVersions, reg.enabledVersions)
    ensures err.None? <==> externalVersions[0].group !in old(reg.groups) && externalVersions[0].group !in reg.groupRefuses
    ensures err.Some? ==> err.value == GroupRejected(externalVersions[0].group) && reg.groups == old(reg.groups)
    ensures err.None? ==> reg.groups == old(reg.groups)[externalVersions[0].group := Assembled(externalVersions)]
  {
    AddVersionsToScheme(reg, externalVersions);
    var preferredExternalVersion := externalVersions[0];
    var restMapper := NewRESTMapper(externalVersions);
    var groupMeta := GroupMeta(preferredExternalVersion, externalVersions, restMapper);
    err := reg.RegisterGroup(groupMeta);
  }

  /** init, for a given catalog. The group is published exactly when some
      catalog version is allowed and both registry calls accept; a refused
      `EnableVersions` stops before anything else runs. That a group name
      already present ends fatally with the earlier registration intact
      rests on `RegisterGroup`'s assumed refusal of a present name. */
  method Init(reg: Registry, catalog: seq<GroupVersion>) returns (outcome: Outcome)
    modifies reg
    ensures reg.registeredVersions == old(reg.registeredVersions) + AsSet(catalog)
    ensures outcome == NotActive <==> forall v :: v in catalog ==> v !in reg.allowed
    ensures outcome == NotActive ==>
              && reg.enabledVersions == old(reg.enabledVersions)
              && reg.internalTypesAdded == old(reg.internalTypesAdded)
              && reg.schemeVersions == old(reg.schemeVersions)
              && reg.groups == old(reg.groups)
    ensures var ev := Gate(catalog, reg.allowed);
            outcome.Fatal? ==> ev != [] && (outcome.err == EnableRejected(ev) || outcome.err == GroupRejected(ev[0].group))
    ensures var ev := Gate(catalog, reg.allowed);
            ev != [] && ev[0].group in old(reg.groups) ==> outcome.Fatal? && reg.groups == old(reg.groups)
    ensures var ev := Gate(catalog, reg.allowed);
            outcome == Activated <==>
              ev != [] && !reg.enableRefuses && ev[0].group !in old(reg.groups) && ev[0].group !in reg.groupRefuses
    ensures var ev := Gate(catalog, reg.allowed);
            outcome == Fatal(EnableRejected(ev)) <==> ev != [] && reg.enableRefuses
    ensures var ev := Gate(catalog, reg.allowed);
            outcome == Fatal(EnableRejected(ev)) ==>
              && reg.enabledVersions == old(reg.enabledVersions)
              && reg.internalTypesAdded == old(reg.internalTypesAdded)
              && reg.schemeVersions == old(reg.schemeVersions)
              && reg.groups == old(reg.groups)
    ensures var ev := Gate(catalog, reg.allowed);
            (ev != [] && outcome == Fatal(GroupRejected(ev[0].group))) <==>
              ev != [] && !reg.enableRefuses && (ev[0].group in old(reg.groups) || ev[0].group in reg.groupRefuses)
    ensures var ev := Gate(catalog, reg.allowed);
            ev != [] && outcome == Fatal(GroupRejected(ev[0].group)) ==>
              && reg.enabledVersions == old(reg.enabledVersions) + AsSet(ev)
              && reg.internalTypesAdded
              && reg.schemeVersions == old(reg.schemeVersions) + SchemeAdditions(ev, reg.enabledVersions)
              && reg.groups == old(reg.groups)
    ensures var ev := Gate(catalog, reg.allowed);
            outcome == Activated ==>
              && ev != []
              && reg.enabledVersions == old(reg.enabledVersions) + AsSet(ev)
              && reg.internalTypesAdded
              && reg.schemeVersions == old(reg.schemeVersions) + SchemeAdditions(ev, reg.enabledVersions)
              && reg.groups == old(reg.groups)[ev[0].group := Assembled(ev)]
  {
    reg.RegisterVersions(catalog);
    var externalVersions := GateVersions(reg, catalog);
    GateEmpty(catalog, reg.allowed);
    if |externalVersions| == 0 {
      return NotActive;
    }
    var err := reg.EnableVersions(externalVersions);
    if err.Some? {
      return Fatal(err.value);
    }
    err := EnableGroupVersions(reg, externalVersions);
    if err.Some? {
      return Fatal(err.value);
    }
    outcome := Activated;
  }

  /** init as the group runs it, over availableVersions: the group is
      inactive exactly when the policy does not allow v1, and active exactly
      when it allows v1 and both registry calls accept; once active, v1 is preferred, its
      types are in the scheme, and the resolver serves exactly v1 and names
      [v1] as the valid list for anything else. Given `RegisterGroup`'s
      assumed refusal of a present name, a group already registered under
      the legacy name makes initialisation fatal and stays in place. */
  method InitTemplateGroup(reg: Registry) returns (outcome: Outcome)
    modifies reg
    ensures outcome == NotActive <==> LegacySchemeGroupVersion !in reg.allowed
    ensures outcome == NotActive ==> reg.groups == old(reg.groups) && reg.schemeVersions == old(reg.schemeVersions)
    ensures LegacySchemeGroupVersion in reg.allowed && LegacyGroupName in old(reg.groups) ==>
              outcome.Fatal? && reg.groups == old(reg.groups)
    ensures outcome == Activated <==>
              && LegacySchemeGroupVersion in reg.allowed
              && !reg.enableRefuses
              && LegacyGroupName !in old(reg.groups)
              && LegacyGroupName !in reg.groupRefuses
    ensures outcome == Activated ==>
              && LegacyGroupName in reg.groups
              && reg.groups[LegacyGroupName].groupVersion == LegacySchemeGroupVersion
              && reg.groups[LegacyGroupName].groupVersions == AvailableVersions
              && reg.groups[LegacyGroupName].restMapper.worstToBest == AvailableVersions
              && LegacySchemeGroupVersion in reg.schemeVersions
              && forall v :: v != LegacySchemeGroupVersion ==>
                   InterfacesFor(reg, v) == Err(UnsupportedVersion(v, Some(AvailableVersions)))
  {
    outcome := Init(reg, AvailableVersions);
    assert Gate(AvailableVersions, reg.allowed)
           == if LegacySchemeGroupVersion in reg.allowed then AvailableVersions else [];
    if outcome == Activated {
      SchemeAdditionsExactly(AvailableVersions, reg.enabledVersions);
    }
  }
}
