/**
 * The build: for every registered component and every A-Frame version, in
 * the order of the version list, the component's record for that version is
 * fetched from its pinned entry, inherited from the previous version, or left
 * out. `Resolve` says what the record is; `Builder` fills the output map the
 * way the build script does, one version after the other.
 *
 * The build treats the metadata fetch as a black box: it is a parameter of
 * type `MetadataFn` here, and `RunBuild` instantiates it with
 * `Metadata.FetchMetadata` over a network.
 */
module Build {
  import opened Wrappers
  import Strings
  import opened Sources
  import opened Metadata

  /** `fetchMetadata(npmName, component, entry)`: the record built for one
      pinned entry, or None when the fetch fails. */
  type MetadataFn = (string, ModuleDecl, VersionEntry) -> Option<Record>

  /** The metadata fetch over a network. */
  function MetadataFetch(net: Network): MetadataFn {
    (n, d, e) => FetchMetadata(n, d, e, net)
  }

  /** The A-Frame major versions, oldest first. */
  const AframeVersions: seq<string> := ["0.2.0", "0.3.0"]

  /** A component's entry in the registry for one A-Frame version. */
  datatype Slot = Absent | Incompatible | Pinned(entry: VersionEntry)

  function SlotOf(decl: ModuleDecl, v: string): Slot {
    if v !in decl.versions then Absent
    else match decl.versions[v]
      case None => Incompatible
      case Some(e) => Pinned(e)
  }

  /** What the version step does: skip an incompatible version, stop at the
      first version, inherit from the previous one, or fetch the pinned entry. */
  datatype Step = Skip | NoPrevious | FallBack | FetchEntry(entry: VersionEntry)

  /** The guard meant to catch an explicit `null`: it asks for a value that is
      truthy and `null` at once. */
  predicate NullGuardAsWritten(slot: Slot) {
    slot.Pinned? && slot.Incompatible?
  }

  /** The step as written: the `null` guard never fires, so an explicit
      `null` takes the fallback path like a missing entry. */
  function StepAsWritten(slot: Slot, index: nat): Step {
    if NullGuardAsWritten(slot) then Skip
    else if !slot.Pinned? then (if index == 0 then NoPrevious else FallBack)
    else FetchEntry(slot.entry)
  }

  /** The step as intended: an explicit `null` marks the version incompatible. */
  function StepFor(slot: Slot, index: nat): (s: Step)
    ensures s.Skip? <==> slot.Incompatible?
    ensures s.FetchEntry? <==> slot.Pinned?
    ensures s.NoPrevious? <==> slot.Absent? && index == 0
    ensures s.FallBack? <==> slot.Absent? && index > 0
    ensures s.FetchEntry? ==> s.entry == slot.entry
  {
    match slot
    case Incompatible => Skip
    case Absent => if index == 0 then NoPrevious else FallBack
    case Pinned(e) => FetchEntry(e)
  }

  /** The two agree everywhere except on an explicit `null`, which the
      written guard sends down the path of a missing entry. */
  lemma StepAsWrittenDiffersOnNull(slot: Slot, index: nat)
    ensures !NullGuardAsWritten(slot)
    ensures StepAsWritten(slot, index) != StepFor(slot, index) <==> slot.Incompatible?
    ensures slot.Incompatible? ==> StepAsWritten(slot, index) == StepFor(Absent, index)
  {
  }

  /** The record inherited from the previous version: the same record with
      `fallbackVersion` set to that version. */
  function Inherit(prev: Option<Record>, previous: string): (r: Option<Record>)
    ensures r.Some? <==> prev.Some?
    ensures r.Some? ==> r.value.fallbackVersion == Some(previous)
    ensures r.Some? ==> r.value.(fallbackVersion := prev.value.fallbackVersion) == prev.value
  {
    match prev
    case None => None
    case Some(p) => Some(p.(fallbackVersion := Some(previous)))
  }

  /** The record the version step at index `i` yields, given the record at
      index `i - 1`. */
  function StepRecord(step: Step, npmName: string, decl: ModuleDecl, versions: seq<string>, i: nat,
                      prev: Option<Record>, fetch: MetadataFn): Option<Record>
    requires i < |versions|
  {
    match step
    case Skip => None
    case NoPrevious => None
    case FallBack => if i == 0 then None else Inherit(prev, versions[i - 1])
    case FetchEntry(e) => fetch(npmName, decl, e)
  }

  /** The record of the component at A-Frame version `versions[i]`. */
  function Resolve(npmName: string, decl: ModuleDecl, versions: seq<string>, i: nat, fetch: MetadataFn): Option<Record>
    requires i < |versions|
  {
    StepRecord(StepFor(SlotOf(decl, versions[i]), i), npmName, decl, versions, i,
      if i == 0 then None else Resolve(npmName, decl, versions, i - 1, fetch), fetch)
  }

  /** The same with the step as written. */
  function ResolveAsWritten(npmName: string, decl: ModuleDecl, versions: seq<string>, i: nat, fetch: MetadataFn): Option<Record>
    requires i < |versions|
  {
    StepRecord(StepAsWritten(SlotOf(decl, versions[i]), i), npmName, decl, versions, i,
      if i == 0 then None else ResolveAsWritten(npmName, decl, versions, i - 1, fetch), fetch)
  }

  // ---------------------------------------------------------------------------
  // One version step

  /** A pinned entry gives exactly the record fetched for it. */
  lemma ResolvePinned(npmName: string, decl: ModuleDecl, versions: seq<string>, i: nat, fetch: MetadataFn)
    requires i < |versions| && SlotOf(decl, versions[i]).Pinned?
    ensures Resolve(npmName, decl, versions, i, fetch) == fetch(npmName, decl, SlotOf(decl, versions[i]).entry)
  {
  }

  /** No entry at the first version: no record. */
  lemma ResolveFirstAbsent(npmName: string, decl: ModuleDecl, versions: seq<string>, fetch: MetadataFn)
    requires |versions| > 0 && SlotOf(decl, versions[0]).Absent?
    ensures Resolve(npmName, decl, versions, 0, fetch).None?
  {
  }

  /** No entry at a later version: the previous version's record with every
      field kept but `fallbackVersion`, which names the previous version; and
      no record when the previous version has none. */
  lemma ResolveFallBack(npmName: string, decl: ModuleDecl, versions: seq<string>, i: nat, fetch: MetadataFn)
    requires 0 < i < |versions| && SlotOf(decl, versions[i]).Absent?
    ensures var prev := Resolve(npmName, decl, versions, i - 1, fetch);
      var r := Resolve(npmName, decl, versions, i, fetch);
      && (prev.None? ==> r.None?)
      && (prev.Some? ==> r.Some? && r.value.fallbackVersion == Some(versions[i - 1])
                                 && r.value.(fallbackVersion := prev.value.fallbackVersion) == prev.value)
  {
  }

  /** An explicit `null` gives no record, whatever earlier versions resolved to. */
  lemma ResolveIncompatible(npmName: string, decl: ModuleDecl, versions: seq<string>, i: nat, fetch: MetadataFn)
    requires i < |versions| && SlotOf(decl, versions[i]).Incompatible?
    ensures Resolve(npmName, decl, versions, i, fetch).None?
  {
  }

  /** Over a network, a pinned entry whose package.json is not served gives
      no record. */
  lemma ResolveFailedFetch(npmName: string, decl: ModuleDecl, versions: seq<string>, i: nat, net: Network)
    requires i < |versions| && SlotOf(decl, versions[i]).Pinned?
    requires net.npm(NpmPackageJsonUrl(npmName, SlotOf(decl, versions[i]).entry)).None?
    ensures Resolve(npmName, decl, versions, i, MetadataFetch(net)).None?
  {
    var e := SlotOf(decl, versions[i]).entry;
    assert MetadataFetch(net)(npmName, decl, e) == FetchMetadata(npmName, decl, e, net);
  }

  /** The package.json URL fetched for a pinned entry. */
  function NpmPackageJsonUrl(npmName: string, entry: VersionEntry): string {
    Strings.UrlJoin(PackageRoot(npmName, entry.version), "package.json")
  }

  // ---------------------------------------------------------------------------
  // Chains of fallbacks

  /** The last index at or before `i` whose entry is not missing. */
  function Origin(decl: ModuleDecl, versions: seq<string>, i: nat): (r: Option<nat>)
    requires i < |versions|
    ensures r.Some? ==> r.value <= i && !SlotOf(decl, versions[r.value]).Absent?
    ensures r.Some? ==> forall k :: r.value < k <= i ==> SlotOf(decl, versions[k]).Absent?
    ensures r.None? ==> forall k :: 0 <= k <= i ==> SlotOf(decl, versions[k]).Absent?
  {
    if !SlotOf(decl, versions[i]).Absent? then Some(i)
    else if i == 0 then None
    else Origin(decl, versions, i - 1)
  }

  /** Fallback is one hop at a time: the record at `i` is the one fetched at
      the last index `k <= i` with an entry, and when `k < i` it carries
      `fallbackVersion == versions[i - 1]`, the version just before, not
      `versions[k]`. An explicit `null` at `k`, or no entry at all up to `i`,
      gives no record. */
  lemma {:induction false} ResolveViaOrigin(npmName: string, decl: ModuleDecl, versions: seq<string>, i: nat, fetch: MetadataFn)
    requires i < |versions|
    ensures var o := Origin(decl, versions, i);
      var r := Resolve(npmName, decl, versions, i, fetch);
      && (o.None? ==> r.None?)
      && (o.Some? && SlotOf(decl, versions[o.value]).Incompatible? ==> r.None?)
      && (o.Some? && o.value == i && SlotOf(decl, versions[i]).Pinned? ==>
            r == fetch(npmName, decl, SlotOf(decl, versions[i]).entry))
      && (o.Some? && o.value < i && SlotOf(decl, versions[o.value]).Pinned? ==>
            r == Inherit(fetch(npmName, decl, SlotOf(decl, versions[o.value]).entry), versions[i - 1]))
  {
    if i > 0 && SlotOf(decl, versions[i]).Absent? {
      ResolveViaOrigin(npmName, decl, versions, i - 1, fetch);
      var o := Origin(decl, versions, i - 1);
      if o.Some? && o.value < i - 1 && SlotOf(decl, versions[o.value]).Pinned? {
        var f := fetch(npmName, decl, SlotOf(decl, versions[o.value]).entry);
        assert Inherit(Inherit(f, versions[i - 2]), versions[i - 1]) == Inherit(f, versions[i - 1]);
      }
    }
  }

  /** The build's own example: `test` pinned at 0.2.0 and missing at 0.3.0
      resolves at 0.3.0 to the 0.2.0 record, marked as a fallback to 0.2.0 and
      with the same file. */
  lemma FallBackExample(decl: ModuleDecl, e: VersionEntry, fetch: MetadataFn)
    requires decl.versions == map["0.2.0" := Some(e)]
    ensures var r0 := Resolve("test", decl, AframeVersions, 0, fetch);
      var r1 := Resolve("test", decl, AframeVersions, 1, fetch);
      && (r0.Some? <==> r1.Some?)
      && (r1.Some? ==> r1.value.fallbackVersion == Some("0.2.0") && r1.value.file == r0.value.file)
  {
    assert SlotOf(decl, AframeVersions[0]) == Pinned(e);
    assert "0.3.0" != "0.2.0";
    assert SlotOf(decl, AframeVersions[1]) == Absent;
  }

  /** The incompatibility example: `null` at 0.3.0 leaves the component out
      of 0.3.0, while the written guard would inherit the 0.2.0 record there. */
  lemma IncompatibleExample(decl: ModuleDecl, e: VersionEntry, fetch: MetadataFn)
    requires decl.versions == map["0.2.0" := Some(e), "0.3.0" := None]
    ensures Resolve("test", decl, AframeVersions, 1, fetch).None?
    ensures var r0 := Resolve("test", decl, AframeVersions, 0, fetch);
      r0.Some? ==> ResolveAsWritten("test", decl, AframeVersions, 1, fetch) == Inherit(r0, "0.2.0")
  {
    assert SlotOf(decl, AframeVersions[0]) == Pinned(e);
    assert SlotOf(decl, AframeVersions[1]) == Incompatible;
    assert ResolveAsWritten("test", decl, AframeVersions, 0, fetch) == Resolve("test", decl, AframeVersions, 0, fetch);
  }

  // ---------------------------------------------------------------------------
  // The output map

  /** One version's output file. */
  datatype VersionOutput = VersionOutput(components: map<string, Record>)

  /** The record the output holds for component `n` at version `v`. */
  function Lookup(output: map<string, VersionOutput>, v: string, n: string): Option<Record> {
    if v in output && n in output[v].components then Some(output[v].components[n]) else None
  }

  function Put(output: map<string, VersionOutput>, v: string, n: string, r: Record): map<string, VersionOutput>
    requires v in output
  {
    output[v := VersionOutput(output[v].components[n := r])]
  }

  /** Storing a record changes that one entry and nothing else. */
  lemma LookupPut(output: map<string, VersionOutput>, v: string, n: string, r: Record, v2: string, n2: string)
    requires v in output
    ensures Put(output, v, n, r).Keys == output.Keys
    ensures Lookup(Put(output, v, n, r), v2, n2) == if v2 == v && n2 == n then Some(r) else Lookup(output, v2, n2)
  {
  }

  /** Storing an optional record where the output holds none: that one entry
      becomes the record and nothing else changes. */
  lemma PutFrame(before: map<string, VersionOutput>, after: map<string, VersionOutput>, v: string, n: string, r: Option<Record>)
    requires v in before && Lookup(before, v, n).None?
    requires after == if r.Some? then Put(before, v, n, r.value) else before
    ensures after.Keys == before.Keys
    ensures forall v2, n2 :: Lookup(after, v2, n2) == if v2 == v && n2 == n then r else Lookup(before, v2, n2)
  {
    forall v2, n2
      ensures Lookup(after, v2, n2) == if v2 == v && n2 == n then r else Lookup(before, v2, n2)
    {
      if r.Some? {
        LookupPut(before, v, n, r.value, v2, n2);
      }
    }
  }

  /** The version step applied to the previous version's resolved record is
      the resolved record. */
  lemma ResolveUnfold(npmName: string, decl: ModuleDecl, versions: seq<string>, i: nat, prev: Option<Record>, fetch: MetadataFn)
    requires i < |versions|
    requires prev == if i == 0 then None else Resolve(npmName, decl, versions, i - 1, fetch)
    ensures StepRecord(StepFor(SlotOf(decl, versions[i]), i), npmName, decl, versions, i, prev, fetch)
         == Resolve(npmName, decl, versions, i, fetch)
  {
  }

  predicate Distinct(versions: seq<string>) {
    forall i, j :: 0 <= i < j < |versions| ==> versions[i] != versions[j]
  }

  /** The record the build produces for component `n` at `versions[k]`. */
  function Built(registry: map<string, ModuleDecl>, versions: seq<string>, k: nat, n: string, fetch: MetadataFn): Option<Record>
    requires k < |versions|
  {
    if n in registry then Resolve(n, registry[n], versions, k, fetch) else None
  }

  /** The output map with its version files, kept in sync with the version list. */
  class Builder {
    const versions: seq<string>
    var output: map<string, VersionOutput>

    ghost predicate Valid()
      reads this
    {
      && Distinct(versions)
      && (forall i :: 0 <= i < |versions| ==> versions[i] in output)
      && (forall v :: v in output ==> v in versions)
    }

    /** One output file per version, each with an empty component map. */
    constructor (versions: seq<string>)
      requires Distinct(versions)
      ensures this.versions == versions && Valid()
      ensures forall v :: v in output ==> output[v].components == map[]
    {
      this.versions := versions;
      var out: map<string, VersionOutput> := map[];
      var i := 0;
      while i < |versions|
        invariant 0 <= i <= |versions|
        invariant forall v :: v in out <==> v in versions[..i]
        invariant forall v :: v in out ==> out[v].components == map[]
      {
        assert versions[..i + 1] == versions[..i] + [versions[i]];
        out := out[versions[i] := VersionOutput(map[])];
        i := i + 1;
      }
      assert versions[..i] == versions;
      output := out;
    }

    /** `processVersion(aframeVersion, index)` for one component: writes the
        component's record at `versions[i]` when the step yields one, and
        changes nothing else. */
    method ProcessVersion(npmName: string, decl: ModuleDecl, i: nat, fetch: MetadataFn)
      requires Valid() && i < |versions|
      modifies this
      ensures Valid()
      ensures var prev := if i == 0 then None else Lookup(old(output), versions[i - 1], npmName);
        var r := StepRecord(StepFor(SlotOf(decl, versions[i]), i), npmName, decl, versions, i, prev, fetch);
        output == if r.Some? then Put(old(output), versions[i], npmName, r.value) else old(output)
    {
      var v := versions[i];
      match StepFor(SlotOf(decl, v), i)
      case Skip =>
      case NoPrevious =>
      case FallBack =>
        var prev := Lookup(output, versions[i - 1], npmName);
        if prev.Some? {
          output := Put(output, v, npmName, prev.value.(fallbackVersion := Some(versions[i - 1])));
        }
      case FetchEntry(e) =>
        var rec := fetch(npmName, decl, e);
        if rec.Some? {
          output := Put(output, v, npmName, rec.value);
        }
    }

    /** `processComponent(npmName)`: the version steps in list order. Each
        version ends up holding the resolved record of the component, and
        the records of all other components stay as they were. */
    method ProcessComponent(npmName: string, decl: ModuleDecl, fetch: MetadataFn)
      requires Valid()
      requires forall k :: 0 <= k < |versions| ==> Lookup(output, versions[k], npmName).None?
      modifies this
      ensures Valid()
      ensures forall k :: 0 <= k < |versions| ==> Lookup(output, versions[k], npmName) == Resolve(npmName, decl, versions, k, fetch)
      ensures forall v, n :: n != npmName ==> Lookup(output, v, n) == Lookup(old(output), v, n)
    {
      var i := 0;
      while i < |versions|
        invariant i <= |versions| && Valid()
        invariant ComponentProgress(output, old(output), versions, i, npmName, decl, fetch)
      {
        ghost var before := output;
        ProcessVersion(npmName, decl, i, fetch);
        ComponentStep(before, output, old(output), versions, i, npmName, decl, fetch);
        i := i + 1;
      }
    }

    /** The build over the whole registry: `processComponent` for every
        registered component, in any order. Each version file ends up with
        the resolved record of every component that has one, and nothing
        else. */
    method BuildAll(registry: map<string, ModuleDecl>, fetch: MetadataFn)
      requires Valid()
      requires forall v, n :: Lookup(output, v, n).None?
      modifies this
      ensures Valid()
      ensures forall k, n :: 0 <= k < |versions| ==> Lookup(output, versions[k], n) == Built(registry, versions, k, n, fetch)
    {
      var remaining := registry.Keys;
      while remaining != {}
        invariant Valid()
        invariant BuildProgress(output, versions, registry, remaining, fetch)
        decreases remaining
      {
        var n :| n in remaining;
        ghost var before := output;
        ProcessComponent(n, registry[n], fetch);
        BuildStep(before, output, versions, registry, remaining, n, fetch);
        remaining := remaining - {n};
      }
    }
  }

  /** Component `npmName` is resolved at the first `i` versions and absent at
      the others, and every other component is as in `init`. */
  ghost predicate ComponentProgress(out: map<string, VersionOutput>, init: map<string, VersionOutput>, versions: seq<string>,
                              i: nat, npmName: string, decl: ModuleDecl, fetch: MetadataFn)
    requires i <= |versions|
  {
    && (forall k :: 0 <= k < i ==> Lookup(out, versions[k], npmName) == Resolve(npmName, decl, versions, k, fetch))
    && (forall k :: i <= k < |versions| ==> Lookup(out, versions[k], npmName).None?)
    && (forall v, n :: n != npmName ==> Lookup(out, v, n) == Lookup(init, v, n))
  }

  /** One version step of `processComponent` keeps `ComponentProgress`. */
  lemma ComponentStep(before: map<string, VersionOutput>, after: map<string, VersionOutput>, init: map<string, VersionOutput>,
                      versions: seq<string>, i: nat, npmName: string, decl: ModuleDecl, fetch: MetadataFn)
    requires i < |versions| && Distinct(versions) && versions[i] in before
    requires ComponentProgress(before, init, versions, i, npmName, decl, fetch)
    requires var prev := if i == 0 then None else Lookup(before, versions[i - 1], npmName);
      var r := StepRecord(StepFor(SlotOf(decl, versions[i]), i), npmName, decl, versions, i, prev, fetch);
      after == if r.Some? then Put(before, versions[i], npmName, r.value) else before
    ensures ComponentProgress(after, init, versions, i + 1, npmName, decl, fetch)
  {
    var prev := if i == 0 then None else Lookup(before, versions[i - 1], npmName);
    ResolveUnfold(npmName, decl, versions, i, prev, fetch);
    var r := Resolve(npmName, decl, versions, i, fetch);
    PutFrame(before, after, versions[i], npmName, r);
    forall k | 0 <= k < |versions| && k != i
      ensures Lookup(after, versions[k], npmName) == Lookup(before, versions[k], npmName)
    {
      assert versions[k] != versions[i];
    }
    forall k | 0 <= k < i + 1
      ensures Lookup(after, versions[k], npmName) == Resolve(npmName, decl, versions, k, fetch)
    {
    }
    forall v, n | n != npmName
      ensures Lookup(after, v, n) == Lookup(init, v, n)
    {
      assert Lookup(after, v, n) == Lookup(before, v, n);
    }
  }

  /** The components outside `remaining` are built and those inside are absent. */
  ghost predicate BuildProgress(out: map<string, VersionOutput>, versions: seq<string>, registry: map<string, ModuleDecl>,
                          remaining: set<string>, fetch: MetadataFn)
  {
    && remaining <= registry.Keys
    && (forall k, n :: 0 <= k < |versions| ==>
          Lookup(out, versions[k], n) == if n in remaining then None else Built(registry, versions, k, n, fetch))
    && (forall v, n :: n in remaining ==> Lookup(out, v, n).None?)
  }

  /** Processing one remaining component keeps `BuildProgress`. */
  lemma BuildStep(before: map<string, VersionOutput>, after: map<string, VersionOutput>, versions: seq<string>,
                  registry: map<string, ModuleDecl>, remaining: set<string>, n: string, fetch: MetadataFn)
    requires n in remaining && BuildProgress(before, versions, registry, remaining, fetch)
    requires forall k :: 0 <= k < |versions| ==> Lookup(after, versions[k], n) == Resolve(n, registry[n], versions, k, fetch)
    requires forall v, n2 :: n2 != n ==> Lookup(after, v, n2) == Lookup(before, v, n2)
    ensures BuildProgress(after, versions, registry, remaining - {n}, fetch)
  {
  }

  /** A build run over the A-Frame versions: one output file per version,
      holding exactly the registered components that resolve there, each with
      its resolved record. An empty registry gives empty files. */
  method RunBuild(registry: map<string, ModuleDecl>, net: Network) returns (out: map<string, VersionOutput>)
    ensures forall v :: v in out <==> v in AframeVersions
    ensures forall k, n :: 0 <= k < |AframeVersions| ==>
      Lookup(out, AframeVersions[k], n) == Built(registry, AframeVersions, k, n, MetadataFetch(net))
    ensures forall k :: 0 <= k < |AframeVersions| ==>
      out[AframeVersions[k]].components.Keys ==
        set n | n in registry && Resolve(n, registry[n], AframeVersions, k, MetadataFetch(net)).Some?
  {
    assert "0.2.0" != "0.3.0";
    var fetch := MetadataFetch(net);
    var b := new Builder(AframeVersions);
    b.BuildAll(registry, fetch);
    out := b.output;
    forall k | 0 <= k < |AframeVersions|
      ensures out[AframeVersions[k]].components.Keys ==
        set n | n in registry && Resolve(n, registry[n], AframeVersions, k, fetch).Some?
    {
      forall n
        ensures n in out[AframeVersions[k]].components <==> n in registry && Resolve(n, registry[n], AframeVersions, k, fetch).Some?
      {
        assert Lookup(out, AframeVersions[k], n) == Built(registry, AframeVersions, k, n, fetch);
      }
    }
  }
}
