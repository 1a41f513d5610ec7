/** Grouping the 32-bit and 64-bit blobs of one library or binary into a prebuilt module. */
module Group {
  import opened Strings
  import opened BlobList
  import opened Sorting
  import opened Destinations
  import opened Names

  /** What one blob contributes to the module of the given name. */
  datatype Unit = Unit(name: string, kind: Kind, partition: string, stem: string, relpath: string, arch: Arch)

  datatype Role = Copied | Manifest | Part(unit: Unit)

  function UnitOf(dest: string, kind: Kind, tag: string, m: ElfMatch, arch: Arch): Unit {
    var relpath := RStripChar(m.subdir, '/');
    Unit(ModuleName([Partition(dest), tag, relpath, m.name]), kind, Partition(dest), m.name, relpath, arch)
  }

  function RoleFor(dest: string, c: Classification, lib: Option<ElfMatch>, bin: Option<ElfMatch>): Role
    requires c.kind.SharedLib? ==> lib.Some? && c.arch.Some?
    requires c.kind.Binary? ==> bin.Some? && c.arch.Some?
  {
    match c.kind
    case VintfManifest => Manifest
    case CopyFile => Copied
    case SharedLib => Part(UnitOf(dest, SharedLib, "lib", lib.value, c.arch.value))
    case Binary => Part(UnitOf(dest, Binary, "bin", bin.value, c.arch.value))
  }

  /** The regular expression that classified a destination matches again here: neither match can fail. */
  function RoleOf(dest: string): Role {
    RoleFor(dest, Classify(dest), MatchLib(PartitionDest(dest)), MatchBin(PartitionDest(dest)))
  }

  // ---------------------------------------------------------------- what a module must hold

  datatype ModuleView = ModuleView(
    name: string,
    kind: Kind,
    partition: string,
    stem: string,
    relativeInstallPath: string,
    compileMultilib: string,
    src32: Option<string>,
    src64: Option<string>)
  {
    function AddSource(arch: Arch, src: string): ModuleView {
      var v := if arch.Arch64? then this.(src64 := Some(src)) else this.(src32 := Some(src));
      v.(compileMultilib := Multilib(v.src32, v.src64))
    }
  }

  /** The first contribution under a name. */
  function FirstUnit(role: string -> Role, entries: seq<BlobEntry>, name: string): Option<Unit> {
    if entries == [] then None
    else
      var before := FirstUnit(role, entries[..|entries| - 1], name);
      var r := role(entries[|entries| - 1].dest);
      if before.Some? then before else if r.Part? && r.unit.name == name then Some(r.unit) else None
  }

  /** The source of the last contribution under a name and architecture. */
  function LastSource(role: string -> Role, entries: seq<BlobEntry>, name: string, arch: Arch): Option<string> {
    if entries == [] then None
    else
      var e := entries[|entries| - 1];
      var r := role(e.dest);
      if r.Part? && r.unit.name == name && r.unit.arch == arch then Some("proprietary/" + e.src)
      else LastSource(role, entries[..|entries| - 1], name, arch)
  }

  function Multilib(src32: Option<string>, src64: Option<string>): string {
    if src32.Some? && src64.Some? then "both" else if src64.Some? then "64" else "32"
  }

  function Expected(role: string -> Role, entries: seq<BlobEntry>, name: string): ModuleView
    requires FirstUnit(role, entries, name).Some?
  {
    var u := FirstUnit(role, entries, name).value;
    var src32 := LastSource(role, entries, name, Arch32);
    var src64 := LastSource(role, entries, name, Arch64);
    ModuleView(name, u.kind, u.partition, u.stem, u.relpath, Multilib(src32, src64), src32, src64)
  }

  function WithRole(role: string -> Role, entries: seq<BlobEntry>, r: Role): seq<BlobEntry> {
    if entries == [] then []
    else
      var e := entries[|entries| - 1];
      WithRole(role, entries[..|entries| - 1], r) + (if role(e.dest) == r then [e] else [])
  }

  // ---------------------------------------------------------------- the fold over mutable records

  class PrebuiltModule {
    const name: string
    const kind: Kind
    const partition: string
    const stem: string
    const relativeInstallPath: string
    var compileMultilib: string
    var src32: Option<string>
    var src64: Option<string>

    constructor (u: Unit, multilib: string)
      ensures View() == NewView(u, multilib)
      ensures name == u.name && kind == u.kind && partition == u.partition && stem == u.stem
      ensures relativeInstallPath == u.relpath && compileMultilib == multilib && src32.None? && src64.None?
    {
      name, kind, partition, stem := u.name, u.kind, u.partition, u.stem;
      relativeInstallPath, compileMultilib := u.relpath, multilib;
      src32, src64 := None, None;
    }

    function View(): ModuleView
      reads this
    {
      ModuleView(name, kind, partition, stem, relativeInstallPath, compileMultilib, src32, src64)
    }

    method AddSource(arch: Arch, src: string)
      modifies this
      ensures View() == old(View()).AddSource(arch, src)
      ensures arch.Arch64? ==> src64 == Some(src) && src32 == old(src32)
      ensures arch.Arch32? ==> src32 == Some(src) && src64 == old(src64)
    {
      if arch.Arch64? {
        src64 := Some(src);
      } else {
        src32 := Some(src);
      }
      compileMultilib := if src32.Some? && src64.Some? then "both" else if src64.Some? then "64" else "32";
    }
  }

  ghost predicate NoDuplicates(s: seq<string>) {
    forall i, j :: 0 <= i < j < |s| ==> s[i] != s[j]
  }

  /** The dictionary has one record for each name contributed to, with what the entries put there. */
  ghost predicate Holds(role: string -> Role, entries: seq<BlobEntry>, grouped: map<string, PrebuiltModule>)
    reads grouped.Values
  {
    && (forall n :: n in grouped <==> FirstUnit(role, entries, n).Some?)
    && (forall n :: n in grouped ==> grouped[n].View() == Expected(role, entries, n))
  }

  function NewView(u: Unit, multilib: string): ModuleView {
    ModuleView(u.name, u.kind, u.partition, u.stem, u.relpath, multilib, None, None)
  }

  /** What one more entry changes: nothing outside the name it contributes to. */
  lemma OneMore(role: string -> Role, before: seq<BlobEntry>, e: BlobEntry)
    ensures var r, after := role(e.dest), before + [e];
            forall n :: !(r.Part? && r.unit.name == n) ==>
              && FirstUnit(role, after, n) == FirstUnit(role, before, n)
              && (FirstUnit(role, before, n).Some? ==> Expected(role, after, n) == Expected(role, before, n))
  {
    assert (before + [e])[..|before|] == before;
  }

  /** What one more entry changes at its own name. */
  lemma OneMorePart(role: string -> Role, before: seq<BlobEntry>, e: BlobEntry, u: Unit, multilib: string)
    requires role(e.dest) == Part(u)
    ensures FirstUnit(role, before + [e], u.name).Some?
    ensures var v := if FirstUnit(role, before, u.name).Some? then Expected(role, before, u.name) else NewView(u, multilib);
            Expected(role, before + [e], u.name) == v.AddSource(u.arch, "proprietary/" + e.src)
  {
    assert (before + [e])[..|before|] == before;
    if FirstUnit(role, before, u.name).None? {
      NoSource(role, before, u.name, Arch32);
      NoSource(role, before, u.name, Arch64);
    }
  }

  /** A blob of a name seen before updates the record in place. */
  method AddToModule(role: string -> Role, ghost before: seq<BlobEntry>, entry: BlobEntry, u: Unit,
                     grouped: map<string, PrebuiltModule>)
    requires role(entry.dest) == Part(u) && u.name in grouped
    requires Holds(role, before, grouped)
    modifies grouped[u.name]
    ensures Holds(role, before + [entry], grouped)
  {
    OneMore(role, before, entry);
    OneMorePart(role, before, entry, u, "");
    assert forall n :: n in grouped ==> grouped[n].View().name == n;
    grouped[u.name].AddSource(u.arch, "proprietary/" + entry.src);
  }

  /** A blob of a new name adds a record. */
  method AddModule(role: string -> Role, ghost before: seq<BlobEntry>, entry: BlobEntry, u: Unit,
                   grouped: map<string, PrebuiltModule>)
    returns (prebuilt: PrebuiltModule)
    requires role(entry.dest) == Part(u) && u.name !in grouped
    requires Holds(role, before, grouped)
    ensures fresh(prebuilt)
    ensures Holds(role, before + [entry], grouped[u.name := prebuilt])
  {
    var multilib := if u.kind.SharedLib? then "32" else "64";
    OneMore(role, before, entry);
    OneMorePart(role, before, entry, u, multilib);
    prebuilt := new PrebuiltModule(u, multilib);
    prebuilt.AddSource(u.arch, "proprietary/" + entry.src);
  }

  lemma WithRoleSnoc(role: string -> Role, before: seq<BlobEntry>, e: BlobEntry, r: Role)
    ensures WithRole(role, before + [e], r) == if role(e.dest) == r then WithRole(role, before, r) + [e] else WithRole(role, before, r)
  {
    assert (before + [e])[..|before|] == before;
  }

  /** An entry that contributes to no module leaves them all as they are. */
  lemma HoldsStill(role: string -> Role, before: seq<BlobEntry>, e: BlobEntry, grouped: map<string, PrebuiltModule>)
    requires Holds(role, before, grouped) && !role(e.dest).Part?
    ensures Holds(role, before + [e], grouped)
  {
    OneMore(role, before, e);
  }

  lemma NoDuplicatesSnoc(s: seq<string>, x: string)
    requires NoDuplicates(s) && x !in s
    ensures NoDuplicates(s + [x])
  {
  }

  ghost predicate Ordered(order: seq<string>, grouped: map<string, PrebuiltModule>) {
    NoDuplicates(order) && forall n :: n in order <==> n in grouped
  }

  /** One contribution: to the module of its name, or to a new one. */
  method AddPart(role: string -> Role, ghost before: seq<BlobEntry>, entry: BlobEntry, u: Unit,
                 grouped: map<string, PrebuiltModule>, order: seq<string>)
    returns (grouped': map<string, PrebuiltModule>, order': seq<string>)
    requires role(entry.dest) == Part(u)
    requires Holds(role, before, grouped) && Ordered(order, grouped)
    modifies if u.name in grouped then {grouped[u.name]} else {}
    ensures Holds(role, before + [entry], grouped') && Ordered(order', grouped')
    ensures forall n :: n in grouped' ==> (n in grouped && grouped'[n] == grouped[n]) || fresh(grouped'[n])
  {
    if u.name in grouped {
      AddToModule(role, before, entry, u, grouped);
      grouped', order' := grouped, order;
    } else {
      var prebuilt := AddModule(role, before, entry, u, grouped);
      grouped' := grouped[u.name := prebuilt];
      NoDuplicatesSnoc(order, u.name);
      order' := order + [u.name];
    }
  }

  /** The loop's variables after these entries. */
  ghost predicate Grouped(role: string -> Role, entries: seq<BlobEntry>, grouped: map<string, PrebuiltModule>,
                          order: seq<string>, copyFiles: seq<BlobEntry>, vintfManifests: seq<BlobEntry>)
    reads grouped.Values
  {
    && Holds(role, entries, grouped) && Ordered(order, grouped)
    && copyFiles == WithRole(role, entries, Copied) && vintfManifests == WithRole(role, entries, Manifest)
  }

  method AddEntry(role: string -> Role, ghost before: seq<BlobEntry>, entry: BlobEntry,
                  grouped: map<string, PrebuiltModule>, order: seq<string>,
                  copyFiles: seq<BlobEntry>, vintfManifests: seq<BlobEntry>)
    returns (grouped': map<string, PrebuiltModule>, order': seq<string>,
             copyFiles': seq<BlobEntry>, vintfManifests': seq<BlobEntry>)
    requires Grouped(role, before, grouped, order, copyFiles, vintfManifests)
    modifies grouped.Values
    ensures Grouped(role, before + [entry], grouped', order', copyFiles', vintfManifests')
    ensures forall n :: n in grouped' ==> (n in grouped && grouped'[n] == grouped[n]) || fresh(grouped'[n])
  {
    grouped', order', copyFiles', vintfManifests' := grouped, order, copyFiles, vintfManifests;
    WithRoleSnoc(role, before, entry, Copied);
    WithRoleSnoc(role, before, entry, Manifest);
    match role(entry.dest) {
    case Manifest =>
      HoldsStill(role, before, entry, grouped);
      vintfManifests' := vintfManifests + [entry];
    case Copied =>
      HoldsStill(role, before, entry, grouped);
      copyFiles' := copyFiles + [entry];
    case Part(u) =>
      grouped', order' := AddPart(role, before, entry, u, grouped, order);
    }
  }

  method GroupEntries(role: string -> Role, entries: seq<BlobEntry>)
    returns (grouped: map<string, PrebuiltModule>, order: seq<string>,
             copyFiles: seq<BlobEntry>, vintfManifests: seq<BlobEntry>)
    ensures Grouped(role, entries, grouped, order, copyFiles, vintfManifests)
  {
    grouped, order, copyFiles, vintfManifests := map[], [], [], [];
    for i := 0 to |entries|
      invariant forall n :: n in grouped ==> fresh(grouped[n])
      invariant Grouped(role, entries[..i], grouped, order, copyFiles, vintfManifests)
    {
      assert entries[..i + 1] == entries[..i] + [entries[i]];
      grouped, order, copyFiles, vintfManifests :=
        AddEntry(role, entries[..i], entries[i], grouped, order, copyFiles, vintfManifests);
    }
    assert entries[..|entries|] == entries;
  }

  /** The modules are strictly sorted by name, one for each name some entry contributes to, each holding what
      the entries of that name put there. */
  ghost predicate Built(role: string -> Role, entries: seq<BlobEntry>, modules: seq<PrebuiltModule>)
    reads set m | m in modules
  {
    && (forall i, j :: 0 <= i < j < |modules| ==> Less(modules[i].name, modules[j].name))
    && (forall n :: FirstUnit(role, entries, n).Some? <==> exists i :: 0 <= i < |modules| && modules[i].name == n)
    && (forall i :: 0 <= i < |modules| ==>
          && FirstUnit(role, entries, modules[i].name).Some?
          && modules[i].View() == Expected(role, entries, modules[i].name))
  }

  /** The modules come out as specified; the other entries come out in order. */
  method MakePrebuiltModules(role: string -> Role, entries: seq<BlobEntry>)
    returns (modules: seq<PrebuiltModule>, copyFiles: seq<BlobEntry>, vintfManifests: seq<BlobEntry>)
    ensures Built(role, entries, modules)
    ensures copyFiles == WithRole(role, entries, Copied)
    ensures vintfManifests == WithRole(role, entries, Manifest)
  {
    var grouped, order;
    grouped, order, copyFiles, vintfManifests := GroupEntries(role, entries);
    var names := Sort(order, Id);
    assert forall n :: n in names <==> n in grouped by { SortMembers(order, Id); }
    assert StrictlySorted(names, Id) by { SortStrict(order, Id); }
    modules := seq(|names|, i requires 0 <= i < |names| => assert names[i] in names; grouped[names[i]]);
    forall i | 0 <= i < |modules| ensures modules[i].name == names[i] && names[i] in grouped {
      assert names[i] in names;
      assert grouped[names[i]].View() == Expected(role, entries, names[i]);
    }
  }

  lemma {:induction false} NoSource(role: string -> Role, entries: seq<BlobEntry>, name: string, arch: Arch)
    requires FirstUnit(role, entries, name).None?
    ensures LastSource(role, entries, name, arch).None?
  {
    if entries != [] {
      NoSource(role, entries[..|entries| - 1], name, arch);
    }
  }
}
