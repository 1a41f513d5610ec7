/** What the grouping guarantees for every input list. */
module GroupLaws {
  import opened Strings
  import opened BlobList
  import opened Destinations
  import opened Names
  import opened NameTokens
  import opened Group

  /** Entry i contributes to the module of this name. */
  ghost predicate Contributes(role: string -> Role, entries: seq<BlobEntry>, name: string, i: int) {
    0 <= i < |entries| && role(entries[i].dest).Part? && role(entries[i].dest).unit.name == name
  }

  ghost predicate IsFirst(role: string -> Role, entries: seq<BlobEntry>, name: string, i: int) {
    Contributes(role, entries, name, i) && forall j :: 0 <= j < i ==> !Contributes(role, entries, name, j)
  }

  /** Entry i contributes to it for this architecture. */
  ghost predicate Supplies(role: string -> Role, entries: seq<BlobEntry>, name: string, arch: Arch, i: int) {
    Contributes(role, entries, name, i) && role(entries[i].dest).unit.arch == arch
  }

  ghost predicate IsLast(role: string -> Role, entries: seq<BlobEntry>, name: string, arch: Arch, i: int) {
    Supplies(role, entries, name, arch, i) && forall j :: i < j < |entries| ==> !Supplies(role, entries, name, arch, j)
  }

  /** The identity of a module is the first contribution's, and no other entry's. */
  lemma {:induction false} FirstUnitIff(role: string -> Role, entries: seq<BlobEntry>, name: string)
    ensures FirstUnit(role, entries, name).None? <==> forall i :: !Contributes(role, entries, name, i)
    ensures forall i :: IsFirst(role, entries, name, i) ==> FirstUnit(role, entries, name) == Some(role(entries[i].dest).unit)
    ensures FirstUnit(role, entries, name).Some? ==> exists i :: IsFirst(role, entries, name, i)
  {
    if entries != [] {
      var n := |entries| - 1;
      var before := entries[..n];
      FirstUnitIff(role, before, name);
      assert forall i :: 0 <= i < n ==> Contributes(role, entries, name, i) == Contributes(role, before, name, i);
      assert forall i :: 0 <= i < n ==> IsFirst(role, entries, name, i) == IsFirst(role, before, name, i);
      assert Contributes(role, entries, name, n)
             == (role(entries[n].dest).Part? && role(entries[n].dest).unit.name == name);
      assert FirstUnit(role, before, name).None? && Contributes(role, entries, name, n) ==> IsFirst(role, entries, name, n);
    }
  }

  lemma {:induction false} FindLast(role: string -> Role, entries: seq<BlobEntry>, name: string, arch: Arch)
    returns (last: int)
    ensures LastSource(role, entries, name, arch).None? ==> forall i :: !Supplies(role, entries, name, arch, i)
    ensures LastSource(role, entries, name, arch).Some? ==>
              && IsLast(role, entries, name, arch, last)
              && LastSource(role, entries, name, arch) == Some("proprietary/" + entries[last].src)
  {
    last := |entries| - 1;
    if entries != [] && !Supplies(role, entries, name, arch, last) {
      var before := entries[..last];
      assert forall i :: 0 <= i < last ==> Supplies(role, entries, name, arch, i) == Supplies(role, before, name, arch, i);
      last := FindLast(role, before, name, arch);
    }
  }

  /** The source of a module for an architecture is the last contribution's for that architecture. */
  lemma LastSourceIff(role: string -> Role, entries: seq<BlobEntry>, name: string, arch: Arch)
    ensures LastSource(role, entries, name, arch).None? <==> forall i :: !Supplies(role, entries, name, arch, i)
    ensures forall i :: IsLast(role, entries, name, arch, i)
              ==> LastSource(role, entries, name, arch) == Some("proprietary/" + entries[i].src)
    ensures LastSource(role, entries, name, arch).Some? ==> exists i :: IsLast(role, entries, name, arch, i)
  {
    var last := FindLast(role, entries, name, arch);
    assert forall i :: LastSource(role, entries, name, arch).Some? && IsLast(role, entries, name, arch, i) ==> i == last;
  }

  // ---------------------------------------------------------------- the roles of this program

  /** The part of a module's name that tells its kind. */
  function Tag(kind: Kind): string {
    if kind.SharedLib? then "lib" else "bin"
  }

  lemma RoleShape(dest: string)
    requires RoleOf(dest).Part?
    ensures var u := RoleOf(dest).unit;
            && u.partition == Partition(dest) && u.partition in KNOWN_PARTITIONS
            && (u.kind.SharedLib? || u.kind.Binary?)
            && (u.kind.Binary? ==> u.arch.Arch64?)
            && u.name == ModuleName([u.partition, Tag(u.kind), u.relpath, u.stem])
  {
    PartitionIsKnown(dest);
  }

  lemma {:induction false} StrippedSlashes(s: string)
    ensures var r := RStripChar(s, '/');
            r <= s && forall i :: |r| <= i < |s| ==> s[i] == '/'
  {
    if s != "" && s[|s| - 1] == '/' {
      StrippedSlashes(s[..|s| - 1]);
    }
  }

  ghost predicate AllSlashes(s: string) {
    forall i :: 0 <= i < |s| ==> s[i] == '/'
  }

  /** The path read as kind and architecture directory, install path, slashes, stem and suffix. */
  ghost predicate InstalledAt(rel: string, u: Unit, is64: bool, slashes: string) {
    && AllSlashes(slashes)
    && rel == Tag(u.kind) + (if is64 then "64/" else "/")
              + (u.relpath + slashes) + u.stem + (if u.kind.SharedLib? then ".so" else "")
    && u.stem != "" && '/' !in u.stem && (u.relpath != "" ==> u.relpath[|u.relpath| - 1] != '/')
    && (u.kind.SharedLib? ==> (is64 <==> u.arch.Arch64?))
  }

  lemma SlashesAfter(subdir: string) returns (slashes: string)
    ensures AllSlashes(slashes) && subdir == RStripChar(subdir, '/') + slashes
  {
    StrippedSlashes(subdir);
    slashes := subdir[|RStripChar(subdir, '/')|..];
  }

  lemma RoleIsMatch(dest: string) returns (m: ElfMatch)
    requires RoleOf(dest).Part?
    ensures var u := RoleOf(dest).unit;
            && (u.kind.SharedLib? ==> MatchElf(PartitionDest(dest), "lib", ".so") == Some(m) && (m.is64 <==> u.arch.Arch64?))
            && (!u.kind.SharedLib? ==> MatchElf(PartitionDest(dest), "bin", "") == Some(m))
            && u.stem == m.name && u.relpath == RStripChar(m.subdir, '/')
  {
    m := if RoleOf(dest).unit.kind.SharedLib? then MatchLib(PartitionDest(dest)).value else MatchBin(PartitionDest(dest)).value;
  }

  lemma MatchReassembles(rel: string, u: Unit, m: ElfMatch) returns (slashes: string)
    requires IsElfPath(rel, Tag(u.kind), if u.kind.SharedLib? then ".so" else "", m)
    requires u.stem == m.name && u.relpath == RStripChar(m.subdir, '/')
    requires u.kind.SharedLib? ==> (m.is64 <==> u.arch.Arch64?)
    ensures InstalledAt(rel, u, m.is64, slashes)
  {
    slashes := SlashesAfter(m.subdir);
  }

  /** The install path and the stem of a contribution put together again give the destination's path inside
      its partition, up to repeated slashes before the name. */
  lemma PartReassembles(dest: string) returns (is64: bool, slashes: string)
    requires RoleOf(dest).Part? && '\n' !in PartitionDest(dest)
    ensures InstalledAt(PartitionDest(dest), RoleOf(dest).unit, is64, slashes)
  {
    var m := RoleIsMatch(dest);
    var u := RoleOf(dest).unit;
    MatchIsLastSlashSplit(PartitionDest(dest), Tag(u.kind), if u.kind.SharedLib? then ".so" else "", m);
    slashes := MatchReassembles(PartitionDest(dest), u, m);
    is64 := m.is64;
  }

  /** Blobs of different partitions or different kinds never meet in one module. */
  lemma RolesSeparate(d: string, d': string)
    requires RoleOf(d).Part? && RoleOf(d').Part? && RoleOf(d).unit.name == RoleOf(d').unit.name
    ensures RoleOf(d).unit.kind == RoleOf(d').unit.kind
    ensures RoleOf(d).unit.partition == RoleOf(d').unit.partition
  {
    RoleShape(d);
    RoleShape(d');
    var u, u' := RoleOf(d).unit, RoleOf(d').unit;
    NamesSeparate(u.partition, Tag(u.kind), u.relpath, u.stem, u'.partition, Tag(u'.kind), u'.relpath, u'.stem);
  }

  /** The contribution of a destination, whatever decides it, has a kind and name as this program gives. */
  ghost predicate Shaped(role: string -> Role, d: string) {
    role(d).Part? ==>
      && (role(d).unit.kind.Binary? ==> role(d).unit.arch.Arch64?)
      && NormalForm(role(d).unit.name) && role(d).unit.name != ""
  }

  /** Two contributions to one module agree on kind and partition. */
  ghost predicate Agree(role: string -> Role, d: string, d': string) {
    role(d).Part? && role(d').Part? && role(d).unit.name == role(d').unit.name ==>
      role(d).unit.kind == role(d').unit.kind && role(d).unit.partition == role(d').unit.partition
  }

  /** The module has the name, stem and install path of its first blob; all its blobs have its kind and
      partition, it has a source, its architecture setting says
      exactly which sources it has, and a binary is 64-bit only. */
  ghost predicate GoodModule(role: string -> Role, entries: seq<BlobEntry>, name: string, m: ModuleView) {
    && (forall i :: Contributes(role, entries, name, i) ==>
          role(entries[i].dest).unit.kind == m.kind && role(entries[i].dest).unit.partition == m.partition)
    && (forall f :: IsFirst(role, entries, name, f) ==>
          && m.stem == role(entries[f].dest).unit.stem && m.relativeInstallPath == role(entries[f].dest).unit.relpath)
    && m.name == name
    && (m.src32.Some? || m.src64.Some?)
    && (m.compileMultilib == "both" <==> m.src32.Some? && m.src64.Some?)
    && (m.compileMultilib == "64" <==> m.src32.None? && m.src64.Some?)
    && (m.compileMultilib == "32" <==> m.src32.Some? && m.src64.None?)
    && (m.kind.Binary? ==> m.src32.None? && m.compileMultilib == "64")
    && NormalForm(name) && name != ""
  }

  lemma ModuleLawsFor(role: string -> Role, entries: seq<BlobEntry>, name: string)
    requires forall d :: Shaped(role, d)
    requires forall d, d' :: Agree(role, d, d')
    requires FirstUnit(role, entries, name).Some?
    ensures GoodModule(role, entries, name, Expected(role, entries, name))
  {
    var m := Expected(role, entries, name);
    FirstUnitIff(role, entries, name);
    LastSourceIff(role, entries, name, Arch32);
    LastSourceIff(role, entries, name, Arch64);
    var f :| IsFirst(role, entries, name, f);
    assert Shaped(role, entries[f].dest);
    forall i | Contributes(role, entries, name, i)
      ensures role(entries[i].dest).unit.kind == m.kind && role(entries[i].dest).unit.partition == m.partition
      ensures m.kind.Binary? ==> !Supplies(role, entries, name, Arch32, i)
      ensures Supplies(role, entries, name, Arch32, i) || Supplies(role, entries, name, Arch64, i)
    {
      assert Agree(role, entries[f].dest, entries[i].dest) && Shaped(role, entries[i].dest);
    }
    assert "both" != "64" && "both" != "32" && "64"[0] != "32"[0];
  }

  lemma RoleIsShaped(d: string)
    ensures Shaped(RoleOf, d)
  {
    if RoleOf(d).Part? {
      RoleShape(d);
      var u := RoleOf(d).unit;
      ModuleNameNormal([u.partition, Tag(u.kind), u.relpath, u.stem]);
      NameHasHead(u.partition, Tag(u.kind), u.relpath, u.stem);
    }
  }

  lemma RolesAgree(d: string, d': string)
    ensures Agree(RoleOf, d, d')
  {
    if RoleOf(d).Part? && RoleOf(d').Part? && RoleOf(d).unit.name == RoleOf(d').unit.name {
      RolesSeparate(d, d');
    }
  }

  /** Every module of every input list is such a module. */
  lemma ModuleLaws(entries: seq<BlobEntry>, name: string)
    requires FirstUnit(RoleOf, entries, name).Some?
    ensures GoodModule(RoleOf, entries, name, Expected(RoleOf, entries, name))
  {
    forall d { RoleIsShaped(d); }
    forall d, d' { RolesAgree(d, d'); }
    ModuleLawsFor(RoleOf, entries, name);
  }

  // ---------------------------------------------------------------- blobs that compete for one place

  /** Two contributions go to the same module exactly when they have the same kind, partition and tokens. */
  lemma SameModuleIff(d: string, d': string)
    requires RoleOf(d).Part? && RoleOf(d').Part?
    ensures var u, u' := RoleOf(d).unit, RoleOf(d').unit;
            u.name == u'.name
            <==> u.kind == u'.kind && u.partition == u'.partition
                 && Tokens(u.relpath) + Tokens(u.stem) == Tokens(u'.relpath) + Tokens(u'.stem)
  {
    RoleShape(d);
    RoleShape(d');
    UnitsShareNameIff(RoleOf(d).unit, RoleOf(d').unit);
  }

  ghost predicate WellNamed(u: Unit) {
    && u.partition in KNOWN_PARTITIONS && (u.kind.SharedLib? || u.kind.Binary?)
    && u.name == ModuleName([u.partition, Tag(u.kind), u.relpath, u.stem])
  }

  lemma UnitsShareNameIff(u: Unit, u': Unit)
    requires WellNamed(u) && WellNamed(u')
    ensures u.name == u'.name
            <==> u.kind == u'.kind && u.partition == u'.partition
                 && Tokens(u.relpath) + Tokens(u.stem) == Tokens(u'.relpath) + Tokens(u'.stem)
  {
    SharedNameIff(u.partition, Tag(u.kind), u.relpath, u.stem, u'.partition, Tag(u'.kind), u'.relpath, u'.stem);
    assert "lib"[0] != "bin"[0];
  }

  /** Two blobs of the same partition, kind, architecture and tokens: one module has one source for both. */
  ghost predicate SamePlace(role: string -> Role, d: string, d': string) {
    role(d).Part? && role(d').Part? && Competes(role(d).unit, role(d').unit)
  }

  ghost predicate Competes(u: Unit, u': Unit) {
    && u.kind == u'.kind && u.partition == u'.partition && u.arch == u'.arch
    && Tokens(u.relpath) + Tokens(u.stem) == Tokens(u'.relpath) + Tokens(u'.stem)
  }

  ghost predicate Overwritten(role: string -> Role, entries: seq<BlobEntry>, i: int)
    requires 0 <= i < |entries|
  {
    exists j :: i < j < |entries| && SamePlace(role, entries[i].dest, entries[j].dest)
  }

  /** The source of entry i is the one its module has. */
  ghost predicate Used(role: string -> Role, entries: seq<BlobEntry>, i: int)
    requires 0 <= i < |entries| && role(entries[i].dest).Part?
  {
    IsLast(role, entries, role(entries[i].dest).unit.name, role(entries[i].dest).unit.arch, i)
  }

  ghost predicate PlaceIsNameAndArch(role: string -> Role, d: string, d': string) {
    SamePlace(role, d, d')
    <==> role(d).Part? && role(d').Part? && role(d).unit.name == role(d').unit.name && role(d).unit.arch == role(d').unit.arch
  }

  lemma PlacesAreNames(d: string, d': string)
    ensures PlaceIsNameAndArch(RoleOf, d, d')
  {
    if RoleOf(d).Part? && RoleOf(d').Part? {
      SameModuleIff(d, d');
    }
  }

  lemma UsedIff(role: string -> Role, entries: seq<BlobEntry>, i: nat)
    requires forall d, d' :: PlaceIsNameAndArch(role, d, d')
    requires i < |entries| && role(entries[i].dest).Part?
    ensures Used(role, entries, i) <==> !Overwritten(role, entries, i)
  {
    var u := role(entries[i].dest).unit;
    forall j | 0 <= j < |entries|
      ensures SamePlace(role, entries[i].dest, entries[j].dest) <==> Supplies(role, entries, u.name, u.arch, j)
    {
      assert PlaceIsNameAndArch(role, entries[i].dest, entries[j].dest);
    }
  }

  /** The source of a blob is the one its module has exactly when no later blob has the same partition, kind,
      architecture and tokens. */
  lemma SourceUsedIff(entries: seq<BlobEntry>, i: nat)
    requires i < |entries| && RoleOf(entries[i].dest).Part?
    ensures Used(RoleOf, entries, i) <==> !Overwritten(RoleOf, entries, i)
    ensures var u := RoleOf(entries[i].dest).unit;
            Used(RoleOf, entries, i) ==> LastSource(RoleOf, entries, u.name, u.arch) == Some("proprietary/" + entries[i].src)
  {
    forall d, d' { PlacesAreNames(d, d'); }
    UsedIff(RoleOf, entries, i);
    LastSourceIff(RoleOf, entries, RoleOf(entries[i].dest).unit.name, RoleOf(entries[i].dest).unit.arch);
  }

  /** No blob's source is lost exactly when no two blobs compete for one place. */
  lemma EveryBlobUsedIff(entries: seq<BlobEntry>)
    ensures (forall i :: 0 <= i < |entries| && RoleOf(entries[i].dest).Part? ==> Used(RoleOf, entries, i))
            <==> forall i, j :: 0 <= i < j < |entries| ==> !SamePlace(RoleOf, entries[i].dest, entries[j].dest)
  {
    forall d, d' { PlacesAreNames(d, d'); }
    AllUsedIff(RoleOf, entries);
  }

  lemma AllUsedIff(role: string -> Role, entries: seq<BlobEntry>)
    requires forall d, d' :: PlaceIsNameAndArch(role, d, d')
    ensures (forall i :: 0 <= i < |entries| && role(entries[i].dest).Part? ==> Used(role, entries, i))
            <==> forall i, j :: 0 <= i < j < |entries| ==> !SamePlace(role, entries[i].dest, entries[j].dest)
  {
    forall i | 0 <= i < |entries| && role(entries[i].dest).Part?
      ensures Used(role, entries, i) <==> !Overwritten(role, entries, i)
    {
      UsedIff(role, entries, i);
    }
  }

  lemma {:induction false} WithRoleLaws(role: string -> Role, entries: seq<BlobEntry>, r: Role)
    ensures forall e :: e in WithRole(role, entries, r) <==> e in entries && role(e.dest) == r
  {
    if entries != [] {
      var n := |entries| - 1;
      WithRoleLaws(role, entries[..n], r);
      assert entries == entries[..n] + [entries[n]];
    }
  }
}
