/** The product makefile: packages, copied files and manifests. */
module VendorMk {
  import opened Strings
  import opened BlobList
  import opened Sorting
  import opened Destinations
  import opened MakeText

  const PROPRIETARY := "vendor/xiaomi/ruan/proprietary/"

  const COMMENT := "#" + " " + ("Auto-generated" + " " + ("by" + " " + "device/xiaomi/ruan/extract-files.py"))

  const NAMESPACES := "PRODUCT_SOONG_NAMESPACES" + " " + ("+=" + " " + "vendor/xiaomi/ruan")

  const HEADER: seq<string> := [COMMENT, "", NAMESPACES, ""]

  function OutName(partition: string): string
    requires partition in KNOWN_PARTITIONS
  {
    match partition
    case "odm" => "ODM"
    case "product" => "PRODUCT"
    case "system" => "SYSTEM"
    case "system_ext" => "SYSTEM_EXT"
    case "vendor" => "VENDOR"
    case _ => "VENDOR_DLKM"
  }

  /** The make variable of the partition's output directory. */
  function CopyOut(partition: string): string
    requires partition in KNOWN_PARTITIONS
  {
    "$(TARGET_COPY_OUT_" + OutName(partition) + ")"
  }

  function CopyItem(e: BlobEntry): string {
    PartitionIsKnown(e.dest);
    PROPRIETARY + e.src + ":" + CopyOut(Partition(e.dest)) + "/" + PartitionDest(e.dest)
  }

  function CopyItems(entries: seq<BlobEntry>): seq<string> {
    seq(|entries|, i requires 0 <= i < |entries| => CopyItem(entries[i]))
  }

  function SourceItems(entries: seq<BlobEntry>): seq<string> {
    seq(|entries|, i requires 0 <= i < |entries| => PROPRIETARY + entries[i].src)
  }

  /** The variable that lists a partition's manifests; one partition has none. */
  function ManifestVar(partition: string): Option<string> {
    if partition in KNOWN_PARTITIONS && partition != "vendor_dlkm"
    then Some(OutName(partition) + "_MANIFEST_FILES") else None
  }

  // ---------------------------------------------------------------- what the file must hold

  const MANIFEST_PARTITIONS: seq<string> := ["odm", "product", "system", "system_ext", "vendor"]

  function Within(entries: seq<BlobEntry>, partition: string): seq<BlobEntry> {
    if entries == [] then []
    else
      var e := entries[|entries| - 1];
      Within(entries[..|entries| - 1], partition) + (if Partition(e.dest) == partition then [e] else [])
  }

  function OptionalBlock(variable: string, items: seq<string>): seq<Block> {
    if items == [] then [] else [Block(variable, items)]
  }

  function ManifestBlock(manifests: seq<BlobEntry>, partition: string): seq<Block> {
    match ManifestVar(partition)
    case None => []
    case Some(variable) => OptionalBlock(variable, SourceItems(Sort(Within(manifests, partition), Dest)))
  }

  function ManifestBlocks(manifests: seq<BlobEntry>, partitions: seq<string>): seq<Block> {
    if partitions == [] then []
    else
      ManifestBlocks(manifests, partitions[..|partitions| - 1])
      + ManifestBlock(manifests, partitions[|partitions| - 1])
  }

  function MainBlocks(moduleNames: seq<string>, copyFiles: seq<BlobEntry>): seq<Block> {
    OptionalBlock("PRODUCT_PACKAGES", moduleNames) + OptionalBlock("PRODUCT_COPY_FILES", CopyItems(copyFiles))
  }

  function Blocks(moduleNames: seq<string>, copyFiles: seq<BlobEntry>, manifests: seq<BlobEntry>): seq<Block> {
    MainBlocks(moduleNames, copyFiles) + ManifestBlocks(manifests, MANIFEST_PARTITIONS)
  }

  function VendorMkText(moduleNames: seq<string>, copyFiles: seq<BlobEntry>, manifests: seq<BlobEntry>): string {
    Finish(HEADER + AllLines(Blocks(moduleNames, copyFiles, manifests)))
  }

  // ---------------------------------------------------------------- writing it

  /** One block, when there are items for it. */
  method EmitBlock(variable: string, items: seq<string>) returns (lines: seq<string>)
    ensures lines == AllLines(OptionalBlock(variable, items))
    ensures items == [] ==> lines == []
    ensures items != [] ==>
              && |lines| == |items| + 2 && lines[0] == variable + " += \\" && lines[|items| + 1] == ""
              && (forall i :: 0 <= i < |items| - 1 ==> lines[i + 1] == "    " + items[i] + " \\")
              && lines[|items|] == "    " + items[|items| - 1]
  {
    if items == [] {
      return [];
    }
    lines := [variable + " += \\"];
    for index := 0 to |items|
      invariant lines == [variable + " += \\"] + ItemLines(items)[..index]
    {
      var suffix := if index < |items| - 1 then " \\" else "";
      lines := lines + ["    " + items[index] + suffix];
    }
    lines := lines + [""];
    assert ItemLines(items)[..|items|] == ItemLines(items);
    OneBlock(Block(variable, items));
  }

  lemma OneBlock(b: Block)
    ensures AllLines([b]) == BlockLines(b)
  {
    ConcatMapSnoc(BlockLines, [], b);
    assert [] + [b] == [b];
  }

  method ByPartition(manifests: seq<BlobEntry>) returns (table: map<string, seq<BlobEntry>>, order: seq<string>)
    ensures forall p :: p in table <==> Within(manifests, p) != []
    ensures forall p :: p in table ==> table[p] == Within(manifests, p)
    ensures DistinctKeys(order, Id) && forall p :: p in order <==> p in table
  {
    table, order := map[], [];
    for i := 0 to |manifests|
      invariant forall p :: p in table <==> Within(manifests[..i], p) != []
      invariant forall p :: p in table ==> table[p] == Within(manifests[..i], p)
      invariant DistinctKeys(order, Id) && forall p :: p in order <==> p in table
    {
      var entry := manifests[i];
      assert manifests[..i + 1][..i] == manifests[..i];
      var p := Partition(entry.dest);
      if p in table {
        table := table[p := table[p] + [entry]];
      } else {
        table := table[p := [entry]];
        order := order + [p];
      }
    }
    assert manifests[..|manifests|] == manifests;
  }

  lemma ConcatMapSnoc<T>(f: T -> seq<string>, ps: seq<T>, p: T)
    ensures ConcatMap(f, ps + [p]) == ConcatMap(f, ps) + f(p)
  {
    assert (ps + [p])[..|ps|] == ps;
  }

  /** The function gives the lines of a partition's block. */
  ghost predicate GivesLines(manifests: seq<BlobEntry>, f: string -> seq<string>, partition: string) {
    f(partition) == AllLines(ManifestBlock(manifests, partition))
  }

  lemma {:induction false} ManifestLines(manifests: seq<BlobEntry>, ps: seq<string>, f: string -> seq<string>)
    requires forall p :: GivesLines(manifests, f, p)
    ensures ConcatMap(f, ps) == AllLines(ManifestBlocks(manifests, ps))
  {
    if ps != [] {
      var n := |ps| - 1;
      ManifestLines(manifests, ps[..n], f);
      assert GivesLines(manifests, f, ps[n]);
      AllLinesConcat(ManifestBlocks(manifests, ps[..n]), ManifestBlock(manifests, ps[n]));
    }
  }

  method EmitManifestBlock(ghost manifests: seq<BlobEntry>, partition: string, entries: seq<BlobEntry>,
                           ghost f: string -> seq<string>)
    returns (lines: seq<string>)
    requires entries == Within(manifests, partition) && GivesLines(manifests, f, partition)
    ensures lines == f(partition)
  {
    var variable := ManifestVar(partition);
    if variable.None? {
      return [];
    }
    lines := EmitBlock(variable.value, SourceItems(Sort(entries, Dest)));
  }

  method EmitPartitions(ghost manifests: seq<BlobEntry>, table: map<string, seq<BlobEntry>>, names: seq<string>,
                        ghost f: string -> seq<string>)
    returns (lines: seq<string>)
    requires forall p :: p in names ==> p in table && table[p] == Within(manifests, p)
    requires forall p :: GivesLines(manifests, f, p)
    ensures lines == ConcatMap(f, names)
  {
    lines := [];
    for i := 0 to |names|
      invariant lines == ConcatMap(f, names[..i])
    {
      var p := names[i];
      assert p in names;
      assert ConcatMap(f, names[..i + 1]) == ConcatMap(f, names[..i]) + f(p) by {
        assert names[..i + 1] == names[..i] + [p];
        ConcatMapSnoc(f, names[..i], p);
      }
      assert GivesLines(manifests, f, p);
      var block := EmitManifestBlock(manifests, p, table[p], f);
      lines := lines + block;
    }
    assert names[..|names|] == names;
  }

  method EmitManifests(manifests: seq<BlobEntry>) returns (lines: seq<string>)
    ensures lines == AllLines(ManifestBlocks(manifests, MANIFEST_PARTITIONS))
  {
    var table, order := ByPartition(manifests);
    var names := Sort(order, Id);
    SortMembers(order, Id);
    SortStrict(order, Id);
    ghost var f := (p: string) => AllLines(ManifestBlock(manifests, p));
    lines := EmitPartitions(manifests, table, names, f);
    ManifestLines(manifests, names, f);
    SameManifestBlocks(manifests, names);
  }

  method EmitVendorMk(moduleNames: seq<string>, copyFiles: seq<BlobEntry>, vintfManifests: seq<BlobEntry>)
    returns (text: string)
    ensures text == VendorMkText(moduleNames, copyFiles, vintfManifests)
  {
    var packages := EmitBlock("PRODUCT_PACKAGES", moduleNames);
    var copies := EmitBlock("PRODUCT_COPY_FILES", CopyItems(copyFiles));
    var manifests := EmitManifests(vintfManifests);
    ghost var p, c := OptionalBlock("PRODUCT_PACKAGES", moduleNames), OptionalBlock("PRODUCT_COPY_FILES", CopyItems(copyFiles));
    AllLinesConcat(p, c);
    AllLinesConcat(p + c, ManifestBlocks(vintfManifests, MANIFEST_PARTITIONS));
    text := Finish(HEADER + (packages + copies + manifests));
  }

  // ---------------------------------------------------------------- the order of the manifest blocks

  predicate HasManifests(manifests: seq<BlobEntry>, p: string) {
    ManifestVar(p).Some? && Within(manifests, p) != []
  }

  function Relevant(manifests: seq<BlobEntry>, partitions: seq<string>): seq<string> {
    if partitions == [] then []
    else
      var p := partitions[|partitions| - 1];
      Relevant(manifests, partitions[..|partitions| - 1]) + (if HasManifests(manifests, p) then [p] else [])
  }

  lemma {:induction false} RelevantLaws(manifests: seq<BlobEntry>, partitions: seq<string>)
    requires StrictlySorted(partitions, Id)
    ensures forall p :: p in Relevant(manifests, partitions) <==> p in partitions && HasManifests(manifests, p)
    ensures StrictlySorted(Relevant(manifests, partitions), Id)
  {
    if partitions != [] {
      var n := |partitions| - 1;
      RelevantLaws(manifests, partitions[..n]);
      var r := Relevant(manifests, partitions[..n]);
      assert partitions == partitions[..n] + [partitions[n]];
      forall i | 0 <= i < |r| ensures Less(r[i], partitions[n]) {
        assert r[i] in r;
        var k :| 0 <= k < n && partitions[..n][k] == r[i];
        assert Less(Id(partitions[k]), Id(partitions[n]));
      }
    }
  }

  lemma {:induction false} RelevantBlocks(manifests: seq<BlobEntry>, partitions: seq<string>)
    ensures ManifestBlocks(manifests, Relevant(manifests, partitions)) == ManifestBlocks(manifests, partitions)
  {
    if partitions != [] {
      var n := |partitions| - 1;
      RelevantBlocks(manifests, partitions[..n]);
      var r, p := Relevant(manifests, partitions[..n]), partitions[n];
      SortMembers(Within(manifests, p), Dest);
      assert (r + [p])[..|r|] == r;
      assert r + [] == r;
    }
  }

  lemma ManifestPartitionsSorted()
    ensures StrictlySorted(MANIFEST_PARTITIONS, Id)
  {
    var ps := MANIFEST_PARTITIONS;
    assert Less("system", "system_ext") by {
      LessExtends("system", '_', "ext");
      assert "system" + ['_'] + "ext" == "system_ext";
    }
    forall i, j | 0 <= i < j < |ps| ensures Less(Id(ps[i]), Id(ps[j])) {
      if j != i + 1 || i != 2 {
        LessByHead(ps[i], ps[j]);
      }
    }
  }

  lemma LessByHead(a: string, b: string)
    requires a != "" && b != "" && a[0] < b[0]
    ensures Less(a, b)
  {
  }

  lemma ManifestPartitionsAll(p: string)
    ensures ManifestVar(p).Some? <==> p in MANIFEST_PARTITIONS
  {
  }

  lemma {:induction false} LessExtends(a: string, c: char, rest: string)
    ensures Less(a, a + [c] + rest)
  {
    if a != "" {
      LessExtends(a[1..], c, rest);
      assert (a + [c] + rest)[1..] == a[1..] + [c] + rest;
    }
  }

  /** Visiting the partitions that have manifests in sorted order gives the blocks in the fixed order, with
      the partition that has no variable left out. */
  lemma SameManifestBlocks(manifests: seq<BlobEntry>, partitions: seq<string>)
    requires StrictlySorted(partitions, Id)
    requires forall p :: p in partitions <==> Within(manifests, p) != []
    ensures ManifestBlocks(manifests, partitions) == ManifestBlocks(manifests, MANIFEST_PARTITIONS)
  {
    ManifestPartitionsSorted();
    forall p { ManifestPartitionsAll(p); }
    RelevantLaws(manifests, partitions);
    RelevantLaws(manifests, MANIFEST_PARTITIONS);
    StrictlySortedUnique(Relevant(manifests, partitions), Relevant(manifests, MANIFEST_PARTITIONS), Id);
    RelevantBlocks(manifests, partitions);
    RelevantBlocks(manifests, MANIFEST_PARTITIONS);
  }
}
