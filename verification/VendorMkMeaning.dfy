/** What the product makefile says, variable by variable and in full. */
module VendorMkMeaning {
  import opened Strings
  import opened BlobList
  import opened Sorting
  import opened Destinations
  import opened Names
  import opened MakeText
  import opened VendorMk
  import opened VendorMkLaws

  lemma {:induction false} ValuesConcat(a: seq<Assignment>, b: seq<Assignment>, v: string)
    ensures ValuesOf(a + b, v) == ValuesOf(a, v) + ValuesOf(b, v)
  {
    if a == [] {
      assert a + b == b;
    } else {
      assert (a + b)[1..] == a[1..] + b;
      ValuesConcat(a[1..], b, v);
    }
  }

  lemma AsWrittenConcat(a: seq<Block>, b: seq<Block>)
    ensures AsWritten(a + b) == AsWritten(a) + AsWritten(b)
  {
  }

  /** What a variable holds after the blocks. */
  function Holds(blocks: seq<Block>, v: string): seq<string> {
    ValuesOf(AsWritten(blocks), v)
  }

  lemma HoldsConcat(a: seq<Block>, b: seq<Block>, v: string)
    ensures Holds(a + b, v) == Holds(a, v) + Holds(b, v)
  {
    AsWrittenConcat(a, b);
    ValuesConcat(AsWritten(a), AsWritten(b), v);
  }

  lemma HoldsOptional(variable: string, items: seq<string>, v: string)
    ensures Holds(OptionalBlock(variable, items), v) == if v == variable then items else []
  {
    if items != [] {
      var a := AsWritten([Block(variable, items)]);
      assert a == [Assignment(variable, items)] && a[1..] == [];
      assert ValuesOf(a[1..], v) == [];
    }
  }

  /** The variables of the makefile, one by one. */
  ghost predicate Listed(v: string) {
    || v == "PRODUCT_SOONG_NAMESPACES" || v == "PRODUCT_PACKAGES" || v == "PRODUCT_COPY_FILES" || ManifestName(v)
  }

  ghost predicate ManifestName(v: string) {
    || v == "ODM_MANIFEST_FILES" || v == "PRODUCT_MANIFEST_FILES" || v == "SYSTEM_MANIFEST_FILES"
    || v == "SYSTEM_EXT_MANIFEST_FILES" || v == "VENDOR_MANIFEST_FILES"
  }

  /** The variable for the manifests of a partition, spelled out; vendor_dlkm has none. */
  ghost predicate ManifestsOf(v: string, p: string) {
    || (v == "ODM_MANIFEST_FILES" && p == "odm") || (v == "PRODUCT_MANIFEST_FILES" && p == "product")
    || (v == "SYSTEM_MANIFEST_FILES" && p == "system") || (v == "SYSTEM_EXT_MANIFEST_FILES" && p == "system_ext")
    || (v == "VENDOR_MANIFEST_FILES" && p == "vendor")
  }

  lemma ManifestNamesSpelled()
    ensures "ODM" + "_MANIFEST_FILES" == "ODM_MANIFEST_FILES"
    ensures "PRODUCT" + "_MANIFEST_FILES" == "PRODUCT_MANIFEST_FILES"
  {
  }

  lemma VendorNameSpelled()
    ensures "VENDOR" + "_MANIFEST_FILES" == "VENDOR_MANIFEST_FILES"
  {
  }

  lemma SystemNamesSpelled()
    ensures "SYSTEM" + "_MANIFEST_FILES" == "SYSTEM_MANIFEST_FILES"
    ensures "SYSTEM_EXT" + "_MANIFEST_FILES" == "SYSTEM_EXT_MANIFEST_FILES"
  {
  }

  lemma ManifestVarIs(p: string, v: string)
    requires ManifestsOf(v, p)
    ensures ManifestVar(p) == Some(v)
  {
    ManifestNamesSpelled();
    SystemNamesSpelled();
    VendorNameSpelled();
  }

  lemma ManifestVarListed(p: string)
    requires ManifestVar(p).Some?
    ensures ManifestName(ManifestVar(p).value)
  {
    ManifestNamesSpelled();
    SystemNamesSpelled();
    VendorNameSpelled();
  }

  /** The length and first letter of a manifest variable tell it from the others, and its partition. */
  lemma ManifestVarShape(p: string)
    requires ManifestVar(p).Some?
    ensures var v := ManifestVar(p).value;
            && |v| > 0
            && (p == "odm" ==> |v| == 18 && v[0] == 'O') && (p == "product" ==> |v| == 22)
            && (p == "system" ==> |v| == 21 && v[0] == 'S') && (p == "system_ext" ==> |v| == 25)
            && (p == "vendor" ==> |v| == 21 && v[0] == 'V')
            && p in KNOWN_PARTITIONS && p != "vendor_dlkm"
  {
    OutNameTells(p);
    assert |"_MANIFEST_FILES"| == 15 && |"ODM"| == 3 && |"PRODUCT"| == 7;
  }

  lemma ManifestVarInjective(p: string, p': string)
    requires ManifestVar(p).Some? && ManifestVar(p) == ManifestVar(p')
    ensures p == p'
  {
    ManifestVarShape(p);
    ManifestVarShape(p');
  }

  lemma HoldsManifest(manifests: seq<BlobEntry>, p: string, v: string)
    ensures Holds(ManifestBlock(manifests, p), v) == if ManifestVar(p) == Some(v) then ManifestItems(manifests, p) else []
  {
    if ManifestVar(p).Some? {
      HoldsOptional(ManifestVar(p).value, ManifestItems(manifests, p), v);
    }
  }

  lemma {:induction false} HoldsManifests(manifests: seq<BlobEntry>, ps: seq<string>, p: string, v: string)
    requires ManifestVar(p) == Some(v) && forall i, j :: 0 <= i < j < |ps| ==> ps[i] != ps[j]
    ensures Holds(ManifestBlocks(manifests, ps), v) == if p in ps then ManifestItems(manifests, p) else []
  {
    if ps != [] {
      var n := |ps| - 1;
      var before, q := ps[..n], ps[n];
      assert ps == before + [q];
      HoldsManifests(manifests, before, p, v);
      HoldsConcat(ManifestBlocks(manifests, before), ManifestBlock(manifests, q), v);
      HoldsManifest(manifests, q, v);
      if ManifestVar(q) == Some(v) {
        ManifestVarInjective(p, q);
      }
    }
  }

  ghost predicate NoManifestVar(v: string) {
    forall p :: ManifestVar(p) != Some(v)
  }

  lemma {:induction false} HoldsNoManifest(manifests: seq<BlobEntry>, ps: seq<string>, v: string)
    requires NoManifestVar(v)
    ensures Holds(ManifestBlocks(manifests, ps), v) == []
  {
    if ps != [] {
      var n := |ps| - 1;
      HoldsNoManifest(manifests, ps[..n], v);
      HoldsConcat(ManifestBlocks(manifests, ps[..n]), ManifestBlock(manifests, ps[n]), v);
      HoldsManifest(manifests, ps[n], v);
    }
  }

  /** The output directory of a partition, spelled out. */
  ghost function OutputOf(p: string): string {
    if p == "odm" then "$(TARGET_COPY_OUT_ODM)"
    else if p == "product" then "$(TARGET_COPY_OUT_PRODUCT)"
    else if p == "system" then "$(TARGET_COPY_OUT_SYSTEM)"
    else if p == "system_ext" then "$(TARGET_COPY_OUT_SYSTEM_EXT)"
    else if p == "vendor" then "$(TARGET_COPY_OUT_VENDOR)"
    else "$(TARGET_COPY_OUT_VENDOR_DLKM)"
  }

  lemma ShortOutputsSpelled()
    ensures "$(TARGET_COPY_OUT_" + "ODM" + ")" == "$(TARGET_COPY_OUT_ODM)"
    ensures "$(TARGET_COPY_OUT_" + "SYSTEM" + ")" == "$(TARGET_COPY_OUT_SYSTEM)"
    ensures "$(TARGET_COPY_OUT_" + "VENDOR" + ")" == "$(TARGET_COPY_OUT_VENDOR)"
  {
  }

  lemma LongOutputsSpelled()
    ensures "$(TARGET_COPY_OUT_" + "PRODUCT" + ")" == "$(TARGET_COPY_OUT_PRODUCT)"
    ensures "$(TARGET_COPY_OUT_" + "SYSTEM_EXT" + ")" == "$(TARGET_COPY_OUT_SYSTEM_EXT)"
    ensures "$(TARGET_COPY_OUT_" + "VENDOR_DLKM" + ")" == "$(TARGET_COPY_OUT_VENDOR_DLKM)"
  {
  }

  lemma OutputIs(p: string)
    requires p in KNOWN_PARTITIONS
    ensures CopyOut(p) == OutputOf(p)
  {
    ShortOutputsSpelled();
    LongOutputsSpelled();
  }

  /** An item of the copy list: the source in this tree, a colon, and the place on the device. */
  ghost predicate CopyRead(value: string, e: BlobEntry) {
    value == "vendor/xiaomi/ruan/proprietary/" + e.src + ":" + OutputOf(Partition(e.dest)) + "/" + PartitionDest(e.dest)
  }

  ghost predicate CopiesRead(values: seq<string>, copyFiles: seq<BlobEntry>) {
    |values| == |copyFiles| && forall i :: 0 <= i < |values| ==> CopyRead(values[i], copyFiles[i])
  }

  /** The manifests of a partition: their sources in this tree, in the order of their destinations. */
  ghost predicate ManifestsRead(values: seq<string>, manifests: seq<BlobEntry>, p: string) {
    var sorted := Sort(Within(manifests, p), Dest);
    && |values| == |sorted|
    && forall i :: 0 <= i < |values| ==> values[i] == "vendor/xiaomi/ruan/proprietary/" + sorted[i].src
  }

  /** The place of each variable in the file. */
  ghost function Place(v: string): nat {
    if v == "PRODUCT_SOONG_NAMESPACES" then 0
    else if v == "PRODUCT_PACKAGES" then 1
    else if v == "PRODUCT_COPY_FILES" then 2
    else if v == "ODM_MANIFEST_FILES" then 3
    else if v == "PRODUCT_MANIFEST_FILES" then 4
    else if v == "SYSTEM_MANIFEST_FILES" then 5
    else if v == "SYSTEM_EXT_MANIFEST_FILES" then 6
    else 7
  }

  ghost predicate InOrder(a: seq<Assignment>) {
    forall i, j :: 0 <= i < j < |a| ==> Place(a[i].variable) < Place(a[j].variable)
  }

  /** Blocks in order, at places from lo up to but not including hi. */
  ghost predicate PlacedIn(blocks: seq<Block>, lo: nat, hi: nat) {
    && (forall i :: 0 <= i < |blocks| ==> lo <= Place(blocks[i].variable) < hi)
    && (forall i, j :: 0 <= i < j < |blocks| ==> Place(blocks[i].variable) < Place(blocks[j].variable))
  }

  lemma PlacesConcat(a: seq<Block>, b: seq<Block>, lo: nat, mid: nat, hi: nat)
    requires PlacedIn(a, lo, mid) && PlacedIn(b, mid, hi) && lo <= mid <= hi
    ensures PlacedIn(a + b, lo, hi)
  {
  }

  lemma ManifestPlace(p: string, v: string)
    requires ManifestVar(p) == Some(v)
    ensures Place(v) == if p == "odm" then 3 else if p == "product" then 4 else if p == "system" then 5
                        else if p == "system_ext" then 6 else 7
  {
    MainVariablesDiffer(p);
    ManifestVarShape(p);
    ManifestNamesSpelled();
    SystemNamesSpelled();
    VendorNameSpelled();
  }

  lemma {:induction false} ManifestPlaces(manifests: seq<BlobEntry>, n: nat)
    requires n <= |MANIFEST_PARTITIONS|
    ensures PlacedIn(ManifestBlocks(manifests, MANIFEST_PARTITIONS[..n]), 3, 3 + n)
  {
    if n > 0 {
      var before, p := MANIFEST_PARTITIONS[..n - 1], MANIFEST_PARTITIONS[n - 1];
      assert MANIFEST_PARTITIONS[..n] == before + [p];
      assert PlacedIn(ManifestBlocks(manifests, before), 3, n + 2) by { ManifestPlaces(manifests, n - 1); }
      assert PlacedIn(ManifestBlock(manifests, p), n + 2, n + 3) by { ManifestAt(manifests, n - 1); }
      PlacesConcat(ManifestBlocks(manifests, before), ManifestBlock(manifests, p), 3, n + 2, n + 3);
      ManifestBlocksSnoc(manifests, before, p);
    }
  }

  lemma ManifestBlocksSnoc(manifests: seq<BlobEntry>, ps: seq<string>, p: string)
    ensures ManifestBlocks(manifests, ps + [p]) == ManifestBlocks(manifests, ps) + ManifestBlock(manifests, p)
  {
    assert (ps + [p])[..|ps|] == ps;
  }

  lemma ManifestAt(manifests: seq<BlobEntry>, k: nat)
    requires k < |MANIFEST_PARTITIONS|
    ensures PlacedIn(ManifestBlock(manifests, MANIFEST_PARTITIONS[k]), 3 + k, 4 + k)
  {
    var p := MANIFEST_PARTITIONS[k];
    if ManifestVar(p).Some? {
      ManifestPlace(p, ManifestVar(p).value);
      PartitionPlace(k);
    }
  }

  lemma PartitionPlace(k: nat)
    requires k < |MANIFEST_PARTITIONS|
    ensures var p := MANIFEST_PARTITIONS[k];
            3 + k == if p == "odm" then 3 else if p == "product" then 4 else if p == "system" then 5
                     else if p == "system_ext" then 6 else 7
  {
    assert |"odm"| == 3 && |"product"| == 7 && |"system"| == 6 && |"system_ext"| == 10 && "vendor"[0] == 'v';
  }

  lemma WrittenInOrder(names: seq<string>, copyFiles: seq<BlobEntry>, manifests: seq<BlobEntry>)
    ensures InOrder([NAMESPACE] + AsWritten(Blocks(names, copyFiles, manifests)))
  {
    var first, second := OptionalBlock("PRODUCT_PACKAGES", names), OptionalBlock("PRODUCT_COPY_FILES", CopyItems(copyFiles));
    var last := ManifestBlocks(manifests, MANIFEST_PARTITIONS);
    MainPlaces();
    PlacesConcat(first, second, 1, 2, 3);
    ManifestPlaces(manifests, 5);
    assert MANIFEST_PARTITIONS[..5] == MANIFEST_PARTITIONS;
    PlacesConcat(first + second, last, 1, 3, 8);
    BlocksInOrder(Blocks(names, copyFiles, manifests));
  }

  lemma MainPlaces()
    ensures Place("PRODUCT_SOONG_NAMESPACES") == 0 && Place("PRODUCT_PACKAGES") == 1 && Place("PRODUCT_COPY_FILES") == 2
  {
    assert |"PRODUCT_PACKAGES"| == 16 && |"PRODUCT_COPY_FILES"| == 18 && |"PRODUCT_SOONG_NAMESPACES"| == 24;
  }

  lemma BlocksInOrder(blocks: seq<Block>)
    requires PlacedIn(blocks, 1, 8)
    ensures InOrder([NAMESPACE] + AsWritten(blocks))
  {
    MainPlaces();
    FirstInOrder(Place, NAMESPACE, blocks);
  }

  lemma FirstInOrder(place: string -> nat, first: Assignment, blocks: seq<Block>)
    requires place(first.variable) == 0 && forall i :: 0 <= i < |blocks| ==> 0 < place(blocks[i].variable)
    requires forall i, j :: 0 <= i < j < |blocks| ==> place(blocks[i].variable) < place(blocks[j].variable)
    ensures var a := [first] + AsWritten(blocks);
            forall i, j :: 0 <= i < j < |a| ==> place(a[i].variable) < place(a[j].variable)
  {
    var a := [first] + AsWritten(blocks);
    forall i, j | 0 <= i < j < |a| ensures place(a[i].variable) < place(a[j].variable) {
      assert a[j].variable == blocks[j - 1].variable;
      assert i > 0 ==> a[i].variable == blocks[i - 1].variable;
    }
  }

  /** What a product makefile says: the variables it sets, each once and in order, and what each holds. */
  ghost predicate Describes(a: seq<Assignment>, names: seq<string>, copyFiles: seq<BlobEntry>, manifests: seq<BlobEntry>) {
    && ValuesOf(a, "PRODUCT_SOONG_NAMESPACES") == ["vendor/xiaomi/ruan"]
    && ValuesOf(a, "PRODUCT_PACKAGES") == names
    && CopiesRead(ValuesOf(a, "PRODUCT_COPY_FILES"), copyFiles)
    && (forall v, p :: ManifestsOf(v, p) ==> ManifestsRead(ValuesOf(a, v), manifests, p))
    && (forall x :: x in a ==> Listed(x.variable))
    && InOrder(a)
  }

  lemma CopyItemsRead(copyFiles: seq<BlobEntry>)
    ensures CopiesRead(CopyItems(copyFiles), copyFiles)
  {
    forall i | 0 <= i < |copyFiles| ensures CopyRead(CopyItems(copyFiles)[i], copyFiles[i]) {
      CopyItemRead(copyFiles[i]);
    }
  }

  lemma CopyItemRead(e: BlobEntry)
    ensures CopyRead(CopyItem(e), e)
  {
    PartitionIsKnown(e.dest);
    OutputIs(Partition(e.dest));
  }

  lemma MainVariablesDiffer(p: string)
    ensures ManifestVar(p) != Some("PRODUCT_PACKAGES") && ManifestVar(p) != Some("PRODUCT_COPY_FILES")
    ensures ManifestVar(p) != Some("PRODUCT_SOONG_NAMESPACES")
  {
    assert |"PRODUCT_PACKAGES"| == 16 && |"PRODUCT_COPY_FILES"| == 18 && |"PRODUCT_SOONG_NAMESPACES"| == 24;
    assert "PRODUCT_COPY_FILES"[0] == 'P';
    if ManifestVar(p).Some? {
      ManifestVarShape(p);
    }
  }

  lemma HoldsAll(names: seq<string>, copyFiles: seq<BlobEntry>, manifests: seq<BlobEntry>, v: string)
    ensures Holds(Blocks(names, copyFiles, manifests), v)
            == (if v == "PRODUCT_PACKAGES" then names else [])
               + (if v == "PRODUCT_COPY_FILES" then CopyItems(copyFiles) else [])
               + Holds(ManifestBlocks(manifests, MANIFEST_PARTITIONS), v)
  {
    HoldsOptional("PRODUCT_PACKAGES", names, v);
    HoldsOptional("PRODUCT_COPY_FILES", CopyItems(copyFiles), v);
    HoldsConcat(OptionalBlock("PRODUCT_PACKAGES", names), OptionalBlock("PRODUCT_COPY_FILES", CopyItems(copyFiles)), v);
    HoldsConcat(MainBlocks(names, copyFiles), ManifestBlocks(manifests, MANIFEST_PARTITIONS), v);
  }

  lemma ReadValues(blocks: seq<Block>, v: string)
    ensures ValuesOf([NAMESPACE] + AsWritten(blocks), v)
            == (if v == "PRODUCT_SOONG_NAMESPACES" then ["vendor/xiaomi/ruan"] else []) + Holds(blocks, v)
  {
    ValuesConcat([NAMESPACE], AsWritten(blocks), v);
    assert [NAMESPACE][1..] == [];
    assert ValuesOf([NAMESPACE][1..], v) == [];
  }

  lemma MainValues(names: seq<string>, copyFiles: seq<BlobEntry>, manifests: seq<BlobEntry>)
    ensures var a := [NAMESPACE] + AsWritten(Blocks(names, copyFiles, manifests));
            && ValuesOf(a, "PRODUCT_SOONG_NAMESPACES") == ["vendor/xiaomi/ruan"]
            && ValuesOf(a, "PRODUCT_PACKAGES") == names
            && ValuesOf(a, "PRODUCT_COPY_FILES") == CopyItems(copyFiles)
  {
    assert |"PRODUCT_PACKAGES"| == 16 && |"PRODUCT_COPY_FILES"| == 18 && |"PRODUCT_SOONG_NAMESPACES"| == 24;
    forall p { MainVariablesDiffer(p); }
    MainValue(names, copyFiles, manifests, "PRODUCT_SOONG_NAMESPACES");
    MainValue(names, copyFiles, manifests, "PRODUCT_PACKAGES");
    MainValue(names, copyFiles, manifests, "PRODUCT_COPY_FILES");
  }

  lemma MainValue(names: seq<string>, copyFiles: seq<BlobEntry>, manifests: seq<BlobEntry>, v: string)
    requires NoManifestVar(v)
    ensures ValuesOf([NAMESPACE] + AsWritten(Blocks(names, copyFiles, manifests)), v)
            == (if v == "PRODUCT_SOONG_NAMESPACES" then ["vendor/xiaomi/ruan"] else [])
               + (if v == "PRODUCT_PACKAGES" then names else [])
               + (if v == "PRODUCT_COPY_FILES" then CopyItems(copyFiles) else [])
  {
    var blocks, last := Blocks(names, copyFiles, manifests), ManifestBlocks(manifests, MANIFEST_PARTITIONS);
    assert Holds(last, v) == [] by { HoldsNoManifest(manifests, MANIFEST_PARTITIONS, v); }
    var packages := if v == "PRODUCT_PACKAGES" then names else [];
    var copies := if v == "PRODUCT_COPY_FILES" then CopyItems(copyFiles) else [];
    assert Holds(blocks, v) == packages + copies + Holds(last, v) by { HoldsAll(names, copyFiles, manifests, v); }
    assert packages + copies + [] == packages + copies;
    ReadValues(blocks, v);
  }

  lemma ManifestValue(names: seq<string>, copyFiles: seq<BlobEntry>, manifests: seq<BlobEntry>, p: string, v: string)
    requires ManifestVar(p) == Some(v)
    ensures ValuesOf([NAMESPACE] + AsWritten(Blocks(names, copyFiles, manifests)), v) == ManifestItems(manifests, p)
  {
    MainVariablesDiffer(p);
    ReadValues(Blocks(names, copyFiles, manifests), v);
    HoldsAll(names, copyFiles, manifests, v);
    ManifestPartitionsAll(p);
    ManifestPartitionsDistinct();
    HoldsManifests(manifests, MANIFEST_PARTITIONS, p, v);
  }

  lemma ManifestPartitionsDistinct()
    ensures forall i, j :: 0 <= i < j < |MANIFEST_PARTITIONS| ==> MANIFEST_PARTITIONS[i] != MANIFEST_PARTITIONS[j]
  {
    ManifestPartitionsSorted();
    forall i, j | 0 <= i < j < |MANIFEST_PARTITIONS| ensures MANIFEST_PARTITIONS[i] != MANIFEST_PARTITIONS[j] {
      LessTotal(MANIFEST_PARTITIONS[i], MANIFEST_PARTITIONS[j]);
      assert Less(Id(MANIFEST_PARTITIONS[i]), Id(MANIFEST_PARTITIONS[j]));
    }
  }

  lemma {:induction false} ManifestBlocksListed(manifests: seq<BlobEntry>, ps: seq<string>)
    ensures forall b :: b in ManifestBlocks(manifests, ps) ==> Listed(b.variable)
  {
    if ps != [] {
      var n := |ps| - 1;
      ManifestBlocksListed(manifests, ps[..n]);
      if ManifestVar(ps[n]).Some? {
        ManifestVarListed(ps[n]);
      }
    }
  }

  lemma BlocksListed(names: seq<string>, copyFiles: seq<BlobEntry>, manifests: seq<BlobEntry>)
    ensures forall x :: x in [NAMESPACE] + AsWritten(Blocks(names, copyFiles, manifests)) ==> Listed(x.variable)
  {
    var blocks := Blocks(names, copyFiles, manifests);
    ManifestBlocksListed(manifests, MANIFEST_PARTITIONS);
    assert forall b :: b in blocks ==> Listed(b.variable);
    forall x | x in AsWritten(blocks) ensures Listed(x.variable) {
      var i :| 0 <= i < |blocks| && AsWritten(blocks)[i] == x;
      assert blocks[i] in blocks;
    }
  }

  /** When no path contains a blank, the makefile says what it should: the module names under
      `PRODUCT_PACKAGES`, the copied files under `PRODUCT_COPY_FILES`, the manifests under the variable of their
      partition, and nothing under any other variable. */
  lemma EmissionMeans(names: seq<string>, copyFiles: seq<BlobEntry>, manifests: seq<BlobEntry>)
    requires forall n :: n in names ==> NormalForm(n) && n != ""
    requires forall e :: e in copyFiles || e in manifests ==> ReadEntry(e)
    requires BlankFreePaths(copyFiles, manifests)
    ensures Describes(Assignments(VendorMkText(names, copyFiles, manifests)), names, copyFiles, manifests)
  {
    EmissionReadsBack(names, copyFiles, manifests);
    WrittenMeans(names, copyFiles, manifests);
  }

  lemma WrittenMeans(names: seq<string>, copyFiles: seq<BlobEntry>, manifests: seq<BlobEntry>)
    ensures Describes([NAMESPACE] + AsWritten(Blocks(names, copyFiles, manifests)), names, copyFiles, manifests)
  {
    var a := [NAMESPACE] + AsWritten(Blocks(names, copyFiles, manifests));
    MainValues(names, copyFiles, manifests);
    CopyItemsRead(copyFiles);
    forall v, p | ManifestsOf(v, p) ensures ManifestsRead(ValuesOf(a, v), manifests, p) {
      ManifestVarIs(p, v);
      ManifestValue(names, copyFiles, manifests, p, v);
    }
    BlocksListed(names, copyFiles, manifests);
    WrittenInOrder(names, copyFiles, manifests);
  }
}
