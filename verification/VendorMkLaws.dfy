/** The product makefile can be read back: its assignments are the modules, the copied files and the
    manifests it was written from. */
module VendorMkLaws {
  import opened Strings
  import opened BlobList
  import opened Sorting
  import opened Destinations
  import opened Names
  import opened MakeText
  import opened VendorMk

  const NAMESPACE := Assignment("PRODUCT_SOONG_NAMESPACES", ["vendor/xiaomi/ruan"])

  predicate Quiet(s: string) {
    '\n' !in s && '\\' !in s
  }

  /** An item that can stand anywhere in the file, its end included. */
  predicate SafeItem(s: string) {
    Safe(s) && !EndsInSpace(s)
  }

  predicate IsPlain(c: char) {
    c != ' ' && c != '\t' && c != '\n' && c != '\\'
  }

  /** Only characters that are neither blanks nor structure. */
  predicate Plain(s: string) {
    forall i :: 0 <= i < |s| ==> IsPlain(s[i])
  }

  lemma PlainMeans(s: string)
    ensures Plain(s) <==> BlankFree(s) && Quiet(s)
  {
    assert forall i :: 0 <= i < |s| ==> s[i] in s;
  }

  lemma Concat(a: string, b: string)
    ensures BlankFree(a + b) <==> BlankFree(a) && BlankFree(b)
    ensures Quiet(a + b) <==> Quiet(a) && Quiet(b)
  {
    assert forall c :: c in a + b <==> c in a || c in b;
  }

  // ---------------------------------------------------------------- the fixed lines

  lemma CommentReads(a: string, b: string, rest: string)
    requires a != "" && BlankFree(a) && b != "" && BlankFree(b) && b != "+="
    ensures Appended(a + " " + (b + " " + rest)) == None
  {
    WordsConcat(a, b + " " + rest);
    WordsConcat(b, rest);
    WordOfBlankFree(a);
    WordOfBlankFree(b);
    assert Words(a + " " + (b + " " + rest))[1] == b;
  }

  lemma AssignmentReads(v: string, w: string)
    requires v != "" && BlankFree(v) && w != "" && BlankFree(w)
    ensures Appended(v + " " + ("+=" + " " + w)) == Some(Assignment(v, [w]))
  {
    WordsConcat(v, "+=" + " " + w);
    WordsConcat("+=", w);
    WordOfBlankFree(v);
    WordOfBlankFree("+=");
    WordOfBlankFree(w);
    assert Words(v + " " + ("+=" + " " + w)) == [v, "+=", w];
  }

  lemma FourLinesPlain(a: string, b: string)
    requires Quiet(a) && Quiet(b) && b != "" && !EndsInSpace(a) && !EndsInSpace(b)
    ensures PlainHeader([a, "", b, ""])
  {
  }

  lemma FourLinesLogical(a: string, b: string)
    requires !Continued(a) && !Continued(b)
    ensures Logical([a, "", b, ""]) == [a, "", b, ""]
  {
    LogicalOne(a);
    LogicalOne(b);
    LogicalOne("");
    LogicalConcat([a], [""]);
    LogicalConcat([b], [""]);
    LogicalConcat([a] + [""], [b] + [""]);
    assert [a, "", b, ""] == ([a] + [""]) + ([b] + [""]);
  }

  lemma FourLinesRead(a: string, b: string, v: Assignment)
    requires Appended(a) == None && Appended(b) == Some(v)
    ensures AppendedIn([a, "", b, ""]) == [v]
  {
    EmptyWords();
    AppendedInOne(a);
    AppendedInOne(b);
    AppendedInOne("");
    AppendedInConcat([a], [""]);
    AppendedInConcat([b], [""]);
    AppendedInConcat([a] + [""], [b] + [""]);
    assert [a, "", b, ""] == ([a] + [""]) + ([b] + [""]);
  }

  lemma LogicalOne(l: string)
    ensures Logical([l]) == [l]
  {
    assert [l][1..] == [];
  }

  lemma PlainWords()
    ensures Plain("Auto-generated") && Plain("PRODUCT_SOONG_NAMESPACES") && Plain("vendor/xiaomi/ruan")
  {
  }

  lemma ScriptQuiet()
    ensures Quiet("device/xiaomi/ruan/extract-files.py") && !EndsInSpace("device/xiaomi/ruan/extract-files.py")
  {
    var s := "device/xiaomi/ruan/extract-files.py";
    assert Plain(s);
    PlainMeans(s);
    assert s[34] == 'y';
  }

  lemma CommentQuiet()
    ensures Quiet(COMMENT) && !EndsInSpace(COMMENT)
  {
    var script := "device/xiaomi/ruan/extract-files.py";
    ScriptQuiet();
    PlainWords();
    PlainMeans("Auto-generated");
    TwoQuiet("by", script);
    TwoQuiet("Auto-generated", "by" + " " + script);
    TwoQuiet("#", "Auto-generated" + " " + ("by" + " " + script));
  }

  lemma NamespacesQuiet()
    ensures Quiet(NAMESPACES) && !EndsInSpace(NAMESPACES) && NAMESPACES != ""
  {
    PlainWords();
    PlainMeans("PRODUCT_SOONG_NAMESPACES");
    PlainMeans("vendor/xiaomi/ruan");
    assert "vendor/xiaomi/ruan"[17] == 'n';
    TwoQuiet("+=", "vendor/xiaomi/ruan");
    TwoQuiet("PRODUCT_SOONG_NAMESPACES", "+=" + " " + "vendor/xiaomi/ruan");
  }

  lemma TwoQuiet(a: string, b: string)
    requires Quiet(a) && Quiet(b) && b != "" && !EndsInSpace(b)
    ensures Quiet(a + " " + b) && !EndsInSpace(a + " " + b)
  {
  }

  lemma HeaderReads()
    ensures PlainHeader(HEADER)
    ensures AppendedIn(Logical(HEADER)) == [NAMESPACE]
  {
    PlainWords();
    PlainMeans("Auto-generated");
    PlainMeans("PRODUCT_SOONG_NAMESPACES");
    PlainMeans("vendor/xiaomi/ruan");
    assert |"Auto-generated"| != |"+="|;
    CommentReads("#", "Auto-generated", "by" + " " + "device/xiaomi/ruan/extract-files.py");
    AssignmentReads("PRODUCT_SOONG_NAMESPACES", "vendor/xiaomi/ruan");
    CommentQuiet();
    NamespacesQuiet();
    FourLinesPlain(COMMENT, NAMESPACES);
    FourLinesLogical(COMMENT, NAMESPACES);
    FourLinesRead(COMMENT, NAMESPACES, NAMESPACE);
  }

  // ---------------------------------------------------------------- the items

  lemma OutNamePlain(p: string)
    requires p in KNOWN_PARTITIONS
    ensures BlankFree(OutName(p)) && Quiet(OutName(p)) && '/' !in OutName(p)
  {
    assert Plain(OutName(p));
    PlainMeans(OutName(p));
    assert SlashFree(OutName(p), 0, |OutName(p)|);
  }

  lemma CopyOutPlain(p: string)
    requires p in KNOWN_PARTITIONS
    ensures BlankFree(CopyOut(p)) && Quiet(CopyOut(p)) && '/' !in CopyOut(p)
  {
    var open := "$(TARGET_COPY_OUT_";
    assert Plain(open) && SlashFree(open, 0, |open|);
    PlainMeans(open);
    OutNamePlain(p);
    Concat(open, OutName(p));
    Concat(open + OutName(p), ")");
  }

  lemma KnownPlain(p: string)
    requires p in KNOWN_PARTITIONS
    ensures BlankFree(p) && Quiet(p)
  {
    assert Plain(p);
    PlainMeans(p);
  }

  lemma ProprietaryPlain()
    ensures BlankFree(PROPRIETARY) && Quiet(PROPRIETARY) && PROPRIETARY != "" && !EndsInSpace(PROPRIETARY)
  {
    assert Plain(PROPRIETARY);
    PlainMeans(PROPRIETARY);
    assert PROPRIETARY[|PROPRIETARY| - 1] == '/';
  }

  /** A destination is its partition and its path, or just its path. */
  lemma DestParts(dest: string)
    ensures PartitionDest(dest) == dest || dest == Partition(dest) + "/" + PartitionDest(dest)
  {
    var slash := Find(dest, '/');
    assert slash < |dest| ==> dest == dest[..slash] + "/" + dest[slash + 1..];
  }

  lemma PartitionDestClean(dest: string)
    requires Quiet(dest) && !EndsInSpace(dest)
    ensures var rel := PartitionDest(dest);
            Quiet(rel) && !EndsInSpace(rel) && (BlankFree(rel) <==> BlankFree(dest))
  {
    var p, rel := Partition(dest), PartitionDest(dest);
    DestParts(dest);
    PartitionIsKnown(dest);
    if rel != dest {
      KnownPlain(p);
      Concat(p, "/");
      Concat(p + "/", rel);
      assert rel != "" ==> dest[|dest| - 1] == rel[|rel| - 1];
    }
  }

  lemma ReadEntryQuiet(e: BlobEntry)
    requires ReadEntry(e)
    ensures Quiet(e.src) && Quiet(e.dest) && !EndsInSpace(e.src) && !EndsInSpace(e.dest)
  {
  }

  lemma CopyItemSafe(e: BlobEntry)
    requires ReadEntry(e)
    ensures SafeItem(CopyItem(e))
    ensures BlankFree(CopyItem(e)) <==> BlankFree(e.src) && BlankFree(e.dest)
  {
    ReadEntryQuiet(e);
    PartitionIsKnown(e.dest);
    var out, rel := CopyOut(Partition(e.dest)), PartitionDest(e.dest);
    CopyOutPlain(Partition(e.dest));
    PartitionDestClean(e.dest);
    ProprietaryPlain();
    CopyTextSafe(PROPRIETARY, e.src, out, rel);
  }

  lemma CopyTextSafe(prefix: string, src: string, out: string, rel: string)
    requires prefix != "" && BlankFree(prefix) && Quiet(prefix) && BlankFree(out) && Quiet(out)
    requires Quiet(src) && Quiet(rel) && !EndsInSpace(rel)
    ensures var item := prefix + src + ":" + out + "/" + rel;
            SafeItem(item) && (BlankFree(item) <==> BlankFree(src) && BlankFree(rel))
  {
    var a := prefix + src;
    var b := a + ":";
    var c := b + out;
    var d := c + "/";
    Concat(prefix, src);
    Concat(a, ":");
    Concat(b, out);
    Concat(c, "/");
    Concat(d, rel);
    assert (d + rel)[|d + rel| - 1] == if rel == "" then '/' else rel[|rel| - 1];
  }

  lemma SourceTextSafe(prefix: string, src: string)
    requires prefix != "" && BlankFree(prefix) && Quiet(prefix) && !EndsInSpace(prefix)
    requires Quiet(src) && !EndsInSpace(src)
    ensures SafeItem(prefix + src) && (BlankFree(prefix + src) <==> BlankFree(src))
  {
    Concat(prefix, src);
    assert src != "" ==> (prefix + src)[|prefix + src| - 1] == src[|src| - 1];
    assert src == "" ==> prefix + src == prefix;
  }

  lemma NameSafe(name: string)
    requires NormalForm(name) && name != ""
    ensures SafeItem(name) && BlankFree(name)
  {
    assert name[|name| - 1] in name;
  }

  function CutFirst(s: string, c: char): Option<(string, string)> {
    var i := Find(s, c);
    if i == |s| then None else Some((s[..i], s[i + 1..]))
  }

  /** The source, the output variable and the path of an item: what stands before the first colon after the
      prefix, before the next slash, and after it. */
  function ReadCopyItem(item: string, prefix: string): Option<(string, string, string)> {
    if !(prefix <= item) then None
    else
      match CutFirst(item[|prefix|..], ':')
      case None => None
      case Some((src, target)) =>
        match CutFirst(target, '/')
        case None => None
        case Some((out, rel)) => Some((src, out, rel))
  }

  lemma CutAt(a: string, c: char, b: string)
    requires c !in a
    ensures CutFirst(a + [c] + b, c) == Some((a, b))
  {
    FindAt(a, c, b);
    var s := a + [c] + b;
    assert s[..|a|] == a && s[|a| + 1..] == b;
  }

  lemma Reassociate(prefix: string, src: string, out: string, rel: string)
    ensures prefix + src + ":" + out + "/" + rel == prefix + (src + [':'] + (out + ['/'] + rel))
  {
  }

  lemma CopyTextReads(prefix: string, src: string, out: string, rel: string)
    requires ':' !in src && '/' !in out
    ensures ReadCopyItem(prefix + src + ":" + out + "/" + rel, prefix) == Some((src, out, rel))
  {
    var target := out + ['/'] + rel;
    var t := src + [':'] + target;
    Reassociate(prefix, src, out, rel);
    assert (prefix + t)[|prefix|..] == t;
    CutAt(src, ':', target);
    CutAt(out, '/', rel);
  }

  /** An item of the copy list reads back as the entry's source, its partition's output directory, and its
      path there. */
  lemma CopyItemReads(e: BlobEntry)
    requires WellFormed(e)
    ensures Partition(e.dest) in KNOWN_PARTITIONS
    ensures ReadCopyItem(CopyItem(e), PROPRIETARY) == Some((e.src, CopyOut(Partition(e.dest)), PartitionDest(e.dest)))
  {
    PartitionIsKnown(e.dest);
    CopyOutPlain(Partition(e.dest));
    CopyTextReads(PROPRIETARY, e.src, CopyOut(Partition(e.dest)), PartitionDest(e.dest));
  }

  /** So items that are equal copy the same source to the same place. */
  lemma CopyItemFaithful(e: BlobEntry, e': BlobEntry)
    requires WellFormed(e) && WellFormed(e') && CopyItem(e) == CopyItem(e')
    ensures e.src == e'.src && NormalizedDest(e.dest) == NormalizedDest(e'.dest)
  {
    CopyItemReads(e);
    CopyItemReads(e');
    CopyOutInjective(Partition(e.dest), Partition(e'.dest));
  }

  lemma CopyOutInjective(p: string, p': string)
    requires p in KNOWN_PARTITIONS && p' in KNOWN_PARTITIONS && CopyOut(p) == CopyOut(p')
    ensures p == p'
  {
    assert OutName(p) == CopyOut(p)[18..|CopyOut(p)| - 1];
    assert OutName(p') == CopyOut(p')[18..|CopyOut(p')| - 1];
    OutNameTells(p);
    OutNameTells(p');
  }

  lemma OutNameTells(p: string)
    requires p in KNOWN_PARTITIONS
    ensures var s := OutName(p);
            && |s| > 0
            && (p == "odm" ==> s[0] == 'O') && (p == "product" ==> s[0] == 'P')
            && (p == "system" ==> s[0] == 'S' && |s| == 6) && (p == "system_ext" ==> s[0] == 'S' && |s| == 10)
            && (p == "vendor" ==> s[0] == 'V' && |s| == 6) && (p == "vendor_dlkm" ==> s[0] == 'V' && |s| == 11)
  {
  }

  // ---------------------------------------------------------------- the blocks

  predicate GoodVariable(v: string) {
    Safe(v) && BlankFree(v)
  }

  lemma PlainVariable(v: string)
    requires Plain(v) && v != ""
    ensures GoodVariable(v)
  {
    PlainMeans(v);
  }

  lemma MainVariables()
    ensures GoodVariable("PRODUCT_PACKAGES") && GoodVariable("PRODUCT_COPY_FILES")
  {
    PlainVariable("PRODUCT_PACKAGES");
    PlainVariable("PRODUCT_COPY_FILES");
  }

  lemma ManifestVariable(p: string)
    requires ManifestVar(p).Some?
    ensures GoodVariable(ManifestVar(p).value)
  {
    var tail := "_MANIFEST_FILES";
    OutNamePlain(p);
    assert Plain(tail);
    PlainMeans(tail);
    Concat(OutName(p), tail);
  }

  lemma {:induction false} WithinLaws(entries: seq<BlobEntry>, p: string)
    ensures forall e :: e in Within(entries, p) <==> e in entries && Partition(e.dest) == p
  {
    if entries != [] {
      var n := |entries| - 1;
      WithinLaws(entries[..n], p);
      assert entries == entries[..n] + [entries[n]];
    }
  }

  /** Each manifest of the partition is there as often as in the list, and no other one. */
  lemma {:induction false} WithinCounts(entries: seq<BlobEntry>, p: string, e: BlobEntry)
    ensures multiset(Within(entries, p))[e] == if Partition(e.dest) == p then multiset(entries)[e] else 0
  {
    if entries != [] {
      var n := |entries| - 1;
      WithinCounts(entries[..n], p, e);
      assert entries == entries[..n] + [entries[n]];
    }
  }

  ghost predicate AllSafe(items: seq<string>) {
    forall s :: s in items ==> SafeItem(s)
  }

  ghost predicate AllBlankFree(items: seq<string>) {
    forall s :: s in items ==> BlankFree(s)
  }

  /** The manifests of one partition, as they appear in its block. */
  function ManifestItems(manifests: seq<BlobEntry>, p: string): seq<string> {
    SourceItems(Sort(Within(manifests, p), Dest))
  }

  lemma CopyItemsLaws(entries: seq<BlobEntry>)
    requires forall e :: e in entries ==> ReadEntry(e)
    ensures AllSafe(CopyItems(entries))
    ensures AllBlankFree(CopyItems(entries)) <==> forall e :: e in entries ==> BlankFree(e.src) && BlankFree(e.dest)
  {
    forall i | 0 <= i < |entries|
      ensures SafeItem(CopyItems(entries)[i])
      ensures BlankFree(CopyItems(entries)[i]) <==> BlankFree(entries[i].src) && BlankFree(entries[i].dest)
    {
      assert ReadEntry(entries[i]);
      CopyItemSafe(entries[i]);
    }
    if AllBlankFree(CopyItems(entries)) {
      forall e | e in entries ensures BlankFree(e.src) && BlankFree(e.dest) {
        var i :| 0 <= i < |entries| && entries[i] == e;
        assert CopyItems(entries)[i] in CopyItems(entries);
      }
    }
  }

  lemma ManifestItemsLaws(manifests: seq<BlobEntry>, p: string)
    requires forall e :: e in manifests ==> ReadEntry(e)
    ensures AllSafe(ManifestItems(manifests, p))
    ensures AllBlankFree(ManifestItems(manifests, p))
            <==> forall e :: e in manifests && Partition(e.dest) == p ==> BlankFree(e.src)
  {
    var entries := Sort(Within(manifests, p), Dest);
    var items := ManifestItems(manifests, p);
    SortMembers(Within(manifests, p), Dest);
    WithinLaws(manifests, p);
    ProprietaryPlain();
    forall i | 0 <= i < |entries|
      ensures SafeItem(items[i]) && (BlankFree(items[i]) <==> BlankFree(entries[i].src))
    {
      assert entries[i] in entries;
      ReadEntryQuiet(entries[i]);
      SourceTextSafe(PROPRIETARY, entries[i].src);
    }
    if AllBlankFree(items) {
      forall e | e in manifests && Partition(e.dest) == p ensures BlankFree(e.src) {
        assert e in entries;
        var i :| 0 <= i < |entries| && entries[i] == e;
        assert items[i] in items;
      }
    } else {
      var i :| 0 <= i < |items| && !BlankFree(items[i]);
      assert entries[i] in entries;
    }
  }

  ghost predicate Healthy(blocks: seq<Block>) {
    forall b :: b in blocks ==> SafeBlock(b) && InkEnded(b)
  }

  lemma OptionalLaws(v: string, items: seq<string>)
    requires GoodVariable(v) && AllSafe(items)
    ensures Healthy(OptionalBlock(v, items))
    ensures ItemsBlankFree(OptionalBlock(v, items)) <==> AllBlankFree(items)
  {
    assert items != [] ==> Block(v, items) in OptionalBlock(v, items) && items[|items| - 1] in items;
  }

  lemma HealthyConcat(a: seq<Block>, b: seq<Block>)
    requires Healthy(a) && Healthy(b)
    ensures Healthy(a + b)
    ensures ItemsBlankFree(a + b) <==> ItemsBlankFree(a) && ItemsBlankFree(b)
  {
    assert forall x :: x in a + b <==> x in a || x in b;
  }

  lemma {:induction false} ManifestBlocksLaws(manifests: seq<BlobEntry>, ps: seq<string>)
    requires forall e :: e in manifests ==> ReadEntry(e)
    requires forall p :: p in ps ==> ManifestVar(p).Some?
    ensures Healthy(ManifestBlocks(manifests, ps))
    ensures ItemsBlankFree(ManifestBlocks(manifests, ps))
            <==> forall e :: e in manifests && Partition(e.dest) in ps ==> BlankFree(e.src)
  {
    if ps != [] {
      var n := |ps| - 1;
      var p := ps[n];
      assert p in ps && forall q :: q in ps <==> q in ps[..n] || q == p;
      ManifestBlocksLaws(manifests, ps[..n]);
      ManifestVariable(p);
      ManifestItemsLaws(manifests, p);
      OptionalLaws(ManifestVar(p).value, ManifestItems(manifests, p));
      HealthyConcat(ManifestBlocks(manifests, ps[..n]), ManifestBlock(manifests, p));
    }
  }

  /** No path that the makefile mentions contains a blank. */
  ghost predicate BlankFreePaths(copyFiles: seq<BlobEntry>, manifests: seq<BlobEntry>) {
    && (forall e :: e in copyFiles ==> BlankFree(e.src) && BlankFree(e.dest))
    && (forall e :: e in manifests && ManifestVar(Partition(e.dest)).Some? ==> BlankFree(e.src))
  }

  lemma BlocksLaws(names: seq<string>, copyFiles: seq<BlobEntry>, manifests: seq<BlobEntry>)
    requires forall n :: n in names ==> NormalForm(n) && n != ""
    requires forall e :: e in copyFiles || e in manifests ==> ReadEntry(e)
    ensures Healthy(Blocks(names, copyFiles, manifests))
    ensures ItemsBlankFree(Blocks(names, copyFiles, manifests)) <==> BlankFreePaths(copyFiles, manifests)
  {
    forall n | n in names ensures SafeItem(n) && BlankFree(n) {
      NameSafe(n);
    }
    MainVariables();
    CopyItemsLaws(copyFiles);
    OptionalLaws("PRODUCT_PACKAGES", names);
    OptionalLaws("PRODUCT_COPY_FILES", CopyItems(copyFiles));
    HealthyConcat(OptionalBlock("PRODUCT_PACKAGES", names), OptionalBlock("PRODUCT_COPY_FILES", CopyItems(copyFiles)));
    forall p { ManifestPartitionsAll(p); }
    ManifestBlocksLaws(manifests, MANIFEST_PARTITIONS);
    HealthyConcat(MainBlocks(names, copyFiles), ManifestBlocks(manifests, MANIFEST_PARTITIONS));
  }

  /** The makefile reads back as the namespace, the packages, the copied files and the manifests of each
      partition with a manifest variable, in that order and item by item, exactly when no path in it
      contains a blank. */
  lemma EmissionReadsBack(names: seq<string>, copyFiles: seq<BlobEntry>, manifests: seq<BlobEntry>)
    requires forall n :: n in names ==> NormalForm(n) && n != ""
    requires forall e :: e in copyFiles || e in manifests ==> ReadEntry(e)
    ensures Assignments(VendorMkText(names, copyFiles, manifests)) == [NAMESPACE] + AsWritten(Blocks(names, copyFiles, manifests))
            <==> BlankFreePaths(copyFiles, manifests)
  {
    var blocks := Blocks(names, copyFiles, manifests);
    BlocksLaws(names, copyFiles, manifests);
    HeaderReads();
    FileReadsBack(HEADER, blocks);
    ReadAsWrittenIff(blocks);
    assert ([NAMESPACE] + ReadAs(blocks))[1..] == ReadAs(blocks);
    assert ([NAMESPACE] + AsWritten(blocks))[1..] == AsWritten(blocks);
  }
}
