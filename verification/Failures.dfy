/** Inputs at which the code falls short: one for each of the conditions under which a property holds. */
module Failures {
  import opened Strings
  import opened BlobList
  import opened Destinations
  import opened NameTokens
  import opened Group
  import opened GroupLaws
  import opened MakeText
  import opened Filter
  import opened FilterLaws
  import opened Pipeline
  import VendorMk
  import VendorMkLaws
  import Tlv

  // ---------------------------------------------------------------- printing and parsing again

  lemma SplitWhole(s: string, c: char)
    requires c !in s
    ensures Split(s, c) == [s]
  {
  }

  lemma CleanPathSame(s: string)
    requires Trimmed(s) && '\\' !in s
    ensures CleanPath(s) == s
  {
    CleanPathIsClean(s);
  }

  /** A payload taken apart: the location, without a colon or with the colon after src, and the arguments. */
  lemma PayloadIs(payload: string, pieces: seq<string>, src: string, dest: string, line: string)
    requires Split(payload, ';') == pieces && SplitLocation(pieces[0]) == (src, dest)
    requires Trimmed(src) && '\\' !in src && Trimmed(dest) && '\\' !in dest
    requires line != "" && line[|line| - 1] != '\n'
    ensures ParsePayload(payload, false, line) == BlobEntry(src, dest, false, NonEmpty(pieces[1..]), line)
  {
    CleanPathSame(src);
    CleanPathSame(dest);
  }

  /** The line `:` parses to an entry with nothing to print. */
  lemma ColonParses()
    ensures ParseBlobLine(":") == Some(BlobEntry("", "", false, [], ":"))
  {
    SplitWhole(":", ';');
    FindAt("", ':', "");
    assert "" + [':'] + "" == ":";
    PayloadIs(":", [":"], "", "", ":");
    ParseTrimmedLine(":", ":", false);
  }

  /** Printed and parsed again, it is gone. */
  lemma ColonIsLost()
    ensures ParseBlobLine(":").Some? && !Printable(ParseBlobLine(":").value)
    ensures ParseBlobLine(FilteredLine(ParseBlobLine(":").value)) == None
  {
    ColonParses();
    StripLaws("");
  }

  lemma SplitThree(a: string, b: string, c: string)
    requires ';' !in a && ';' !in b && ';' !in c
    ensures Split(a + ";" + (b + ";" + c), ';') == [a, b, c]
  {
    SplitCons(a, ';', b + ";" + c);
    SplitCons(b, ';', c);
    SplitWhole(c, ';');
  }

  lemma FirstOnly(b: string)
    requires b != ""
    ensures NonEmpty([b, ""]) == [b]
  {
    NonEmptyConcat([b], [""]);
    NonEmptyLaws([b]);
    assert [b] + [""] == [b, ""];
  }

  lemma ClosedEnds(a: string, b: string, line: string)
    requires a != "" && !IsSpace(a[0]) && b != "" && b[|b| - 1] == ';' && line == a + ";" + (b + "")
    ensures Trimmed(line) && line != "" && line[0] == a[0] && line[|line| - 1] == ';'
  {
    assert b + "" == b;
  }

  /** A path and one argument, closed by a semicolon. */
  lemma ClosedArgumentParses(a: string, b: string, line: string)
    requires PathClean(a) && a != "" && ':' !in a && a[0] != '-' && a[0] != '#' && b != "" && ';' !in b
    requires line == a + ";" + (b + ";" + "")
    ensures ParseBlobLine(line) == Some(BlobEntry(a, a, false, [b], line))
  {
    assert ParseBlobLine(line) == Some(ParsePayload(line, false, line)) by {
      ClosedEnds(a, b + ";", line);
      ParseTrimmedLine(line, line, false);
    }
    assert Split(line, ';') == [a, b, ""] by { SplitThree(a, b, ""); }
    assert NonEmpty([a, b, ""][1..]) == [b] by {
      FirstOnly(b);
      assert [a, b, ""][1..] == [b, ""];
    }
    ClosedEnds(a, b + ";", line);
    PayloadIs(line, [a, b, ""], a, a, line);
  }

  /** The line `a;b ;` parses to an entry whose argument keeps its blank. */
  lemma BlankArgumentParses()
    ensures ParseBlobLine("a;b ;") == Some(BlobEntry("a", "a", false, ["b "], "a;b ;"))
  {
    ClosedArgumentParses("a", "b ", "a;b ;");
  }

  /** Printed and parsed again, it is another entry. */
  lemma BlankArgumentIsLost()
    ensures ParseBlobLine("a;b ;").Some? && !Printable(ParseBlobLine("a;b ;").value)
    ensures var e := ParseBlobLine("a;b ;").value;
            ParseBlobLine(FilteredLine(e)) != Some(Reprinted(e))
  {
    BlankArgumentParses();
    ParsePrintParse("a;b ;");
    assert IsSpace("b "[1]);
  }

  lemma ReadOneLine(line: string, e: BlobEntry)
    requires LineFree(line) && ParseBlobLine(line) == Some(e)
    ensures ReadText(line) == [e]
  {
    assert '\r' !in line && line != "" by {
      assert IsLineBreak('\r');
      assert ParseBlobLine("") == None;
    }
    NoCarriageReturn(line);
    assert LineEnd(line) == |line| && SplitLines(line) == [line];
    SomesAll(ParseEach([line]), [e]);
  }

  lemma OneIsSettled(p: Policy, e: BlobEntry)
    requires p.norm(e.dest) !in p.excluded
    ensures Filtered(p, [e]) == [e]
  {
    SettledIsFixed(p, [e]);
  }

  /** The list with the one line `:` is not a fixed point: the filtered list that is written reads back
      as another. */
  lemma ColonListIsNotFixed(p: Policy)
    requires p.norm("") !in p.excluded
    ensures var kept := Filtered(p, ReadText(":"));
            |kept| == 1 && ReadText(WriteText(kept)) != AllReprinted(kept)
  {
    var e := BlobEntry("", "", false, [], ":");
    ColonParses();
    ReadOneLine(":", e);
    OneIsSettled(p, e);
    FixedPoint(p, ":");
    assert e in Filtered(p, ReadText(":")) && !Printable(e);
  }

  // ---------------------------------------------------------------- reading the makefile

  lemma PathLineParses(line: string)
    requires PathClean(line) && line != "" && ':' !in line && line[0] != '-' && line[0] != '#' && LineFree(line)
    ensures ParseBlobLine(line) == Some(BlobEntry(line, line, false, [], line))
  {
    assert line[|line| - 1] in line && IsLineBreak('\n');
    SplitWhole(line, ';');
    PayloadIs(line, [line], line, line, line);
    ParseTrimmedLine(line, line, false);
  }

  lemma BlankCopyIsSplit(e: BlobEntry)
    requires ReadEntry(e) && !BlankFree(e.src)
    ensures Assignments(VendorMk.VendorMkText([], [e], []))
            != [VendorMkLaws.NAMESPACE] + AsWritten(VendorMk.Blocks([], [e], []))
  {
    VendorMkLaws.EmissionReadsBack([], [e], []);
    assert e in [e];
  }

  /** The line `a b` is an entry whose copy item reads as two words. */
  lemma BlankPathIsSplit()
    ensures ParseBlobLine("a b").Some?
    ensures var e := ParseBlobLine("a b").value;
            Assignments(VendorMk.VendorMkText([], [e], []))
            != [VendorMkLaws.NAMESPACE] + AsWritten(VendorMk.Blocks([], [e], []))
  {
    PathLineParses("a b");
    ParsedOneLine("a b");
    assert IsBlank("a b"[1]) && "a b"[1] in "a b";
    BlankCopyIsSplit(ParseBlobLine("a b").value);
  }

  // ---------------------------------------------------------------- the length field

  /** An item with 2^30 data words has length zero, and reads as an empty item followed by its data. */
  lemma LongItemReadsEmpty(data: seq<Tlv.u32>)
    requires |data| == Tlv.MAX_WORDS
    ensures Tlv.Decode(Tlv.Encode(Tlv.Leaf(Tlv.DB_SCALE, data))) == Some((Tlv.Leaf(Tlv.DB_SCALE, []), data))
  {
    assert 4 * |data| == Tlv.U32;
    assert Tlv.ByteLength(data) == 0;
    var t := Tlv.Leaf(Tlv.DB_SCALE, data);
    assert Tlv.Body(t) == data && Tlv.Kind(t) == Tlv.DB_SCALE;
    var words := Tlv.Encode(t);
    assert words == [Tlv.DB_SCALE, 0] + data;
    assert words[2..2] == [] && words[2..] == data;
  }

  /** So not every item decodes to itself. */
  lemma SomeItemIsTooLong()
    ensures exists t: Tlv.Tlv :: Tlv.Proper(t) && Tlv.Decode(Tlv.Encode(t)) != Some((t, []))
  {
    var data: seq<Tlv.u32> := seq(Tlv.MAX_WORDS, _ => 0);
    LongItemReadsEmpty(data);
    assert Tlv.Proper(Tlv.Leaf(Tlv.DB_SCALE, data));
  }

  // ---------------------------------------------------------------- shared modules

  /** What a contribution is, its name aside. */
  ghost predicate Places(r: Role, kind: Kind, partition: string, m: ElfMatch, arch: Arch) {
    && r.Part? && r.unit.kind == kind && r.unit.partition == partition && r.unit.arch == arch
    && r.unit.relpath == RStripChar(m.subdir, '/') && r.unit.stem == m.name
  }

  lemma LibraryPlaces(d: string, c: Classification, m: ElfMatch, arch: Arch, bin: Option<ElfMatch>)
    requires c.kind.SharedLib? && c.arch == Some(arch)
    ensures Places(RoleFor(d, c, Some(m), bin), SharedLib, Partition(d), m, arch)
  {
  }

  lemma BinaryPlaces(d: string, c: Classification, m: ElfMatch, lib: Option<ElfMatch>)
    requires c.kind.Binary? && c.arch == Some(Arch64)
    ensures Places(RoleFor(d, c, lib, Some(m)), Binary, Partition(d), m, Arch64)
  {
  }

  lemma LibraryClass(d: string, rel: string, m: ElfMatch)
    requires PartitionDest(d) == rel && '\n' !in rel && !IsRfsa(rel) && IsElfPath(rel, "lib", ".so", m)
    ensures Classify(d) == Classification(SharedLib, Some(if m.is64 then Arch64 else Arch32), m.name)
  {
    assert !IsManifest(rel) by { assert rel[0] == 'l'; }
    assert m == ElfMatch(m.is64, m.subdir, m.name);
    LibraryIff(d, m.is64, m.name);
  }

  lemma LibraryRole(d: string, rel: string, m: ElfMatch)
    requires PartitionDest(d) == rel && '\n' !in rel && !IsRfsa(rel) && IsElfPath(rel, "lib", ".so", m)
    ensures Places(RoleOf(d), SharedLib, Partition(d), m, if m.is64 then Arch64 else Arch32)
  {
    LibraryClass(d, rel, m);
    MatchIsLastSlashSplit(rel, "lib", ".so", m);
    LibraryPlaces(d, Classify(d), m, if m.is64 then Arch64 else Arch32, MatchBin(rel));
  }

  lemma ElfReads(head: string, m: ElfMatch, suffix: string, rel: string)
    requires rel == head + m.subdir + m.name + suffix && m.name != "" && '/' !in m.name
    requires m.subdir != "" ==> m.subdir[|m.subdir| - 1] == '/'
    ensures ReadsAs(rel, head, suffix, m)
  {
  }

  lemma LibraryAt(d: string, rel: string, m: ElfMatch)
    requires PartitionDest(d) == rel && '\n' !in rel && !IsRfsa(rel)
    requires rel == "lib" + "/" + m.subdir + m.name + ".so" && !m.is64 && m.name != "" && '/' !in m.name
    requires m.subdir != "" ==> m.subdir[|m.subdir| - 1] == '/'
    ensures Places(RoleOf(d), SharedLib, Partition(d), m, Arch32)
  {
    ElfReads("lib" + "/", m, ".so", rel);
    LibraryRole(d, rel, m);
  }

  lemma PlacedTogether(x: Role, y: Role, p: string, r: string, s: string)
    requires r != "" && '/' !in r
    requires Places(x, SharedLib, p, ElfMatch(false, r + "/", s), Arch32)
    requires Places(y, SharedLib, p, ElfMatch(false, "", r + "_" + s), Arch32)
    ensures Competes(x.unit, y.unit)
  {
    StripOneSlash(r);
    TokensConcat(r, s);
    EmptyTokens();
  }

  /** A library in the subdirectory r of a partition, and one of the same partition with r in its stem. */
  ghost predicate PathAndStem(d: string, d': string, r: string, s: string) {
    && Partition(d) == Partition(d') && r != "" && '/' !in r && s != "" && '/' !in s
    && PartitionDest(d) == "lib" + "/" + (r + "/") + s + ".so"
    && PartitionDest(d') == "lib" + "/" + "" + (r + "_" + s) + ".so"
    && '\n' !in PartitionDest(d) && !IsRfsa(PartitionDest(d))
    && '\n' !in PartitionDest(d') && !IsRfsa(PartitionDest(d'))
  }

  /** They go to one place. */
  lemma PathAndStemCompete(d: string, d': string, r: string, s: string)
    requires PathAndStem(d, d', r, s)
    ensures SamePlace(RoleOf, d, d')
  {
    assert Places(RoleOf(d), SharedLib, Partition(d), ElfMatch(false, r + "/", s), Arch32) by {
      LibraryAt(d, PartitionDest(d), ElfMatch(false, r + "/", s));
    }
    assert Places(RoleOf(d'), SharedLib, Partition(d), ElfMatch(false, "", r + "_" + s), Arch32) by {
      LibraryAt(d', PartitionDest(d'), ElfMatch(false, "", r + "_" + s));
    }
    PlacedTogether(RoleOf(d), RoleOf(d'), Partition(d), r, s);
  }

  lemma StripOneSlash(r: string)
    requires r != "" && '/' !in r
    ensures RStripChar(r + "/", '/') == r
  {
    assert (r + "/")[..|r|] == r;
    assert r[|r| - 1] in r;
  }

  lemma PathAndStemFrom(p: string, r: string, s: string, a: string, b: string)
    requires p in KNOWN_PARTITIONS && r != "" && '/' !in r && s != "" && '/' !in s
    requires a == "lib" + "/" + (r + "/") + s + ".so" && b == "lib" + "/" + "" + (r + "_" + s) + ".so"
    requires '\n' !in a && '\n' !in b && !IsRfsa(a) && !IsRfsa(b)
    ensures PathAndStem(p + "/" + a, p + "/" + b, r, s)
  {
    PartitionOf(p, a);
    PartitionOf(p, b);
  }

  lemma HwSpelling(p: string, r: string, s: string, d: string, d': string) returns (a: string, b: string)
    requires p == "vendor" && r == "hw" && s == "foo"
    requires d == "vendor/lib/hw/foo.so" && d' == "vendor/lib/hw_foo.so"
    ensures a == "lib" + "/" + (r + "/") + s + ".so" && b == "lib" + "/" + "" + (r + "_" + s) + ".so"
    ensures d == p + "/" + a && d' == p + "/" + b
    ensures a == "lib/hw/foo.so" && b == "lib/hw_foo.so"
  {
    a, b := "lib" + "/" + (r + "/") + s + ".so", "lib" + "/" + "" + (r + "_" + s) + ".so";
  }

  lemma HwPaths(p: string, r: string, s: string, d: string, d': string)
    requires p == "vendor" && r == "hw" && s == "foo"
    requires d == "vendor/lib/hw/foo.so" && d' == "vendor/lib/hw_foo.so"
    ensures PathAndStem(d, d', r, s)
  {
    var a, b := HwSpelling(p, r, s, d, d');
    HwPathsPlain(a, b);
    PathAndStemFrom(p, r, s, a, b);
  }

  /** A pair of libraries that share a module and, both being 32-bit, its one 32-bit source. */
  lemma HwPathAndStemCompete(d: string, d': string)
    requires d == "vendor/lib/hw/foo.so" && d' == "vendor/lib/hw_foo.so"
    ensures SamePlace(RoleOf, d, d')
  {
    HwPaths("vendor", "hw", "foo", d, d');
    PathAndStemCompete(d, d', "hw", "foo");
  }

  lemma HwPathsPlain(a: string, b: string)
    requires a == "lib/hw/foo.so" && b == "lib/hw_foo.so"
    ensures '\n' !in a && '\n' !in b && !IsRfsa(a) && !IsRfsa(b)
  {
    assert a[4] == 'h' && b[4] == 'h' && a[3] == '/' && b[3] == '/';
  }

  lemma BinaryClass(d: string, rel: string, m: ElfMatch)
    requires PartitionDest(d) == rel && '\n' !in rel && !TextLike(rel) && IsElfPath(rel, "bin", "", m)
    ensures Classify(d) == Classification(Binary, Some(Arch64), m.name)
  {
    assert !IsManifest(rel) by { assert rel[0] == 'b'; }
    assert m == ElfMatch(m.is64, m.subdir, m.name);
    BinaryIff(d, m.name);
  }

  lemma BinaryRole(d: string, rel: string, m: ElfMatch)
    requires PartitionDest(d) == rel && '\n' !in rel && !TextLike(rel) && IsElfPath(rel, "bin", "", m)
    ensures Places(RoleOf(d), Binary, Partition(d), m, Arch64)
  {
    BinaryClass(d, rel, m);
    MatchIsLastSlashSplit(rel, "bin", "", m);
    BinaryPlaces(d, Classify(d), m, MatchLib(rel));
  }

  lemma {:induction false} NoDotInside(s: string)
    requires '.' !in s
    ensures LastDot(s) == -1
  {
    if s != "" {
      assert s[|s| - 1] in s;
      NoDotInside(s[..|s| - 1]);
    }
  }

  lemma LastOfTwo(dir: string, name: string)
    requires dir != "" && '.' !in dir
    ensures LastComponent([dir, name]) == if name == "" || name == "." then dir else name
  {
    assert [dir, name][..1] == [dir];
    assert "."[0] == '.';
  }

  /** The suffix of a file does not depend on a directory without a dot. */
  lemma SuffixBelow(dir: string, name: string)
    requires dir != "" && '/' !in dir && '.' !in dir && '/' !in name
    ensures PathSuffix(dir + "/" + name)
            == var dot := LastDot(name); if name != "." && 0 < dot < |name| - 1 then name[dot..] else ""
  {
    assert Split(dir + "/" + name, '/') == [dir, name] by {
      SplitCons(dir, '/', name);
      SplitWhole(name, '/');
    }
    LastOfTwo(dir, name);
    NoDotInside(dir);
  }

  lemma BinDirsTextLike(name: string)
    requires '/' !in name
    ensures TextLike("bin" + "/" + name) <==> TextLike("bin64" + "/" + name)
  {
    SuffixBelow("bin", name);
    SuffixBelow("bin64", name);
  }

  lemma BinaryAt(d: string, is64: bool, name: string, rel: string)
    requires PartitionDest(d) == rel && name != "" && '/' !in name && '\n' !in name
    requires rel == (if is64 then "bin64" else "bin") + "/" + name && !TextLike(rel)
    ensures Places(RoleOf(d), Binary, Partition(d), ElfMatch(is64, "", name), Arch64)
  {
    var m := ElfMatch(is64, "", name);
    assert IsElfPath(rel, "bin", "", m) by {
      assert rel == "bin" + (if is64 then "64/" else "/") + "" + name + "";
      ElfReads("bin" + (if is64 then "64/" else "/"), m, "", rel);
    }
    BinaryRole(d, rel, m);
  }

  /** A file of bin and the same file of bin64 go to one place, as the same 64-bit binary. */
  lemma BinDirsCompete(d: string, d': string, name: string)
    requires Partition(d) == Partition(d') && name != "" && '/' !in name && '\n' !in name
    requires PartitionDest(d) == "bin" + "/" + name && PartitionDest(d') == "bin64" + "/" + name
    requires !TextLike(PartitionDest(d))
    ensures SamePlace(RoleOf, d, d')
  {
    BinDirsTextLike(name);
    BinaryAt(d, false, name, PartitionDest(d));
    BinaryAt(d', true, name, PartitionDest(d'));
  }

  /** Of two blobs that go to one place only the later one's source is used. */
  lemma FirstIsOverwritten(e: BlobEntry, e': BlobEntry)
    requires SamePlace(RoleOf, e.dest, e'.dest)
    ensures !Used(RoleOf, [e, e'], 0) && Used(RoleOf, [e, e'], 1)
  {
    SourceUsedIff([e, e'], 0);
    SourceUsedIff([e, e'], 1);
  }
}
