/** Where a destination belongs: its partition, its path inside the partition, and the kind of blob. */
module Destinations {
  import opened Strings

  const KNOWN_PARTITIONS: set<string> :=
    {"odm", "product", "system", "system_ext", "vendor", "vendor_dlkm"}

  // ---------------------------------------------------------------- partitions

  function SplitPartitionPath(path: string): (string, string) {
    var slash := Find(path, '/');
    if slash < |path| && path[..slash] in KNOWN_PARTITIONS then (path[..slash], path[slash + 1..])
    else ("vendor", path)
  }

  function Partition(dest: string): string {
    SplitPartitionPath(dest).0
  }

  function PartitionDest(dest: string): string {
    SplitPartitionPath(dest).1
  }

  function NormalizedDest(dest: string): string {
    Partition(dest) + "/" + PartitionDest(dest)
  }

  function Priority(dest: string): nat {
    match Partition(dest)
    case "system_ext" => 0
    case "product" => 1
    case "system" => 2
    case "vendor" => 3
    case "odm" => 4
    case _ => 99
  }

  /** The partitions, best priority first. */
  const RANKING: seq<string> := ["system_ext", "product", "system", "vendor", "odm", "vendor_dlkm"]

  lemma RankOf(dest: string) returns (i: nat)
    ensures i < |RANKING| && RANKING[i] == Partition(dest)
    ensures Priority(dest) == if i < 5 then i else 99
  {
    PartitionIsKnown(dest);
    var p := Partition(dest);
    i := if p == "system_ext" then 0 else if p == "product" then 1 else if p == "system" then 2
         else if p == "vendor" then 3 else if p == "odm" then 4 else 5;
  }

  /** A destination has the better priority exactly when its partition comes earlier in the ranking. */
  lemma PriorityIsRank(d: string, d': string, i: nat, j: nat)
    requires i < |RANKING| && RANKING[i] == Partition(d)
    requires j < |RANKING| && RANKING[j] == Partition(d')
    ensures Priority(d) < Priority(d') <==> i < j
  {
    var a := RankOf(d);
    var b := RankOf(d');
    RankingDistinct(a, i);
    RankingDistinct(b, j);
  }

  lemma RankingDistinct(i: nat, j: nat)
    requires i < |RANKING| && j < |RANKING| && RANKING[i] == RANKING[j]
    ensures i == j
  {
    assert |"system_ext"| == 10 && |"product"| == 7 && |"odm"| == 3 && |"vendor_dlkm"| == 11;
    assert "system"[0] == 's' && "vendor"[0] == 'v';
  }

  lemma PartitionIsKnown(dest: string)
    ensures Partition(dest) in KNOWN_PARTITIONS && '/' !in Partition(dest)
  {
  }

  /** The partitions by name. */
  ghost predicate Named(p: string) {
    p == "odm" || p == "product" || p == "system" || p == "system_ext" || p == "vendor" || p == "vendor_dlkm"
  }

  lemma KnownHasNoSlash(p: string)
    requires p in KNOWN_PARTITIONS
    ensures '/' !in p
  {
    assert SlashFree(p, 0, |p|);
  }

  lemma PartitionOf(p: string, rel: string)
    requires p in KNOWN_PARTITIONS
    ensures SplitPartitionPath(p + "/" + rel) == (p, rel)
  {
    KnownHasNoSlash(p);
    FindAt(p, '/', rel);
    var d := p + ['/'] + rel;
    assert d[..|p|] == p && d[|p| + 1..] == rel;
  }

  ghost predicate Unprefixed(d: string) {
    forall q :: Named(q) ==> !(q + "/" <= d)
  }

  lemma DefaultPartition(d: string)
    requires Unprefixed(d)
    ensures SplitPartitionPath(d) == ("vendor", d)
  {
    var slash := Find(d, '/');
    assert slash < |d| ==> d[..slash] + "/" == d[..slash + 1];
    assert slash < |d| && d[..slash] in KNOWN_PARTITIONS ==> Named(d[..slash]);
  }

  /** A destination is split at the name of its partition when it starts with one and a slash; every other
      destination belongs to vendor as a whole. */
  lemma SplitPartitionIff(d: string, p: string, r: string)
    ensures SplitPartitionPath(d) == (p, r)
            <==> (Named(p) && d == p + "/" + r) || (Unprefixed(d) && p == "vendor" && r == d)
  {
    if Unprefixed(d) {
      DefaultPartition(d);
      assert Named(p) && d == p + "/" + r ==> p + "/" <= d;
    } else {
      var q :| Named(q) && q + "/" <= d;
      var tail := d[|q| + 1..];
      assert d == q + "/" + tail;
      PartitionOf(q, tail);
      if Named(p) && d == p + "/" + r {
        PartitionOf(p, r);
      }
    }
  }

  /** The priorities of the partitions; vendor_dlkm has none of its own. */
  lemma PriorityTable(p: string, rel: string)
    requires Named(p)
    ensures Priority(p + "/" + rel)
            == if p == "system_ext" then 0 else if p == "product" then 1 else if p == "system" then 2
               else if p == "vendor" then 3 else if p == "odm" then 4 else 99
  {
    PartitionOf(p, rel);
  }

  /** Normalising is canonical: the normalized destination splits into the same partition and path, so two
      destinations normalize alike exactly when they name the same file. */
  lemma NormalizedSplits(dest: string)
    ensures SplitPartitionPath(NormalizedDest(dest)) == SplitPartitionPath(dest)
    ensures NormalizedDest(NormalizedDest(dest)) == NormalizedDest(dest)
  {
    PartitionIsKnown(dest);
    var p, r := Partition(dest), PartitionDest(dest);
    FindAt(p, '/', r);
    var n := p + ['/'] + r;
    assert n[..|p|] == p && n[|p| + 1..] == r;
  }

  /** A destination that starts with a partition is normal; any other gets `vendor/` in front. */
  lemma NormalizedIs(dest: string)
    ensures NormalizedDest(dest) == if Unprefixed(dest) then "vendor/" + dest else dest
  {
    SplitPartitionIff(dest, Partition(dest), PartitionDest(dest));
    assert "vendor" + "/" == "vendor/";
  }

  lemma NormalizedFaithful(d: string, d': string)
    ensures NormalizedDest(d) == NormalizedDest(d') <==> SplitPartitionPath(d) == SplitPartitionPath(d')
  {
    NormalizedSplits(d);
    NormalizedSplits(d');
  }

  // ---------------------------------------------------------------- the two regular expressions

  datatype ElfMatch = ElfMatch(is64: bool, subdir: string, name: string)

  /** `$` matches at the end and before a final newline. */
  predicate AtDollar(s: string, p: nat) {
    p == |s| || (p + 1 == |s| && s[p] == '\n')
  }

  predicate Accepts(s: string, m: nat, suffix: string) {
    m + |suffix| <= |s| && s[m..m + |suffix|] == suffix && AtDollar(s, m + |suffix|)
  }

  predicate SlashFree(s: string, k: nat, m: nat)
    requires k <= m <= |s|
  {
    forall i :: k <= i < m ==> s[i] != '/'
  }

  /** `[^/]+` is greedy: the longest name from `k` that ends at or before `m` and lets the rest match. */
  function SearchName(s: string, k: nat, m: nat, suffix: string): (r: Option<nat>)
    requires m <= |s|
    ensures r.Some? ==> k < r.value <= m
  {
    if m <= k then None
    else if SlashFree(s, k, m) && Accepts(s, m, suffix) then Some(m)
    else SearchName(s, k, m - 1, suffix)
  }

  /** `.*?` is lazy: the shortest subdirectory, from `k` on, after which the name matches. */
  function SearchSubdir(s: string, k: nat, suffix: string): (r: Option<(nat, nat)>)
    requires k <= |s|
    ensures r.Some? ==> k <= r.value.0 < r.value.1 <= |s|
    decreases |s| - k
  {
    match SearchName(s, k, |s|, suffix)
    case Some(m) => Some((k, m))
    case None => if k < |s| && s[k] != '\n' then SearchSubdir(s, k + 1, suffix) else None
  }

  function MatchFrom(s: string, start: nat, suffix: string, is64: bool): Option<ElfMatch>
    requires start <= |s|
  {
    match SearchSubdir(s, start, suffix)
    case Some((k, m)) => Some(ElfMatch(is64, s[start..k], s[k..m]))
    case None => None
  }

  /** `^<prefix>(64)?/(.*?)([^/]+)<suffix>$`, with `64` tried first. */
  function MatchElf(s: string, prefix: string, suffix: string): Option<ElfMatch> {
    var with64 := if prefix + "64/" <= s then MatchFrom(s, |prefix| + 3, suffix, true) else None;
    if with64.Some? then with64
    else if prefix + "/" <= s then MatchFrom(s, |prefix| + 1, suffix, false)
    else None
  }

  function MatchLib(s: string): Option<ElfMatch> {
    MatchElf(s, "lib", ".so")
  }

  function MatchBin(s: string): Option<ElfMatch> {
    MatchElf(s, "bin", "")
  }

  /** A nonempty name from `k` to the suffix at the very end. */
  ghost predicate NameFits(s: string, k: nat, suffix: string) {
    k + |suffix| < |s| && s[|s| - |suffix|..] == suffix && SlashFree(s, k, |s| - |suffix|)
  }

  lemma AcceptsAtEnd(s: string, m: nat, suffix: string)
    requires '\n' !in s && m <= |s|
    ensures Accepts(s, m, suffix) <==> m + |suffix| == |s| && s[m..] == suffix
  {
    assert m + |suffix| == |s| ==> s[m..m + |suffix|] == s[m..];
  }

  lemma {:induction false} SearchNameFinds(s: string, k: nat, m: nat, suffix: string)
    requires '\n' !in s && m <= |s|
    ensures SearchName(s, k, m, suffix)
            == if NameFits(s, k, suffix) && |s| - |suffix| <= m then Some(|s| - |suffix|) else None
  {
    if m > k {
      AcceptsAtEnd(s, m, suffix);
      SearchNameFinds(s, k, m - 1, suffix);
    }
  }

  /** The start of the last path segment at or after `start`. */
  function SegmentStart(s: string, start: nat, j: nat): (r: nat)
    requires start <= j <= |s|
    ensures start <= r <= j
    ensures SlashFree(s, r, j)
    ensures start < r ==> s[r - 1] == '/'
  {
    if j == start || s[j - 1] == '/' then j else SegmentStart(s, start, j - 1)
  }

  lemma {:induction false} SearchSubdirFinds(s: string, k: nat, j: nat, suffix: string)
    requires '\n' !in s && k <= j <= |s|
    requires SlashFree(s, j, |s|) && (k < j ==> s[j - 1] == '/') && '/' !in suffix
    ensures SearchSubdir(s, k, suffix)
            == if NameFits(s, j, suffix) then Some((j, |s| - |suffix|)) else None
    decreases |s| - k
  {
    SearchNameFinds(s, k, |s|, suffix);
    if k < j {
      SlashBlocks(s, k, j - 1, suffix);
      SearchSubdirFinds(s, k + 1, j, suffix);
    } else if !NameFits(s, j, suffix) && k < |s| {
      SearchSubdirFails(s, k + 1, j, suffix);
    }
  }

  lemma SlashBlocks(s: string, k: nat, i: nat, suffix: string)
    requires k <= i < |s| && s[i] == '/' && '/' !in suffix
    ensures !NameFits(s, k, suffix)
  {
    var cut := |s| - |suffix|;
    assert 0 <= cut <= i ==> s[i] == s[cut..][i - cut];
  }

  lemma {:induction false} SearchSubdirFails(s: string, k: nat, j: nat, suffix: string)
    requires '\n' !in s && j < k <= |s| && SlashFree(s, j, |s|) && !NameFits(s, j, suffix)
    ensures SearchSubdir(s, k, suffix) == None
    decreases |s| - k
  {
    SearchNameFinds(s, k, |s|, suffix);
    if k < |s| {
      SearchSubdirFails(s, k + 1, j, suffix);
    }
  }

  lemma MatchFromSplits(s: string, start: nat, suffix: string, is64: bool)
    requires '\n' !in s && start <= |s| && '/' !in suffix
    ensures var j := SegmentStart(s, start, |s|);
            MatchFrom(s, start, suffix, is64)
            == if NameFits(s, j, suffix) then Some(ElfMatch(is64, s[start..j], s[j..|s| - |suffix|])) else None
  {
    SearchSubdirFinds(s, start, SegmentStart(s, start, |s|), suffix);
  }

  ghost predicate ReadsAs(s: string, head: string, suffix: string, m: ElfMatch) {
    && s == head + m.subdir + m.name + suffix
    && m.name != "" && '/' !in m.name
    && (m.subdir != "" ==> m.subdir[|m.subdir| - 1] == '/')
  }

  lemma Slices(s: string, a: string, b: string, c: string, d: string)
    requires |s| == |a| + |b| + |c| + |d|
    ensures s == a + b + c + d
            <==> s[..|a|] == a && s[|a|..|a| + |b|] == b && s[|a| + |b|..|a| + |b| + |c|] == c
                 && s[|a| + |b| + |c|..] == d
  {
    var t := s[..|a|] + s[|a|..|a| + |b|] + s[|a| + |b|..|a| + |b| + |c|] + s[|a| + |b| + |c|..];
    assert s == t;
    var u := a + b + c + d;
    assert u[..|a|] == a && u[|a|..|a| + |b|] == b && u[|a| + |b|..|a| + |b| + |c|] == c;
    assert u[|a| + |b| + |c|..] == d;
  }

  lemma SegmentStartUnique(s: string, start: nat, i: nat)
    requires start <= i <= |s| && SlashFree(s, i, |s|) && (start < i ==> s[i - 1] == '/')
    ensures SegmentStart(s, start, |s|) == i
  {
  }

  lemma SlashFreeEnd(s: string, i: nat, cut: nat)
    requires i <= cut <= |s| && '/' !in s[i..cut] && '/' !in s[cut..]
    ensures SlashFree(s, i, |s|)
  {
    assert forall k :: i <= k < cut ==> s[i..cut][k - i] == s[k];
    assert forall k :: cut <= k < |s| ==> s[cut..][k - cut] == s[k];
  }

  /** The path cut into subdirectory, name and suffix at i. */
  ghost predicate CutAt(s: string, start: nat, i: nat, suffix: string, m: ElfMatch) {
    && start <= i && i + |suffix| <= |s|
    && s[start..i] == m.subdir && s[i..|s| - |suffix|] == m.name && s[|s| - |suffix|..] == suffix
  }

  lemma ReadingIsCut(s: string, head: string, suffix: string, m: ElfMatch)
    requires ReadsAs(s, head, suffix, m)
    ensures CutAt(s, |head|, |head| + |m.subdir|, suffix, m)
  {
    Slices(s, head, m.subdir, m.name, suffix);
  }

  /** Any reading as head, subdirectory, name and suffix is the split at the last slash. */
  lemma ReadingIsSplit(s: string, head: string, suffix: string, m: ElfMatch)
    requires ReadsAs(s, head, suffix, m) && '/' !in suffix
    ensures var j := SegmentStart(s, |head|, |s|);
            NameFits(s, j, suffix) && m.subdir == s[|head|..j] && m.name == s[j..|s| - |suffix|]
  {
    ReadingIsCut(s, head, suffix, m);
    CutIsSplit(s, |head|, |head| + |m.subdir|, suffix, m);
  }

  lemma CutIsSplit(s: string, start: nat, i: nat, suffix: string, m: ElfMatch)
    requires CutAt(s, start, i, suffix, m) && '/' !in suffix
    requires m.name != "" && '/' !in m.name && (m.subdir != "" ==> m.subdir[|m.subdir| - 1] == '/')
    ensures SegmentStart(s, start, |s|) == i && NameFits(s, i, suffix)
  {
    SlashFreeEnd(s, i, |s| - |suffix|);
    assert start < i ==> s[i - 1] == m.subdir[i - 1 - start];
    SegmentStartUnique(s, start, i);
  }

  lemma SplitIsReading(s: string, head: string, suffix: string, m: ElfMatch)
    requires head <= s
    requires var j := SegmentStart(s, |head|, |s|);
             NameFits(s, j, suffix) && m.subdir == s[|head|..j] && m.name == s[j..|s| - |suffix|]
    ensures ReadsAs(s, head, suffix, m)
  {
    CutIsReading(s, head, SegmentStart(s, |head|, |s|), suffix, m);
  }

  lemma CutIsReading(s: string, head: string, i: nat, suffix: string, m: ElfMatch)
    requires head <= s && CutAt(s, |head|, i, suffix, m) && NameFits(s, i, suffix)
    requires |head| < i ==> s[i - 1] == '/'
    ensures ReadsAs(s, head, suffix, m)
  {
    assert s == head + m.subdir + m.name + suffix by { Slices(s, head, m.subdir, m.name, suffix); }
    assert m.subdir != "" ==> m.subdir[|m.subdir| - 1] == s[i - 1];
    forall k | 0 <= k < |m.name| ensures m.name[k] != '/' {
      assert m.name[k] == s[i + k];
    }
  }

  lemma MatchFromReads(s: string, head: string, suffix: string, m: ElfMatch)
    requires '\n' !in s && '/' !in suffix && head <= s
    ensures MatchFrom(s, |head|, suffix, m.is64) == Some(m) <==> ReadsAs(s, head, suffix, m)
  {
    MatchFromSplits(s, |head|, suffix, m.is64);
    if ReadsAs(s, head, suffix, m) {
      ReadingIsSplit(s, head, suffix, m);
    } else if MatchFrom(s, |head|, suffix, m.is64) == Some(m) {
      SplitIsReading(s, head, suffix, m);
      assert false;
    }
  }

  /** The simple reading of a path: prefix, an optional 64, a subdirectory that is empty or ends in a
      slash, a file name without slashes, and the suffix. */
  ghost predicate IsElfPath(s: string, prefix: string, suffix: string, m: ElfMatch) {
    ReadsAs(s, prefix + (if m.is64 then "64/" else "/"), suffix, m)
  }

  /** On a path without newlines the regular expression finds exactly the split at the last slash: it
      matches with these groups if and only if the path reads that way. */
  lemma MatchIsLastSlashSplit(s: string, prefix: string, suffix: string, m: ElfMatch)
    requires '\n' !in s && '/' !in suffix
    ensures MatchElf(s, prefix, suffix) == Some(m) <==> IsElfPath(s, prefix, suffix, m)
  {
    var h64, h32 := prefix + "64/", prefix + "/";
    assert h64[|prefix|] == '6' && h32[|prefix|] == '/';
    assert !(h64 <= s && h32 <= s);
    if h64 <= s {
      MatchFromReads(s, h64, suffix, m.(is64 := true));
    } else if h32 <= s {
      MatchFromReads(s, h32, suffix, m.(is64 := false));
    }
  }

  // ---------------------------------------------------------------- kinds

  datatype Kind = CopyFile | VintfManifest | SharedLib | Binary

  datatype Arch = Arch32 | Arch64

  datatype Classification = Classification(kind: Kind, arch: Option<Arch>, key: string)

  const TEXT_LIKE_SUFFIXES: seq<string> :=
    [".apk", ".arsc", ".bin", ".conf", ".csv", ".dat", ".db", ".dlc", ".elf", ".idl", ".ini", ".jar", ".json",
     ".kl", ".mbn", ".md", ".pb", ".pmd", ".policy", ".prop", ".qc", ".qwsp", ".rc", ".soong", ".sql", ".txt",
     ".xml"]

  /** `str.lower` on the characters whose lower case is ASCII: the letters A to Z and the Kelvin sign. */
  function LowerChar(c: char): char {
    if 'A' <= c <= 'Z' then c - 'A' + 'a' else if c == '\U{212A}' then 'k' else c
  }

  /** By code point: capital letters move up by 32, every other ASCII character stays, and no character beyond
      ASCII but the Kelvin sign becomes one. */
  lemma LowerCode(c: char)
    ensures 65 <= c as int <= 90 ==> LowerChar(c) as int == c as int + 32
    ensures c as int < 128 && !(65 <= c as int <= 90) ==> LowerChar(c) == c
    ensures c as int >= 128 ==> (LowerChar(c) as int < 128 <==> c as int == 0x212A)
    ensures c as int == 0x212A ==> LowerChar(c) as int == 107
  {
  }

  function Lower(s: string): string {
    seq(|s|, i requires 0 <= i < |s| => LowerChar(s[i]))
  }

  /** `Path(s).name`: the last component, empty and `.` components being dropped by `Path`. */
  function LastComponent(parts: seq<string>): string {
    if parts == [] then ""
    else
      var last := parts[|parts| - 1];
      if last == "" || last == "." then LastComponent(parts[..|parts| - 1]) else last
  }

  function LastDot(name: string): (i: int)
    ensures -1 <= i < |name|
    ensures i >= 0 ==> name[i] == '.'
    ensures forall k :: i < k < |name| ==> name[k] != '.'
  {
    if name == "" then -1
    else if name[|name| - 1] == '.' then |name| - 1
    else LastDot(name[..|name| - 1])
  }

  /** `Path(s).suffix`. */
  function PathSuffix(s: string): string {
    var name := LastComponent(Split(s, '/'));
    var dot := LastDot(name);
    if 0 < dot < |name| - 1 then name[dot..] else ""
  }

  predicate HasPrefix(s: string, prefix: string) {
    prefix <= s
  }

  predicate HasSuffix(s: string, suffix: string) {
    |suffix| <= |s| && s[|s| - |suffix|..] == suffix
  }

  predicate IsRfsa(rel: string) {
    HasPrefix(rel, "lib/rfsa/") || HasPrefix(rel, "lib64/rfsa/")
  }

  predicate IsManifest(rel: string) {
    HasPrefix(rel, "etc/vintf/manifest") && HasSuffix(rel, ".xml")
  }

  predicate TextLike(rel: string) {
    exists i :: 0 <= i < |TEXT_LIKE_SUFFIXES| && TEXT_LIKE_SUFFIXES[i] == Lower(PathSuffix(rel))
  }

  function Classify(dest: string): Classification {
    var rel := PartitionDest(dest);
    if IsRfsa(rel) then Classification(CopyFile, None, dest)
    else if IsManifest(rel) then Classification(VintfManifest, None, dest)
    else
      var lib := MatchLib(rel);
      if lib.Some? then Classification(SharedLib, Some(if lib.value.is64 then Arch64 else Arch32), lib.value.name)
      else
        var bin := MatchBin(rel);
        if bin.Some? && !TextLike(rel) then Classification(Binary, Some(Arch64), bin.value.name)
        else Classification(CopyFile, None, dest)
  }

  /** Exactly which newline-free destinations are libraries, and with which architecture and stem. */
  lemma LibraryIff(dest: string, is64: bool, stem: string)
    requires '\n' !in PartitionDest(dest)
    ensures Classify(dest) == Classification(SharedLib, Some(if is64 then Arch64 else Arch32), stem)
            <==> !("lib/rfsa/" <= PartitionDest(dest)) && !("lib64/rfsa/" <= PartitionDest(dest))
                 && exists subdir :: IsElfPath(PartitionDest(dest), "lib", ".so", ElfMatch(is64, subdir, stem))
  {
    var rel := PartitionDest(dest);
    forall subdir
      ensures MatchLib(rel) == Some(ElfMatch(is64, subdir, stem))
              <==> IsElfPath(rel, "lib", ".so", ElfMatch(is64, subdir, stem))
    {
      MatchIsLastSlashSplit(rel, "lib", ".so", ElfMatch(is64, subdir, stem));
    }
    assert IsManifest(rel) ==> rel[0] == 'e';
    if MatchLib(rel).Some? && MatchLib(rel).value.is64 == is64 && MatchLib(rel).value.name == stem {
      assert MatchLib(rel) == Some(ElfMatch(is64, MatchLib(rel).value.subdir, stem));
    }
  }

  /** Exactly which newline-free destinations are binaries, and with which stem: `bin` and `bin64` alike. */
  lemma BinaryIff(dest: string, stem: string)
    requires '\n' !in PartitionDest(dest)
    ensures Classify(dest) == Classification(Binary, Some(Arch64), stem)
            <==> !TextLike(PartitionDest(dest))
                 && exists is64, subdir :: IsElfPath(PartitionDest(dest), "bin", "", ElfMatch(is64, subdir, stem))
  {
    var rel := PartitionDest(dest);
    forall is64, subdir
      ensures MatchBin(rel) == Some(ElfMatch(is64, subdir, stem))
              <==> IsElfPath(rel, "bin", "", ElfMatch(is64, subdir, stem))
    {
      MatchIsLastSlashSplit(rel, "bin", "", ElfMatch(is64, subdir, stem));
    }
    if MatchBin(rel).Some? {
      var m := MatchBin(rel).value;
      assert HasPrefix(rel, "bin");
      assert rel[0] == 'b';
      assert MatchLib(rel).None? && !IsRfsa(rel) && !IsManifest(rel);
      if m.name == stem {
        assert MatchBin(rel) == Some(ElfMatch(m.is64, m.subdir, stem));
      }
    }
  }

  /** Exactly which destinations are manifests. */
  lemma ManifestIff(dest: string)
    ensures Classify(dest).kind.VintfManifest?
            <==> "etc/vintf/manifest" <= PartitionDest(dest) && EndsWith(PartitionDest(dest), ".xml")
  {
    var rel := PartitionDest(dest);
    assert IsRfsa(rel) ==> rel[0] == 'l';
    assert IsManifest(rel) ==> rel[0] == 'e';
    SuffixEndsWith(rel, ".xml");
  }

  lemma SuffixEndsWith(s: string, suffix: string)
    ensures HasSuffix(s, suffix) <==> EndsWith(s, suffix)
  {
    if HasSuffix(s, suffix) {
      assert s == s[..|s| - |suffix|] + suffix;
    }
  }

  ghost predicate EndsWith(s: string, suffix: string) {
    exists head :: s == head + suffix
  }

  // ---------------------------------------------------------------- files that are not programs

  /** The suffixes of text-like files, one by one. */
  ghost predicate TextSuffix(x: string) {
    || x == ".apk" || x == ".arsc" || x == ".bin" || x == ".conf" || x == ".csv" || x == ".dat" || x == ".db"
    || x == ".dlc" || x == ".elf" || x == ".idl" || x == ".ini" || x == ".jar" || x == ".json" || x == ".kl"
    || x == ".mbn" || x == ".md" || x == ".pb" || x == ".pmd" || x == ".policy" || x == ".prop" || x == ".qc"
    || x == ".qwsp" || x == ".rc" || x == ".soong" || x == ".sql" || x == ".txt" || x == ".xml"
  }

  lemma TextSuffixIsListed(x: string)
    requires TextSuffix(x)
    ensures x in TEXT_LIKE_SUFFIXES
  {
  }

  lemma ListedIsTextSuffix(x: string)
    requires x in TEXT_LIKE_SUFFIXES
    ensures TextSuffix(x)
  {
  }

  lemma Listed(x: string, list: seq<string>)
    ensures x in list <==> exists i :: 0 <= i < |list| && list[i] == x
  {
  }

  lemma TextSuffixes(x: string)
    ensures TextSuffix(x) <==> exists i :: 0 <= i < |TEXT_LIKE_SUFFIXES| && TEXT_LIKE_SUFFIXES[i] == x
  {
    if TextSuffix(x) {
      TextSuffixIsListed(x);
    }
    if x in TEXT_LIKE_SUFFIXES {
      ListedIsTextSuffix(x);
    }
    Listed(x, TEXT_LIKE_SUFFIXES);
  }

  ghost predicate OneDotFirst(x: string) {
    |x| > 1 && x[0] == '.' && forall k :: 1 <= k < |x| ==> x[k] != '.'
  }

  lemma TextSuffixShape(x: string)
    requires TextSuffix(x)
    ensures OneDotFirst(x)
  {
  }

  lemma LowerDots(s: string, x: string)
    requires Lower(s) == x
    ensures |s| == |x| && forall k :: 0 <= k < |s| ==> (s[k] == '.' <==> x[k] == '.')
  {
    forall k | 0 <= k < |s| ensures s[k] == '.' <==> x[k] == '.' {
      LowerCode(s[k]);
    }
  }

  lemma LastDotAt(stem: string, n: nat)
    requires n < |stem| && stem[n] == '.' && forall k :: n < k < |stem| ==> stem[k] != '.'
    ensures LastDot(stem) == n
  {
  }

  lemma SuffixAtDot(stem: string, x: string)
    requires OneDotFirst(x) && |x| < |stem| && Lower(stem[|stem| - |x|..]) == x
    ensures LastDot(stem) == |stem| - |x|
  {
    var n := |stem| - |x|;
    var tail := stem[n..];
    LowerDots(tail, x);
    assert stem[n] == tail[0];
    assert forall k :: n < k < |stem| ==> stem[k] == tail[k - n];
    LastDotAt(stem, n);
  }

  lemma SuffixFromDot(stem: string, dot: nat, x: string)
    requires dot <= |stem| && Lower(stem[dot..]) == x
    ensures |x| == |stem| - dot && Lower(stem[|stem| - |x|..]) == x
  {
  }

  /** The suffix of a file name, seen from its end. */
  lemma SuffixOfName(stem: string, x: string)
    requires OneDotFirst(x)
    ensures var dot := LastDot(stem);
            0 < dot < |stem| - 1 && Lower(stem[dot..]) == x
            <==> |x| < |stem| && Lower(stem[|stem| - |x|..]) == x
  {
    var dot := LastDot(stem);
    if |x| < |stem| && Lower(stem[|stem| - |x|..]) == x {
      SuffixAtDot(stem, x);
    } else if 0 < dot < |stem| - 1 && Lower(stem[dot..]) == x {
      SuffixFromDot(stem, dot, x);
      assert false;
    }
  }

  lemma NameOfPath(pre: string, stem: string)
    requires '/' !in stem && stem != "" && stem != "."
    ensures LastComponent(Split(pre + "/" + stem, '/')) == stem
  {
    SplitConcat(pre, '/', stem);
    assert Split(stem, '/') == [stem];
  }

  /** A file is text-like exactly when its name ends, in capital or small letters, in one of the suffixes and
      has something before it. */
  lemma TextLikeIff(pre: string, stem: string)
    requires '/' !in stem && stem != "" && stem != "."
    ensures TextLike(pre + "/" + stem)
            <==> exists x :: TextSuffix(x) && |x| < |stem| && Lower(stem[|stem| - |x|..]) == x
  {
    var rel, dot := pre + "/" + stem, LastDot(stem);
    NameOfPath(pre, stem);
    assert PathSuffix(rel) == if 0 < dot < |stem| - 1 then stem[dot..] else "";
    TextSuffixes(Lower(PathSuffix(rel)));
    assert !TextSuffix("") by {
      if TextSuffix("") {
        TextSuffixShape("");
        assert false;
      }
    }
    forall x | TextSuffix(x)
      ensures 0 < dot < |stem| - 1 && Lower(stem[dot..]) == x <==> |x| < |stem| && Lower(stem[|stem| - |x|..]) == x
    {
      TextSuffixShape(x);
      SuffixOfName(stem, x);
    }
  }
}
