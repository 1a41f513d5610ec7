/** The blob compiler end to end: read the list, filter it, write the filtered list, group the blobs into
    modules and write the product makefile. */
module Pipeline {
  import opened Strings
  import opened BlobList
  import opened Sorting
  import opened Filter
  import opened FilterLaws
  import opened Group
  import opened GroupLaws
  import opened MakeText
  import opened VendorMkLaws
  import opened VendorMkMeaning
  import D = Destinations
  import VendorMk
  import Names

  /** The device-owned configuration files, below the vendor partition's etc directory. */
  const EXCLUDED_UNDER_ETC: seq<string> := EXCLUDED_A_TO_B + EXCLUDED_C_TO_M + EXCLUDED_R_TO_W

  const EXCLUDED_A_TO_B: seq<string> := [
    "audio/sku_parrot/audio_effects.conf",
    "audio/sku_parrot/audio_policy_configuration.xml",
    "audio/sku_parrot/mixer_paths_parrot_qrd.xml",
    "audio/sku_parrot/resourcemanager_parrot_qrd.xml",
    "audio/sku_parrot_qssi/audio_policy_configuration.xml",
    "a2dp_audio_policy_configuration.xml",
    "audio_effects.xml",
    "audio_policy_configuration.xml",
    "audio_policy_volumes.xml",
    "backend_conf.xml",
    "bluetooth_qti_audio_policy_configuration.xml"
  ]

  const EXCLUDED_C_TO_M: seq<string> := [
    "card-defs.xml",
    "default_volume_tables.xml",
    "kvh2xml.xml",
    "libnfc-nci.conf",
    "media_codecs.xml",
    "media_codecs_c2_audio.xml",
    "media_codecs_performance.xml",
    "media_profiles.xml",
    "microphone_characteristics.xml",
    "mixer_paths_overlay_dynamic.xml",
    "mixer_paths_tavil.xml"
  ]

  const EXCLUDED_R_TO_W: seq<string> := [
    "r_submix_audio_policy_configuration.xml",
    "seccomp_policy/c2audio.vendor.base-arm.policy",
    "seccomp_policy/c2audio.vendor.base-arm64.policy",
    "seccomp_policy/c2audio.vendor.ext-arm.policy",
    "seccomp_policy/c2audio.vendor.ext-arm64.policy",
    "seccomp_policy/mediacodec.policy",
    "sensors/hals.conf",
    "snapdragon_color_libs_config.xml",
    "usb_audio_policy_configuration.xml",
    "usecaseKvManager.xml",
    "wifi/p2p_supplicant_overlay.conf",
    "wifi/qca6750/WCNSS_qcom_cfg.ini",
    "wifi/wpa_supplicant_overlay.conf"
  ]

  const EXCLUDED_NORMALIZED_DESTS: set<string> :=
    set i | 0 <= i < |EXCLUDED_UNDER_ETC| :: "vendor/etc/" + EXCLUDED_UNDER_ETC[i]

  /** The excluded destinations are written in normalized form, so each of them can be met. */
  lemma ExcludedAreNormalized(d: string)
    requires d in EXCLUDED_NORMALIZED_DESTS
    ensures D.NormalizedDest(d) == d
  {
    var i :| 0 <= i < |EXCLUDED_UNDER_ETC| && d == "vendor/etc/" + EXCLUDED_UNDER_ETC[i];
    VendorIsNormalized(EXCLUDED_UNDER_ETC[i]);
  }

  lemma VendorIsNormalized(tail: string)
    ensures D.NormalizedDest("vendor/etc/" + tail) == "vendor/etc/" + tail
  {
    var d := "vendor/etc/" + tail;
    assert d == "vendor" + ['/'] + ("etc/" + tail);
    FindAt("vendor", '/', "etc/" + tail);
    assert d[..6] == "vendor";
  }

  function ElfFor(c: D.Classification): Option<Elf> {
    match c.kind
    case SharedLib => Some(Lib(c.key))
    case Binary => Some(Bin(c.key))
    case _ => None
  }

  function ElfOf(dest: string): Option<Elf> {
    ElfFor(D.Classify(dest))
  }

  /** The policy of this program for a given set of excluded destinations. */
  function PolicyFor(excluded: set<string>): Policy {
    Policy(excluded, D.NormalizedDest, ElfOf, D.Priority)
  }

  // ---------------------------------------------------------------- which entries survive

  /** Entry i is not excluded, and no entry before it names the same file. */
  ghost predicate FirstHere(excluded: set<string>, entries: seq<BlobEntry>, i: int) {
    && 0 <= i < |entries|
    && D.NormalizedDest(entries[i].dest) !in excluded
    && forall j :: 0 <= j < i ==> D.NormalizedDest(entries[j].dest) != D.NormalizedDest(entries[i].dest)
  }

  /** Two libraries, or two binaries, of one stem. */
  ghost predicate SameProgram(d: string, d': string) {
    var c, c' := D.Classify(d), D.Classify(d');
    c.kind == c'.kind && (c.kind.SharedLib? || c.kind.Binary?) && c.key == c'.key
  }

  ghost predicate SurvivesHere(excluded: set<string>, entries: seq<BlobEntry>, i: int) {
    && FirstHere(excluded, entries, i)
    && forall j :: FirstHere(excluded, entries, j) && SameProgram(entries[i].dest, entries[j].dest)
         ==> D.Priority(entries[i].dest) <= D.Priority(entries[j].dest)
  }

  lemma SameProgramCollides(excluded: set<string>, d: string, d': string)
    ensures SameProgram(d, d') <==> Collide(PolicyFor(excluded), d, d')
  {
    SameElf(D.Classify(d), D.Classify(d'));
  }

  lemma SameElf(c: D.Classification, c': D.Classification)
    ensures ElfFor(c).Some? && ElfFor(c') == ElfFor(c)
            <==> c.kind == c'.kind && (c.kind.SharedLib? || c.kind.Binary?) && c.key == c'.key
  {
  }

  lemma FirstHereIs(excluded: set<string>, entries: seq<BlobEntry>, i: int)
    ensures FirstHere(excluded, entries, i) <==> First(PolicyFor(excluded), entries, i)
  {
  }

  /** With this program's names for destinations, kinds, stems and priorities: an entry is in the filtered list
      exactly when it is the first that names its file, is not excluded, and no library or binary of the same
      stem has a better partition. */
  lemma FilteredHereIff(excluded: set<string>, entries: seq<BlobEntry>, e: BlobEntry)
    ensures e in Filtered(PolicyFor(excluded), entries) <==> exists i :: SurvivesHere(excluded, entries, i) && entries[i] == e
  {
    var p := PolicyFor(excluded);
    FilterMeetsSpec(p, entries);
    forall i { FirstHereIs(excluded, entries, i); }
    forall d, d' { SameProgramCollides(excluded, d, d'); }
    SurvivesAlike(excluded, p, entries);
  }

  lemma SurvivesAlike(excluded: set<string>, p: Policy, entries: seq<BlobEntry>)
    requires p.priority == D.Priority
    requires forall i :: FirstHere(excluded, entries, i) <==> First(p, entries, i)
    requires forall d, d' :: SameProgram(d, d') <==> Collide(p, d, d')
    ensures forall i :: SurvivesHere(excluded, entries, i) <==> Survives(p, entries, i)
  {
  }

  /** A report of an excluded entry. */
  ghost predicate ReportsExcluded(excluded: set<string>, entries: seq<BlobEntry>, message: string, e: BlobEntry) {
    && e in entries && D.NormalizedDest(e.dest) in excluded
    && message == "dropped device-owned config " + e.dest
  }

  /** A report of a library or binary that lost to the same one in a better partition. */
  ghost predicate ReportsDuplicate(excluded: set<string>, entries: seq<BlobEntry>, message: string,
                                   e: BlobEntry, w: BlobEntry) {
    var kept := Filtered(PolicyFor(excluded), entries);
    && w in kept && e !in kept && SameProgram(e.dest, w.dest) && D.Priority(w.dest) < D.Priority(e.dest)
    && message == (if D.Classify(e.dest).kind.SharedLib? then "dropped duplicate library " else "dropped duplicate binary ")
                  + e.dest + " in favor of " + w.dest
  }

  /** Every report is one of these two. */
  lemma ReportsHere(excluded: set<string>, entries: seq<BlobEntry>, d: Drop, message: string)
    requires d in Drops(PolicyFor(excluded), entries) && Reports(d, message)
    ensures d.DeviceOwned? ==> ReportsExcluded(excluded, entries, message, d.entry)
    ensures d.Duplicate? ==> ReportsDuplicate(excluded, entries, message, d.entry, d.winner)
  {
    var p := PolicyFor(excluded);
    if d.Duplicate? {
      ReportNamesSurvivor(p, entries, d);
      SameProgramCollides(excluded, d.entry.dest, d.winner.dest);
    } else {
      var kept := Kept(p, entries);
      if d in DuplicateDrops(p, kept, kept) {
        DuplicateDropsLaws(p, kept, kept, d);
        assert false;
      }
      ExcludedDropsKind(p, entries, d);
    }
  }

  ghost predicate IsReport(excluded: set<string>, entries: seq<BlobEntry>, message: string) {
    || (exists e :: ReportsExcluded(excluded, entries, message, e))
    || (exists e, w :: ReportsDuplicate(excluded, entries, message, e, w))
  }

  ghost predicate AllReport(excluded: set<string>, entries: seq<BlobEntry>, messages: seq<string>) {
    forall i :: 0 <= i < |messages| ==> IsReport(excluded, entries, messages[i])
  }

  lemma DropsReport(excluded: set<string>, entries: seq<BlobEntry>, messages: seq<string>)
    requires messages == Messages(Drops(PolicyFor(excluded), entries))
    ensures AllReport(excluded, entries, messages)
  {
    var drops := Drops(PolicyFor(excluded), entries);
    MessagesReport(drops);
    forall i | 0 <= i < |messages| ensures IsReport(excluded, entries, messages[i]) {
      assert drops[i] in drops;
      ReportsHere(excluded, entries, drops[i], messages[i]);
    }
  }

  /** A configuration file below etc that the device owns is excluded, with its partition or without. */
  lemma DeviceOwnedIsExcluded(i: nat)
    requires i < |EXCLUDED_UNDER_ETC|
    ensures D.NormalizedDest("etc/" + EXCLUDED_UNDER_ETC[i]) in EXCLUDED_NORMALIZED_DESTS
    ensures D.NormalizedDest("vendor/etc/" + EXCLUDED_UNDER_ETC[i]) in EXCLUDED_NORMALIZED_DESTS
  {
    var tail := EXCLUDED_UNDER_ETC[i];
    VendorIsNormalized(tail);
    EtcIsVendor(tail);
  }

  lemma EtcIsVendor(tail: string)
    ensures D.NormalizedDest("etc/" + tail) == "vendor/etc/" + tail
  {
    var d := "etc/" + tail;
    assert d == "etc" + ['/'] + tail;
    FindAt("etc", '/', tail);
    assert d[..3] == "etc";
    assert "etc" !in D.KNOWN_PARTITIONS by { assert "etc"[0] == 'e'; }
    assert "vendor" + "/" + d == "vendor/etc/" + tail;
  }

  /** The files below etc that this device brings itself, one by one. */
  ghost predicate Owned(tail: string) {
    OwnedAToB(tail) || OwnedCToM(tail) || OwnedRToW(tail)
  }

  ghost predicate OwnedAToB(tail: string) {
    || tail == "audio/sku_parrot/audio_effects.conf"
    || tail == "audio/sku_parrot/audio_policy_configuration.xml"
    || tail == "audio/sku_parrot/mixer_paths_parrot_qrd.xml"
    || tail == "audio/sku_parrot/resourcemanager_parrot_qrd.xml"
    || tail == "audio/sku_parrot_qssi/audio_policy_configuration.xml"
    || tail == "a2dp_audio_policy_configuration.xml" || tail == "audio_effects.xml"
    || tail == "audio_policy_configuration.xml" || tail == "audio_policy_volumes.xml"
    || tail == "backend_conf.xml" || tail == "bluetooth_qti_audio_policy_configuration.xml"
  }

  ghost predicate OwnedCToM(tail: string) {
    || tail == "card-defs.xml" || tail == "default_volume_tables.xml" || tail == "kvh2xml.xml"
    || tail == "libnfc-nci.conf" || tail == "media_codecs.xml" || tail == "media_codecs_c2_audio.xml"
    || tail == "media_codecs_performance.xml" || tail == "media_profiles.xml"
    || tail == "microphone_characteristics.xml" || tail == "mixer_paths_overlay_dynamic.xml"
    || tail == "mixer_paths_tavil.xml"
  }

  ghost predicate OwnedRToW(tail: string) {
    || tail == "r_submix_audio_policy_configuration.xml"
    || tail == "seccomp_policy/c2audio.vendor.base-arm.policy"
    || tail == "seccomp_policy/c2audio.vendor.base-arm64.policy"
    || tail == "seccomp_policy/c2audio.vendor.ext-arm.policy"
    || tail == "seccomp_policy/c2audio.vendor.ext-arm64.policy" || tail == "seccomp_policy/mediacodec.policy"
    || tail == "sensors/hals.conf" || tail == "snapdragon_color_libs_config.xml"
    || tail == "usb_audio_policy_configuration.xml" || tail == "usecaseKvManager.xml"
    || tail == "wifi/p2p_supplicant_overlay.conf" || tail == "wifi/qca6750/WCNSS_qcom_cfg.ini"
    || tail == "wifi/wpa_supplicant_overlay.conf"
  }

  lemma OwnedAToBIff(tail: string)
    ensures OwnedAToB(tail) <==> tail in EXCLUDED_A_TO_B
  {
  }

  lemma OwnedCToMIff(tail: string)
    ensures OwnedCToM(tail) <==> tail in EXCLUDED_C_TO_M
  {
  }

  lemma OwnedRToWIff(tail: string)
    ensures OwnedRToW(tail) <==> tail in EXCLUDED_R_TO_W
  {
  }

  lemma OwnedIff(tail: string)
    ensures Owned(tail) <==> tail in EXCLUDED_UNDER_ETC
  {
    OwnedAToBIff(tail);
    OwnedCToMIff(tail);
    OwnedRToWIff(tail);
  }

  /** Exactly which destinations are excluded: those files, with their partition or without. */
  lemma ExcludedIff(d: string)
    ensures D.NormalizedDest(d) in EXCLUDED_NORMALIZED_DESTS
            <==> exists tail :: Owned(tail) && (d == "etc/" + tail || d == "vendor/etc/" + tail)
  {
    var n := D.NormalizedDest(d);
    if n in EXCLUDED_NORMALIZED_DESTS {
      var i :| 0 <= i < |EXCLUDED_UNDER_ETC| && n == "vendor/etc/" + EXCLUDED_UNDER_ETC[i];
      var tail := EXCLUDED_UNDER_ETC[i];
      OwnedIff(tail);
      BelowVendorEtc(d, tail);
    }
    forall tail | Owned(tail) && (d == "etc/" + tail || d == "vendor/etc/" + tail)
      ensures n in EXCLUDED_NORMALIZED_DESTS
    {
      OwnedIff(tail);
      var i :| 0 <= i < |EXCLUDED_UNDER_ETC| && EXCLUDED_UNDER_ETC[i] == tail;
      DeviceOwnedIsExcluded(i);
    }
  }

  lemma BelowVendorEtc(d: string, tail: string)
    requires D.NormalizedDest(d) == "vendor/etc/" + tail
    ensures d == "etc/" + tail || d == "vendor/etc/" + tail
  {
    assert D.NormalizedDest(d) == "vendor/" + d || D.NormalizedDest(d) == d by { D.NormalizedIs(d); }
    if D.NormalizedDest(d) == "vendor/" + d {
      SameRest("vendor/", d, "etc/" + tail, D.NormalizedDest(d));
    }
  }

  lemma SameRest(head: string, a: string, b: string, s: string)
    requires s == head + a && s == head + b
    ensures a == b
  {
    assert a == s[|head|..] && b == s[|head|..];
  }

  // ---------------------------------------------------------------- the filtered list is a fixed point

  lemma FilteredAreRead(p: Policy, entries: seq<BlobEntry>)
    requires forall e :: e in entries ==> ReadEntry(e)
    ensures forall e :: e in Filtered(p, entries) ==> e in entries && ReadEntry(e)
  {
    FilterMeetsSpec(p, entries);
  }

  lemma ReprintedText(entries: seq<BlobEntry>)
    ensures WriteText(AllReprinted(entries)) == WriteText(entries)
    ensures SameDests(entries, AllReprinted(entries))
  {
    var again := AllReprinted(entries);
    forall i | 0 <= i < |entries| ensures FilteredLine(again[i]) == FilteredLine(entries[i]) {
    }
    assert FilteredLines(again) == FilteredLines(entries);
  }

  /** For every list file: reading the filtered list that was written gives the filtered entries back, in the
      same order, exactly when each of them is printable; and then filtering again drops nothing, reports
      nothing, and writes the same file. */
  lemma FixedPoint(p: Policy, text: string)
    ensures var kept := Filtered(p, ReadText(text));
            var again := ReadText(WriteText(kept));
            && (again == AllReprinted(kept) <==> forall e :: e in kept ==> Printable(e))
            && (again == AllReprinted(kept) ==>
                  Filtered(p, again) == again && Drops(p, again) == [] && WriteText(again) == WriteText(kept))
  {
    var entries := ReadText(text);
    var kept := Filtered(p, entries);
    ReadTextEntries(text);
    FilteredAreRead(p, entries);
    WriteReadBack(kept);
    ReprintedText(kept);
    FilterIdempotent(p, entries, AllReprinted(kept));
  }

  // ---------------------------------------------------------------- one partition for each library

  /** After filtering, all libraries with one stem come from one partition, and so do all binaries. */
  lemma OnePartitionPerStem(excluded: set<string>, entries: seq<BlobEntry>, e: BlobEntry, e': BlobEntry)
    requires var kept := Filtered(PolicyFor(excluded), entries); e in kept && e' in kept
    requires ElfOf(e.dest).Some? && ElfOf(e.dest) == ElfOf(e'.dest)
    ensures D.Partition(e.dest) == D.Partition(e'.dest)
  {
    var p := PolicyFor(excluded);
    var kept := Filtered(p, entries);
    assert D.Priority(e.dest) == D.Priority(e'.dest) by {
      FilteredIsSettled(p, entries);
      assert Unbeaten(p, kept, e) && Unbeaten(p, kept, e');
      assert Collide(p, e.dest, e'.dest) && Collide(p, e'.dest, e.dest);
    }
    var i := D.RankOf(e.dest);
    var j := D.RankOf(e'.dest);
  }

  // ---------------------------------------------------------------- the build files

  /** A makefile for filtered entries and the names of their modules reads back, item by item, exactly when no
      path in it contains a blank, and then says what it should. */
  ghost predicate MakefileReads(kept: seq<BlobEntry>, names: seq<string>, makefile: string) {
    var copied, manifests := WithRole(RoleOf, kept, Copied), WithRole(RoleOf, kept, Manifest);
    && (Assignments(makefile) == [NAMESPACE] + AsWritten(VendorMk.Blocks(names, copied, manifests))
        <==> BlankFreePaths(copied, manifests))
    && (BlankFreePaths(copied, manifests) ==> Describes(Assignments(makefile), names, copied, manifests))
  }

  /** So does the one that is written. */
  lemma BuildReadsBack(kept: seq<BlobEntry>, names: seq<string>)
    requires forall e :: e in kept ==> ReadEntry(e)
    requires forall n :: n in names ==> FirstUnit(RoleOf, kept, n).Some?
    ensures MakefileReads(kept, names, VendorMk.VendorMkText(names, WithRole(RoleOf, kept, Copied), WithRole(RoleOf, kept, Manifest)))
  {
    forall n | n in names ensures Names.NormalForm(n) && n != "" {
      ModuleLaws(kept, n);
    }
    WithRoleLaws(RoleOf, kept, Copied);
    WithRoleLaws(RoleOf, kept, Manifest);
    var copied, manifests := WithRole(RoleOf, kept, Copied), WithRole(RoleOf, kept, Manifest);
    EmissionReadsBack(names, copied, manifests);
    if BlankFreePaths(copied, manifests) {
      EmissionMeans(names, copied, manifests);
    }
  }

  function ModuleNames(modules: seq<PrebuiltModule>): seq<string> {
    seq(|modules|, i requires 0 <= i < |modules| => modules[i].name)
  }

  /** What the list file becomes: the filtered list, the modules, the product makefile and the reports. */
  method Compile(excluded: set<string>, text: string)
    returns (filteredText: string, modules: seq<PrebuiltModule>, makefile: string, dropped: seq<string>)
    ensures filteredText == WriteText(Filtered(PolicyFor(excluded), ReadText(text)))
    ensures dropped == Messages(Drops(PolicyFor(excluded), ReadText(text)))
    ensures AllReport(excluded, ReadText(text), dropped)
    ensures Built(RoleOf, Filtered(PolicyFor(excluded), ReadText(text)), modules)
    ensures MakefileReads(Filtered(PolicyFor(excluded), ReadText(text)), ModuleNames(modules), makefile)
  {
    var p := PolicyFor(excluded);
    var entries := ReadEntries(text);
    var kept;
    kept, dropped := FilteredEntries(p, entries);
    DropsReport(excluded, entries, dropped);
    filteredText := WriteText(kept);
    var copied, manifests;
    modules, copied, manifests := MakePrebuiltModules(RoleOf, kept);
    makefile := VendorMk.EmitVendorMk(ModuleNames(modules), copied, manifests);
    FilteredAreRead(p, entries);
    BuildReadsBack(kept, ModuleNames(modules));
  }
}
