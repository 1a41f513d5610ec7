/** The two-pass filter of the blob list: excluded and repeated destinations go first, then the libraries
    and binaries that a partition of better priority already provides. */
module Filter {
  import opened Strings
  import opened BlobList
  import opened Sorting

  /** What a library or binary collides on: its kind and its stem. */
  datatype Elf = Lib(stem: string) | Bin(stem: string)

  /** What the filter asks about a destination. The filter is correct for any answers. */
  datatype Policy = Policy(
    excluded: set<string>,
    norm: string -> string,
    elf: string -> Option<Elf>,
    priority: string -> nat)

  // ---------------------------------------------------------------- the declarative specification

  /** Entry i is not excluded and is the first with its normalized destination. */
  ghost predicate First(p: Policy, entries: seq<BlobEntry>, i: int) {
    && 0 <= i < |entries|
    && p.norm(entries[i].dest) !in p.excluded
    && forall j :: 0 <= j < i ==> p.norm(entries[j].dest) != p.norm(entries[i].dest)
  }

  ghost predicate Collide(p: Policy, d: string, d': string) {
    p.elf(d).Some? && p.elf(d') == p.elf(d)
  }

  /** Entry i is such a first entry and no other one that it collides with has a better priority. */
  ghost predicate Survives(p: Policy, entries: seq<BlobEntry>, i: int) {
    && First(p, entries, i)
    && forall j :: First(p, entries, j) && Collide(p, entries[i].dest, entries[j].dest)
         ==> p.priority(entries[i].dest) <= p.priority(entries[j].dest)
  }

  // ---------------------------------------------------------------- the passes as functions

  predicate HasNorm(p: Policy, kept: seq<BlobEntry>, d: string) {
    exists k :: 0 <= k < |kept| && p.norm(kept[k].dest) == d
  }

  function Kept(p: Policy, entries: seq<BlobEntry>): seq<BlobEntry> {
    if entries == [] then []
    else
      var kept := Kept(p, entries[..|entries| - 1]);
      var e := entries[|entries| - 1];
      if p.norm(e.dest) in p.excluded || HasNorm(p, kept, p.norm(e.dest)) then kept else kept + [e]
  }

  function Winner(p: Policy, kept: seq<BlobEntry>, elf: Elf): Option<BlobEntry> {
    if kept == [] then None
    else
      var winner := Winner(p, kept[..|kept| - 1], elf);
      var e := kept[|kept| - 1];
      if p.elf(e.dest) == Some(elf) && (winner.None? || p.priority(e.dest) < p.priority(winner.value.dest))
      then Some(e) else winner
  }

  predicate Loses(p: Policy, kept: seq<BlobEntry>, e: BlobEntry) {
    && p.elf(e.dest).Some?
    && Winner(p, kept, p.elf(e.dest).value).Some?
    && p.priority(e.dest) > p.priority(Winner(p, kept, p.elf(e.dest).value).value.dest)
  }

  function Survivors(p: Policy, kept: seq<BlobEntry>, part: seq<BlobEntry>): seq<BlobEntry> {
    if part == [] then []
    else
      var e := part[|part| - 1];
      Survivors(p, kept, part[..|part| - 1]) + (if Loses(p, kept, e) then [] else [e])
  }

  function Filtered(p: Policy, entries: seq<BlobEntry>): seq<BlobEntry> {
    var kept := Kept(p, entries);
    Sort(Survivors(p, kept, kept), Dest)
  }

  /** Why an entry was reported as dropped. */
  datatype Drop = DeviceOwned(entry: BlobEntry) | Duplicate(elf: Elf, entry: BlobEntry, winner: BlobEntry) {
    function Message(): string {
      match this
      case DeviceOwned(e) => "dropped device-owned config " + e.dest
      case Duplicate(elf, e, w) =>
        (if elf.Lib? then "dropped duplicate library " else "dropped duplicate binary ")
        + e.dest + " in favor of " + w.dest
    }
  }

  function ExcludedDrops(p: Policy, entries: seq<BlobEntry>): seq<Drop> {
    if entries == [] then []
    else
      var e := entries[|entries| - 1];
      ExcludedDrops(p, entries[..|entries| - 1]) + (if p.norm(e.dest) in p.excluded then [DeviceOwned(e)] else [])
  }

  function DuplicateDrops(p: Policy, kept: seq<BlobEntry>, part: seq<BlobEntry>): seq<Drop> {
    if part == [] then []
    else
      var e := part[|part| - 1];
      DuplicateDrops(p, kept, part[..|part| - 1])
      + (if Loses(p, kept, e)
         then [Duplicate(p.elf(e.dest).value, e, Winner(p, kept, p.elf(e.dest).value).value)] else [])
  }

  function Drops(p: Policy, entries: seq<BlobEntry>): seq<Drop> {
    var kept := Kept(p, entries);
    ExcludedDrops(p, entries) + DuplicateDrops(p, kept, kept)
  }

  function Messages(drops: seq<Drop>): seq<string> {
    seq(|drops|, i requires 0 <= i < |drops| => drops[i].Message())
  }

  /** What the report of a dropped entry says. */
  ghost predicate Reports(d: Drop, message: string) {
    match d
    case DeviceOwned(e) => message == "dropped device-owned config " + e.dest
    case Duplicate(Lib(_), e, w) => message == "dropped duplicate library " + e.dest + " in favor of " + w.dest
    case Duplicate(Bin(_), e, w) => message == "dropped duplicate binary " + e.dest + " in favor of " + w.dest
  }

  lemma MessagesReport(drops: seq<Drop>)
    ensures |Messages(drops)| == |drops| && forall i :: 0 <= i < |drops| ==> Reports(drops[i], Messages(drops)[i])
  {
  }

  lemma MessagesSnoc(drops: seq<Drop>, d: Drop)
    ensures Messages(drops + [d]) == Messages(drops) + [d.Message()]
  {
  }

  // ---------------------------------------------------------------- the filter itself

  /** The two dictionaries of winners agree with the fold over the entries seen so far. */
  ghost predicate TableFor(p: Policy, table: map<string, BlobEntry>, seen: seq<BlobEntry>, lib: bool) {
    forall stem :: Winner(p, seen, if lib then Lib(stem) else Bin(stem))
                   == if stem in table then Some(table[stem]) else None
  }

  method Unique(p: Policy, entries: seq<BlobEntry>) returns (kept: seq<BlobEntry>, dropped: seq<string>)
    ensures kept == Kept(p, entries)
    ensures dropped == Messages(ExcludedDrops(p, entries))
  {
    var uniqueDests: map<string, BlobEntry> := map[];
    kept, dropped := [], [];
    for i := 0 to |entries|
      invariant kept == Kept(p, entries[..i])
      invariant forall d :: d in uniqueDests <==> HasNorm(p, kept, d)
      invariant dropped == Messages(ExcludedDrops(p, entries[..i]))
    {
      var entry := entries[i];
      assert entries[..i + 1][..i] == entries[..i];
      var d := p.norm(entry.dest);
      if d in p.excluded {
        MessagesSnoc(ExcludedDrops(p, entries[..i]), DeviceOwned(entry));
        dropped := dropped + [DeviceOwned(entry).Message()];
      } else if d !in uniqueDests {
        HasNormSnoc(p, kept, entry);
        uniqueDests := uniqueDests[d := entry];
        kept := kept + [entry];
      }
    }
    assert entries[..|entries|] == entries;
  }

  lemma HasNormSnoc(p: Policy, kept: seq<BlobEntry>, e: BlobEntry)
    ensures forall d :: HasNorm(p, kept + [e], d) <==> HasNorm(p, kept, d) || p.norm(e.dest) == d
  {
    assert (kept + [e])[|kept|] == e;
    assert forall k :: 0 <= k < |kept| ==> (kept + [e])[k] == kept[k];
  }

  method Winners(p: Policy, kept: seq<BlobEntry>)
    returns (sharedWinners: map<string, BlobEntry>, binaryWinners: map<string, BlobEntry>)
    ensures TableFor(p, sharedWinners, kept, true)
    ensures TableFor(p, binaryWinners, kept, false)
  {
    sharedWinners, binaryWinners := map[], map[];
    for i := 0 to |kept|
      invariant TableFor(p, sharedWinners, kept[..i], true)
      invariant TableFor(p, binaryWinners, kept[..i], false)
    {
      var entry := kept[i];
      assert kept[..i + 1][..i] == kept[..i];
      match p.elf(entry.dest)
      case None =>
      case Some(Lib(stem)) =>
        if stem !in sharedWinners || p.priority(entry.dest) < p.priority(sharedWinners[stem].dest) {
          sharedWinners := sharedWinners[stem := entry];
        }
      case Some(Bin(stem)) =>
        if stem !in binaryWinners || p.priority(entry.dest) < p.priority(binaryWinners[stem].dest) {
          binaryWinners := binaryWinners[stem := entry];
        }
    }
    assert kept[..|kept|] == kept;
  }

  /** The last pass: report the losers, keep the rest in order. */
  method Resolve(p: Policy, kept: seq<BlobEntry>, sharedWinners: map<string, BlobEntry>,
                 binaryWinners: map<string, BlobEntry>)
    returns (survivors: seq<BlobEntry>, dropped: seq<string>)
    requires TableFor(p, sharedWinners, kept, true)
    requires TableFor(p, binaryWinners, kept, false)
    ensures survivors == Survivors(p, kept, kept)
    ensures dropped == Messages(DuplicateDrops(p, kept, kept))
  {
    survivors, dropped := [], [];
    WinnerLaws(p, kept);
    for i := 0 to |kept|
      invariant survivors == Survivors(p, kept, kept[..i])
      invariant dropped == Messages(DuplicateDrops(p, kept, kept[..i]))
    {
      var entry := kept[i];
      assert kept[..i + 1][..i] == kept[..i];
      var elf := p.elf(entry.dest);
      if elf.Some? {
        assert entry in kept;
        assert Winner(p, kept, elf.value).Some?;
        var winner := if elf.value.Lib? then sharedWinners[elf.value.stem] else binaryWinners[elf.value.stem];
        if p.priority(entry.dest) > p.priority(winner.dest) {
          MessagesSnoc(DuplicateDrops(p, kept, kept[..i]), Duplicate(elf.value, entry, winner));
          dropped := dropped + [Duplicate(elf.value, entry, winner).Message()];
          continue;
        }
      }
      survivors := survivors + [entry];
    }
    assert kept[..|kept|] == kept;
  }

  method FilteredEntries(p: Policy, entries: seq<BlobEntry>)
    returns (final: seq<BlobEntry>, dropped: seq<string>)
    ensures final == Filtered(p, entries)
    ensures dropped == Messages(Drops(p, entries))
    ensures |dropped| == |Drops(p, entries)|
    ensures forall i :: 0 <= i < |dropped| ==> Reports(Drops(p, entries)[i], dropped[i])
  {
    MessagesReport(Drops(p, entries));
    var kept, excluded := Unique(p, entries);
    var sharedWinners, binaryWinners := Winners(p, kept);
    var survivors, duplicates := Resolve(p, kept, sharedWinners, binaryWinners);
    final := Sort(survivors, Dest);
    dropped := excluded + duplicates;
  }

  /** The winner for a kind and stem is an entry with them, of the best priority there is. */
  lemma {:induction false} WinnerLaws(p: Policy, kept: seq<BlobEntry>)
    ensures forall e :: e in kept && p.elf(e.dest).Some? ==>
              Winner(p, kept, p.elf(e.dest).value).Some?
              && p.priority(Winner(p, kept, p.elf(e.dest).value).value.dest) <= p.priority(e.dest)
    ensures forall elf :: Winner(p, kept, elf).Some? ==>
              Winner(p, kept, elf).value in kept && p.elf(Winner(p, kept, elf).value.dest) == Some(elf)
  {
    if kept != [] {
      WinnerLaws(p, kept[..|kept| - 1]);
    }
  }

  /** Entry i has the kind and stem, a better priority than every such entry before it, and no worse one than
      every such entry after it. */
  ghost predicate IsWinner(p: Policy, kept: seq<BlobEntry>, elf: Elf, i: int) {
    && 0 <= i < |kept| && p.elf(kept[i].dest) == Some(elf)
    && (forall j :: 0 <= j < i && p.elf(kept[j].dest) == Some(elf) ==> p.priority(kept[i].dest) < p.priority(kept[j].dest))
    && (forall j :: i < j < |kept| && p.elf(kept[j].dest) == Some(elf) ==> p.priority(kept[i].dest) <= p.priority(kept[j].dest))
  }

  /** The winner is the first entry of the best priority. */
  lemma {:induction false} WinnerIsFirst(p: Policy, kept: seq<BlobEntry>, elf: Elf) returns (i: int)
    requires Winner(p, kept, elf).Some?
    ensures IsWinner(p, kept, elf, i) && Winner(p, kept, elf) == Some(kept[i])
  {
    var n := |kept| - 1;
    var before, e := kept[..n], kept[n];
    assert forall j :: 0 <= j < n ==> kept[j] == before[j];
    if Winner(p, before, elf).None? {
      NoWinner(p, before, elf);
      i := n;
    } else {
      i := WinnerIsFirst(p, before, elf);
      if p.elf(e.dest) == Some(elf) && p.priority(e.dest) < p.priority(before[i].dest) {
        i := n;
      }
    }
  }

  lemma {:induction false} NoWinner(p: Policy, kept: seq<BlobEntry>, elf: Elf)
    requires Winner(p, kept, elf).None?
    ensures forall j :: 0 <= j < |kept| ==> p.elf(kept[j].dest) != Some(elf)
  {
    if kept != [] {
      var n := |kept| - 1;
      NoWinner(p, kept[..n], elf);
      assert forall j :: 0 <= j < n ==> kept[j] == kept[..n][j];
    }
  }
}
