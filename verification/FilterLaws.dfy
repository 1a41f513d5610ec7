/** What the filter guarantees: it computes its declarative specification, loses nothing silently, is
    idempotent, and does not depend on the order of the input. */
module FilterLaws {
  import opened Strings
  import opened BlobList
  import opened Sorting
  import opened Filter

  ghost predicate DistinctNorms(p: Policy, s: seq<BlobEntry>) {
    forall i, j :: 0 <= i < j < |s| ==> p.norm(s[i].dest) != p.norm(s[j].dest)
  }

  /** No entry collides with one of better priority. */
  ghost predicate Unbeaten(p: Policy, kept: seq<BlobEntry>, e: BlobEntry) {
    forall x :: x in kept && Collide(p, e.dest, x.dest) ==> p.priority(e.dest) <= p.priority(x.dest)
  }

  // ---------------------------------------------------------------- the first pass

  lemma {:induction false} KeptCovers(p: Policy, entries: seq<BlobEntry>)
    ensures forall i :: 0 <= i < |entries| && p.norm(entries[i].dest) !in p.excluded
              ==> HasNorm(p, Kept(p, entries), p.norm(entries[i].dest))
  {
    if entries != [] {
      var n := |entries| - 1;
      KeptCovers(p, entries[..n]);
      HasNormSnoc(p, Kept(p, entries[..n]), entries[n]);
      assert forall i :: 0 <= i < n ==> entries[i] == entries[..n][i];
    }
  }

  lemma {:induction false} KeptDistinct(p: Policy, entries: seq<BlobEntry>)
    ensures DistinctNorms(p, Kept(p, entries))
  {
    if entries != [] {
      KeptDistinct(p, entries[..|entries| - 1]);
    }
  }

  lemma FirstOfPrefix(p: Policy, before: seq<BlobEntry>, e: BlobEntry, i: int)
    requires i < |before|
    ensures First(p, before + [e], i) <==> First(p, before, i)
  {
    assert forall j :: 0 <= j < |before| ==> (before + [e])[j] == before[j];
  }

  lemma {:induction false} KeptIsFirst(p: Policy, entries: seq<BlobEntry>)
    ensures forall e :: e in Kept(p, entries) ==> exists i :: First(p, entries, i) && entries[i] == e
  {
    if entries != [] {
      var n := |entries| - 1;
      var before, last := entries[..n], entries[n];
      assert entries == before + [last];
      KeptIsFirst(p, before);
      KeptCovers(p, before);
      LastIsFirst(p, before, last);
      forall e | e in Kept(p, entries) ensures exists i :: First(p, entries, i) && entries[i] == e {
        if e in Kept(p, before) {
          var i :| First(p, before, i) && before[i] == e;
          FirstOfPrefix(p, before, last, i);
          assert entries[i] == e;
        } else {
          assert e == last && First(p, entries, n);
        }
      }
    }
  }

  lemma {:induction false} FirstIsKept(p: Policy, entries: seq<BlobEntry>, i: int)
    requires First(p, entries, i)
    ensures entries[i] in Kept(p, entries)
  {
    var n := |entries| - 1;
    var before, last := entries[..n], entries[n];
    assert entries == before + [last];
    if i < n {
      FirstOfPrefix(p, before, last, i);
      FirstIsKept(p, before, i);
    } else {
      KeptIsFirst(p, before);
      KeptCovers(p, before);
      LastIsFirst(p, before, last);
    }
  }

  /** The first pass keeps exactly the first entries, each once. */
  lemma KeptLaws(p: Policy, entries: seq<BlobEntry>)
    ensures forall e :: e in Kept(p, entries) <==> exists i :: First(p, entries, i) && entries[i] == e
    ensures forall i :: 0 <= i < |entries| && p.norm(entries[i].dest) !in p.excluded
              ==> HasNorm(p, Kept(p, entries), p.norm(entries[i].dest))
    ensures DistinctNorms(p, Kept(p, entries))
  {
    KeptIsFirst(p, entries);
    KeptCovers(p, entries);
    KeptDistinct(p, entries);
    forall i | First(p, entries, i) ensures entries[i] in Kept(p, entries) {
      FirstIsKept(p, entries, i);
    }
  }

  lemma LastIsFirst(p: Policy, before: seq<BlobEntry>, e: BlobEntry)
    requires forall x :: x in Kept(p, before) ==> exists i :: First(p, before, i) && before[i] == x
    requires forall i :: 0 <= i < |before| && p.norm(before[i].dest) !in p.excluded
               ==> HasNorm(p, Kept(p, before), p.norm(before[i].dest))
    ensures First(p, before + [e], |before|)
            <==> p.norm(e.dest) !in p.excluded && !HasNorm(p, Kept(p, before), p.norm(e.dest))
  {
    var kept, d, s := Kept(p, before), p.norm(e.dest), before + [e];
    assert forall i :: 0 <= i < |before| ==> s[i] == before[i];
    if HasNorm(p, kept, d) {
      var k :| 0 <= k < |kept| && p.norm(kept[k].dest) == d;
      assert kept[k] in kept;
      var i :| First(p, before, i) && before[i] == kept[k];
      assert s[i] == before[i];
    }
  }

  // ---------------------------------------------------------------- the second pass

  /** An entry loses to the table's winner exactly when some kept entry beats it. */
  lemma LosesIffBeaten(p: Policy, kept: seq<BlobEntry>, e: BlobEntry)
    ensures Loses(p, kept, e) <==> !Unbeaten(p, kept, e)
  {
    WinnerLaws(p, kept);
    if Loses(p, kept, e) {
      var w := Winner(p, kept, p.elf(e.dest).value).value;
      assert w in kept && Collide(p, e.dest, w.dest);
    }
  }

  lemma {:induction false} SurvivorsLaws(p: Policy, kept: seq<BlobEntry>, part: seq<BlobEntry>)
    ensures forall e :: e in Survivors(p, kept, part) <==> e in part && Unbeaten(p, kept, e)
  {
    if part != [] {
      var n := |part| - 1;
      SurvivorsLaws(p, kept, part[..n]);
      LosesIffBeaten(p, kept, part[n]);
      assert part == part[..n] + [part[n]];
    }
  }

  lemma {:induction false} SurvivorsDistinct(p: Policy, kept: seq<BlobEntry>, part: seq<BlobEntry>)
    requires DistinctNorms(p, part)
    ensures DistinctNorms(p, Survivors(p, kept, part))
  {
    if part != [] {
      var n := |part| - 1;
      SurvivorsDistinct(p, kept, part[..n]);
      SurvivorsLaws(p, kept, part[..n]);
      var s := Survivors(p, kept, part[..n]);
      forall i | 0 <= i < |s| ensures p.norm(s[i].dest) != p.norm(part[n].dest) {
        assert s[i] in s;
        var k :| 0 <= k < n && part[..n][k] == s[i];
      }
    }
  }

  // ---------------------------------------------------------------- the specification is met

  lemma SurvivesIffUnbeaten(p: Policy, entries: seq<BlobEntry>, i: int)
    requires First(p, entries, i)
    ensures Survives(p, entries, i) <==> Unbeaten(p, Kept(p, entries), entries[i])
  {
    KeptLaws(p, entries);
    forall j | First(p, entries, j) ensures entries[j] in Kept(p, entries) {
    }
  }

  /** The filter returns exactly the entries that survive by the declarative rule, each once, strictly
      ordered by destination; this determines its result completely. */
  lemma FilterMeetsSpec(p: Policy, entries: seq<BlobEntry>)
    ensures forall e :: e in Filtered(p, entries) <==> exists i :: Survives(p, entries, i) && entries[i] == e
    ensures StrictlySorted(Filtered(p, entries), Dest)
  {
    var kept := Kept(p, entries);
    var survivors := Survivors(p, kept, kept);
    KeptLaws(p, entries);
    SurvivorsLaws(p, kept, kept);
    SurvivorsDistinct(p, kept, kept);
    SortMembers(survivors, Dest);
    assert DistinctKeys(survivors, Dest);
    SortStrict(survivors, Dest);
    forall e ensures e in survivors <==> exists i :: Survives(p, entries, i) && entries[i] == e {
      if e in survivors {
        var i :| First(p, entries, i) && entries[i] == e;
        SurvivesIffUnbeaten(p, entries, i);
      }
      if i :| Survives(p, entries, i) && entries[i] == e {
        SurvivesIffUnbeaten(p, entries, i);
      }
    }
  }

  // ---------------------------------------------------------------- filtering twice

  /** A list the filter has nothing to do on. */
  ghost predicate Settled(p: Policy, s: seq<BlobEntry>) {
    && (forall e :: e in s ==> p.norm(e.dest) !in p.excluded && Unbeaten(p, s, e))
    && DistinctNorms(p, s)
    && Sorted(s, Dest)
  }

  lemma DistinctNormsSnoc(p: Policy, before: seq<BlobEntry>, e: BlobEntry)
    requires DistinctNorms(p, before + [e])
    ensures DistinctNorms(p, before) && !HasNorm(p, before, p.norm(e.dest))
  {
    var s := before + [e];
    assert forall i :: 0 <= i < |before| ==> s[i] == before[i];
    assert s[|before|] == e;
  }

  lemma KeptSnoc(p: Policy, before: seq<BlobEntry>, e: BlobEntry)
    requires p.norm(e.dest) !in p.excluded
    ensures Kept(p, before + [e])
            == if HasNorm(p, Kept(p, before), p.norm(e.dest)) then Kept(p, before) else Kept(p, before) + [e]
    ensures ExcludedDrops(p, before + [e]) == ExcludedDrops(p, before)
  {
    assert (before + [e])[..|before|] == before;
  }

  lemma {:induction false} KeptAll(p: Policy, s: seq<BlobEntry>)
    requires DistinctNorms(p, s) && forall e :: e in s ==> p.norm(e.dest) !in p.excluded
    ensures Kept(p, s) == s && ExcludedDrops(p, s) == []
  {
    if s != [] {
      var n := |s| - 1;
      var before, e := s[..n], s[n];
      assert s == before + [e];
      DistinctNormsSnoc(p, before, e);
      KeptAll(p, before);
      KeptSnoc(p, before, e);
    }
  }

  lemma {:induction false} AllSurvive(p: Policy, kept: seq<BlobEntry>, part: seq<BlobEntry>)
    requires forall e :: e in part ==> Unbeaten(p, kept, e)
    ensures Survivors(p, kept, part) == part && DuplicateDrops(p, kept, part) == []
  {
    if part != [] {
      var n := |part| - 1;
      var before, e := part[..n], part[n];
      assert part == before + [e];
      assert !Loses(p, kept, e) by { LosesIffBeaten(p, kept, e); }
      assert forall x :: x in before ==> x in part;
      AllSurvive(p, kept, before);
    }
  }

  lemma SettledIsFixed(p: Policy, s: seq<BlobEntry>)
    requires Settled(p, s)
    ensures Filtered(p, s) == s && Drops(p, s) == []
  {
    KeptAll(p, s);
    AllSurvive(p, s, s);
    SortOfSorted(s, Dest);
  }

  lemma FilteredIsSettled(p: Policy, entries: seq<BlobEntry>)
    ensures Settled(p, Filtered(p, entries))
  {
    var kept := Kept(p, entries);
    var survivors := Survivors(p, kept, kept);
    KeptLaws(p, entries);
    SurvivorsLaws(p, kept, kept);
    SurvivorsDistinct(p, kept, kept);
    SortLaws(survivors, Dest, "");
    SortMembers(survivors, Dest);
    DistinctNormsSorted(p, survivors);
  }

  /** Reordering keeps normalized destinations distinct. */
  lemma DistinctNormsSorted(p: Policy, s: seq<BlobEntry>)
    requires DistinctNorms(p, s)
    ensures DistinctNorms(p, Sort(s, Dest))
  {
    SortLaws(s, Dest, "");
    DistinctNormsPermuted(p, s, Sort(s, Dest));
  }

  lemma DistinctNormsPermuted(p: Policy, s: seq<BlobEntry>, t: seq<BlobEntry>)
    requires DistinctNorms(p, s) && multiset(s) == multiset(t)
    ensures DistinctNorms(p, t)
  {
    forall i, j | 0 <= i < j < |t| ensures p.norm(t[i].dest) != p.norm(t[j].dest) {
      assert t == t[..i] + [t[i]] + t[i + 1..j] + [t[j]] + t[j + 1..];
      assert multiset{t[i], t[j]} <= multiset(t);
      TwoPlaces(s, t[i], t[j]);
    }
  }

  lemma TwoPlaces<T>(s: seq<T>, x: T, y: T)
    requires multiset{x, y} <= multiset(s)
    ensures exists i, j :: 0 <= i < |s| && 0 <= j < |s| && i != j && s[i] == x && s[j] == y
  {
    assert x in multiset(s);
    var i :| 0 <= i < |s| && s[i] == x;
    var rest := s[..i] + s[i + 1..];
    assert y in multiset(rest) by { WithoutOne(s, i); }
    var k :| 0 <= k < |rest| && rest[k] == y;
    assert s[if k < i then k else k + 1] == y;
  }

  lemma WithoutOne<T>(s: seq<T>, i: nat)
    requires i < |s|
    ensures multiset(s) == multiset(s[..i] + s[i + 1..]) + multiset{s[i]}
  {
    assert s == s[..i] + [s[i]] + s[i + 1..];
  }

  ghost predicate SameDests(s: seq<BlobEntry>, t: seq<BlobEntry>) {
    |s| == |t| && forall i :: 0 <= i < |s| ==> s[i].dest == t[i].dest
  }

  lemma SettledByDests(p: Policy, s: seq<BlobEntry>, t: seq<BlobEntry>)
    requires Settled(p, s) && SameDests(s, t)
    ensures Settled(p, t)
  {
    assert forall i :: 0 <= i < |s| ==> Dest(s[i]) == Dest(t[i]);
    assert Sorted(t, Dest) && DistinctNorms(p, t);
    forall e | e in t ensures p.norm(e.dest) !in p.excluded && Unbeaten(p, t, e) {
      var i :| 0 <= i < |t| && t[i] == e;
      assert s[i] in s;
      forall x | x in t && Collide(p, e.dest, x.dest) ensures p.priority(e.dest) <= p.priority(x.dest) {
        var j :| 0 <= j < |t| && t[j] == x;
        assert s[j] in s;
      }
    }
  }

  /** Filtering the filtered list again, even with other sources, arguments or original lines, changes
      nothing and reports nothing. */
  lemma FilterIdempotent(p: Policy, entries: seq<BlobEntry>, again: seq<BlobEntry>)
    requires SameDests(Filtered(p, entries), again)
    ensures Filtered(p, again) == again && Drops(p, again) == []
  {
    FilteredIsSettled(p, entries);
    SettledByDests(p, Filtered(p, entries), again);
    SettledIsFixed(p, again);
  }

  // ---------------------------------------------------------------- order independence

  /** Any two orders of a list without repeated destinations filter to the same list. */
  lemma OrderIndependent(p: Policy, s: seq<BlobEntry>, t: seq<BlobEntry>)
    requires DistinctNorms(p, s) && multiset(s) == multiset(t)
    ensures Filtered(p, s) == Filtered(p, t)
  {
    DistinctNormsPermuted(p, s, t);
    FilterMeetsSpec(p, s);
    FilterMeetsSpec(p, t);
    SurvivorsOfDistinct(p, s);
    SurvivorsOfDistinct(p, t);
    assert forall e :: e in s <==> e in multiset(s);
    assert forall e :: e in t <==> e in multiset(t);
    StrictlySortedUnique(Filtered(p, s), Filtered(p, t), Dest);
  }

  ghost predicate BeatenInside(p: Policy, s: seq<BlobEntry>, e: BlobEntry) {
    exists x :: x in s && p.norm(x.dest) !in p.excluded && Collide(p, e.dest, x.dest) && p.priority(x.dest) < p.priority(e.dest)
  }

  lemma SurvivorsOfDistinct(p: Policy, s: seq<BlobEntry>)
    requires DistinctNorms(p, s)
    ensures forall e :: e in Filtered(p, s) <==> e in s && p.norm(e.dest) !in p.excluded && !BeatenInside(p, s, e)
  {
    FilterMeetsSpec(p, s);
    assert forall i :: First(p, s, i) <==> 0 <= i < |s| && p.norm(s[i].dest) !in p.excluded;
    forall i | 0 <= i < |s| ensures Survives(p, s, i) <==> p.norm(s[i].dest) !in p.excluded && !BeatenInside(p, s, s[i]) {
      if First(p, s, i) && !Survives(p, s, i) {
        var j :| First(p, s, j) && Collide(p, s[i].dest, s[j].dest) && p.priority(s[i].dest) > p.priority(s[j].dest);
        assert s[j] in s;
      }
    }
  }

  // ---------------------------------------------------------------- accounting

  /** Entry i is not excluded, but its normalized destination occurred before. */
  ghost predicate Repeat(p: Policy, entries: seq<BlobEntry>, i: int) {
    && 0 <= i < |entries|
    && p.norm(entries[i].dest) !in p.excluded
    && exists j :: 0 <= j < i && p.norm(entries[j].dest) == p.norm(entries[i].dest)
  }

  /** The positions of the repetitions, which vanish without a report. */
  ghost function Repeats(p: Policy, entries: seq<BlobEntry>): set<int> {
    set i | 0 <= i < |entries| && Repeat(p, entries, i)
  }

  lemma RepeatIsSeen(p: Policy, before: seq<BlobEntry>, e: BlobEntry)
    ensures Repeat(p, before + [e], |before|)
            <==> p.norm(e.dest) !in p.excluded && HasNorm(p, Kept(p, before), p.norm(e.dest))
  {
    KeptLaws(p, before);
    LastIsFirst(p, before, e);
    assert (before + [e])[|before|] == e;
  }

  lemma RepeatsSnoc(p: Policy, before: seq<BlobEntry>, e: BlobEntry)
    ensures Repeats(p, before + [e])
            == Repeats(p, before) + (if Repeat(p, before + [e], |before|) then {|before|} else {})
  {
    var s := before + [e];
    assert forall i :: 0 <= i < |before| ==> s[i] == before[i];
    forall i | 0 <= i < |before| ensures Repeat(p, s, i) <==> Repeat(p, before, i) {
    }
  }

  lemma {:induction false} FirstPassAccounting(p: Policy, entries: seq<BlobEntry>)
    ensures |entries| == |Kept(p, entries)| + |ExcludedDrops(p, entries)| + |Repeats(p, entries)|
  {
    if entries != [] {
      var n := |entries| - 1;
      FirstPassAccounting(p, entries[..n]);
      assert entries == entries[..n] + [entries[n]];
      RepeatsSnoc(p, entries[..n], entries[n]);
      RepeatIsSeen(p, entries[..n], entries[n]);
    }
  }

  ghost function Losers(drops: seq<Drop>): multiset<BlobEntry> {
    if drops == [] then multiset{}
    else Losers(drops[..|drops| - 1]) + multiset{drops[|drops| - 1].entry}
  }

  lemma LosersSnoc(drops: seq<Drop>, d: Drop)
    ensures Losers(drops + [d]) == Losers(drops) + multiset{d.entry}
  {
    assert (drops + [d])[..|drops|] == drops;
  }

  lemma {:induction false} SurvivorsElements(p: Policy, kept: seq<BlobEntry>, part: seq<BlobEntry>)
    ensures multiset(Survivors(p, kept, part)) == Sieve(p, kept, part, false)
  {
    if part != [] {
      SurvivorsElements(p, kept, part[..|part| - 1]);
    }
  }

  lemma {:induction false} LosersElements(p: Policy, kept: seq<BlobEntry>, part: seq<BlobEntry>)
    ensures Losers(DuplicateDrops(p, kept, part)) == Sieve(p, kept, part, true)
  {
    if part != [] {
      var n := |part| - 1;
      LosersElements(p, kept, part[..n]);
      var drops := DuplicateDrops(p, kept, part[..n]);
      if Loses(p, kept, part[n]) {
        LosersSnoc(drops, DuplicateDrops(p, kept, part)[|drops|]);
      } else {
        assert DuplicateDrops(p, kept, part) == drops;
      }
    }
  }

  /** The entries of a list that lose, or that do not. */
  ghost function Sieve(p: Policy, kept: seq<BlobEntry>, part: seq<BlobEntry>, losing: bool): multiset<BlobEntry> {
    if part == [] then multiset{}
    else
      var e := part[|part| - 1];
      Sieve(p, kept, part[..|part| - 1], losing) + (if Loses(p, kept, e) == losing then multiset{e} else multiset{})
  }

  lemma {:induction false} SieveSplits(p: Policy, kept: seq<BlobEntry>, part: seq<BlobEntry>)
    ensures Sieve(p, kept, part, false) + Sieve(p, kept, part, true) == multiset(part)
  {
    if part != [] {
      var n := |part| - 1;
      SieveSplits(p, kept, part[..n]);
      assert multiset(part) == multiset(part[..n]) + multiset{part[n]} by {
        assert part == part[..n] + [part[n]];
      }
      var e, a, b := part[n], Sieve(p, kept, part[..n], false), Sieve(p, kept, part[..n], true);
      assert Sieve(p, kept, part, false) == a + (if Loses(p, kept, e) then multiset{} else multiset{e});
      assert Sieve(p, kept, part, true) == b + (if Loses(p, kept, e) then multiset{e} else multiset{});
    }
  }

  /** Each entry the second pass sees is kept or reported, and never both. */
  lemma SecondPassAccounting(p: Policy, kept: seq<BlobEntry>)
    ensures multiset(Survivors(p, kept, kept)) + Losers(DuplicateDrops(p, kept, kept)) == multiset(kept)
  {
    SurvivorsElements(p, kept, kept);
    LosersElements(p, kept, kept);
    SieveSplits(p, kept, kept);
  }

  lemma {:induction false} SecondPassCounts(p: Policy, kept: seq<BlobEntry>, part: seq<BlobEntry>)
    ensures |Survivors(p, kept, part)| + |DuplicateDrops(p, kept, part)| == |part|
  {
    if part != [] {
      SecondPassCounts(p, kept, part[..|part| - 1]);
    }
  }

  /** Every input entry is returned, reported once, or a repetition of an earlier destination. */
  lemma Accounting(p: Policy, entries: seq<BlobEntry>)
    ensures |entries| == |Filtered(p, entries)| + |Drops(p, entries)| + |Repeats(p, entries)|
    ensures multiset(Filtered(p, entries)) + Losers(DuplicateDrops(p, Kept(p, entries), Kept(p, entries)))
            == multiset(Kept(p, entries))
  {
    var kept := Kept(p, entries);
    FirstPassAccounting(p, entries);
    SecondPassAccounting(p, kept);
    SecondPassCounts(p, kept, kept);
    SortMembers(Survivors(p, kept, kept), Dest);
    SortLaws(Survivors(p, kept, kept), Dest, "");
  }

  // ---------------------------------------------------------------- what the reports say

  lemma {:induction false} DuplicateDropsLaws(p: Policy, kept: seq<BlobEntry>, part: seq<BlobEntry>, d: Drop)
    requires d in DuplicateDrops(p, kept, part)
    ensures d.Duplicate? && d.entry in part && p.elf(d.entry.dest) == Some(d.elf)
    ensures Winner(p, kept, d.elf) == Some(d.winner) && p.priority(d.winner.dest) < p.priority(d.entry.dest)
  {
    var n := |part| - 1;
    if d in DuplicateDrops(p, kept, part[..n]) {
      DuplicateDropsLaws(p, kept, part[..n], d);
    }
  }

  /** A report of a dropped duplicate names an entry that itself survives, has the same kind and stem, and
      has a strictly better priority; the dropped entry does not survive. */
  lemma ReportNamesSurvivor(p: Policy, entries: seq<BlobEntry>, d: Drop)
    requires d in Drops(p, entries) && d.Duplicate?
    ensures d.winner in Filtered(p, entries) && d.entry !in Filtered(p, entries)
    ensures p.elf(d.winner.dest) == p.elf(d.entry.dest) == Some(d.elf)
    ensures p.priority(d.winner.dest) < p.priority(d.entry.dest)
  {
    var kept := Kept(p, entries);
    ExcludedDropsKind(p, entries, d);
    DuplicateDropsLaws(p, kept, kept, d);
    WinnerLaws(p, kept);
    SurvivorsLaws(p, kept, kept);
    SortMembers(Survivors(p, kept, kept), Dest);
    assert Collide(p, d.entry.dest, d.winner.dest);
  }

  lemma {:induction false} ExcludedDropsKind(p: Policy, entries: seq<BlobEntry>, d: Drop)
    ensures d in ExcludedDrops(p, entries)
            <==> d.DeviceOwned? && d.entry in entries && p.norm(d.entry.dest) in p.excluded
  {
    if entries != [] {
      var n := |entries| - 1;
      ExcludedDropsKind(p, entries[..n], d);
      assert entries == entries[..n] + [entries[n]];
    }
  }
}
