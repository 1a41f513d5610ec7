/** The normaliser that turns a partition, a kind, a path and a stem into a module name. */
module Names {
  import opened Strings
  import opened BlobList
  import Destinations

  predicate IsWordChar(c: char) {
    'A' <= c <= 'Z' || 'a' <= c <= 'z' || '0' <= c <= '9' || c == '_'
  }

  /** `re.sub(r"[^A-Za-z0-9_]", "_", s)`. */
  function Sanitize(s: string): string {
    seq(|s|, i requires 0 <= i < |s| => if IsWordChar(s[i]) then s[i] else '_')
  }

  /** `re.sub(r"_+", "_", s)`. */
  function Collapse(s: string): string {
    if s == [] then []
    else if s[0] == '_' && |s| > 1 && s[1] == '_' then Collapse(s[1..])
    else [s[0]] + Collapse(s[1..])
  }

  function LStripChar(s: string, c: char): (r: string)
    ensures |r| <= |s| && r == s[|s| - |r|..]
    ensures r != [] ==> r[0] != c
  {
    if s != [] && s[0] == c then LStripChar(s[1..], c) else s
  }

  function StripChar(s: string, c: char): string {
    RStripChar(LStripChar(s, c), c)
  }

  function Normalize(s: string): string {
    Destinations.Lower(StripChar(Collapse(Sanitize(s)), '_'))
  }

  /** `module_name(*parts)`. */
  function ModuleName(parts: seq<string>): string {
    Normalize(Join(NonEmpty(parts), "_"))
  }

  // ---------------------------------------------------------------- normal form

  predicate IsNameChar(c: char) {
    'a' <= c <= 'z' || '0' <= c <= '9' || c == '_'
  }

  predicate NoDouble(s: string) {
    forall i, j :: 0 <= i < |s| && j == i + 1 && j < |s| ==> s[i] != '_' || s[j] != '_'
  }

  predicate NormalForm(s: string) {
    && (forall c :: c in s ==> IsNameChar(c))
    && NoDouble(s)
    && (s != "" ==> s[0] != '_' && s[|s| - 1] != '_')
  }

  lemma {:induction false} CollapseLaws(s: string)
    ensures NoDouble(Collapse(s))
    ensures s != [] ==> Collapse(s) != [] && Collapse(s)[0] == s[0]
    ensures forall c :: c in Collapse(s) ==> c in s
    ensures NoDouble(s) ==> Collapse(s) == s
  {
    if s != [] {
      CollapseLaws(s[1..]);
      var t := Collapse(s[1..]);
      assert NoDouble(s) ==> NoDouble(s[1..]);
      if s[0] == '_' && |s| > 1 && s[1] == '_' {
        assert !NoDouble(s);
      } else {
        assert |t| > 0 ==> t[0] == s[1];
        assert s == [s[0]] + s[1..];
      }
    }
  }

  lemma SanitizeLaws(s: string)
    ensures forall c :: c in Sanitize(s) ==> IsWordChar(c)
    ensures (forall c :: c in s ==> IsWordChar(c)) ==> Sanitize(s) == s
  {
    assert (forall c :: c in s ==> IsWordChar(c)) ==> forall i :: 0 <= i < |s| ==> IsWordChar(s[i]);
  }

  lemma NoDoubleSlice(s: string, a: nat, b: nat)
    requires NoDouble(s) && a <= b <= |s|
    ensures NoDouble(s[a..b])
  {
    var r := s[a..b];
    forall i, j | 0 <= i < |r| && j == i + 1 && j < |r| ensures r[i] != '_' || r[j] != '_' {
      assert r[i] == s[a + i] && r[j] == s[a + j];
    }
  }

  lemma StripCharSlice(s: string, c: char) returns (a: nat, b: nat)
    ensures a <= b <= |s| && StripChar(s, c) == s[a..b]
    ensures a < b ==> s[a] != c && s[b - 1] != c
    ensures (s != "" ==> s[0] != c && s[|s| - 1] != c) ==> a == 0 && b == |s|
  {
    var l := LStripChar(s, c);
    var r := RStripChar(l, c);
    a, b := |s| - |l|, |s| - |l| + |r|;
    assert r == s[a..b];
    assert a < b ==> s[a] == l[0] && s[b - 1] == r[|r| - 1];
  }

  lemma StripCharEnds(s: string)
    requires NoDouble(s)
    ensures var r := StripChar(s, '_');
            (r != "" ==> r[0] != '_' && r[|r| - 1] != '_') && NoDouble(r)
  {
    var a, b := StripCharSlice(s, '_');
    NoDoubleSlice(s, a, b);
  }

  lemma StripCharKeeps(s: string)
    ensures forall x :: x in StripChar(s, '_') ==> x in s
    ensures (s != "" ==> s[0] != '_' && s[|s| - 1] != '_') ==> StripChar(s, '_') == s
  {
    var a, b := StripCharSlice(s, '_');
    assert s[0..|s|] == s;
  }

  lemma LowerLaws(s: string)
    requires forall c :: c in s ==> IsWordChar(c)
    ensures var r := Destinations.Lower(s);
            && |r| == |s|
            && (forall i :: 0 <= i < |s| ==> IsNameChar(r[i]) && (r[i] == '_' <==> s[i] == '_'))
            && ((forall c :: c in s ==> IsNameChar(c)) ==> r == s)
  {
    assert forall i :: 0 <= i < |s| ==> s[i] in s;
  }

  lemma StrippedWordChars(s: string)
    ensures forall x :: x in StripChar(Collapse(Sanitize(s)), '_') ==> IsWordChar(x)
  {
    SanitizeLaws(s);
    CollapseLaws(Sanitize(s));
    StripCharKeeps(Collapse(Sanitize(s)));
  }

  lemma NormalizeIsNormal(s: string)
    ensures NormalForm(Normalize(s))
  {
    var a := Sanitize(s);
    var b := Collapse(a);
    var c := StripChar(b, '_');
    assert forall x :: x in c ==> IsWordChar(x) by { StrippedWordChars(s); }
    assert NoDouble(b) by { CollapseLaws(a); }
    assert NoDouble(c) && (c != "" ==> c[0] != '_' && c[|c| - 1] != '_') by { StripCharEnds(b); }
    LowerLaws(c);
    SameUnderscores(c, Destinations.Lower(c));
  }

  /** Normal form but for the letters, carried over to a string with underscores in the same places. */
  lemma SameUnderscores(c: string, r: string)
    requires |r| == |c| && forall i :: 0 <= i < |c| ==> IsNameChar(r[i]) && (r[i] == '_' <==> c[i] == '_')
    requires NoDouble(c) && (c != "" ==> c[0] != '_' && c[|c| - 1] != '_')
    ensures NormalForm(r)
  {
  }

  lemma NormalizeFixes(s: string)
    requires NormalForm(s)
    ensures Normalize(s) == s
  {
    assert forall c :: c in s ==> IsWordChar(c);
    SanitizeLaws(s);
    CollapseLaws(s);
    StripCharKeeps(s);
    LowerLaws(s);
  }

  /** A module name is in normal form, and naming a module after its own name changes nothing. */
  lemma ModuleNameNormal(parts: seq<string>)
    ensures NormalForm(ModuleName(parts))
    ensures ModuleName([ModuleName(parts)]) == ModuleName(parts)
  {
    var name := ModuleName(parts);
    NormalizeIsNormal(Join(NonEmpty(parts), "_"));
    assert NonEmpty([name]) == if name == "" then [] else [name];
    NormalizeFixes(name);
  }

  // ---------------------------------------------------------------- separation

  const KINDS: set<string> := {"lib", "bin"}

  function Head(partition: string, kind: string): string {
    partition + "_" + kind
  }

  lemma {:induction false} CollapseAfter(h: string, t: string)
    requires NoDouble(h) && h != "" && h[|h| - 1] != '_'
    ensures Collapse(h + t) == h + Collapse(t)
  {
    if |h| == 1 {
      assert (h + t)[1..] == t;
    } else {
      assert (h + t)[1..] == h[1..] + t;
      assert NoDouble(h[1..]);
      CollapseAfter(h[1..], t);
      assert h == [h[0]] + h[1..];
      assert (h + t)[0] == h[0] && (h + t)[1] == h[1];
    }
  }

  lemma {:induction false} RStripAfter(h: string, t: string, c: char)
    requires h != "" && h[|h| - 1] != c
    ensures RStripChar(h + t, c) == h + RStripChar(t, c)
  {
    if t != "" && t[|t| - 1] == c {
      assert (h + t)[..|h + t| - 1] == h + t[..|t| - 1];
      RStripAfter(h, t[..|t| - 1], c);
    } else {
      assert t == "" ==> h + t == h;
    }
  }

  lemma LowerAfter(h: string, t: string)
    requires forall c :: c in h ==> IsNameChar(c)
    ensures h <= Destinations.Lower(h + t)
  {
    assert forall i :: 0 <= i < |h| ==> h[i] in h && (h + t)[i] == h[i];
  }

  lemma SanitizeAfter(h: string, t: string)
    requires forall c :: c in h ==> IsNameChar(c)
    ensures Sanitize(h + t) == h + Sanitize(t)
  {
    assert forall i :: 0 <= i < |h| ==> h[i] in h && (h + t)[i] == h[i];
  }

  /** Normalising leaves a head that is in normal form alone. */
  lemma NormalizeAfter(h: string, t: string)
    requires NormalForm(h) && h != ""
    ensures h <= Normalize(h + t)
  {
    SanitizeAfter(h, t);
    var b := Collapse(Sanitize(t));
    CollapseAfter(h, Sanitize(t));
    assert LStripChar(h + b, '_') == h + b;
    RStripAfter(h, b, '_');
    LowerAfter(h, RStripChar(b, '_'));
  }

  lemma HeadNormal(partition: string, kind: string)
    requires partition in Destinations.KNOWN_PARTITIONS && kind in KINDS
    ensures NormalForm(Head(partition, kind))
  {
    var h := Head(partition, kind);
    assert forall i :: 0 <= i < |h| ==> IsNameChar(h[i]);
  }

  /** The name of a library or binary starts with its partition and kind, whatever its path and stem. */
  lemma NameHasHead(partition: string, kind: string, relpath: string, stem: string)
    requires partition in Destinations.KNOWN_PARTITIONS && kind in KINDS
    ensures Head(partition, kind) <= ModuleName([partition, kind, relpath, stem])
  {
    var tail := NonEmpty([relpath, stem]);
    assert [partition, kind, relpath, stem][1..][1..] == [relpath, stem];
    assert NonEmpty([kind, relpath, stem]) == [kind] + tail;
    var parts := NonEmpty([partition, kind, relpath, stem]);
    assert parts == [partition] + ([kind] + tail);
    assert parts[1..] == [kind] + tail && ([kind] + tail)[1..] == tail;
    var t := if tail == [] then "" else "_" + Join(tail, "_");
    assert Join(parts, "_") == Head(partition, kind) + t;
    HeadNormal(partition, kind);
    NormalizeAfter(Head(partition, kind), t);
  }

  /** Characters that tell the twelve heads apart. */
  lemma HeadChars(p: string, k: string)
    requires p in Destinations.KNOWN_PARTITIONS && k in KINDS
    ensures var h := Head(p, k);
            && (k == "lib" ==> k[0] == 'l') && (k == "bin" ==> k[0] == 'b')
            && (p == "odm" ==> |h| == 7 && h[0] == 'o' && h[4] == k[0])
            && (p == "product" ==> |h| == 11 && h[0] == 'p' && h[8] == k[0])
            && (p == "system" ==> |h| == 10 && h[0] == 's' && h[7] == k[0])
            && (p == "system_ext" ==> |h| == 14 && h[0] == 's' && h[7] == 'e' && h[11] == k[0])
            && (p == "vendor" ==> |h| == 10 && h[0] == 'v' && h[7] == k[0])
            && (p == "vendor_dlkm" ==> |h| == 15 && h[0] == 'v' && h[7] == 'd' && h[12] == k[0])
  {
    assert |k| == 3;
  }

  lemma HeadsPrefixFree(p: string, k: string, p': string, k': string)
    requires p in Destinations.KNOWN_PARTITIONS && k in KINDS
    requires p' in Destinations.KNOWN_PARTITIONS && k' in KINDS
    requires Head(p, k) <= Head(p', k')
    ensures p == p' && k == k'
  {
    HeadChars(p, k);
    HeadChars(p', k');
  }

  /** Two modules of different partitions or different kinds never share a name. */
  lemma NamesSeparate(p: string, k: string, relpath: string, stem: string,
                      p': string, k': string, relpath': string, stem': string)
    requires p in Destinations.KNOWN_PARTITIONS && k in KINDS
    requires p' in Destinations.KNOWN_PARTITIONS && k' in KINDS
    requires ModuleName([p, k, relpath, stem]) == ModuleName([p', k', relpath', stem'])
    ensures p == p' && k == k'
  {
    NameHasHead(p, k, relpath, stem);
    NameHasHead(p', k', relpath', stem');
    if |Head(p, k)| <= |Head(p', k')| {
      HeadsPrefixFree(p, k, p', k');
    } else {
      HeadsPrefixFree(p', k', p, k);
    }
  }
}
