/** What a module name keeps of its parts: the alphanumeric runs, in lower case and in order. Two names are
    equal exactly when the runs are. */
module NameTokens {
  import opened Strings
  import opened BlobList
  import opened Names
  import Destinations

  /** The nonempty pieces between underscores. */
  function Pieces(s: string): seq<string> {
    NonEmpty(Split(s, '_'))
  }

  function LowerAll(pieces: seq<string>): seq<string> {
    seq(|pieces|, i requires 0 <= i < |pieces| => Destinations.Lower(pieces[i]))
  }

  /** What becomes of one character: a digit or small letter stays, a capital letter becomes the letter 32 code
      points on, and everything else separates. */
  function Mask(c: char): char {
    if '0' <= c <= '9' || 'a' <= c <= 'z' then c
    else if 'A' <= c <= 'Z' then (c as int + 32) as char
    else '_'
  }

  function Masked(s: string): string {
    seq(|s|, i requires 0 <= i < |s| => Mask(s[i]))
  }

  /** The maximal runs of ASCII letters and digits, in lower case. */
  function Tokens(s: string): seq<string> {
    Pieces(Masked(s))
  }

  function AllTokens(parts: seq<string>): seq<string> {
    if parts == [] then [] else Tokens(parts[0]) + AllTokens(parts[1..])
  }

  // ---------------------------------------------------------------- pieces

  lemma PiecesConcat(a: string, b: string)
    ensures Pieces(a + "_" + b) == Pieces(a) + Pieces(b)
  {
    SplitConcat(a, '_', b);
    NonEmptyConcat(Split(a, '_'), Split(b, '_'));
  }

  lemma EmptyPieces()
    ensures Pieces("") == []
  {
    assert Split("", '_') == [""];
  }

  lemma PiecesAfter(t: string)
    ensures Pieces("_" + t) == Pieces(t)
  {
    PiecesConcat("", t);
    EmptyPieces();
    assert "" + "_" + t == "_" + t;
  }

  lemma PiecesBefore(t: string)
    ensures Pieces(t + "_") == Pieces(t)
  {
    PiecesConcat(t, "");
    EmptyPieces();
    assert t + "_" + "" == t + "_";
  }

  lemma {:induction false} LStripPieces(s: string)
    ensures Pieces(LStripChar(s, '_')) == Pieces(s)
  {
    if s != "" && s[0] == '_' {
      LStripPieces(s[1..]);
      PiecesAfter(s[1..]);
      assert s == "_" + s[1..];
    }
  }

  lemma {:induction false} RStripPieces(s: string)
    ensures Pieces(RStripChar(s, '_')) == Pieces(s)
  {
    if s != "" && s[|s| - 1] == '_' {
      var t := s[..|s| - 1];
      RStripPieces(t);
      PiecesBefore(t);
      assert s == t + "_";
    }
  }

  /** Collapsing runs of underscores keeps the pieces. */
  lemma {:induction false} CollapsePieces(s: string)
    ensures Pieces(Collapse(s)) == Pieces(s)
    decreases |s|
  {
    var i := Find(s, '_');
    if i == |s| {
      CollapseWithout(s);
    } else if i == 0 {
      CollapseUnderscore(s);
    } else {
      CollapseFrom(s, i);
    }
  }

  lemma CollapseWithout(s: string)
    requires '_' !in s
    ensures Collapse(s) == s
  {
    assert NoDouble(s);
    CollapseLaws(s);
  }

  lemma {:induction false} CollapseUnderscore(s: string)
    requires s != "" && s[0] == '_'
    ensures Pieces(Collapse(s)) == Pieces(s)
    decreases |s|, 0
  {
    var t := s[1..];
    assert Pieces(s) == Pieces(t) by {
      PiecesAfter(t);
      assert s == "_" + t;
    }
    CollapsePieces(t);
    if !(t != "" && t[0] == '_') {
      assert Collapse(s) == "_" + Collapse(t);
      PiecesAfter(Collapse(t));
    }
  }

  /** A run without underscores, then an underscore: the two parts collapse separately. */
  lemma {:induction false} CollapseFrom(s: string, i: nat)
    requires 0 < i < |s| && '_' !in s[..i] && s[i] == '_'
    ensures Pieces(Collapse(s)) == Pieces(s)
    decreases |s|, 0
  {
    var h, u := s[..i], s[i..];
    assert s == h + u;
    assert h[|h| - 1] in h && NoDouble(h);
    CollapseAfter(h, u);
    CollapseLaws(u);
    CollapseUnderscore(u);
    PiecesFrom(h, u);
    PiecesFrom(h, Collapse(u));
  }

  lemma PiecesFrom(h: string, u: string)
    requires u != "" && u[0] == '_'
    ensures Pieces(h + u) == Pieces(h) + Pieces(u)
  {
    var t := u[1..];
    assert u == "_" + t && h + u == h + "_" + t;
    PiecesConcat(h, t);
    PiecesAfter(t);
  }

  // ---------------------------------------------------------------- lower case

  lemma LowerKeepsUnderscores(s: string)
    ensures '_' in Destinations.Lower(s) <==> '_' in s
  {
    var r := Destinations.Lower(s);
    assert forall k :: 0 <= k < |s| ==> (r[k] == '_' <==> s[k] == '_');
  }

  lemma LowerParts(a: string, b: string)
    ensures Destinations.Lower(a + "_" + b) == Destinations.Lower(a) + "_" + Destinations.Lower(b)
  {
  }

  lemma {:induction false} LowerJoin(pieces: seq<string>)
    ensures Destinations.Lower(Join(pieces, "_")) == Join(LowerAll(pieces), "_")
  {
    if |pieces| > 1 {
      LowerJoin(pieces[1..]);
      LowerParts(pieces[0], Join(pieces[1..], "_"));
      assert LowerAll(pieces)[1..] == LowerAll(pieces[1..]);
    }
  }

  lemma SplitLower(s: string)
    ensures Split(Destinations.Lower(s), '_') == LowerAll(Split(s, '_'))
  {
    var pieces := Split(s, '_');
    JoinSplit(s, '_');
    LowerJoin(pieces);
    forall p | p in LowerAll(pieces) ensures '_' !in p {
      var i :| 0 <= i < |pieces| && p == Destinations.Lower(pieces[i]);
      assert pieces[i] in pieces;
      LowerKeepsUnderscores(pieces[i]);
    }
    SplitJoin(LowerAll(pieces), '_');
  }

  lemma LowerAllCons(a: string, rest: seq<string>)
    ensures LowerAll([a] + rest) == [Destinations.Lower(a)] + LowerAll(rest)
  {
  }

  lemma {:induction false} NonEmptyLower(pieces: seq<string>)
    ensures NonEmpty(LowerAll(pieces)) == LowerAll(NonEmpty(pieces))
  {
    if pieces != [] {
      var a, rest := pieces[0], pieces[1..];
      NonEmptyLower(rest);
      LowerAllCons(a, rest);
      LowerAllCons(a, NonEmpty(rest));
      assert pieces == [a] + rest;
      assert ([Destinations.Lower(a)] + LowerAll(rest))[1..] == LowerAll(rest);
      assert |Destinations.Lower(a)| == |a|;
    }
  }

  lemma PiecesLower(s: string)
    ensures Pieces(Destinations.Lower(s)) == LowerAll(Pieces(s))
  {
    SplitLower(s);
    NonEmptyLower(Split(s, '_'));
  }

  // ---------------------------------------------------------------- names are joined tokens

  lemma {:induction false} NoEmptyPiece(s: string)
    requires NoDouble(s) && s != "" && s[0] != '_' && s[|s| - 1] != '_'
    ensures "" !in Split(s, '_')
    decreases |s|
  {
    var i := Find(s, '_');
    if i < |s| {
      var rest := s[i + 1..];
      assert Split(s, '_') == [s[..i]] + Split(rest, '_');
      AfterUnderscore(s, i);
      NoEmptyPiece(rest);
    }
  }

  lemma AfterUnderscore(s: string, i: nat)
    requires NoDouble(s) && i < |s| && s[i] == '_' && s[|s| - 1] != '_'
    ensures var rest := s[i + 1..];
            NoDouble(rest) && rest != "" && rest[0] != '_' && rest[|rest| - 1] != '_'
  {
    NoDoubleSlice(s, i + 1, |s|);
    assert s[i + 1..|s|] == s[i + 1..];
  }

  lemma NormalIsJoined(s: string)
    requires NormalForm(s)
    ensures Join(Pieces(s), "_") == s
  {
    if s == "" {
      EmptyPieces();
    } else {
      NoEmptyPiece(s);
      NonEmptyLaws(Split(s, '_'));
      JoinSplit(s, '_');
    }
  }

  lemma NormalizePieces(s: string)
    ensures Pieces(Normalize(s)) == Tokens(s)
  {
    var a := Sanitize(s);
    var b := Collapse(a);
    var c := StripChar(b, '_');
    assert Pieces(b) == Pieces(a) by { CollapsePieces(a); }
    assert Pieces(c) == Pieces(b) by {
      LStripPieces(b);
      RStripPieces(LStripChar(b, '_'));
    }
    assert Pieces(Destinations.Lower(c)) == LowerAll(Pieces(c)) by { PiecesLower(c); }
    assert Pieces(Destinations.Lower(a)) == LowerAll(Pieces(a)) by { PiecesLower(a); }
    MaskedIsLowerSanitized(s);
  }

  lemma MaskedIsLowerSanitized(s: string)
    ensures Masked(s) == Destinations.Lower(Sanitize(s))
  {
    forall i | 0 <= i < |s| ensures Masked(s)[i] == Destinations.Lower(Sanitize(s))[i] {
      Destinations.LowerCode(Sanitize(s)[i]);
    }
  }

  lemma NormalizeJoinsTokens(s: string)
    ensures Normalize(s) == Join(Tokens(s), "_")
  {
    NormalizeIsNormal(s);
    NormalIsJoined(Normalize(s));
    NormalizePieces(s);
  }

  lemma MaskedConcat(s: string, t: string)
    ensures Masked(s + "_" + t) == Masked(s) + "_" + Masked(t)
  {
  }

  lemma TokensConcat(s: string, t: string)
    ensures Tokens(s + "_" + t) == Tokens(s) + Tokens(t)
  {
    MaskedConcat(s, t);
    PiecesConcat(Masked(s), Masked(t));
  }

  lemma EmptyTokens()
    ensures Tokens("") == []
  {
    EmptyPieces();
    assert Masked("") == "";
  }

  lemma {:induction false} TokensJoin(parts: seq<string>)
    ensures Tokens(Join(parts, "_")) == AllTokens(parts)
  {
    if parts == [] {
      EmptyTokens();
    } else if |parts| == 1 {
      assert AllTokens(parts[1..]) == [];
    } else {
      TokensJoin(parts[1..]);
      TokensConcat(parts[0], Join(parts[1..], "_"));
    }
  }

  lemma AllTokensCons(a: string, rest: seq<string>)
    ensures AllTokens([a] + rest) == Tokens(a) + AllTokens(rest)
  {
    assert ([a] + rest)[1..] == rest;
  }

  lemma {:induction false} NonEmptyTokens(parts: seq<string>)
    ensures AllTokens(NonEmpty(parts)) == AllTokens(parts)
  {
    if parts != [] {
      var a, rest := parts[0], parts[1..];
      assert AllTokens(NonEmpty(rest)) == AllTokens(rest) by { NonEmptyTokens(rest); }
      if a == "" {
        assert Tokens(a) == [] by { EmptyTokens(); }
      } else {
        AllTokensCons(a, NonEmpty(rest));
      }
    }
  }

  /** A module name is the tokens of its parts, in order, joined by underscores. */
  lemma NameIsTokens(parts: seq<string>)
    ensures ModuleName(parts) == Join(AllTokens(parts), "_")
  {
    NormalizeJoinsTokens(Join(NonEmpty(parts), "_"));
    TokensJoin(NonEmpty(parts));
    NonEmptyTokens(parts);
  }

  /** A part made of letters, digits and single inner underscores is kept letter by letter, in lower case. */
  lemma NameKeepsLetters(s: string)
    requires forall i :: 0 <= i < |s| ==>
               '0' <= s[i] <= '9' || 'a' <= s[i] <= 'z' || 'A' <= s[i] <= 'Z' || s[i] == '_'
    requires forall i, j :: 0 <= i < |s| && j == i + 1 && j < |s| ==> s[i] != '_' || s[j] != '_'
    requires s != "" ==> s[0] != '_' && s[|s| - 1] != '_'
    ensures |ModuleName([s])| == |s|
    ensures forall i :: 0 <= i < |s| ==>
              ModuleName([s])[i] as int == s[i] as int + if 'A' <= s[i] <= 'Z' then 32 else 0
  {
    assert NonEmpty([s]) == if s == "" then [] else [s];
    assert Join(NonEmpty([s]), "_") == s;
    assert Sanitize(s) == s by { SanitizeLaws(s); }
    assert Collapse(s) == s by {
      assert NoDouble(s);
      CollapseLaws(s);
    }
    assert StripChar(s, '_') == s by { StripCharKeeps(s); }
    forall i | 0 <= i < |s|
      ensures Destinations.Lower(s)[i] as int == s[i] as int + if 'A' <= s[i] <= 'Z' then 32 else 0
    {
      Destinations.LowerCode(s[i]);
    }
  }

  // ---------------------------------------------------------------- when names are equal

  /** Joining loses nothing: the tokens are the pieces of the name. */
  lemma NamePieces(parts: seq<string>)
    ensures Pieces(ModuleName(parts)) == AllTokens(parts)
  {
    NormalizePieces(Join(NonEmpty(parts), "_"));
    TokensJoin(NonEmpty(parts));
    NonEmptyTokens(parts);
  }

  /** Two names are equal exactly when their parts have the same tokens. */
  lemma NamesEqualIff(parts: seq<string>, parts': seq<string>)
    ensures ModuleName(parts) == ModuleName(parts') <==> AllTokens(parts) == AllTokens(parts')
  {
    NameIsTokens(parts);
    NameIsTokens(parts');
    NamePieces(parts);
    NamePieces(parts');
  }

  lemma FourTokens(p: string, k: string, relpath: string, stem: string)
    ensures AllTokens([p, k, relpath, stem]) == Tokens(p) + Tokens(k) + (Tokens(relpath) + Tokens(stem))
  {
    AllTokensCons(p, [k] + ([relpath] + ([stem] + [])));
    AllTokensCons(k, [relpath] + ([stem] + []));
    AllTokensCons(relpath, [stem] + []);
    AllTokensCons(stem, []);
    assert [p, k, relpath, stem] == [p] + ([k] + ([relpath] + ([stem] + [])));
  }

  /** Two modules share a name exactly when they have the same partition and kind, and the same tokens in
      install path and stem taken together. */
  lemma SharedNameIff(p: string, k: string, relpath: string, stem: string,
                      p': string, k': string, relpath': string, stem': string)
    requires p in Destinations.KNOWN_PARTITIONS && k in KINDS
    requires p' in Destinations.KNOWN_PARTITIONS && k' in KINDS
    ensures ModuleName([p, k, relpath, stem]) == ModuleName([p', k', relpath', stem'])
            <==> p == p' && k == k' && Tokens(relpath) + Tokens(stem) == Tokens(relpath') + Tokens(stem')
  {
    var parts, parts' := [p, k, relpath, stem], [p', k', relpath', stem'];
    NamesEqualIff(parts, parts');
    FourTokens(p, k, relpath, stem);
    FourTokens(p', k', relpath', stem');
    if ModuleName(parts) == ModuleName(parts') {
      NamesSeparate(p, k, relpath, stem, p', k', relpath', stem');
      SameTail(Tokens(p) + Tokens(k), Tokens(relpath) + Tokens(stem), Tokens(relpath') + Tokens(stem'));
    }
  }

  lemma SameTail(head: seq<string>, t: seq<string>, t': seq<string>)
    requires head + t == head + t'
    ensures t == t'
  {
    assert t == (head + t)[|head|..] && t' == (head + t')[|head|..];
  }
}
