/** The proprietary-files list: parsing a line, printing an entry, reading and writing the file. */
module BlobList {
  import opened Strings

  datatype BlobEntry = BlobEntry(
    src: string,
    dest: string,
    optional: bool,
    args: seq<string>,
    originalLine: string)

  /** The sort key of the program's lists of entries. */
  function Dest(e: BlobEntry): string {
    e.dest
  }

  function NonEmpty(pieces: seq<string>): seq<string> {
    if pieces == [] then []
    else if pieces[0] == "" then NonEmpty(pieces[1..])
    else [pieces[0]] + NonEmpty(pieces[1..])
  }

  function CleanPath(s: string): string {
    Replace(Strip(s), '\\', '/')
  }

  /** `location.split(":", 1)` when there is a colon, the location twice otherwise. */
  function SplitLocation(location: string): (string, string) {
    var colon := Find(location, ':');
    if colon < |location| then (location[..colon], location[colon + 1..]) else (location, location)
  }

  function ParsePayload(payload: string, optional: bool, line: string): BlobEntry {
    var pieces := Split(payload, ';');
    var (src, dest) := SplitLocation(pieces[0]);
    BlobEntry(CleanPath(src), CleanPath(dest), optional, NonEmpty(pieces[1..]), RStripChar(line, '\n'))
  }

  function ParseBlobLine(line: string): Option<BlobEntry> {
    var stripped := Strip(line);
    if stripped == "" || stripped[0] == '#' then None
    else if stripped[0] == '-' then Some(ParsePayload(stripped[1..], true, line))
    else Some(ParsePayload(stripped, false, line))
  }

  function Location(e: BlobEntry): string {
    if e.src != e.dest then e.src + ":" + e.dest else e.src
  }

  function Unflagged(e: BlobEntry): string {
    if e.args != [] then Location(e) + ";" + Join(e.args, ";") else Location(e)
  }

  /** `BlobEntry.filtered_line`. */
  function FilteredLine(e: BlobEntry): string {
    if e.optional then "-" + Unflagged(e) else Unflagged(e)
  }

  // ---------------------------------------------------------------- what parsing guarantees

  predicate PathClean(s: string) {
    Trimmed(s) && ';' !in s && '\\' !in s
  }

  /** The shape of every entry the parser returns. */
  predicate WellFormed(e: BlobEntry) {
    && PathClean(e.src) && PathClean(e.dest)
    && ':' !in e.src
    && (forall a :: a in e.args ==> a != "" && ';' !in a)
    && (!e.optional && e.src != "" ==> e.src[0] != '-' && e.src[0] != '#')
  }

  lemma ReplaceLaws(t: string)
    ensures var r := Replace(t, '\\', '/');
            && '\\' !in r
            && (forall c :: c in r && c != '/' ==> c in t)
            && (Trimmed(t) ==> Trimmed(r))
            && ('\\' !in t ==> r == t)
  {
    var r := Replace(t, '\\', '/');
    assert forall i :: 0 <= i < |r| ==> t[i] in t;
  }

  lemma CleanPathIsClean(s: string)
    ensures Trimmed(CleanPath(s)) && '\\' !in CleanPath(s)
    ensures |CleanPath(s)| <= |s|
    ensures forall c :: c in CleanPath(s) && c != '/' ==> c in s
    ensures Trimmed(s) && '\\' !in s ==> CleanPath(s) == s
  {
    StripLaws(s);
    ReplaceLaws(Strip(s));
  }

  lemma {:induction false} NonEmptyLaws(pieces: seq<string>)
    ensures forall a :: a in NonEmpty(pieces) <==> a in pieces && a != ""
    ensures "" !in pieces ==> NonEmpty(pieces) == pieces
  {
    if pieces != [] {
      NonEmptyLaws(pieces[1..]);
      assert pieces == [pieces[0]] + pieces[1..];
    }
  }

  lemma {:induction false} NonEmptyConcat(a: seq<string>, b: seq<string>)
    ensures NonEmpty(a + b) == NonEmpty(a) + NonEmpty(b)
  {
    if a == [] {
      assert a + b == b;
    } else {
      assert (a + b)[1..] == a[1..] + b;
      NonEmptyConcat(a[1..], b);
    }
  }

  function Width(pieces: seq<string>): nat {
    if pieces == [] then 0 else |pieces[0]| + 1 + Width(pieces[1..])
  }

  lemma {:induction false} JoinWidth(pieces: seq<string>)
    ensures pieces != [] ==> |Join(pieces, ";")| + 1 == Width(pieces)
  {
    if |pieces| > 1 {
      JoinWidth(pieces[1..]);
    }
  }

  lemma {:induction false} NonEmptyWidth(pieces: seq<string>)
    ensures Width(NonEmpty(pieces)) <= Width(pieces)
  {
    if pieces != [] {
      NonEmptyWidth(pieces[1..]);
      assert pieces[0] != "" ==> NonEmpty(pieces)[1..] == NonEmpty(pieces[1..]);
    }
  }

  /** Dropping empty arguments never lengthens the list of arguments. */
  lemma NonEmptyLength(pieces: seq<string>)
    ensures |Join(NonEmpty(pieces), ";")| + (if NonEmpty(pieces) == [] then 0 else 1)
            <= |Join(pieces, ";")| + (if pieces == [] then 0 else 1)
  {
    JoinWidth(pieces);
    JoinWidth(NonEmpty(pieces));
    NonEmptyWidth(pieces);
  }

  lemma SplitLocationLaws(loc: string)
    ensures var (src, dest) := SplitLocation(loc);
            && ':' !in src
            && (forall c :: c in src || c in dest ==> c in loc)
            && (src != "" ==> src[0] == loc[0])
            && (src == dest == loc || |src| + 1 + |dest| == |loc|)
  {
  }

  lemma CleanPathAvoids(s: string, c: char)
    requires c !in s && c != '/'
    ensures c !in CleanPath(s)
  {
    CleanPathIsClean(s);
  }

  lemma SplitLocationAvoids(loc: string, c: char)
    requires c !in loc
    ensures c !in SplitLocation(loc).0 && c !in SplitLocation(loc).1
  {
    SplitLocationLaws(loc);
  }

  lemma LocationLength(e: BlobEntry)
    ensures |Location(e)| == if e.src == e.dest then |e.src| else |e.src| + 1 + |e.dest|
  {
  }

  /** The two paths of a location, cleaned, print no longer than the location. */
  lemma CleanLocationLength(loc: string, e: BlobEntry)
    requires e.src == CleanPath(SplitLocation(loc).0) && e.dest == CleanPath(SplitLocation(loc).1)
    ensures |Location(e)| <= |loc|
  {
    LocationLength(e);
    SplitLocationLaws(loc);
    CleanPathIsClean(SplitLocation(loc).0);
    CleanPathIsClean(SplitLocation(loc).1);
  }

  lemma CleanLocationLaws(loc: string, e: BlobEntry)
    requires e.src == CleanPath(SplitLocation(loc).0) && e.dest == CleanPath(SplitLocation(loc).1)
    requires ';' !in loc
    ensures PathClean(e.src) && PathClean(e.dest) && ':' !in e.src
  {
    var (src, dest) := SplitLocation(loc);
    SplitLocationAvoids(loc, ';');
    CleanPathIsClean(src);
    CleanPathIsClean(dest);
    CleanPathAvoids(src, ';');
    CleanPathAvoids(dest, ';');
    CleanPathAvoids(src, ':');
  }

  /** What one payload parses to, and that printing the result is never longer than the payload. */
  lemma ParsePayloadLaws(payload: string, optional: bool, line: string)
    requires !optional ==> payload != "" && !IsSpace(payload[0]) && payload[0] != '-' && payload[0] != '#'
    ensures var e := ParsePayload(payload, optional, line);
            WellFormed(e) && |Unflagged(e)| <= |payload|
  {
    var e := ParsePayload(payload, optional, line);
    var pieces := Split(payload, ';');
    var loc := pieces[0];
    JoinSplit(payload, ';');
    assert loc in pieces;
    CleanLocationLaws(loc, e);
    CleanLocationLength(loc, e);
    NonEmptyLength(pieces[1..]);
    NonEmptyLaws(pieces[1..]);
    assert |payload| == |loc| + (if |pieces| == 1 then 0 else 1 + |Join(pieces[1..], ";")|);
    if !optional && e.src != "" {
      PayloadHead(payload);
    }
  }

  lemma PayloadHead(payload: string)
    requires payload != "" && !IsSpace(payload[0])
    ensures var src := CleanPath(SplitLocation(Split(payload, ';')[0]).0);
            src != "" ==> src[0] == payload[0] || src[0] == '/'
  {
    var src := SplitLocation(Split(payload, ';')[0]).0;
    if src != "" {
      TrimmedHead(src);
    } else {
      CleanPathIsClean(src);
    }
  }

  lemma TrimmedHead(src: string)
    requires src != "" && !IsSpace(src[0])
    ensures CleanPath(src) != "" && (CleanPath(src)[0] == src[0] || CleanPath(src)[0] == '/')
  {
    assert LStrip(src) == src;
    assert RStrip(src) != "" by { RStripKeepsInk(src, 0); }
  }

  lemma {:induction false} RStripKeepsInk(s: string, i: nat)
    requires i < |s| && !IsSpace(s[i])
    ensures |RStrip(s)| > i
  {
    if IsSpace(s[|s| - 1]) {
      RStripKeepsInk(s[..|s| - 1], i);
    }
  }

  lemma ParsedIsWellFormed(line: string)
    requires ParseBlobLine(line).Some?
    ensures WellFormed(ParseBlobLine(line).value)
    ensures |FilteredLine(ParseBlobLine(line).value)| <= |Strip(line)|
  {
    StripLaws(line);
    var stripped := Strip(line);
    if stripped[0] == '-' {
      ParsePayloadLaws(stripped[1..], true, line);
    } else {
      ParsePayloadLaws(stripped, false, line);
    }
  }

  // ---------------------------------------------------------------- the syntax of the list

  /** A location reads as a source and a destination: the two sides of its first colon, or itself twice. */
  ghost predicate Locates(location: string, src: string, dest: string) {
    || (':' !in src && location == src + ":" + dest)
    || (':' !in location && src == location && dest == location)
  }

  lemma LocatesSplits(location: string, src: string, dest: string)
    requires Locates(location, src, dest)
    ensures SplitLocation(location) == (src, dest)
  {
    if ':' in location {
      FindAt(src, ':', dest);
      assert location[..|src|] == src && location[|src| + 1..] == dest;
    }
  }

  /** Cleaning a path removes the white space around it and turns each backslash into a slash. */
  lemma CleanPathIs(pre: string, s: string, post: string)
    requires Blank(pre) && Blank(post) && (s != "" ==> !Blank([s[0]]) && !Blank([s[|s| - 1]]))
    ensures |CleanPath(pre + s + post)| == |s|
    ensures forall i :: 0 <= i < |s| ==> CleanPath(pre + s + post)[i] == if s[i] == '\\' then '/' else s[i]
  {
    StripRemoves(pre, s, post);
  }

  /** How a line is read: an optional dash, a location, and arguments after semicolons, with white space around
      the whole; empty arguments do not count. */
  lemma LineParses(line: string, pre: string, text: string, post: string,
                   optional: bool, location: string, src: string, dest: string, args: seq<string>)
    requires line == pre + text + post && Blank(pre) && Blank(post)
    requires text == if optional then "-" + Join([location] + args, ";") else Join([location] + args, ";")
    requires text != "" && !Blank([text[0]]) && !Blank([text[|text| - 1]])
    requires !optional ==> text[0] != '-' && text[0] != '#'
    requires Locates(location, src, dest) && ';' !in location && forall a :: a in args ==> ';' !in a
    ensures ParseBlobLine(line)
            == Some(BlobEntry(CleanPath(src), CleanPath(dest), optional, NonEmpty(args), RStripChar(line, '\n')))
  {
    var payload := Join([location] + args, ";");
    assert ParseBlobLine(line) == Some(ParsePayload(payload, optional, line)) by {
      StripRemoves(pre, text, post);
      ParseStripped(line, text, payload, optional);
    }
    PayloadParses(payload, optional, line, location, src, dest, args);
  }

  lemma ParseStripped(line: string, text: string, payload: string, optional: bool)
    requires Strip(line) == text && text != ""
    requires text == if optional then "-" + payload else payload
    requires !optional ==> text[0] != '-' && text[0] != '#'
    ensures ParseBlobLine(line) == Some(ParsePayload(payload, optional, line))
  {
    assert optional ==> text[1..] == payload;
  }

  lemma PayloadParses(payload: string, optional: bool, line: string,
                      location: string, src: string, dest: string, args: seq<string>)
    requires payload == Join([location] + args, ";")
    requires Locates(location, src, dest) && ';' !in location && forall a :: a in args ==> ';' !in a
    ensures ParsePayload(payload, optional, line)
            == BlobEntry(CleanPath(src), CleanPath(dest), optional, NonEmpty(args), RStripChar(line, '\n'))
  {
    var pieces := [location] + args;
    assert Split(payload, ';') == pieces by { SplitJoin(pieces, ';'); }
    assert pieces[0] == location && pieces[1..] == args;
    LocatesSplits(location, src, dest);
  }

  /** Blank lines and comments are no entries. */
  lemma LineSkipped(pre: string, text: string, post: string)
    requires Blank(pre) && Blank(post)
    requires text == "" || (text[0] == '#' && !Blank([text[|text| - 1]]))
    ensures ParseBlobLine(pre + text + post) == None
  {
    assert text != "" ==> !Blank([text[0]]) by { NotBlank('#'); }
    StripRemoves(pre, text, post);
  }

  /** How an entry is written: the dash, the source, the destination when it differs, and each argument after a
      semicolon. */
  lemma PrintedForm(e: BlobEntry)
    requires e.args == []
    ensures FilteredLine(e) == (if e.optional then "-" else "") + e.src + (if e.src == e.dest then "" else ":" + e.dest)
  {
  }

  lemma PrintedArgument(e: BlobEntry, a: string)
    ensures FilteredLine(e.(args := e.args + [a])) == FilteredLine(e) + ";" + a
  {
    JoinMore(e.args, a);
    UnflaggedArgument(Location(e), e.args, a);
  }

  lemma JoinMore(args: seq<string>, a: string)
    ensures Join(args + [a], ";") == if args == [] then a else Join(args, ";") + ";" + a
  {
    if args == [] {
      assert args + [a] == [a];
    } else {
      JoinConcat(args, [a], ";");
    }
  }

  lemma UnflaggedArgument(location: string, args: seq<string>, a: string)
    requires Join(args + [a], ";") == if args == [] then a else Join(args, ";") + ";" + a
    ensures location + ";" + Join(args + [a], ";")
            == (if args == [] then location else location + ";" + Join(args, ";")) + ";" + a
  {
  }

  // ---------------------------------------------------------------- parse/print round trip

  predicate EndsInSpace(s: string) {
    s != "" && IsSpace(s[|s| - 1])
  }

  /** The two families of entries that printing loses: an entry of which nothing is left to print, and an
      entry whose last argument ends in white space. */
  predicate Printable(e: BlobEntry) {
    && (e.src == "" && e.dest == "" && !e.optional ==> e.args != [])
    && (e.args != [] ==> !EndsInSpace(e.args[|e.args| - 1]))
  }

  function Reprinted(e: BlobEntry): BlobEntry {
    e.(originalLine := RStripChar(FilteredLine(e), '\n'))
  }

  lemma {:induction false} JoinLast(parts: seq<string>, sep: string)
    requires parts != []
    ensures |Join(parts, sep)| >= |parts[|parts| - 1]|
    ensures Join(parts, sep)[|Join(parts, sep)| - |parts[|parts| - 1]|..] == parts[|parts| - 1]
  {
    if |parts| > 1 {
      JoinLast(parts[1..], sep);
    }
  }

  lemma LastChar(a: string, b: string)
    requires b != ""
    ensures EndsInSpace(a + b) <==> EndsInSpace(b)
  {
    assert (a + b)[|a + b| - 1] == b[|b| - 1];
  }

  lemma LocationEnd(e: BlobEntry)
    requires WellFormed(e)
    ensures !EndsInSpace(Location(e))
  {
    if e.src != e.dest && e.dest != "" {
      LastChar(e.src + ":", e.dest);
    } else if e.src != e.dest {
      LastChar(e.src, ":");
      assert e.src + ":" + e.dest == e.src + ":";
    }
  }

  lemma UnflaggedEnd(e: BlobEntry)
    requires WellFormed(e)
    ensures EndsInSpace(Unflagged(e)) <==> e.args != [] && EndsInSpace(e.args[|e.args| - 1])
  {
    if e.args == [] {
      LocationEnd(e);
    } else {
      var last, all := e.args[|e.args| - 1], Join(e.args, ";");
      assert last in e.args;
      JoinLast(e.args, ";");
      assert all == all[..|all| - |last|] + last;
      LastChar(all[..|all| - |last|], last);
      LastChar(Location(e) + ";", all);
    }
  }

  /** A printed entry ends in white space exactly when its last argument does. */
  lemma PrintedEnd(e: BlobEntry)
    requires WellFormed(e)
    ensures EndsInSpace(FilteredLine(e)) <==> e.args != [] && EndsInSpace(e.args[|e.args| - 1])
  {
    UnflaggedEnd(e);
    if e.optional && Unflagged(e) != "" {
      LastChar("-", Unflagged(e));
    }
  }

  lemma PrintedStart(e: BlobEntry)
    requires WellFormed(e)
    ensures FilteredLine(e) != "" ==> !IsSpace(FilteredLine(e)[0])
    ensures !e.optional && FilteredLine(e) != "" ==> FilteredLine(e)[0] != '-' && FilteredLine(e)[0] != '#'
    ensures FilteredLine(e) == "" <==> e.src == "" && e.dest == "" && !e.optional && e.args == []
  {
    assert e.args != [] ==> e.args[0] in e.args;
  }

  lemma LocationReadsBack(e: BlobEntry)
    requires WellFormed(e)
    ensures ';' !in Location(e)
    ensures SplitLocation(Location(e)) == (e.src, e.dest)
  {
    var loc := Location(e);
    if e.src != e.dest {
      FindAt(e.src, ':', e.dest);
      assert loc == e.src + [':'] + e.dest;
      assert loc[..|e.src|] == e.src && loc[|e.src| + 1..] == e.dest;
    }
  }

  /** Splitting and cleaning undo the printing of a well-formed entry, flag aside. */
  lemma PayloadReadsBack(e: BlobEntry, line: string)
    requires WellFormed(e)
    ensures ParsePayload(Unflagged(e), e.optional, line) == e.(originalLine := RStripChar(line, '\n'))
  {
    var pieces := [Location(e)] + e.args;
    assert pieces[1..] == e.args;
    assert Unflagged(e) == Join(pieces, ";");
    LocationReadsBack(e);
    SplitJoin(pieces, ';');
    NonEmptyLaws(e.args);
    CleanPathIsClean(e.src);
    CleanPathIsClean(e.dest);
  }

  /** How the parser takes apart a line that needs no stripping. */
  lemma ParseTrimmedLine(line: string, payload: string, optional: bool)
    requires Trimmed(line) && line != ""
    requires line == (if optional then "-" + payload else payload)
    requires !optional ==> line[0] != '-' && line[0] != '#'
    ensures ParseBlobLine(line) == Some(ParsePayload(payload, optional, line))
  {
    assert Strip(line) == line by { StripLaws(line); }
    ParseStripped(line, line, payload, optional);
  }

  lemma PrintableReadsBack(e: BlobEntry)
    requires WellFormed(e) && Printable(e)
    ensures ParseBlobLine(FilteredLine(e)) == Some(Reprinted(e))
  {
    var line := FilteredLine(e);
    PrintedStart(e);
    assert Trimmed(line) by { PrintedEnd(e); }
    ParseTrimmedLine(line, Unflagged(e), e.optional);
    PayloadReadsBack(e, line);
  }

  lemma PrintsAlike(e: BlobEntry)
    ensures FilteredLine(Reprinted(e)) == FilteredLine(e)
  {
  }

  /** A printed line that parses to what was printed lost nothing to stripping. */
  lemma ReadBackIsTrimmed(e: BlobEntry)
    requires ParseBlobLine(FilteredLine(e)) == Some(Reprinted(e))
    ensures FilteredLine(e) != "" && Trimmed(FilteredLine(e))
  {
    var line := FilteredLine(e);
    assert |line| <= |Strip(line)| by {
      ParsedIsWellFormed(line);
      PrintsAlike(e);
    }
    StripLaws(line);
  }

  lemma ReadsBackOnlyIfPrintable(e: BlobEntry)
    requires WellFormed(e)
    requires ParseBlobLine(FilteredLine(e)) == Some(Reprinted(e))
    ensures Printable(e)
  {
    var line := FilteredLine(e);
    assert line != "" && !EndsInSpace(line) by { ReadBackIsTrimmed(e); }
    assert e.src == "" && e.dest == "" && !e.optional ==> e.args != [] by { PrintedStart(e); }
    assert e.args != [] ==> !EndsInSpace(e.args[|e.args| - 1]) by { PrintedEnd(e); }
  }

  /** Parsing a printed entry gives the entry back exactly when the entry is printable. */
  lemma RoundTrip(e: BlobEntry)
    requires WellFormed(e)
    ensures ParseBlobLine(FilteredLine(e)) == Some(Reprinted(e)) <==> Printable(e)
  {
    if Printable(e) {
      PrintableReadsBack(e);
    } else if ParseBlobLine(FilteredLine(e)) == Some(Reprinted(e)) {
      ReadsBackOnlyIfPrintable(e);
      assert false;
    }
  }

  /** The same, stated of lines: what a line parses to survives printing unless the line has the shape
      that `Printable` excludes. */
  lemma ParsePrintParse(line: string)
    requires ParseBlobLine(line).Some?
    ensures var e := ParseBlobLine(line).value;
            ParseBlobLine(FilteredLine(e)) == Some(Reprinted(e)) <==> Printable(e)
  {
    ParsedIsWellFormed(line);
    RoundTrip(ParseBlobLine(line).value);
  }

  // ---------------------------------------------------------------- the file as a whole

  function ParseEach(lines: seq<string>): seq<Option<BlobEntry>> {
    seq(|lines|, i requires 0 <= i < |lines| => ParseBlobLine(lines[i]))
  }

  /** The entries of a list file with the given text. */
  function ReadText(text: string): seq<BlobEntry> {
    Somes(ParseEach(SplitLines(UniversalNewlines(text))))
  }

  function FilteredLines(entries: seq<BlobEntry>): seq<string> {
    seq(|entries|, i requires 0 <= i < |entries| => FilteredLine(entries[i]))
  }

  function AllReprinted(entries: seq<BlobEntry>): seq<BlobEntry> {
    seq(|entries|, i requires 0 <= i < |entries| => Reprinted(entries[i]))
  }

  /** The text `write_filtered_list` puts into the file. */
  function WriteText(entries: seq<BlobEntry>): string {
    Join(FilteredLines(entries), "\n") + "\n"
  }

  /** The file has one line for each entry, each ended by a newline; without entries it is one empty line. */
  lemma WrittenText(entries: seq<BlobEntry>, e: BlobEntry)
    ensures WriteText([]) == "\n"
    ensures WriteText(entries + [e]) == (if entries == [] then "" else WriteText(entries)) + FilteredLine(e) + "\n"
  {
    var lines := FilteredLines(entries);
    assert FilteredLines(entries + [e]) == lines + [FilteredLine(e)];
    if entries != [] {
      JoinConcat(lines, [FilteredLine(e)], "\n");
    } else {
      assert lines + [FilteredLine(e)] == [FilteredLine(e)];
    }
  }

  /** An entry no part of which contains a line break. */
  predicate OneLine(e: BlobEntry) {
    LineFree(e.src) && LineFree(e.dest) && forall a :: a in e.args ==> LineFree(a)
  }

  /** The entries that come out of a list file. */
  predicate ReadEntry(e: BlobEntry) {
    WellFormed(e) && OneLine(e)
  }

  lemma CleanPathOneLine(s: string)
    requires LineFree(s)
    ensures LineFree(CleanPath(s))
  {
    CleanPathIsClean(s);
  }

  lemma PiecesOneLine(payload: string)
    requires LineFree(payload)
    ensures forall p :: p in Split(payload, ';') ==> LineFree(p)
  {
    JoinSplit(payload, ';');
  }

  lemma ParsePayloadOneLine(payload: string, optional: bool, line: string)
    requires LineFree(payload)
    ensures OneLine(ParsePayload(payload, optional, line))
  {
    var pieces := Split(payload, ';');
    PiecesOneLine(payload);
    var (src, dest) := SplitLocation(pieces[0]);
    assert LineFree(pieces[0]);
    assert LineFree(src) && LineFree(dest);
    CleanPathOneLine(src);
    CleanPathOneLine(dest);
    NonEmptyLaws(pieces[1..]);
  }

  lemma StripOneLine(line: string)
    requires LineFree(line)
    ensures LineFree(Strip(line))
  {
    StripLaws(line);
  }

  lemma ParsedHasOneLine(line: string)
    requires LineFree(line) && ParseBlobLine(line).Some?
    ensures OneLine(ParseBlobLine(line).value)
  {
    var stripped := Strip(line);
    assert LineFree(stripped) by { StripOneLine(line); }
    if stripped[0] == '-' {
      assert LineFree(stripped[1..]) by { LineFreeTail(stripped); }
      ParsePayloadOneLine(stripped[1..], true, line);
    } else {
      ParsePayloadOneLine(stripped, false, line);
    }
  }

  lemma LineFreeTail(s: string)
    requires LineFree(s) && s != ""
    ensures LineFree(s[1..])
  {
  }

  lemma ParsedOneLine(line: string)
    requires LineFree(line) && ParseBlobLine(line).Some?
    ensures ReadEntry(ParseBlobLine(line).value)
  {
    assert WellFormed(ParseBlobLine(line).value) by { ParsedIsWellFormed(line); }
    assert OneLine(ParseBlobLine(line).value) by { ParsedHasOneLine(line); }
  }

  lemma PrintedOneLine(e: BlobEntry)
    requires OneLine(e)
    ensures LineFree(FilteredLine(e))
  {
    forall c | c in FilteredLine(e) ensures !IsLineBreak(c) {
      if c !in "-:;" && c !in e.src && c !in e.dest {
        JoinChars(e.args, ";", c);
      }
    }
  }

  lemma ReadTextEntries(text: string)
    ensures forall e :: e in ReadText(text) ==> ReadEntry(e)
  {
    var lines := SplitLines(UniversalNewlines(text));
    SplitLinesFree(UniversalNewlines(text));
    forall e | e in ReadText(text) ensures ReadEntry(e) {
      SomesFrom(ParseEach(lines), e);
      var i :| 0 <= i < |lines| && ParseEach(lines)[i] == Some(e);
      ParsedOneLine(lines[i]);
    }
  }

  method ReadEntries(text: string) returns (entries: seq<BlobEntry>)
    ensures entries == ReadText(text)
    ensures forall e :: e in entries ==> ReadEntry(e)
  {
    var lines := SplitLines(UniversalNewlines(text));
    entries := [];
    for i := 0 to |lines|
      invariant entries == Somes(ParseEach(lines)[..i])
    {
      var entry := ParseBlobLine(lines[i]);
      SomesSnoc(ParseEach(lines), i);
      if entry.Some? {
        entries := entries + [entry.value];
      }
    }
    assert ParseEach(lines)[..|lines|] == ParseEach(lines);
    assert forall e :: e in entries ==> ReadEntry(e) by { ReadTextEntries(text); }
  }

  /** Writing a list of entries and reading the file again gives the same entries, in the same order,
      exactly when each of them is printable. */
  lemma WriteReadBack(entries: seq<BlobEntry>)
    requires forall e :: e in entries ==> ReadEntry(e)
    ensures ReadText(WriteText(entries)) == AllReprinted(entries)
            <==> forall e :: e in entries ==> Printable(e)
  {
    var lines := FilteredLines(entries);
    forall i | 0 <= i < |entries|
      ensures LineFree(lines[i])
      ensures ParseBlobLine(lines[i]) == Some(AllReprinted(entries)[i]) <==> Printable(entries[i])
    {
      assert ReadEntry(entries[i]);
      PrintedOneLine(entries[i]);
      RoundTrip(entries[i]);
    }
    WrittenLinesReadBack(lines);
    if entries != [] {
      SomesAll(ParseEach(lines), AllReprinted(entries));
    } else {
      assert ParseEach([""]) == [None];
    }
  }
}
