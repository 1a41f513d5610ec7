/** Makefile fragments made of `VAR += \` blocks, and how such a fragment is read back: lines that end in a
    backslash are joined with the next one, and the words of an assignment are separated by blanks. */
module MakeText {
  import opened Strings
  import opened BlobList

  datatype Block = Block(variable: string, items: seq<string>)

  // ---------------------------------------------------------------- writing

  function ItemLine(item: string, last: bool): string {
    "    " + item + (if last then "" else " \\")
  }

  function ItemLines(items: seq<string>): seq<string> {
    seq(|items|, i requires 0 <= i < |items| => ItemLine(items[i], i == |items| - 1))
  }

  function BlockLines(b: Block): seq<string> {
    [b.variable + " += \\"] + ItemLines(b.items) + [""]
  }

  function ConcatMap<T>(f: T -> seq<string>, s: seq<T>): seq<string> {
    if s == [] then [] else ConcatMap(f, s[..|s| - 1]) + f(s[|s| - 1])
  }

  function AllLines(blocks: seq<Block>): seq<string> {
    ConcatMap(BlockLines, blocks)
  }

  /** `"\n".join(lines).rstrip() + "\n"`. */
  function Finish(lines: seq<string>): string {
    RStrip(Join(lines, "\n")) + "\n"
  }

  // ---------------------------------------------------------------- reading

  predicate IsBlank(c: char) {
    c == ' ' || c == '\t'
  }

  predicate BlankFree(s: string) {
    forall c :: c in s ==> !IsBlank(c)
  }

  function Words(s: string): seq<string> {
    NonEmpty(Split(Replace(s, '\t', ' '), ' '))
  }

  predicate Continued(line: string) {
    line != "" && line[|line| - 1] == '\\'
  }

  /** A continued line and the logical lines after it. */
  function Glue(line: string, rest: seq<string>): seq<string>
    requires line != "" && rest != []
  {
    [line[..|line| - 1] + " " + rest[0]] + rest[1..]
  }

  /** The logical lines of a makefile. */
  function Logical(lines: seq<string>): (r: seq<string>)
    ensures lines != [] ==> r != []
  {
    if lines == [] then []
    else if |lines| == 1 || !Continued(lines[0]) then [lines[0]] + Logical(lines[1..])
    else Glue(lines[0], Logical(lines[1..]))
  }

  datatype Assignment = Assignment(variable: string, values: seq<string>)

  function Appended(line: string): Option<Assignment> {
    var ws := Words(line);
    if |ws| >= 2 && ws[1] == "+=" then Some(Assignment(ws[0], ws[2..])) else None
  }

  /** What a variable holds after a list of `+=` assignments. */
  function ValuesOf(assignments: seq<Assignment>, variable: string): seq<string> {
    if assignments == [] then []
    else
      (if assignments[0].variable == variable then assignments[0].values else []) + ValuesOf(assignments[1..], variable)
  }

  function MapSeq<T, U>(f: T -> U, s: seq<T>): seq<U> {
    seq(|s|, i requires 0 <= i < |s| => f(s[i]))
  }

  function AppendedIn(lines: seq<string>): seq<Assignment> {
    Somes(MapSeq(Appended, lines))
  }

  /** Every `+=` assignment of a makefile, in order. */
  function Assignments(text: string): seq<Assignment> {
    AppendedIn(Logical(Split(text, '\n')))
  }

  // ---------------------------------------------------------------- words

  lemma WordsConcat(a: string, b: string)
    ensures Words(a + " " + b) == Words(a) + Words(b)
  {
    var x, y := Replace(a, '\t', ' '), Replace(b, '\t', ' ');
    assert Replace(a + " " + b, '\t', ' ') == x + [' '] + y;
    SplitConcat(x, ' ', y);
    NonEmptyConcat(Split(x, ' '), Split(y, ' '));
  }

  lemma WordOfBlankFree(s: string)
    requires BlankFree(s) && s != ""
    ensures Words(s) == [s]
  {
    assert forall i :: 0 <= i < |s| ==> s[i] in s;
    assert Replace(s, '\t', ' ') == s;
    assert IsBlank(' ') && ' ' !in s;
    SplitJoin([s], ' ');
    NonEmptyLaws([s]);
  }

  lemma WordsAreBlankFree(s: string)
    ensures forall w :: w in Words(s) ==> BlankFree(w)
  {
    var t := Replace(s, '\t', ' ');
    assert '\t' !in t;
    JoinSplit(t, ' ');
    NonEmptyLaws(Split(t, ' '));
  }

  function AllWords(items: seq<string>): seq<string> {
    if items == [] then [] else Words(items[0]) + AllWords(items[1..])
  }

  /** Splitting into words gives the items back exactly when no item contains a blank. */
  lemma {:induction false} AllWordsIff(items: seq<string>)
    requires forall s :: s in items ==> s != ""
    ensures AllWords(items) == items <==> forall s :: s in items ==> BlankFree(s)
  {
    if forall s :: s in items ==> BlankFree(s) {
      AllWordsSame(items);
    } else if AllWords(items) == items {
      AllWordsBlankFree(items);
      assert false;
    }
  }

  lemma {:induction false} AllWordsSame(items: seq<string>)
    requires forall s :: s in items ==> s != "" && BlankFree(s)
    ensures AllWords(items) == items
  {
    if items != [] {
      WordOfBlankFree(items[0]);
      assert forall s :: s in items[1..] ==> s in items;
      AllWordsSame(items[1..]);
    }
  }

  lemma {:induction false} AllWordsBlankFree(items: seq<string>)
    ensures forall w :: w in AllWords(items) ==> BlankFree(w)
  {
    if items != [] {
      WordsAreBlankFree(items[0]);
      AllWordsBlankFree(items[1..]);
    }
  }

  // ---------------------------------------------------------------- logical lines

  lemma GlueConcat(line: string, a: seq<string>, b: seq<string>)
    requires line != "" && a != []
    ensures Glue(line, a + b) == Glue(line, a) + b
  {
    assert (a + b)[1..] == a[1..] + b;
  }

  lemma {:induction false} LogicalConcat(a: seq<string>, b: seq<string>)
    requires a != [] ==> !Continued(a[|a| - 1])
    ensures Logical(a + b) == Logical(a) + Logical(b)
  {
    if a == [] {
      assert a + b == b;
    } else {
      assert (a + b)[1..] == a[1..] + b && (a + b)[0] == a[0];
      LogicalConcat(a[1..], b);
      if |a| == 1 {
        assert a[1..] == [];
      } else if Continued(a[0]) {
        GlueConcat(a[0], Logical(a[1..]), Logical(b));
      }
    }
  }

  /** The joined text of the item lines. */
  function ItemText(items: seq<string>): string
    requires items != []
  {
    if |items| == 1 then "    " + items[0] else "    " + items[0] + " " + " " + ItemText(items[1..])
  }

  lemma {:induction false} LogicalItems(items: seq<string>)
    requires items != [] && forall s :: s in items ==> s != "" && '\\' !in s
    ensures Logical(ItemLines(items)) == [ItemText(items)]
  {
    var lines := ItemLines(items);
    assert lines[1..] == ItemLines(items[1..]);
    assert items[0] in items;
    if |items| == 1 {
      assert lines[0] == "    " + items[0];
      assert !Continued(lines[0]) by { assert lines[0][|lines[0]| - 1] in items[0]; }
      assert lines == [lines[0]];
    } else {
      assert forall s :: s in items[1..] ==> s in items;
      LogicalItems(items[1..]);
      assert lines[0][..|lines[0]| - 1] == "    " + items[0] + " ";
    }
  }

  lemma {:induction false} ItemTextWords(items: seq<string>)
    requires items != []
    ensures Words(ItemText(items)) == AllWords(items)
  {
    var first := "    " + items[0];
    IndentedWords(items[0]);
    if |items| > 1 {
      ItemTextWords(items[1..]);
      TrailingBlank(first);
      WordsConcat(first + " ", ItemText(items[1..]));
    } else {
      assert AllWords(items[1..]) == [];
    }
  }

  lemma TrailingBlank(s: string)
    ensures Words(s + " ") == Words(s)
  {
    WordsConcat(s, "");
    EmptyWords();
    assert s + " " + "" == s + " ";
  }

  lemma EmptyWords()
    ensures Words("") == []
  {
    assert Replace("", '\t', ' ') == "";
  }

  lemma IndentedWords(s: string)
    ensures Words("    " + s) == Words(s)
  {
    EmptyWords();
    WordsConcat("", s);
    WordsConcat("", " " + s);
    WordsConcat("", "  " + s);
    WordsConcat("", "   " + s);
    assert "" + " " + s == " " + s && "" + " " + (" " + s) == "  " + s;
    assert "" + " " + ("  " + s) == "   " + s && "" + " " + ("   " + s) == "    " + s;
  }

  // ---------------------------------------------------------------- reading a written fragment

  /** Text that a reader of lines and words cannot mistake for structure. */
  predicate Safe(s: string) {
    s != "" && '\n' !in s && '\\' !in s
  }

  predicate SafeBlock(b: Block) {
    && Safe(b.variable) && BlankFree(b.variable)
    && b.items != [] && forall s :: s in b.items ==> Safe(s)
  }

  /** A block reads as one assignment of the words of its items, followed by an empty line. */
  lemma LogicalBlock(b: Block)
    requires SafeBlock(b)
    ensures Logical(BlockLines(b)) == [b.variable + " += " + " " + ItemText(b.items), ""]
  {
    var header := b.variable + " += \\";
    var lines := ItemLines(b.items);
    LogicalItems(b.items);
    assert ([header] + lines)[1..] == lines;
    assert header[..|header| - 1] == b.variable + " += ";
    assert Logical([header] + lines) == [b.variable + " += " + " " + ItemText(b.items)];
    var last := b.items[|b.items| - 1];
    assert last in b.items;
    assert lines[|lines| - 1] == "    " + last;
    assert !Continued(lines[|lines| - 1]) by { assert ("    " + last)[|last| + 3] in last; }
    LogicalConcat([header] + lines, [""]);
    assert [""][1..] == [];
  }

  lemma HeaderWords(v: string)
    requires v != "" && BlankFree(v)
    ensures Words(v + " += ") == [v, "+="]
  {
    WordOfBlankFree(v);
    WordOfBlankFree("+=");
    WordsConcat(v, "+=");
    TrailingBlank(v + " " + "+=");
    assert v + " " + "+=" + " " == v + " += ";
  }

  lemma AppendedBlock(v: string, items: seq<string>)
    requires v != "" && BlankFree(v) && items != []
    ensures Appended(v + " += " + " " + ItemText(items)) == Some(Assignment(v, AllWords(items)))
  {
    HeaderWords(v);
    WordsConcat(v + " += ", ItemText(items));
    ItemTextWords(items);
  }

  function ReadAs(blocks: seq<Block>): seq<Assignment> {
    seq(|blocks|, i requires 0 <= i < |blocks| => Assignment(blocks[i].variable, AllWords(blocks[i].items)))
  }

  lemma {:induction false} SomesConcat<T>(a: seq<Option<T>>, b: seq<Option<T>>)
    ensures Somes(a + b) == Somes(a) + Somes(b)
  {
    if b == [] {
      assert a + b == a;
    } else {
      assert (a + b)[..|a + b| - 1] == a + b[..|b| - 1];
      SomesConcat(a, b[..|b| - 1]);
    }
  }

  lemma AppendedInConcat(a: seq<string>, b: seq<string>)
    ensures AppendedIn(a + b) == AppendedIn(a) + AppendedIn(b)
  {
    MapConcat(Appended, a, b);
    SomesConcat(MapSeq(Appended, a), MapSeq(Appended, b));
  }

  lemma MapConcat<T, U>(f: T -> U, a: seq<T>, b: seq<T>)
    ensures MapSeq(f, a + b) == MapSeq(f, a) + MapSeq(f, b)
  {
  }

  lemma ReadBlock(b: Block)
    requires SafeBlock(b)
    ensures AppendedIn(Logical(BlockLines(b))) == [Assignment(b.variable, AllWords(b.items))]
  {
    var line := b.variable + " += " + " " + ItemText(b.items);
    LogicalBlock(b);
    AppendedBlock(b.variable, b.items);
    EmptyWords();
    AppendedInOne(line);
    AppendedInOne("");
    AppendedInConcat([line], [""]);
    assert [line] + [""] == [line, ""];
  }

  lemma {:induction false} ConcatMapConcat<T>(f: T -> seq<string>, a: seq<T>, b: seq<T>)
    ensures ConcatMap(f, a + b) == ConcatMap(f, a) + ConcatMap(f, b)
  {
    if b == [] {
      assert a + b == a;
    } else {
      assert (a + b)[..|a + b| - 1] == a + b[..|b| - 1];
      ConcatMapConcat(f, a, b[..|b| - 1]);
    }
  }

  lemma AllLinesConcat(a: seq<Block>, b: seq<Block>)
    ensures AllLines(a + b) == AllLines(a) + AllLines(b)
  {
    ConcatMapConcat(BlockLines, a, b);
  }

  lemma LastLineEmpty(blocks: seq<Block>)
    ensures AllLines(blocks) != [] ==> AllLines(blocks)[|AllLines(blocks)| - 1] == ""
  {
  }

  lemma ReadLines(lines: seq<string>, b: Block)
    requires SafeBlock(b) && (lines != [] ==> lines[|lines| - 1] == "")
    ensures AppendedIn(Logical(lines + BlockLines(b)))
            == AppendedIn(Logical(lines)) + [Assignment(b.variable, AllWords(b.items))]
  {
    LogicalConcat(lines, BlockLines(b));
    AppendedInConcat(Logical(lines), Logical(BlockLines(b)));
    ReadBlock(b);
  }

  lemma ReadAsSnoc(before: seq<Block>, b: Block)
    ensures ReadAs(before + [b]) == ReadAs(before) + [Assignment(b.variable, AllWords(b.items))]
  {
  }

  lemma {:induction false} ReadBlocks(blocks: seq<Block>)
    requires forall b :: b in blocks ==> SafeBlock(b)
    ensures AppendedIn(Logical(AllLines(blocks))) == ReadAs(blocks)
  {
    if blocks != [] {
      var n := |blocks| - 1;
      assert forall x :: x in blocks[..n] ==> x in blocks;
      ReadBlocks(blocks[..n]);
      LastLineEmpty(blocks[..n]);
      ReadLines(AllLines(blocks[..n]), blocks[n]);
      ReadAsSnoc(blocks[..n], blocks[n]);
      assert blocks == blocks[..n] + [blocks[n]];
    }
  }

  lemma AppendedInOne(line: string)
    ensures AppendedIn([line]) == if Appended(line).Some? then [Appended(line).value] else []
  {
    var s := [Appended(line)];
    assert MapSeq(Appended, [line]) == s;
    assert s[..0] == [];
  }

  // ---------------------------------------------------------------- the text of the whole file

  lemma RStripNewline(s: string)
    requires s != "" && !EndsInSpace(s)
    ensures RStrip(s + "\n") == s
  {
    assert (s + "\n")[..|s|] == s;
  }

  lemma FinishSplits(lines: seq<string>)
    requires |lines| >= 2 && lines[|lines| - 1] == ""
    requires lines[|lines| - 2] != "" && !EndsInSpace(lines[|lines| - 2])
    requires forall l :: l in lines ==> '\n' !in l
    ensures Split(Finish(lines), '\n') == lines
  {
    var n := |lines| - 1;
    var body := Join(lines[..n], "\n");
    assert lines == lines[..n] + [""];
    JoinConcat(lines[..n], [""], "\n");
    assert Join(lines, "\n") == body + "\n";
    JoinLast(lines[..n], "\n");
    assert body[|body| - 1] == lines[n - 1][|lines[n - 1]| - 1];
    RStripNewline(body);
    SplitJoin(lines, '\n');
  }

  /** The last item of a block, which may end the file, does not end in white space. */
  predicate InkEnded(b: Block) {
    b.items != [] ==> !EndsInSpace(b.items[|b.items| - 1])
  }

  lemma BlockEnd(b: Block)
    requires SafeBlock(b) && InkEnded(b)
    ensures var lines := BlockLines(b);
            |lines| >= 2 && lines[|lines| - 2] != "" && !EndsInSpace(lines[|lines| - 2])
  {
    var last := b.items[|b.items| - 1];
    assert last in b.items;
    var all := BlockLines(b);
    assert all[|all| - 2] == "    " + last;
    LastChar("    ", last);
  }

  lemma BlockLinesSafe(b: Block)
    requires SafeBlock(b)
    ensures forall l :: l in BlockLines(b) ==> '\n' !in l
  {
    var lines := ItemLines(b.items);
    forall i | 0 <= i < |b.items| ensures '\n' !in lines[i] {
      assert b.items[i] in b.items;
    }
  }

  lemma {:induction false} AllLinesSafe(blocks: seq<Block>)
    requires forall b :: b in blocks ==> SafeBlock(b)
    ensures forall l :: l in AllLines(blocks) ==> '\n' !in l
  {
    if blocks != [] {
      var n := |blocks| - 1;
      assert forall x :: x in blocks[..n] ==> x in blocks;
      AllLinesSafe(blocks[..n]);
      BlockLinesSafe(blocks[n]);
    }
  }

  predicate PlainHeader(header: seq<string>) {
    && |header| >= 2 && header[|header| - 1] == "" && header[|header| - 2] != "" && !EndsInSpace(header[|header| - 2])
    && forall l :: l in header ==> '\n' !in l
  }

  lemma FileLinesSafe(header: seq<string>, blocks: seq<Block>)
    requires PlainHeader(header) && forall b :: b in blocks ==> SafeBlock(b)
    ensures forall l :: l in header + AllLines(blocks) ==> '\n' !in l
  {
    AllLinesSafe(blocks);
  }

  lemma FileEnd(header: seq<string>, blocks: seq<Block>)
    requires |header| >= 2 && header[|header| - 1] == "" && header[|header| - 2] != "" && !EndsInSpace(header[|header| - 2])
    requires blocks != [] ==> SafeBlock(blocks[|blocks| - 1]) && InkEnded(blocks[|blocks| - 1])
    ensures var lines := header + AllLines(blocks);
            && |lines| >= 2 && lines[|lines| - 1] == ""
            && lines[|lines| - 2] != "" && !EndsInSpace(lines[|lines| - 2])
  {
    if blocks == [] {
      assert header + AllLines(blocks) == header;
    } else {
      var b := blocks[|blocks| - 1];
      BlockEnd(b);
      assert header + AllLines(blocks) == (header + AllLines(blocks[..|blocks| - 1])) + BlockLines(b);
    }
  }

  lemma FileSplits(header: seq<string>, blocks: seq<Block>)
    requires PlainHeader(header) && forall b :: b in blocks ==> SafeBlock(b)
    requires blocks != [] ==> InkEnded(blocks[|blocks| - 1])
    ensures Split(Finish(header + AllLines(blocks)), '\n') == header + AllLines(blocks)
  {
    assert blocks != [] ==> SafeBlock(blocks[|blocks| - 1]);
    FileLinesSafe(header, blocks);
    FileEnd(header, blocks);
    FinishSplits(header + AllLines(blocks));
  }

  /** A file of plain lines that end with an empty one, followed by blocks, reads back as the assignments
      of those lines followed by one assignment for each block. */
  lemma FileReadsBack(header: seq<string>, blocks: seq<Block>)
    requires PlainHeader(header) && forall b :: b in blocks ==> SafeBlock(b)
    requires blocks != [] ==> InkEnded(blocks[|blocks| - 1])
    ensures Assignments(Finish(header + AllLines(blocks))) == AppendedIn(Logical(header)) + ReadAs(blocks)
  {
    var body := AllLines(blocks);
    assert Split(Finish(header + body), '\n') == header + body by { FileSplits(header, blocks); }
    assert Logical(header + body) == Logical(header) + Logical(body) by { LogicalConcat(header, body); }
    assert AppendedIn(Logical(body)) == ReadAs(blocks) by { ReadBlocks(blocks); }
    AppendedInConcat(Logical(header), Logical(body));
  }

  /** The assignments a reader should see: each variable with its items, one by one. */
  function AsWritten(blocks: seq<Block>): seq<Assignment> {
    seq(|blocks|, i requires 0 <= i < |blocks| => Assignment(blocks[i].variable, blocks[i].items))
  }

  ghost predicate ItemsBlankFree(blocks: seq<Block>) {
    forall b, s :: b in blocks && s in b.items ==> BlankFree(s)
  }

  /** The reader sees the items one by one exactly when none of them contains a blank. */
  lemma ReadAsWrittenIff(blocks: seq<Block>)
    requires forall b :: b in blocks ==> SafeBlock(b)
    ensures ReadAs(blocks) == AsWritten(blocks) <==> ItemsBlankFree(blocks)
  {
    forall i | 0 <= i < |blocks|
      ensures ReadAs(blocks)[i] == AsWritten(blocks)[i] <==> forall s :: s in blocks[i].items ==> BlankFree(s)
    {
      assert SafeBlock(blocks[i]);
      AllWordsIff(blocks[i].items);
    }
    if ReadAs(blocks) == AsWritten(blocks) {
      forall b, s | b in blocks && s in b.items ensures BlankFree(s) {
        var i :| 0 <= i < |blocks| && blocks[i] == b;
        assert ReadAs(blocks)[i] == AsWritten(blocks)[i];
      }
    }
    if ItemsBlankFree(blocks) {
      assert forall i :: 0 <= i < |blocks| ==> ReadAs(blocks)[i] == AsWritten(blocks)[i];
    }
  }
}
