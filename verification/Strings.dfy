/** The operations of Python's `str` that the blob compiler relies on.
    A Dafny `char` is a Unicode scalar value, as every character of a decoded UTF-8 file is. */
module Strings {

  datatype Option<+T> = None | Some(value: T)

  /** The values present, in order. */
  function Somes<T>(options: seq<Option<T>>): (values: seq<T>)
    ensures |values| <= |options|
  {
    if options == [] then []
    else
      var rest := Somes(options[..|options| - 1]);
      match options[|options| - 1]
      case None => rest
      case Some(v) => rest + [v]
  }

  lemma SomesSnoc<T>(options: seq<Option<T>>, i: nat)
    requires i < |options|
    ensures Somes(options[..i + 1])
            == if options[i].Some? then Somes(options[..i]) + [options[i].value] else Somes(options[..i])
  {
    assert options[..i + 1][..i] == options[..i];
  }

  lemma {:induction false} SomesFrom<T>(options: seq<Option<T>>, v: T)
    requires v in Somes(options)
    ensures Some(v) in options
  {
    var n := |options| - 1;
    if options[n] != Some(v) {
      SomesFrom(options[..n], v);
    }
  }

  lemma {:induction false} SomesAll<T>(options: seq<Option<T>>, values: seq<T>)
    requires |values| == |options|
    ensures Somes(options) == values <==> forall i :: 0 <= i < |options| ==> options[i] == Some(values[i])
  {
    if options != [] {
      var n := |options| - 1;
      SomesAll(options[..n], values[..n]);
      assert values == values[..n] + [values[n]];
    }
  }

  /** The characters `str.strip` and `str.rstrip` remove. */
  predicate IsSpace(c: char) {
    || '\t' <= c <= '\r'
    || '\U{1C}' <= c <= ' '
    || c == '\U{85}' || c == '\U{A0}' || c == '\U{1680}'
    || '\U{2000}' <= c <= '\U{200A}'
    || c == '\U{2028}' || c == '\U{2029}' || c == '\U{202F}' || c == '\U{205F}' || c == '\U{3000}'
  }

  /** The characters at which `str.splitlines` ends a line. */
  predicate IsLineBreak(c: char) {
    || '\n' <= c <= '\r'
    || '\U{1C}' <= c <= '\U{1E}'
    || c == '\U{85}' || c == '\U{2028}' || c == '\U{2029}'
  }

  predicate LineFree(s: string) {
    forall c :: c in s ==> !IsLineBreak(c)
  }

  function LStrip(s: string): (r: string)
    ensures |r| <= |s| && r == s[|s| - |r|..]
    ensures r != [] ==> !IsSpace(r[0])
  {
    if s != [] && IsSpace(s[0]) then LStrip(s[1..]) else s
  }

  function RStrip(s: string): (r: string)
    ensures r <= s
    ensures r != [] ==> !IsSpace(r[|r| - 1])
  {
    if s != [] && IsSpace(s[|s| - 1]) then RStrip(s[..|s| - 1]) else s
  }

  function Strip(s: string): string {
    RStrip(LStrip(s))
  }

  /** `s.rstrip(c)` for a single character. */
  function RStripChar(s: string, c: char): (r: string)
    ensures r <= s
    ensures r != [] ==> r[|r| - 1] != c
  {
    if s != [] && s[|s| - 1] == c then RStripChar(s[..|s| - 1], c) else s
  }

  predicate Trimmed(s: string) {
    s != [] ==> !IsSpace(s[0]) && !IsSpace(s[|s| - 1])
  }

  /** Stripping yields a trimmed piece of the text, and is the identity exactly on trimmed text. */
  lemma StripLaws(s: string)
    ensures Trimmed(Strip(s))
    ensures |Strip(s)| <= |s|
    ensures forall c :: c in Strip(s) ==> c in s
    ensures Strip(s) == s <==> Trimmed(s)
    ensures |Strip(s)| == |s| ==> Strip(s) == s
  {
    var l := LStrip(s);
    var r := RStrip(l);
    assert r != [] ==> r[0] == l[0];
  }

  /** White space by code point. */
  ghost predicate Blank(s: string) {
    forall i :: 0 <= i < |s| ==>
      || 9 <= s[i] as int <= 13 || 28 <= s[i] as int <= 32 || s[i] as int == 0x85 || s[i] as int == 0xA0
      || s[i] as int == 0x1680 || 0x2000 <= s[i] as int <= 0x200A || s[i] as int == 0x2028 || s[i] as int == 0x2029
      || s[i] as int == 0x202F || s[i] as int == 0x205F || s[i] as int == 0x3000
  }

  lemma {:induction false} LStripBlank(pre: string, s: string)
    requires Blank(pre)
    ensures LStrip(pre + s) == LStrip(s)
  {
    if pre == "" {
      assert pre + s == s;
    } else {
      assert (pre + s)[1..] == pre[1..] + s && (pre + s)[0] == pre[0];
      LStripBlank(pre[1..], s);
    }
  }

  lemma {:induction false} RStripBlank(s: string, post: string)
    requires Blank(post)
    ensures RStrip(s + post) == RStrip(s)
  {
    if post == "" {
      assert s + post == s;
    } else {
      var n := |post| - 1;
      assert (s + post)[..|s + post| - 1] == s + post[..n] && (s + post)[|s + post| - 1] == post[n];
      RStripBlank(s, post[..n]);
    }
  }

  lemma NotBlank(c: char)
    ensures IsSpace(c) <==> Blank([c])
  {
    assert Blank([c]) ==> [c][0] == c;
  }

  /** Stripping removes the white space around a text that neither starts nor ends with it, and nothing else. */
  lemma StripRemoves(pre: string, s: string, post: string)
    requires Blank(pre) && Blank(post) && (s != "" ==> !Blank([s[0]]) && !Blank([s[|s| - 1]]))
    ensures Strip(pre + s + post) == s
  {
    if s == "" {
      assert pre + s + post == (pre + post) + "";
      LStripBlank(pre + post, "");
    } else {
      NotBlank(s[0]);
      NotBlank(s[|s| - 1]);
      assert pre + s + post == pre + (s + post);
      LStripBlank(pre, s + post);
      assert (s + post)[0] == s[0];
      RStripBlank(s, post);
    }
  }

  function Replace(s: string, a: char, b: char): string {
    seq(|s|, i requires 0 <= i < |s| => if s[i] == a then b else s[i])
  }

  /** The position of the first `c`, or the length when there is none. */
  function Find(s: string, c: char): (i: nat)
    ensures i <= |s|
    ensures c !in s[..i]
    ensures i < |s| ==> s[i] == c
    ensures i == |s| <==> c !in s
  {
    if s == [] then 0
    else if s[0] == c then 0
    else
      var i := 1 + Find(s[1..], c);
      assert s[..i] == [s[0]] + s[1..][..i - 1];
      i
  }

  function Split(s: string, c: char): (parts: seq<string>)
    ensures |parts| >= 1
    decreases |s|
  {
    var i := Find(s, c);
    if i == |s| then [s] else [s[..i]] + Split(s[i + 1..], c)
  }

  function Join(parts: seq<string>, sep: string): string {
    if |parts| == 0 then ""
    else if |parts| == 1 then parts[0]
    else parts[0] + sep + Join(parts[1..], sep)
  }

  lemma FindAt(a: string, c: char, rest: string)
    requires c !in a
    ensures Find(a + [c] + rest, c) == |a|
  {
    var s := a + [c] + rest;
    var i := Find(s, c);
    assert s[|a|] == c;
    assert forall k :: 0 <= k < |a| ==> s[k] == a[k];
    assert forall k :: 0 <= k < i ==> s[k] == s[..i][k];
  }

  lemma {:induction false} SplitCons(a: string, c: char, rest: string)
    requires c !in a
    ensures Split(a + [c] + rest, c) == [a] + Split(rest, c)
  {
    FindAt(a, c, rest);
    var s := a + [c] + rest;
    assert s[..|a|] == a && s[|a| + 1..] == rest;
  }

  lemma {:induction false} SplitJoin(parts: seq<string>, c: char)
    requires parts != []
    requires forall p :: p in parts ==> c !in p
    ensures Split(Join(parts, [c]), c) == parts
  {
    assert c !in parts[0];
    if |parts| > 1 {
      var rest := Join(parts[1..], [c]);
      assert Split(rest, c) == parts[1..] by { SplitJoin(parts[1..], c); }
      assert Join(parts, [c]) == parts[0] + [c] + rest;
      SplitCons(parts[0], c, rest);
    }
  }

  lemma {:induction false} JoinSplit(s: string, c: char)
    ensures Join(Split(s, c), [c]) == s
    ensures forall p :: p in Split(s, c) ==> c !in p && forall x :: x in p ==> x in s
    decreases |s|
  {
    var i := Find(s, c);
    if i < |s| {
      JoinSplit(s[i + 1..], c);
      assert s == s[..i] + [c] + s[i + 1..];
      var rest := Split(s[i + 1..], c);
      assert ([s[..i]] + rest)[1..] == rest;
    }
  }

  lemma {:induction false} JoinChars(parts: seq<string>, sep: string, ch: char)
    requires ch in Join(parts, sep)
    ensures ch in sep || exists p :: p in parts && ch in p
  {
    if |parts| == 1 {
      assert parts[0] in parts;
    } else if |parts| > 1 && ch !in parts[0] && ch !in sep {
      JoinChars(parts[1..], sep, ch);
    } else {
      assert |parts| > 1 ==> parts[0] in parts;
    }
  }

  lemma {:induction false} JoinConcat(a: seq<string>, b: seq<string>, sep: string)
    requires a != [] && b != []
    ensures Join(a + b, sep) == Join(a, sep) + sep + Join(b, sep)
  {
    assert (a + b)[1..] == a[1..] + b;
    if |a| == 1 {
      assert a[1..] + b == b;
    } else {
      JoinConcat(a[1..], b, sep);
    }
  }

  lemma SplitConcat(a: string, c: char, b: string)
    ensures Split(a + [c] + b, c) == Split(a, c) + Split(b, c)
  {
    JoinSplit(a, c);
    JoinSplit(b, c);
    JoinConcat(Split(a, c), Split(b, c), [c]);
    SplitJoin(Split(a, c) + Split(b, c), c);
  }

  // ---------------------------------------------------------------- lines of a text file

  function LineEnd(s: string): (i: nat)
    ensures i <= |s|
    ensures LineFree(s[..i])
    ensures i < |s| ==> IsLineBreak(s[i])
  {
    if s == [] || IsLineBreak(s[0]) then 0
    else
      var i := 1 + LineEnd(s[1..]);
      assert s[..i] == [s[0]] + s[1..][..i - 1];
      i
  }

  /** `str.splitlines()`. */
  function SplitLines(s: string): seq<string>
    decreases |s|
  {
    if s == [] then []
    else
      var i := LineEnd(s);
      if i == |s| then [s]
      else if s[i] == '\r' && i + 1 < |s| && s[i + 1] == '\n' then [s[..i]] + SplitLines(s[i + 2..])
      else [s[..i]] + SplitLines(s[i + 1..])
  }

  /** The newline translation of a file opened in text mode. */
  function UniversalNewlines(s: string): string {
    if s == [] then []
    else if s[0] != '\r' then [s[0]] + UniversalNewlines(s[1..])
    else if |s| > 1 && s[1] == '\n' then ['\n'] + UniversalNewlines(s[2..])
    else ['\n'] + UniversalNewlines(s[1..])
  }

  lemma {:induction false} SplitLinesFree(s: string)
    ensures forall l :: l in SplitLines(s) ==> LineFree(l)
    decreases |s|
  {
    if s != [] {
      var i := LineEnd(s);
      if i < |s| {
        if s[i] == '\r' && i + 1 < |s| && s[i + 1] == '\n' {
          SplitLinesFree(s[i + 2..]);
        } else {
          SplitLinesFree(s[i + 1..]);
        }
      } else {
        assert s[..i] == s;
      }
    }
  }

  /** Newline translation, piece by piece: what has no carriage return stays, and CR LF and a lone CR each
      become one newline. */
  lemma {:induction false} TranslatesAfter(a: string, rest: string)
    requires '\r' !in a
    ensures UniversalNewlines(a + rest) == a + UniversalNewlines(rest)
  {
    if a == "" {
      assert a + rest == rest;
    } else {
      assert (a + rest)[1..] == a[1..] + rest && (a + rest)[0] == a[0];
      TranslatesAfter(a[1..], rest);
    }
  }

  lemma TranslatesBreaks(rest: string)
    ensures UniversalNewlines("\r\n" + rest) == "\n" + UniversalNewlines(rest)
    ensures !("\n" <= rest) ==> UniversalNewlines("\r" + rest) == "\n" + UniversalNewlines(rest)
    ensures UniversalNewlines("") == ""
  {
    var s, t := "\r\n" + rest, "\r" + rest;
    assert s[2..] == rest && t[1..] == rest;
    assert rest != "" && rest[0] == '\n' ==> "\n" <= rest;
    assert |t| > 1 ==> t[1] == rest[0];
  }

  lemma {:induction false} NoCarriageReturn(s: string)
    requires '\r' !in s
    ensures UniversalNewlines(s) == s
  {
    if s != [] {
      NoCarriageReturn(s[1..]);
    }
  }

  lemma LineEndAt(a: string, b: char, rest: string)
    requires LineFree(a) && IsLineBreak(b)
    ensures LineEnd(a + [b] + rest) == |a|
  {
    var s := a + [b] + rest;
    var i := LineEnd(s);
    assert s[|a|] == b;
    assert forall k :: 0 <= k < |a| ==> s[k] == a[k] && a[k] in a;
    assert forall k :: 0 <= k < i ==> s[k] == s[..i][k] && s[..i][k] in s[..i];
  }

  /** A file written as break-free lines joined by newlines, with a final newline, reads back as those
      lines; the file written for no line at all reads back as one empty line. */
  lemma {:induction false} WrittenLinesReadBack(lines: seq<string>)
    requires forall l :: l in lines ==> LineFree(l)
    ensures SplitLines(UniversalNewlines(Join(lines, "\n") + "\n")) == if lines == [] then [""] else lines
  {
    var text := Join(lines, "\n") + "\n";
    forall c | c in text ensures c != '\r' {
      if c in Join(lines, "\n") {
        JoinChars(lines, "\n", c);
      }
    }
    NoCarriageReturn(text);
    SplitWrittenLines(lines);
  }

  /** The line breaks by code point, the carriage return aside. */
  ghost predicate EndsLine(b: char) {
    b as int in {10, 11, 12, 28, 29, 30, 0x85, 0x2028, 0x2029}
  }

  /** A line without breaks, any break but a carriage return, and the rest. */
  lemma SplitLinesAt(a: string, b: char, rest: string)
    requires LineFree(a) && EndsLine(b)
    ensures SplitLines(a + [b] + rest) == [a] + SplitLines(rest)
  {
    LineEndAt(a, b, rest);
    var text := a + [b] + rest;
    assert text[|a|] == b && text[..|a|] == a && text[|a| + 1..] == rest;
  }

  /** A last line without a break. */
  lemma SplitLinesLast(a: string)
    requires LineFree(a)
    ensures SplitLines(a) == if a == "" then [] else [a]
  {
    assert forall k :: 0 <= k < |a| ==> a[k] in a;
  }

  lemma SplitLinesCons(a: string, rest: string)
    requires LineFree(a)
    ensures SplitLines(a + "\n" + rest) == [a] + SplitLines(rest)
  {
    SplitLinesAt(a, '\n', rest);
  }

  lemma SplitLastLine(line: string)
    requires LineFree(line)
    ensures SplitLines(line + "\n") == [line]
  {
    SplitLinesCons(line, "");
    assert line + "\n" == line + "\n" + "";
  }

  lemma SplitFirstLine(line: string, lines: seq<string>)
    requires LineFree(line) && lines != []
    requires SplitLines(Join(lines, "\n") + "\n") == lines
    ensures SplitLines(Join([line] + lines, "\n") + "\n") == [line] + lines
  {
    var rest := Join(lines, "\n");
    assert Join([line] + lines, "\n") == line + "\n" + rest by { assert ([line] + lines)[1..] == lines; }
    assert line + "\n" + rest + "\n" == line + "\n" + (rest + "\n");
    SplitLinesCons(line, rest + "\n");
  }

  lemma {:induction false} SplitWrittenLines(lines: seq<string>)
    requires forall l :: l in lines ==> LineFree(l)
    ensures SplitLines(Join(lines, "\n") + "\n") == if lines == [] then [""] else lines
  {
    if lines == [] {
      SplitLastLine("");
    } else if |lines| == 1 {
      SplitLastLine(lines[0]);
      assert lines == [lines[0]];
    } else {
      SplitWrittenLines(lines[1..]);
      SplitFirstLine(lines[0], lines[1..]);
      assert lines == [lines[0]] + lines[1..];
    }
  }
}
