/**
 * TreeToMermaidConverter.PreConvertTree: each non-blank line of an indented
 * tree becomes `'?' x level + " " + name`, where the level counts the
 * multiples of four inside the line's leading run of spaces and
 * box-drawing characters, and the name is what is left once the
 * decoration is stripped.
 */
module PreConversion {
  import opened Text

  /** The characters whose leading run sets the indentation level: space, │, ─, ├ and └. */
  predicate IsIndentChar(c: char) {
    c == ' ' || c == '\U{2502}' || c == '\U{2500}' || c == '\U{251C}' || c == '\U{2514}'
  }

  /** The length of the leading run of indentation characters. */
  function IndentRun(s: string): (n: nat)
    ensures n <= |s|
    ensures forall k :: 0 <= k < n ==> IsIndentChar(s[k])
    ensures n < |s| ==> !IsIndentChar(s[n])
  {
    if s != [] && IsIndentChar(s[0]) then 1 + IndentRun(s[1..]) else 0
  }

  /** How many of the indices below `n` are multiples of four. */
  function Marks(n: nat): nat {
    if n == 0 then 0 else Marks(n - 1) + (if (n - 1) % 4 == 0 then 1 else 0)
  }

  /** The level of a line: one per multiple of four inside its indentation run. */
  function Level(line: string): nat {
    Marks(IndentRun(line))
  }

  /** Counting every fourth index of a run of length `n` rounds n / 4 up. */
  lemma {:induction false} MarksIsCeiling(n: nat)
    ensures Marks(n) == (n + 3) / 4
  {
    if n > 0 {
      MarksIsCeiling(n - 1);
    }
  }

  /** Whitespace, the box-drawing block and the ASCII decoration characters - | + ` ' * / and backslash. */
  predicate IsDecorationChar(c: char) {
    || IsWhiteSpace(c) || ('\U{2500}' <= c <= '\U{257F}')
    || c == '-' || c == '|' || c == '+' || c == '`' || c == '\'' || c == '*' || c == '/' || c == '\\'
  }

  /** The length of the leading run the decoration pattern removes. */
  function DecorationRun(s: string): (n: nat)
    ensures n <= |s|
    ensures forall k :: 0 <= k < n ==> IsDecorationChar(s[k])
    ensures n < |s| ==> !IsDecorationChar(s[n])
  {
    if s != [] && IsDecorationChar(s[0]) then 1 + DecorationRun(s[1..]) else 0
  }

  /** The item name of a line: trailing whitespace and leading decoration removed, then trimmed. */
  function ItemName(line: string): (r: string)
    ensures IsTrimmed(r)
  {
    var trimmed := TrimEnd(line);
    Trim(trimmed[DecorationRun(trimmed)..])
  }

  function Questions(n: nat): (r: string)
    ensures |r| == n && forall k :: 0 <= k < n ==> r[k] == '?'
  {
    seq(n, _ => '?')
  }

  /** The normalised form of a line. */
  function SimpleLine(level: nat, name: string): string {
    Questions(level) + " " + name
  }

  /** A line the pre-conversion keeps: something is left once trailing whitespace is dropped. */
  predicate IsKept(line: string) {
    TrimEnd(line) != []
  }

  /** A line is kept exactly when it is not whitespace only. */
  lemma KeptIsNotBlank(line: string)
    ensures IsKept(line) <==> !IsBlank(TrimEnd(line))
  {
  }

  /** What one line contributes to the result. */
  function SimplifyLine(line: string): seq<string> {
    if IsKept(line) then [SimpleLine(Level(line), ItemName(line))] else []
  }

  /** The normalised form of each kept line, in order. */
  function Simplified(lines: seq<string>): seq<string> {
    if lines == [] then [] else Simplified(lines[..|lines| - 1]) + SimplifyLine(lines[|lines| - 1])
  }

  /** A level and a name, as a tree line describes them. */
  datatype Entry = Entry(level: nat, name: string)

  /** The level and name of each kept line, in order. */
  function Entries(lines: seq<string>): seq<Entry> {
    if lines == [] then []
    else
      var line := lines[|lines| - 1];
      Entries(lines[..|lines| - 1]) + (if IsKept(line) then [Entry(Level(line), ItemName(line))] else [])
  }

  function PreConverted(treeText: string): seq<string> {
    if IsBlank(treeText) then [] else Simplified(SplitLines(treeText))
  }

  /** The inner loop of PreConvertTree: counts every fourth index of the indentation run. */
  method CountLevel(line: string) returns (level: nat)
    ensures level == Level(line)
  {
    level := 0;
    var i := 0;
    while i < |line|
      invariant i <= IndentRun(line) && level == Marks(i)
      decreases |line| - i
    {
      var c := line[i];
      if IsIndentChar(c) {
        if i % 4 == 0 {
          level := level + 1;
        }
        i := i + 1;
      } else {
        break;
      }
    }
  }

  method PreConvertTree(treeText: string) returns (result: seq<string>)
    ensures result == PreConverted(treeText)
  {
    result := [];
    if IsBlank(treeText) {
      return;
    }
    var lines := SplitLines(treeText);
    for n := 0 to |lines|
      invariant result == Simplified(lines[..n])
    {
      SimplifiedNext(lines, n);
      var step := SimplifyOne(lines[n]);
      result := result + step;
    }
    assert lines[..|lines|] == lines;
  }

  lemma SimplifiedNext(lines: seq<string>, n: nat)
    requires n < |lines|
    ensures Simplified(lines[..n + 1]) == Simplified(lines[..n]) + SimplifyLine(lines[n])
  {
    assert lines[..n + 1][..n] == lines[..n];
  }

  /** The body of the loop of PreConvertTree: the normalised line, or nothing for a blank one. */
  method SimplifyOne(line: string) returns (step: seq<string>)
    ensures step == SimplifyLine(line)
  {
    var trimmed := TrimEnd(line);
    step := [];
    if !IsBlank(trimmed) {
      var level := CountLevel(line);
      var name := Trim(trimmed[DecorationRun(trimmed)..]);
      step := [Questions(level) + " " + name];
    }
    KeptIsNotBlank(line);
  }

  /** The level of a line is its indentation run divided by four, rounded up. */
  lemma LevelIsCeiling(line: string)
    ensures Level(line) == (IndentRun(line) + 3) / 4
  {
    MarksIsCeiling(IndentRun(line));
  }

  /** The name of a line without line breaks has none either. */
  lemma ItemNameNoLineBreak(line: string)
    requires NoLineBreak(line)
    ensures NoLineBreak(ItemName(line))
  {
    var trimmed := TrimEnd(line);
    NoLineBreakSlice(line, 0, |trimmed|);
    var rest := trimmed[DecorationRun(trimmed)..];
    NoLineBreakSlice(trimmed, DecorationRun(trimmed), |trimmed|);
    var e := TrimEnd(rest);
    NoLineBreakSlice(rest, 0, |e|);
    NoLineBreakSlice(e, |e| - |TrimStart(e)|, |e|);
  }

  /** Each line of `out` is the normalised form of the entry at the same index. */
  predicate Normalises(out: seq<string>, entries: seq<Entry>) {
    |out| == |entries| && forall i :: 0 <= i < |entries| ==> out[i] == SimpleLine(entries[i].level, entries[i].name)
  }

  lemma NormalisesAppend(out: seq<string>, entries: seq<Entry>, more: seq<string>, es: seq<Entry>)
    requires Normalises(out, entries) && Normalises(more, es)
    ensures Normalises(out + more, entries + es)
  {
  }

  /** What one line contributes to each side. */
  lemma LineNormalises(line: string)
    ensures Normalises(SimplifyLine(line), if IsKept(line) then [Entry(Level(line), ItemName(line))] else [])
  {
  }

  /** The pre-converted lines are the normalised forms of the entries of the kept lines. */
  lemma {:induction false} SimplifiedEntries(lines: seq<string>)
    ensures Normalises(Simplified(lines), Entries(lines))
  {
    if lines != [] {
      var init, line := lines[..|lines| - 1], lines[|lines| - 1];
      SimplifiedEntries(init);
      LineNormalises(line);
      NormalisesAppend(Simplified(init), Entries(init), SimplifyLine(line),
        if IsKept(line) then [Entry(Level(line), ItemName(line))] else []);
    }
  }

  /** Every name is trimmed and on one line. */
  predicate CleanNames(entries: seq<Entry>) {
    forall i :: 0 <= i < |entries| ==> IsTrimmed(entries[i].name) && NoLineBreak(entries[i].name)
  }

  lemma CleanNamesAppend(a: seq<Entry>, b: seq<Entry>)
    requires CleanNames(a) && CleanNames(b)
    ensures CleanNames(a + b)
  {
  }

  /** Every entry name is trimmed and, when the lines have no line breaks, free of them. */
  lemma {:induction false} EntryNames(lines: seq<string>)
    requires forall i :: 0 <= i < |lines| ==> NoLineBreak(lines[i])
    ensures CleanNames(Entries(lines))
  {
    if lines != [] {
      var init, line := lines[..|lines| - 1], lines[|lines| - 1];
      EntryNames(init);
      ItemNameNoLineBreak(line);
      CleanNamesAppend(Entries(init), if IsKept(line) then [Entry(Level(line), ItemName(line))] else []);
    }
  }
}
