/**
 Positions in a text: the two line tables of the language server, and the two searches in them.  A
 text is its bytes; columns count bytes.
 */
module LineIndex {

  datatype Position = Position(line: nat, character: nat)

  const NEWLINE := '\n'

  /** How many newlines a text has. */
  function Newlines(text: string): nat {
    if text == "" then 0
    else Newlines(text[..|text| - 1]) + if text[|text| - 1] == NEWLINE then 1 else 0
  }

  // ---------------------------------------------------------------------------------------
  // The tables
  // ---------------------------------------------------------------------------------------

  /** Where lines start: at 0 and behind every newline. */
  function Starts(text: string): (table: seq<nat>)
    ensures |table| == Newlines(text) + 1 && table[0] == 0
    ensures forall k :: 0 <= k < |table| ==> table[k] <= |text|
    ensures forall j, k :: 0 <= j < k < |table| ==> table[j] < table[k]
  {
    if text == "" then [0]
    else
      var before := Starts(text[..|text| - 1]);
      if text[|text| - 1] == NEWLINE then before + [|text|] else before
  }

  predicate EndsInNewline(text: string) {
    text != "" && text[|text| - 1] == NEWLINE
  }

  /** The table without the empty line behind a newline at the end. */
  function InnerStarts(text: string): (table: seq<nat>)
    ensures |table| > 0
  {
    if EndsInNewline(text) then Starts(text)[..|Starts(text)| - 1] else Starts(text)
  }

  method ComputeLineOffsets(text: string) returns (offsets: seq<nat>)
    ensures offsets == Starts(text)
  {
    offsets := [0];
    for i := 0 to |text|
      invariant offsets == Starts(text[..i])
    {
      assert text[..i + 1][..i] == text[..i];
      if text[i] == NEWLINE {
        offsets := offsets + [i + 1];
      }
    }
    assert text[..|text|] == text;
  }

  /** The end of the line that begins at `from`, its newline included. */
  method LineEnd(text: string, from: nat) returns (end: nat)
    requires from < |text|
    ensures from < end <= |text|
    ensures forall i :: from <= i < end - 1 ==> text[i] != NEWLINE
    ensures end < |text| ==> text[end - 1] == NEWLINE
  {
    end := from;
    while text[end] != NEWLINE
      invariant from <= end < |text|
      invariant forall i :: from <= i < end ==> text[i] != NEWLINE
      decreases |text| - end
    {
      end := end + 1;
      if end == |text| {
        return;
      }
    }
    end := end + 1;
  }

  lemma {:induction false} SameLine(text: string, start: nat, n: nat)
    requires start <= n <= |text| && forall i :: start <= i < n ==> text[i] != NEWLINE
    ensures Starts(text[..n]) == Starts(text[..start])
    decreases n
  {
    if start < n {
      assert text[..n][..n - 1] == text[..n - 1];
      SameLine(text, start, n - 1);
    }
  }

  /** The table over the lines with their newlines: one entry per line, at least one. */
  method SplitOffsets(text: string) returns (offsets: seq<nat>)
    ensures offsets == InnerStarts(text)
  {
    offsets := [];
    var offset := 0;
    while offset < |text|
      invariant offset <= |text|
      invariant 0 < offset < |text| ==> text[offset - 1] == NEWLINE
      invariant offset == 0 ==> offsets == []
      invariant offset > 0 ==> offsets == InnerStarts(text[..offset])
      decreases |text| - offset
    {
      var end := LineEnd(text, offset);
      SameLine(text, offset, end - 1);
      assert text[..end][..end - 1] == text[..end - 1];
      assert offset > 0 ==> text[..offset][offset - 1] == text[offset - 1];
      offsets := offsets + [offset];
      LineAppended(text, offset, end);
      offset := end;
    }
    assert text[..|text|] == text;
    if offsets == [] {
      offsets := [0];
    }
  }

  /** Behind a line start, the next line adds its start to the inner table. */
  lemma LineAppended(text: string, offset: nat, end: nat)
    requires offset < end <= |text| && (forall i :: offset <= i < end - 1 ==> text[i] != NEWLINE)
    requires offset > 0 ==> text[offset - 1] == NEWLINE
    ensures InnerStarts(text[..end]) == (if offset == 0 then [] else InnerStarts(text[..offset])) + [offset]
  {
    SameLine(text, offset, end - 1);
    assert text[..end][..end - 1] == text[..end - 1];
    if offset > 0 {
      assert text[..offset][..offset - 1] == text[..offset - 1];
    } else {
      assert text[..0] == "";
    }
  }

  // ---------------------------------------------------------------------------------------
  // The searches
  // ---------------------------------------------------------------------------------------

  /** The last entry not above `offset`; 0 if there is none. */
  function LastAtMost(table: seq<nat>, offset: nat): (k: nat)
    ensures table != [] ==> k < |table|
    ensures forall i :: k < i < |table| ==> table[i] > offset
    ensures k > 0 ==> k < |table| && table[k] <= offset
  {
    if table == [] then 0
    else if table[|table| - 1] <= offset then |table| - 1
    else LastAtMost(table[..|table| - 1], offset)
  }

  function PositionIn(table: seq<nat>, offset: nat): Position
    requires table != []
  {
    var line := LastAtMost(table, offset);
    Position(line, if offset >= table[line] then offset - table[line] else 0)
  }

  ghost predicate Increasing(table: seq<nat>) {
    forall j, k :: 0 <= j < k < |table| ==> table[j] < table[k]
  }

  /** The binary search finds what the linear one does. */
  method ToPosition(table: seq<nat>, offset: nat) returns (p: Position)
    requires table != [] && Increasing(table)
    ensures p == PositionIn(table, offset)
  {
    var lo, hi := 0, |table|;
    while lo + 1 < hi
      invariant 0 <= lo < hi <= |table|
      invariant lo > 0 ==> table[lo] <= offset
      invariant forall i :: hi <= i < |table| ==> table[i] > offset
    {
      var mid := (lo + hi) / 2;
      if table[mid] <= offset {
        lo := mid;
      } else {
        hi := mid;
      }
    }
    assert LastAtMost(table, offset) == lo;
    p := Position(lo, if offset >= table[lo] then offset - table[lo] else 0);
  }

  lemma {:induction false} Rank(text: string, offset: nat, k: nat)
    requires offset <= |text| && k < |Starts(text)|
    ensures Starts(text)[k] <= offset <==> k <= Newlines(text[..offset])
    decreases |text|
  {
    if offset == |text| {
      assert text[..offset] == text;
    } else {
      var before := text[..|text| - 1];
      assert before[..offset] == text[..offset];
      if k < |Starts(before)| {
        Rank(before, offset, k);
      } else {
        NewlinesGrow(before, offset);
      }
    }
  }

  lemma {:induction false} NewlinesGrow(text: string, n: nat)
    requires n <= |text|
    ensures Newlines(text[..n]) <= Newlines(text)
    decreases |text|
  {
    if n == |text| {
      assert text[..n] == text;
    } else {
      assert text[..|text| - 1][..n] == text[..n];
      NewlinesGrow(text[..|text| - 1], n);
    }
  }

  lemma LastIs(table: seq<nat>, offset: nat, n: nat)
    requires Increasing(table) && n < |table| && table[n] <= offset
    requires n + 1 < |table| ==> table[n + 1] > offset
    ensures LastAtMost(table, offset) == n
  {
    hide LastAtMost;
    var k := LastAtMost(table, offset);
    assert table[k] <= offset || k == 0;
  }

  /**
   The line of an offset is the number of newlines before it, and the start of the line plus the
   character gives the offset back.
   */
  lemma LineIsNewlinesBefore(text: string, offset: nat)
    requires offset <= |text|
    ensures var p := PositionIn(Starts(text), offset);
            && p.line == Newlines(text[..offset])
            && Starts(text)[p.line] + p.character == offset
  {
    hide Starts, Newlines, LastAtMost;
    var table, n := Starts(text), Newlines(text[..offset]);
    NewlinesGrow(text, offset);
    Rank(text, offset, n);
    if n + 1 < |table| {
      Rank(text, offset, n + 1);
    }
    LastIs(table, offset, n);
  }

  /**
   The two tables give the same position for every offset, except behind the end of a text that ends
   in a newline.
   */
  lemma TablesAgree(text: string, offset: nat)
    ensures PositionIn(InnerStarts(text), offset) == PositionIn(Starts(text), offset)
       <==> !(EndsInNewline(text) && offset >= |text|)
  {
    if EndsInNewline(text) {
      var table := Starts(text);
      assert table[|table| - 1] == |text|;
      if offset >= |text| {
        assert LastAtMost(table, offset) == |table| - 1;
        assert LastAtMost(InnerStarts(text), offset) <= |table| - 2;
      }
    }
  }

  /** What a line start is: 0, and every offset behind a character 10. */
  lemma {:induction false} StartsAre(text: string, offset: nat)
    requires offset <= |text|
    ensures offset in Starts(text) <==> offset == 0 || text[offset - 1] as int == 10
    decreases |text|
  {
    if text != "" {
      var before := text[..|text| - 1];
      if offset <= |before| {
        StartsAre(before, offset);
      } else {
        assert offset !in Starts(before);
      }
    }
  }

  /** An offset before the table's first entry counts as the start of line 0. */
  lemma BeforeTheTable(table: seq<nat>, offset: nat)
    requires table != [] && offset < table[0] && Increasing(table)
    ensures PositionIn(table, offset) == Position(0, 0)
  {
    hide LastAtMost;
    var k := LastAtMost(table, offset);
    assert table[0] <= table[k];
  }
}
