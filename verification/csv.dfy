/** Splitting one CSV line into its comma-separated fields.

    A line is read with no line terminator. Its cells are extracted one by one
    by reading up to the next ',' the way a delimited line read on a string
    stream does, and a final empty cell is added when the stream fails on an
    empty read, so that a trailing comma, or an empty line, yields a last
    empty field. */
module Csv {
  import opened Optional

  /** Index of the first ',' in s, or |s| when there is none. */
  function FirstComma(s: string): (j: nat)
    ensures j <= |s|
    ensures j < |s| ==> s[j] == ','
    ensures forall k :: 0 <= k < j ==> s[k] != ','
  {
    if |s| == 0 || s[0] == ',' then 0 else 1 + FirstComma(s[1..])
  }

  /** The fields of a line: the text between consecutive commas, from the
      start of the line to its end. */
  function Split(s: string): (fields: seq<string>)
    ensures |fields| > 0
    ensures forall i :: 0 <= i < |fields| ==> ',' !in fields[i]
    decreases |s|
  {
    var j := FirstComma(s);
    if j == |s| then [s] else [s[..j]] + Split(s[j + 1..])
  }

  /** The fields written back out, separated by commas. */
  function Join(fields: seq<string>): (s: string)
    requires |fields| > 0
  {
    if |fields| == 1 then fields[0] else fields[0] + "," + Join(fields[1..])
  }

  /** Number of commas in s. */
  function Commas(s: string): nat
  {
    multiset(s)[',']
  }

  /** Joining the fields of a line gives the line back. */
  lemma {:induction false} JoinSplit(s: string)
    ensures Join(Split(s)) == s
    decreases |s|
  {
    var j := FirstComma(s);
    if j < |s| {
      JoinSplit(s[j + 1..]);
      assert s == s[..j] + "," + s[j + 1..];
    }
  }

  /** Splitting joined fields that hold no comma gives the fields back. */
  lemma {:induction false} SplitJoin(fields: seq<string>)
    requires |fields| > 0
    requires forall i :: 0 <= i < |fields| ==> ',' !in fields[i]
    ensures Split(Join(fields)) == fields
    decreases |fields|
  {
    var f := fields[0];
    NoCommaFirst(f);
    if |fields| > 1 {
      SplitJoin(fields[1..]);
      SplitCons(f, Join(fields[1..]));
      assert fields == [f] + fields[1..];
    }
  }

  /** A comma-free field followed by a comma and more text splits into that
      field and the fields of the text. */
  lemma SplitCons(f: string, rest: string)
    requires ',' !in f
    ensures Split(f + "," + rest) == [f] + Split(rest)
  {
    var s := f + "," + rest;
    assert s[..|f|] == f && s[|f|] == ',';
    NoCommaFirst(f);
    FirstCommaAt(s, |f|);
    assert s[|f| + 1..] == rest;
  }

  lemma NoCommaFirst(f: string)
    requires ',' !in f
    ensures FirstComma(f) == |f|
  {
  }

  /** FirstComma is determined by its properties. */
  lemma {:induction false} FirstCommaAt(s: string, j: nat)
    requires j < |s| && s[j] == ','
    requires forall k :: 0 <= k < j ==> s[k] != ','
    ensures FirstComma(s) == j
    decreases j
  {
    if j > 0 {
      FirstCommaAt(s[1..], j - 1);
    }
  }

  /** A line with k commas has k + 1 fields. */
  lemma {:induction false} FieldCount(s: string)
    ensures |Split(s)| == Commas(s) + 1
    decreases |s|
  {
    var j := FirstComma(s);
    if j == |s| {
      assert ',' !in s;
    } else {
      FieldCount(s[j + 1..]);
      assert s == s[..j] + [','] + s[j + 1..];
      assert ',' !in s[..j];
      assert multiset(s) == multiset(s[..j]) + multiset{','} + multiset(s[j + 1..]);
    }
  }

  /** A line that ends with a comma has an empty last field. */
  lemma {:induction false} TrailingCommaEmptyField(s: string)
    requires |s| > 0 && s[|s| - 1] == ','
    ensures Split(s)[|Split(s)| - 1] == ""
    decreases |s|
  {
    var j := FirstComma(s);
    var rest := s[j + 1..];
    if |rest| > 0 {
      assert rest[|rest| - 1] == ',';
      TrailingCommaEmptyField(rest);
    } else {
      assert Split(rest) == [""];
    }
  }

  /** The read state of a string stream over one line: the read position and
      the end-of-file and failure flags. */
  datatype LineStream = LineStream(text: string, pos: nat, eof: bool, fail: bool)

  /** A delimited read of one cell from a string stream: on a stream that has
      reached its end or failed, the read fails and the cell is left as it
      was; otherwise the cell is the text up to the next ',' (which is
      consumed) or to the end of the text (which sets end-of-file), and the
      read fails when it consumed nothing at all. */
  function Getline(ls: LineStream, cell: string): (r: (LineStream, string))
    requires ls.pos <= |ls.text|
    ensures r.0.text == ls.text && ls.pos <= r.0.pos <= |ls.text|
    ensures ls.eof || ls.fail ==> r.0.fail && r.1 == cell && r.0.pos == ls.pos
    ensures !ls.eof && !ls.fail ==>
      && ',' !in r.1
      && ls.text[ls.pos..] == r.1 + (if r.0.eof then "" else ",") + ls.text[r.0.pos..]
      && (r.0.fail <==> ls.pos == |ls.text|)
  {
    if ls.eof || ls.fail then (ls.(fail := true), cell)
    else
      var rest := ls.text[ls.pos..];
      var j := FirstComma(rest);
      if j < |rest| then
        assert rest == rest[..j] + "," + ls.text[ls.pos + j + 1..];
        (ls.(pos := ls.pos + j + 1), rest[..j])
      else
        (ls.(pos := |ls.text|, eof := true, fail := j == 0), rest)
  }

  /** Before a read: the stream is good, and the fields read so far followed
      by the fields of the unread text are the fields of the line. */
  ghost predicate Pending(line: string, ls: LineStream, result: seq<string>)
  {
    && ls.text == line && ls.pos <= |line| && !ls.eof && !ls.fail
    && result + Split(line[ls.pos..]) == Split(line)
  }

  /** After a read: what the loop and the trailing-comma check will add to
      `result` completes the fields of the line. */
  ghost predicate Read(line: string, ls: LineStream, cell: string, result: seq<string>)
  {
    && ls.text == line && ls.pos <= |line|
    && (!ls.fail && !ls.eof ==> Pending(line, ls, result + [cell]))
    && (!ls.fail && ls.eof ==> result + [cell] == Split(line) && cell != "")
    && (ls.fail ==> if cell == "" then result + [""] == Split(line) else result == Split(line))
  }

  /** A read on a good stream keeps the account of the fields. */
  lemma ReadStep(line: string, ls: LineStream, cell: string, result: seq<string>)
    requires Pending(line, ls, result)
    ensures Read(line, Getline(ls, cell).0, Getline(ls, cell).1, result)
  {
    var rest := line[ls.pos..];
    if FirstComma(rest) < |rest| {
      ReadUpToComma(line, ls, cell, result);
    } else {
      ReadToEnd(line, ls, cell, result);
    }
  }

  /** A read that stops at a comma leaves the fields after it pending. */
  lemma ReadUpToComma(line: string, ls: LineStream, cell: string, result: seq<string>)
    requires Pending(line, ls, result) && FirstComma(line[ls.pos..]) < |line[ls.pos..]|
    ensures Read(line, Getline(ls, cell).0, Getline(ls, cell).1, result)
  {
    var rest := line[ls.pos..];
    var j := FirstComma(rest);
    var r := Getline(ls, cell);
    assert r == (ls.(pos := ls.pos + j + 1), rest[..j]);
    SplitAtComma(line, ls.pos, j);
    assert result + [rest[..j]] + Split(line[r.0.pos..]) == Split(line);
  }

  /** The fields from position p on: the text up to the first comma, then the
      fields after it. */
  lemma SplitAtComma(line: string, p: nat, j: nat)
    requires p <= |line| && j == FirstComma(line[p..]) && j < |line[p..]|
    ensures Split(line[p..]) == [line[p..][..j]] + Split(line[p + j + 1..])
  {
    var rest := line[p..];
    assert line[p + j + 1..] == rest[j + 1..];
  }

  /** A read that finds no comma takes the last field. */
  lemma ReadToEnd(line: string, ls: LineStream, cell: string, result: seq<string>)
    requires Pending(line, ls, result) && FirstComma(line[ls.pos..]) == |line[ls.pos..]|
    ensures Read(line, Getline(ls, cell).0, Getline(ls, cell).1, result)
  {
    var rest := line[ls.pos..];
    var j := FirstComma(rest);
    assert Split(rest) == [rest];
    assert Getline(ls, cell) == (ls.(pos := |line|, eof := true, fail := j == 0), rest);
  }

  /** A read after end-of-file fails and keeps the cell. */
  lemma ReadAfterEnd(line: string, ls: LineStream, cell: string, result: seq<string>)
    requires Read(line, ls, cell, result) && !ls.fail && ls.eof
    ensures Read(line, Getline(ls, cell).0, Getline(ls, cell).1, result + [cell])
  {
  }

  /** Splits one line into its cells: reads delimited cells until a read
      fails, then adds an empty cell when the failing read left the cell
      empty. */
  method SplitIntoTokens(line: string) returns (result: seq<string>)
    ensures result == Split(line)
  {
    result := [];
    var ls := LineStream(line, 0, false, false);
    var cell := "";
    assert line[0..] == line;
    ReadStep(line, ls, cell, result);
    ls, cell := Getline(ls, cell).0, Getline(ls, cell).1;
    while !ls.fail
      invariant Read(line, ls, cell, result)
      decreases |line| - ls.pos + (if ls.eof then 0 else 1) + (if ls.fail then 0 else 1)
    {
      if ls.eof {
        ReadAfterEnd(line, ls, cell, result);
      } else {
        ReadStep(line, ls, cell, result + [cell]);
      }
      result := result + [cell];
      ls, cell := Getline(ls, cell).0, Getline(ls, cell).1;
    }
    if ls.fail && cell == "" {
      result := result + [""];
    }
  }

  /** One parsed row: the cells of the line read last. */
  class CsvRow {
    var data: seq<string>
    /** The line read last, none before the first read. */
    ghost var line: Option<string>

    ghost predicate Valid()
      reads this
    {
      if line.None? then data == [] else data == Split(line.value)
    }

    constructor ()
      ensures Valid() && data == [] && line == None
    {
      data := [];
      line := None;
    }

    /** Reads the next line: the cells of the previous row are dropped and
        the row holds exactly the cells of the new line. */
    method ReadNextRow(l: string)
      modifies this
      ensures Valid() && line == Some(l) && data == Split(l)
    {
      data := [];
      var cells := SplitIntoTokens(l);
      data := data + cells;
      line := Some(l);
    }

    /** The cell at position i of the row, which holds no comma. */
    function Get(i: nat): (f: string)
      reads this
      requires Valid() && i < |data|
      ensures line.Some? && f == Split(line.value)[i]
      ensures ',' !in f
    {
      data[i]
    }

    /** The number of cells: one more than the commas of the line read, or 0
        before the first read. */
    function Size(): (n: nat)
      reads this
      requires Valid()
      ensures n == |data|
      ensures line.None? ==> n == 0
      ensures line.Some? ==> n == Commas(line.value) + 1
    {
      FieldCountOf(line);
      |data|
    }
  }

  lemma FieldCountOf(line: Option<string>)
    ensures line.Some? ==> |Split(line.value)| == Commas(line.value) + 1
  {
    if line.Some? {
      FieldCount(line.value);
    }
  }
}
