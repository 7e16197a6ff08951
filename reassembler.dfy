/** The row reassembler of `MDBTools#mdb_sql`: the lines that `mdb-sql -Fp -d '::'`
    writes are turned back into records (hashes from column name to value),
    gluing together rows that a line break inside a memo field split over
    several lines. The process itself is not modelled: its output lines, as
    `IO#readline` and `IO#each` return them (line feed included), are the
    input. */
module Reassembler {
  import opened Wrappers
  import opened RubyText
  import opened RubyHash
  import opened MdbConstants

  /** One output row: column name to value, in header order. */
  type Record = Hash<string, string>

  /** `IO#readline` raises EOFError when fewer than two lines come back;
      `String#<<` raises TypeError when a continuation line has no token. */
  datatype SqlError = EndOfStream | NilConcatenation

  /** The loop's state: the pending token list `full_line` and the records
      emitted so far (`array`). */
  datatype State = State(fullLine: seq<string>, records: seq<Record>)

  /** The header: the second line, chomped, split on the delimiter. No name
      holds the delimiter, and the last name is not empty. */
  function Header(line: string): (fields: seq<string>)
    ensures forall f :: f in fields ==> !Contains(f, Delimiter)
    ensures |fields| > 0 ==> fields[|fields| - 1] != ""
  {
    SplitAvoidsSeparator(Chomp(line), Delimiter);
    Split(Chomp(line), Delimiter)
  }

  /** `fields.each_index { |i| hash[fields[i]] = full_line[i] }` on `{}`. */
  function ToRecord(fields: seq<string>, values: seq<string>): (r: Record)
    requires |values| == |fields|
    ensures |r| <= |fields|
    ensures |fields| > 0 ==> Get(r, fields[|fields| - 1]) == Some(values[|values| - 1])
  {
    FromPairsSize([], fields, values);
    if |fields| > 0 then
      FromPairsLast([], fields, values);
      FromPairs([], fields, values)
    else FromPairs([], fields, values)
  }

  /** A line continues the pending row when the pending row is non-empty and
      shorter than the header. */
  predicate IsContinuation(fields: seq<string>, fullLine: seq<string>) {
    0 < |fullLine| < |fields|
  }

  /** The continuation merge: the line's first token is appended to the last
      pending token after one space (not chomped), every token equal to it is
      deleted from the line, and the rest are chomped and appended. */
  function Glue(fullLine: seq<string>, row: seq<string>): (r: seq<string>)
    requires |fullLine| > 0 && |row| > 0
    ensures |fullLine| <= |r| < |fullLine| + |row|
    ensures r[..|fullLine| - 1] == fullLine[..|fullLine| - 1]
    ensures r[|fullLine| - 1] == fullLine[|fullLine| - 1] + " " + row[0]
  {
    fullLine[|fullLine| - 1 := fullLine[|fullLine| - 1] + " " + row[0]] + ChompAll(DeleteAll(row, row[0]))
  }

  /** The glued list token by token: the pending tokens before the last are
      kept, the last one gets a space and the line's first token, and the
      line's tokens other than that first one follow, chomped. */
  lemma GlueTokens(fullLine: seq<string>, row: seq<string>)
    requires |fullLine| > 0 && |row| > 0
    ensures |Glue(fullLine, row)| == |fullLine| + |DeleteAll(row, row[0])|
    ensures Glue(fullLine, row)[..|fullLine| - 1] == fullLine[..|fullLine| - 1]
    ensures Glue(fullLine, row)[|fullLine| - 1] == fullLine[|fullLine| - 1] + " " + row[0]
    ensures forall j :: 0 <= j < |DeleteAll(row, row[0])| ==>
      Glue(fullLine, row)[|fullLine| + j] == Chomp(DeleteAll(row, row[0])[j])
  {
  }

  /** The pending list after one line, split into `row`, is taken in
      (lines 96-103). */
  function Merge(fields: seq<string>, fullLine: seq<string>, row: seq<string>): (r: Result<seq<string>, SqlError>)
    ensures r.Err? <==> IsContinuation(fields, fullLine) && row == []
    ensures r.Ok? ==> |fullLine| <= |r.value| <= |fullLine| + |row|
    ensures r.Ok? && !IsContinuation(fields, fullLine) ==> fullLine <= r.value
    ensures r.Ok? && IsContinuation(fields, fullLine) ==>
      fullLine[..|fullLine| - 1] <= r.value && r.value[|fullLine| - 1] == fullLine[|fullLine| - 1] + " " + row[0]
  {
    if IsContinuation(fields, fullLine) then
      if row == [] then Err(NilConcatenation) else Ok(Glue(fullLine, row))
    else
      Ok(fullLine + ChompAll(row))
  }

  /** One iteration of `pipe.each` on a line split into `row`: merge, then
      emit and reset when the pending list has exactly as many tokens as the
      header has fields. */
  function Step(fields: seq<string>, st: State, row: seq<string>): (r: Result<State, SqlError>)
    ensures r.Err? <==> IsContinuation(fields, st.fullLine) && row == []
    ensures r.Ok? ==> st.records <= r.value.records && |r.value.records| <= |st.records| + 1
    ensures r.Ok? && |r.value.records| > |st.records| ==> r.value.fullLine == []
    ensures r.Ok? && r.value.fullLine != [] ==> |r.value.fullLine| != |fields|
  {
    match Merge(fields, st.fullLine, row)
    case Err(e) => Err(e)
    case Ok(fl) =>
      if |fl| == |fields| then Ok(State([], st.records + [ToRecord(fields, fl)]))
      else Ok(State(fl, st.records))
  }

  /** The loop over the remaining lines, each already split on the delimiter.
      Records are only ever appended, at most one per line, and the only
      failure is the nil concatenation, on a line that splits into no token
      at all. */
  function Final(fields: seq<string>, st: State, rows: seq<seq<string>>): (r: Result<State, SqlError>)
    ensures r.Ok? ==> st.records <= r.value.records
    ensures r.Ok? ==> |r.value.records| <= |st.records| + |rows|
    ensures r.Err? ==> r.error == NilConcatenation && [] in rows
    decreases |rows|
  {
    if rows == [] then Ok(st)
    else
      match Step(fields, st, rows[0])
      case Err(e) => Err(e)
      case Ok(st') =>
        var r := Final(fields, st', rows[1..]);
        assert r.Err? ==> [] in rows by {
          if r.Err? {
            assert [] in rows[1..];
          }
        }
        r
  }

  /** Each line split on the delimiter. */
  function SplitLines(lines: seq<string>): (rows: seq<seq<string>>)
    ensures |rows| == |lines|
    ensures forall i :: 0 <= i < |lines| ==> rows[i] == Split(lines[i], Delimiter)
  {
    seq(|lines|, i requires 0 <= i < |lines| => Split(lines[i], Delimiter))
  }

  /** What `mdb_sql` returns for the lines its pipe yields: the first line is
      discarded, the second is the header, the rest are reassembled; a pending
      row left at the end is dropped. */
  function Reassemble(lines: seq<string>): (r: Result<seq<Record>, SqlError>)
    ensures r == Err(EndOfStream) <==> |lines| < 2
    ensures r.Ok? ==> |r.value| <= |lines| - 2
  {
    if |lines| < 2 then Err(EndOfStream)
    else
      match Final(Header(lines[1]), State([], []), SplitLines(lines[2..]))
      case Err(e) => Err(e)
      case Ok(st) => Ok(st.records)
  }

  /** `MDBTools#mdb_sql` after the query has been written to the pipe: the
      loop of lines 91-115, updating `full_line` and `records` (the source's
      `array`) in place. */
  method MdbSql(lines: seq<string>) returns (r: Result<seq<Record>, SqlError>)
    ensures r == Reassemble(lines)
  {
    if |lines| < 2 {
      return Err(EndOfStream);
    }
    var fields := Header(lines[1]);
    ghost var rows := SplitLines(lines[2..]);
    var fullLine: seq<string> := [];
    var records: seq<Record> := [];
    var i := 2;
    while i < |lines|
      invariant 2 <= i <= |lines|
      invariant Final(fields, State(fullLine, records), rows[i - 2..]) == Final(fields, State([], []), rows)
    {
      var row := Split(lines[i], Delimiter);
      assert row == rows[i - 2];
      var next := StepLine(fields, fullLine, records, row);
      FinalStep(fields, State(fullLine, records), rows, i - 2, next);
      if next.Err? {
        return Err(NilConcatenation);
      }
      fullLine, records := next.value.fullLine, next.value.records;
      i := i + 1;
    }
    assert rows[i - 2..] == [];
    return Ok(records);
  }

  /** The loop over rows k.. is one step on row k, then the loop over the
      rows after it. */
  lemma FinalStep(fields: seq<string>, st: State, rows: seq<seq<string>>, k: nat, next: Result<State, SqlError>)
    requires k < |rows| && next == Step(fields, st, rows[k])
    ensures next.Err? ==> Final(fields, st, rows[k..]) == Err(next.error)
    ensures next.Ok? ==> Final(fields, st, rows[k..]) == Final(fields, next.value, rows[k + 1..])
  {
    assert rows[k..][0] == rows[k] && rows[k..][1..] == rows[k + 1..];
  }

  /** One pass of the `pipe.each` block (lines 96-111): the line is merged
      into the pending list, and a pending list as long as the header becomes
      a record and is reset. */
  method StepLine(fields: seq<string>, fullLine: seq<string>, records: seq<Record>, row: seq<string>)
    returns (r: Result<State, SqlError>)
    ensures r == Step(fields, State(fullLine, records), row)
  {
    var merged := MergeLine(fields, fullLine, row);
    if merged.Err? {
      return Err(merged.error);
    }
    var pending := merged.value;
    var emitted := records;
    if |pending| == |fields| {
      var hash := BuildRecord(fields, pending);
      emitted := emitted + [hash];
      pending := [];
    }
    return Ok(State(pending, emitted));
  }

  /** Lines 96-103 on a line split into `row`: a continuation glues the
      line's first token onto the last pending token and deletes every copy
      of it from the line; the tokens left are chomped and appended. */
  method MergeLine(fields: seq<string>, fullLine: seq<string>, row: seq<string>) returns (r: Result<seq<string>, SqlError>)
    ensures r == Merge(fields, fullLine, row)
  {
    var pending := fullLine;
    var tokens := row;
    if |pending| > 0 && |pending| < |fields| {
      if tokens == [] {
        return Err(NilConcatenation);
      }
      var first := tokens[0];
      pending := pending[|pending| - 1 := pending[|pending| - 1] + " " + first];
      tokens := DeleteAll(tokens, first);
    }
    return Ok(pending + ChompAll(tokens));
  }

  /** The `fields.each_index` loop filling a fresh hash. */
  method BuildRecord(fields: seq<string>, values: seq<string>) returns (hash: Record)
    requires |values| == |fields|
    ensures hash == ToRecord(fields, values)
  {
    hash := [];
    for j := 0 to |fields|
      invariant FromPairs(hash, fields[j..], values[j..]) == ToRecord(fields, values)
    {
      assert fields[j..][1..] == fields[j + 1..] && values[j..][1..] == values[j + 1..];
      hash := Store(hash, fields[j], values[j]);
    }
  }
}
