/** `MDBTools#delimited_to_arrays` and `MDBTools#arrays_to_hashes`: text in
    the `::`-delimited format becomes rows of cells, and rows become hashes
    from header name to cell. Both work on their arguments in place: the text
    is rewritten by `gsub!`, and every row array is emptied by `shift`. */
module Delimited {
  import opened Wrappers
  import opened RubyText
  import opened RubyHash
  import opened MdbConstants

  /** A Ruby String object, which `gsub!` rewrites in place. */
  class RubyString {
    var value: string

    constructor(s: string)
      ensures value == s
    {
      value := s;
    }

    /** `gsub!(/\r\n/, ' ')`. */
    method GsubCrlf()
      modifies this
      ensures value == ReplaceCrlf(old(value))
    {
      value := ReplaceCrlf(value);
    }
  }

  /** What `delimited_to_arrays` returns for a text: the text with every
      CR LF turned into a space, split into lines on line feeds, each line
      split on the delimiter. */
  function DelimitedRows(text: string): (rows: seq<seq<string>>)
    ensures |rows| == |Split(ReplaceCrlf(text), LineBreak)|
  {
    var lines := Split(ReplaceCrlf(text), LineBreak);
    seq(|lines|, i requires 0 <= i < |lines| => Split(lines[i], Delimiter))
  }

  /** `delimited_to_arrays(text)`: the argument is rewritten, then split. */
  method DelimitedToArrays(text: RubyString) returns (rows: seq<seq<string>>)
    modifies text
    ensures text.value == ReplaceCrlf(old(text.value))
    ensures rows == DelimitedRows(old(text.value))
  {
    text.GsubCrlf();
    var lines := Split(text.value, LineBreak);
    rows := seq(|lines|, i requires 0 <= i < |lines| => Split(lines[i], Delimiter));
  }

  /** No cell holds a line break: a memo field's CR LF became a space, and
      every other line feed ended a row. */
  lemma NoCellHoldsLineBreak(text: string)
    ensures forall i, j :: 0 <= i < |DelimitedRows(text)| && 0 <= j < |DelimitedRows(text)[i]| ==>
      '\n' !in DelimitedRows(text)[i][j]
  {
    var lines := Split(ReplaceCrlf(text), LineBreak);
    SplitOnCharAvoidsIt(ReplaceCrlf(text), '\n');
    forall i, j | 0 <= i < |DelimitedRows(text)| && 0 <= j < |DelimitedRows(text)[i]|
      ensures '\n' !in DelimitedRows(text)[i][j]
    {
      assert lines[i] in lines;
      SplitChars(lines[i], Delimiter);
      assert DelimitedRows(text)[i][j] in Split(lines[i], Delimiter);
    }
  }

  /** A Ruby Array object of cells, which `shift` empties in place. */
  class RubyArray {
    var elems: seq<string>

    constructor(xs: seq<string>)
      ensures elems == xs
    {
      elems := xs;
    }

    /** Array#shift: removes and returns the first element, or nil (None)
        when there is none. */
    method Shift() returns (x: Option<string>)
      modifies this
      ensures old(elems) == [] ==> x == None && elems == []
      ensures old(elems) != [] ==> x == Some(old(elems)[0]) && elems == old(elems)[1..]
    {
      if elems == [] {
        x := None;
      } else {
        x := Some(elems[0]);
        elems := elems[1..];
      }
    }
  }

  /** A row's hash: header name to cell, nil (None) for a header the row ran
      out before. */
  type RowHash = Hash<string, Option<string>>

  /** What `shift` gives on a row: its first cell, or nil. */
  function First(cells: seq<string>): Option<string> {
    if cells == [] then None else Some(cells[0])
  }

  /** The row after n shifts. */
  function Drop(cells: seq<string>, n: nat): seq<string> {
    if n >= |cells| then [] else cells[n..]
  }

  /** One `headers.each { |header| record_hash[header] = record.shift }`
      pass, starting on the cells left. */
  function Fill(h: RowHash, headers: seq<string>, cells: seq<string>): RowHash
    decreases |headers|
  {
    if headers == [] then h
    else Fill(Store(h, headers[0], First(cells)), headers[1..], Drop(cells, 1))
  }

  /** After a pass, the keys are the old keys and every header. */
  lemma {:induction false} FillKeys(h: RowHash, headers: seq<string>, cells: seq<string>)
    ensures forall x :: x in Keys(Fill(h, headers, cells)) <==> x in Keys(h) || x in headers
    decreases |headers|
  {
    if headers != [] {
      FillKeys(Store(h, headers[0], First(cells)), headers[1..], Drop(cells, 1));
      assert forall x :: x in headers <==> x == headers[0] || x in headers[1..];
    }
  }

  /** `until record.empty?` repeating the pass; a pass consumes one cell per
      header. With no headers a non-empty row never empties and the source
      loops forever; the callers exclude that case, and the hash is left as
      it is there. */
  function Drain(h: RowHash, headers: seq<string>, cells: seq<string>): (r: RowHash)
    ensures forall x :: x in Keys(r) ==> x in Keys(h) || x in headers
    ensures forall x :: x in Keys(h) ==> x in Keys(r)
    ensures cells != [] ==> forall x :: x in headers ==> x in Keys(r)
    decreases |cells|
  {
    if cells == [] || headers == [] then h
    else
      FillKeys(h, headers, cells);
      Drain(Fill(h, headers, cells), headers, Drop(cells, |headers|))
  }

  /** The hash `arrays_to_hashes` builds for one row. */
  function RowToHash(headers: seq<string>, cells: seq<string>): (r: RowHash)
    ensures cells == [] ==> r == []
    ensures forall x :: x in Keys(r) ==> x in headers
    ensures cells != [] ==> forall x :: x in headers ==> x in Keys(r)
  {
    Drain([], headers, cells)
  }

  /** The values one pass stores, in header order: the row's cells, then nil
      for every header past the row's end. */
  function Padded(cells: seq<string>, n: nat): (r: seq<Option<string>>)
    ensures |r| == n
  {
    seq(n, i requires 0 <= i < n => if i < |cells| then Some(cells[i]) else None)
  }

  /** A pass stores header i to the row's cell i, or nil. */
  lemma {:induction false} FillStoresPadded(h: RowHash, headers: seq<string>, cells: seq<string>)
    ensures Fill(h, headers, cells) == FromPairs(h, headers, Padded(cells, |headers|))
    decreases |headers|
  {
    if headers != [] {
      var vs := Padded(cells, |headers|);
      assert vs[0] == First(cells);
      assert vs[1..] == Padded(Drop(cells, 1), |headers| - 1);
      FillStoresPadded(Store(h, headers[0], First(cells)), headers[1..], Drop(cells, 1));
    }
  }

  /** An empty row gives an empty hash. */
  lemma EmptyRowEmptyHash(headers: seq<string>)
    ensures RowToHash(headers, []) == []
  {
  }

  /** A non-empty row no longer than the header list takes one pass. */
  lemma ShortRowOnePass(headers: seq<string>, cells: seq<string>)
    requires 0 < |cells| <= |headers|
    ensures RowToHash(headers, cells) == FromPairs([], headers, Padded(cells, |headers|))
  {
    var empty: RowHash := [];
    assert Drop(cells, |headers|) == [];
    assert Drain(Fill(empty, headers, cells), headers, []) == Fill(empty, headers, cells);
    FillStoresPadded(empty, headers, cells);
  }

  /** A non-empty row no longer than the header list, with distinct header
      names, has the headers as keys in their order. */
  lemma ShortRowKeys(headers: seq<string>, cells: seq<string>)
    requires Distinct(headers) && 0 < |cells| <= |headers|
    ensures Keys(RowToHash(headers, cells)) == headers
  {
    var empty: RowHash := [];
    ShortRowOnePass(headers, cells);
    assert Keys(empty) + headers == headers;
    FromPairsDistinctKeys(empty, headers, Padded(cells, |headers|));
  }

  /** A row no longer than the header list, with distinct header names: one
      pass, header i mapped to cell i when the row has one and to nil
      otherwise, and the headers as keys in their order. */
  lemma ShortRowHash(headers: seq<string>, cells: seq<string>, i: nat)
    requires Distinct(headers) && 0 < |cells| <= |headers| && i < |headers|
    ensures Keys(RowToHash(headers, cells)) == headers
    ensures Get(RowToHash(headers, cells), headers[i]) == Some(if i < |cells| then Some(cells[i]) else None)
  {
    ShortRowKeys(headers, cells);
    ShortRowOnePass(headers, cells);
    FromPairsDistinctValues([], headers, Padded(cells, |headers|), i);
  }

  /** `arrays_to_hashes(headers, arrays)`: one hash per row, in order; every
      row array is empty afterwards. A row array that occurs a second time in
      the list was already emptied, so it gives an empty hash. */
  method ArraysToHashes(headers: seq<string>, arrays: seq<RubyArray>) returns (hashes: seq<RowHash>)
    requires |headers| > 0 || forall a :: a in arrays ==> a.elems == []
    modifies set a | a in arrays
    ensures |hashes| == |arrays|
    ensures forall a :: a in arrays ==> a.elems == []
    ensures forall k :: 0 <= k < |arrays| ==>
      hashes[k] == RowToHash(headers, if arrays[k] in arrays[..k] then [] else old(arrays[k].elems))
  {
    ghost var initial := ElemsOf(arrays);
    ghost var expected := AllExpected(arrays, initial);
    assert |headers| > 0 || forall k :: 0 <= k < |arrays| ==> initial[k] == [] by {
      if |headers| == 0 {
        assert forall k :: 0 <= k < |arrays| ==> arrays[k] in arrays;
      }
    }
    hashes := [];
    for i := 0 to |arrays|
      invariant hashes == RowHashes(headers, expected[..i])
      invariant Progress(arrays, initial, ElemsOf(arrays), i)
    {
      hashes := CollectRow(headers, arrays, initial, expected, i, hashes);
    }
    assert expected[..|arrays|] == expected;
  }

  /** One step of `arrays.collect`: the hash of row i is appended, and row
      i's array (wherever else it occurs) is drained. */
  method CollectRow(headers: seq<string>, arrays: seq<RubyArray>, ghost initial: seq<seq<string>>,
                    ghost expected: seq<seq<string>>, i: nat, hashes: seq<RowHash>) returns (hashes': seq<RowHash>)
    requires |initial| == |arrays| && i < |arrays|
    requires expected == AllExpected(arrays, initial)
    requires |headers| > 0 || forall k :: 0 <= k < |arrays| ==> initial[k] == []
    requires hashes == RowHashes(headers, expected[..i])
    requires Progress(arrays, initial, ElemsOf(arrays), i)
    modifies arrays[i]
    ensures hashes' == RowHashes(headers, expected[..i + 1])
    ensures Progress(arrays, initial, ElemsOf(arrays), i + 1)
  {
    var record := arrays[i];
    ghost var before := ElemsOf(arrays);
    ExpectedNow(arrays, initial, before, i);
    var recordHash := RowHashOf(headers, record);
    ghost var after := ElemsOf(arrays);
    assert forall k :: 0 <= k < |arrays| ==> after[k] == if arrays[k] == record then [] else before[k];
    ProgressStep(arrays, initial, before, after, i);
    HashesSnoc(headers, expected, i, hashes, recordHash);
    hashes' := hashes + [recordHash];
  }

  /** Row i holds what `collect` expects to find in it. */
  lemma ExpectedNow(arrays: seq<RubyArray>, initial: seq<seq<string>>, now: seq<seq<string>>, i: nat)
    requires |initial| == |arrays| && |now| == |arrays| && i < |arrays|
    requires Progress(arrays, initial, now, i)
    requires forall k :: 0 <= k < |arrays| && arrays[k] == arrays[i] ==> now[k] == now[i]
    ensures now[i] == Expected(arrays, initial, i)
  {
    if arrays[i] in arrays[..i] {
      var k :| 0 <= k < i && arrays[..i][k] == arrays[i];
      assert now[k] == [];
    }
  }

  /** Appending row i's hash extends the hashes of the rows before it. */
  lemma HashesSnoc(headers: seq<string>, expected: seq<seq<string>>, i: nat, hashes: seq<RowHash>, h: RowHash)
    requires i < |expected|
    requires hashes == RowHashes(headers, expected[..i])
    requires h == RowToHash(headers, expected[i])
    ensures hashes + [h] == RowHashes(headers, expected[..i + 1])
  {
    assert expected[..i + 1] == expected[..i] + [expected[i]];
    RowHashesSnoc(headers, expected[..i], expected[i]);
  }

  /** While `collect` is at row i: the rows before it are empty, and a later
      row whose array has not come up yet still holds its cells. */
  ghost predicate Progress(arrays: seq<RubyArray>, initial: seq<seq<string>>, now: seq<seq<string>>, i: nat)
    requires |initial| == |arrays| && |now| == |arrays| && i <= |arrays|
  {
    (forall k :: 0 <= k < i ==> now[k] == []) &&
    (forall k :: i <= k < |arrays| && arrays[k] !in arrays[..i] ==> now[k] == initial[k])
  }

  /** Draining row i, and every occurrence of its array with it, moves the
      progress on by one row. */
  lemma ProgressStep(arrays: seq<RubyArray>, initial: seq<seq<string>>, before: seq<seq<string>>, after: seq<seq<string>>, i: nat)
    requires |initial| == |arrays| && |before| == |arrays| && |after| == |arrays| && i < |arrays|
    requires Progress(arrays, initial, before, i)
    requires forall k :: 0 <= k < |arrays| ==> after[k] == if arrays[k] == arrays[i] then [] else before[k]
    ensures Progress(arrays, initial, after, i + 1)
  {
    assert arrays[..i + 1] == arrays[..i] + [arrays[i]];
  }

  /** The hashes of a list of rows. */
  function RowHashes(headers: seq<string>, rows: seq<seq<string>>): (r: seq<RowHash>)
    ensures |r| == |rows|
    ensures forall k :: 0 <= k < |rows| ==> r[k] == RowToHash(headers, rows[k])
  {
    seq(|rows|, k requires 0 <= k < |rows| => RowToHash(headers, rows[k]))
  }

  lemma RowHashesSnoc(headers: seq<string>, rows: seq<seq<string>>, row: seq<string>)
    ensures RowHashes(headers, rows + [row]) == RowHashes(headers, rows) + [RowToHash(headers, row)]
  {
  }

  /** The cells each row holds when `collect` reaches it. */
  ghost function AllExpected(arrays: seq<RubyArray>, initial: seq<seq<string>>): (r: seq<seq<string>>)
    requires |initial| == |arrays|
    ensures |r| == |arrays|
    ensures forall k :: 0 <= k < |arrays| ==> r[k] == Expected(arrays, initial, k)
  {
    seq(|arrays|, k requires 0 <= k < |arrays| => Expected(arrays, initial, k))
  }

  /** The cells of every row array, in list order. */
  ghost function ElemsOf(arrays: seq<RubyArray>): (r: seq<seq<string>>)
    reads set a | a in arrays
    ensures |r| == |arrays|
    ensures forall k :: 0 <= k < |arrays| ==> r[k] == arrays[k].elems
  {
    seq(|arrays|, k reads set a | a in arrays requires 0 <= k < |arrays| => arrays[k].elems)
  }

  /** The cells row k still holds when `collect` reaches it: none when the
      same array object came earlier in the list. */
  ghost function Expected(arrays: seq<RubyArray>, initial: seq<seq<string>>, k: nat): seq<string>
    requires |initial| == |arrays| && k < |arrays|
  {
    if arrays[k] in arrays[..k] then [] else initial[k]
  }

  /** The block of `arrays.collect`: passes over the headers until the row
      is empty, storing each shifted cell under its header. */
  method RowHashOf(headers: seq<string>, record: RubyArray) returns (recordHash: RowHash)
    requires |headers| > 0 || record.elems == []
    modifies record
    ensures record.elems == []
    ensures recordHash == RowToHash(headers, old(record.elems))
  {
    recordHash := [];
    while record.elems != []
      invariant |headers| > 0 || record.elems == []
      invariant Drain(recordHash, headers, record.elems) == RowToHash(headers, old(record.elems))
      decreases |record.elems|
    {
      recordHash := FillPass(headers, record, recordHash);
    }
  }

  /** One `headers.each` pass, shifting one cell (or nil) per header. */
  method FillPass(headers: seq<string>, record: RubyArray, h: RowHash) returns (h': RowHash)
    modifies record
    ensures record.elems == Drop(old(record.elems), |headers|)
    ensures h' == Fill(h, headers, old(record.elems))
  {
    h' := h;
    for j := 0 to |headers|
      invariant record.elems == Drop(old(record.elems), j)
      invariant Fill(h', headers[j..], record.elems) == Fill(h, headers, old(record.elems))
    {
      FillStep(h', headers, j, record.elems);
      var v := record.Shift();
      h' := Store(h', headers[j], v);
    }
  }

  /** A pass from header j on stores header j, then goes on from j + 1. */
  lemma FillStep(h: RowHash, headers: seq<string>, j: nat, cells: seq<string>)
    requires j < |headers|
    ensures Fill(h, headers[j..], cells) == Fill(Store(h, headers[j], First(cells)), headers[j + 1..], Drop(cells, 1))
  {
    assert headers[j..][1..] == headers[j + 1..];
  }
}
