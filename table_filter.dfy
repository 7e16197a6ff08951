/** The filtering in `MDBTools#mdb_tables`: the table names that
    `mdb-tables -1` lists, one per line, optionally narrowed by an include or
    an exclude list. The tool's output is the input here; the entries of a
    list are ORed into one regular expression, taken here as literal
    substrings (entries free of regular-expression syntax). */
module TableFilter {
  import opened Wrappers
  import opened RubyText
  import opened MdbConstants

  /** The `:include` and `:exclude` options; None when the key is absent (or
      nil). */
  datatype TableOptions = TableOptions(included: Option<seq<string>>, excluded: Option<seq<string>>)

  /** The MDBToolsError raised when both options are given. */
  datatype TablesError = BothIncludeAndExclude

  /** `name =~ Regexp.new(entries.join('|'))`: the name contains one of the
      entries; no entries at all make the empty pattern, which matches every
      name. */
  predicate Matches(name: string, entries: seq<string>)
    ensures "" in entries ==> Matches(name, entries)
    ensures name in entries ==> Matches(name, entries)
  {
    entries == [] || exists e :: e in entries && Contains(name, e)
  }

  /** ys is xs with some elements left out, order kept. */
  predicate SubsequenceOf(ys: seq<string>, xs: seq<string>)
    decreases |xs|
  {
    if ys == [] then true
    else if xs == [] then false
    else if ys[0] == xs[0] then SubsequenceOf(ys[1..], xs[1..])
    else SubsequenceOf(ys, xs[1..])
  }

  /** `select { |name| name =~ regex }`. */
  function Select(names: seq<string>, entries: seq<string>): (r: seq<string>)
    ensures SubsequenceOf(r, names)
    ensures forall n :: n in r ==> Matches(n, entries)
    ensures forall n :: Matches(n, entries) ==> multiset(r)[n] == multiset(names)[n]
    ensures forall n :: !Matches(n, entries) ==> multiset(r)[n] == 0
  {
    if names == [] then []
    else
      var rest := Select(names[1..], entries);
      assert names == [names[0]] + names[1..];
      if Matches(names[0], entries) then [names[0]] + rest else rest
  }

  /** `delete_if { |name| name =~ regex }`. */
  function Reject(names: seq<string>, entries: seq<string>): (r: seq<string>)
    ensures SubsequenceOf(r, names)
    ensures forall n :: n in r ==> !Matches(n, entries)
    ensures forall n :: !Matches(n, entries) ==> multiset(r)[n] == multiset(names)[n]
    ensures forall n :: Matches(n, entries) ==> multiset(r)[n] == 0
  {
    if names == [] then []
    else
      var rest := Reject(names[1..], entries);
      assert names == [names[0]] + names[1..];
      if Matches(names[0], entries) then rest else [names[0]] + rest
  }

  /** `mdb_tables(mdb_file, options)` given the tool's listing. */
  function MdbTables(listing: string, options: TableOptions): (r: Result<seq<string>, TablesError>)
    ensures r.Err? <==> options.included.Some? && options.excluded.Some?
    ensures options.included.None? && options.excluded.None? ==> r == Ok(Split(listing, LineBreak))
  {
    var names := Split(listing, LineBreak);
    if options.included.None? && options.excluded.None? then Ok(names)
    else if options.included.Some? && options.excluded.Some? then Err(BothIncludeAndExclude)
    else if options.excluded.Some? then Ok(Reject(names, options.excluded.value))
    else Ok(Select(names, options.included.value))
  }

  /** With `:exclude` alone: in order, exactly the listed names that match no
      entry, each as often as listed. */
  lemma ExcludeKeepsNonMatching(listing: string, entries: seq<string>)
    ensures MdbTables(listing, TableOptions(None, Some(entries))).Ok?
    ensures var r := MdbTables(listing, TableOptions(None, Some(entries))).value;
      SubsequenceOf(r, Split(listing, LineBreak)) &&
      forall n :: n in r <==> n in Split(listing, LineBreak) && !Matches(n, entries)
  {
    var names := Split(listing, LineBreak);
    var r := Reject(names, entries);
    forall n ensures n in r <==> n in names && !Matches(n, entries) {
      assert n in r <==> multiset(r)[n] > 0;
      assert n in names <==> multiset(names)[n] > 0;
    }
  }

  /** With `:include` alone: in order, exactly the listed names that match
      some entry, each as often as listed. */
  lemma IncludeKeepsMatching(listing: string, entries: seq<string>)
    ensures MdbTables(listing, TableOptions(Some(entries), None)).Ok?
    ensures var r := MdbTables(listing, TableOptions(Some(entries), None)).value;
      SubsequenceOf(r, Split(listing, LineBreak)) &&
      forall n :: n in r <==> n in Split(listing, LineBreak) && Matches(n, entries)
  {
    var names := Split(listing, LineBreak);
    var r := Select(names, entries);
    forall n ensures n in r <==> n in names && Matches(n, entries) {
      assert n in r <==> multiset(r)[n] > 0;
      assert n in names <==> multiset(names)[n] > 0;
    }
  }

  /** The same list used once to include and once to exclude splits the
      listing in two: every listed name lands on exactly one side. */
  lemma IncludeExcludePartition(listing: string, entries: seq<string>)
    ensures var names := Split(listing, LineBreak);
      multiset(Select(names, entries)) + multiset(Reject(names, entries)) == multiset(names)
  {
    var names := Split(listing, LineBreak);
    var s := Select(names, entries);
    var x := Reject(names, entries);
    assert forall n :: (multiset(s) + multiset(x))[n] == multiset(names)[n];
  }

  /** An empty list of entries filters nothing when including and everything
      when excluding. */
  lemma EmptyEntries(listing: string)
    ensures MdbTables(listing, TableOptions(Some([]), None)) == Ok(Split(listing, LineBreak))
    ensures MdbTables(listing, TableOptions(None, Some([]))) == Ok([])
  {
    var names := Split(listing, LineBreak);
    SelectAll(names);
  }

  lemma {:induction false} SelectAll(names: seq<string>)
    ensures Select(names, []) == names
    decreases |names|
  {
    if names != [] {
      SelectAll(names[1..]);
    }
  }
}
