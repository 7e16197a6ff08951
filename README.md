# ActiveMDB's MDBTools, modelled in Dafny

ActiveMDB reads Microsoft Access (`.mdb`) files by running the mdbtools
programs and reshaping their text output. The module `MDBTools`
(`lib/active_mdb/mdb_tools.rb`) does that reshaping. This project models
the parts of it that are logic rather than process plumbing:

- **Row reassembly in `mdb_sql`** (`Reassembler`, `ReassemblerProperties`).
  The lines that `mdb-sql -Fp -d '::'` prints are turned back into records.
  The first line is dropped and the second is the header. A memo field that
  holds a line break splits a record over several lines, and those lines
  are glued back together. The loop is the imperative method `MdbSql`. It
  is proved equal to the function `Reassemble`, and the properties are
  proved about that function.
- **`compile_conditions`** (`Conditions`). A hash of column name to search
  value becomes a WHERE clause: one fragment per pair, in ascending name
  order, joined with " AND ". The fragment is a `LIKE` test unless a block
  is given.
- **The filtering in `mdb_tables`** (`TableFilter`). The table list can be
  narrowed by an include list or an exclude list, but not both.
- **`delimited_to_arrays` and `arrays_to_hashes`** (`Delimited`). These
  work in place. `RubyString` is rewritten by `gsub!`, and `RubyArray` is
  drained by `shift`. Both are classes whose methods update their one field.
- **`mdb_truth`** (`Values`).
- **The strings `sql_select_where` and `mdb_export` build** (`Queries`).

Ruby's own operations are written out where their edge cases matter
(`RubyText`, `RubyHash`):

- `String#split` with a literal separator drops trailing empty fields, so
  `"".split` is `[]`.
- `String#chomp` removes one "\r\n", "\n" or "\r".
- `Array#delete` removes every equal element.
- A Ruby `Hash` is modelled with its keys in insertion order (the order
  Ruby 1.9 and later keep), and storing an existing key replaces the value
  in place.

The reassembler does the following, and the model does the same:

- The header line is chomped once, as a whole. Its tokens are not chomped
  one by one.
- On a continuation line, the first token is glued on as it came, line
  terminator included. Only the other tokens are chomped.
- On a continuation line, *every* token equal to the first one is deleted,
  not only the first (`Array#delete`).
- A continuation line that splits into no token at all makes Ruby raise
  TypeError (`String << nil`). The model returns `Err(NilConcatenation)`.
  Fewer than two output lines make `readline` raise EOFError, which is
  `Err(EndOfStream)`.

## Model

| member | source | states |
|---|---|---|
| RubyText.Chomp | lib/active_mdb/mdb_tools.rb:102 | the result is a prefix of the token, and the token is the result followed by nothing, "\n", "\r" or "\r\n"; a token ending in "\r\n" loses exactly those two characters, and any token ending in a line terminator gets shorter |
| RubyText.ChompRemovesAppendedLineFeed | lib/active_mdb/mdb_tools.rb:92 | chomp undoes an appended line feed unless the text itself ends in "\r" |
| RubyText.ChompAll | lib/active_mdb/mdb_tools.rb:102 | mapping `chomp` over the tokens gives one token per token, token i being token i chomped |
| RubyText.DeleteAll | lib/active_mdb/mdb_tools.rb:100 | `Array#delete` leaves no copy of the deleted token and never lengthens the line |
| RubyText.DeleteAllKeepsOthers | lib/active_mdb/mdb_tools.rb:100 | `Array#delete` leaves no copy of the token and keeps every other element exactly as often as it occurred (the multiset of the line with the token's count set to zero); the result is shorter by the number of copies |
| RubyText.DeleteAllAppend | lib/active_mdb/mdb_tools.rb:100 | deleting from two lines put together is deleting from each, order kept |
| RubyText.Join | lib/active_mdb/mdb_tools.rb:144 | joining nothing gives "", and a join starts with its first element |
| RubyText.SplitAll | lib/active_mdb/mdb_tools.rb:96 | the fields of a split, before Ruby drops trailing empty ones: at least one field, and joining them back with the separator gives the text again |
| RubyText.SplitAllLeftmost | lib/active_mdb/mdb_tools.rb:96 | each field of a split ends at the leftmost occurrence of the separator: no field but the last, followed by the separator minus its last character, holds the separator, so the split is the one a left-to-right scan gives even for the overlapping "::" |
| RubyText.SplitOverlapExample | lib/active_mdb/mdb_tools.rb:96 | with the overlapping "::", "a:::b" splits into "a" and ":b" |
| RubyText.DropTrailingEmpty | lib/active_mdb/mdb_tools.rb:96 | the kept fields are a prefix that does not end in an empty field, and only empty fields are dropped |
| RubyText.Split | lib/active_mdb/mdb_tools.rb:96 | a split never ends in an empty field |
| RubyText.SplitChars | lib/active_mdb/mdb_tools.rb:196 | every character of every field comes from the split text |
| RubyText.SplitOnCharAvoidsIt | lib/active_mdb/mdb_tools.rb:196 | splitting on a line feed leaves no line feed in any line |
| RubyText.SplitAvoidsSeparator | lib/active_mdb/mdb_tools.rb:96 | no field of a split holds the separator, so no token holds "::" |
| RubyText.ReplaceCrlf | lib/active_mdb/mdb_tools.rb:195 | after `gsub!(/\r\n/, ' ')` no "\r\n" is left, the text is no longer, and its first character is the space or the unchanged first character |
| RubyText.ReplaceCrlfKeepsPlainText | lib/active_mdb/mdb_tools.rb:195 | text without "\r\n" is left unchanged |
| RubyText.ReplaceCrlfJoinsFields | lib/active_mdb/mdb_tools.rb:195 | the rewritten text is the text between the "\r\n" pairs, taken left to right, joined with single spaces: nothing else changes |
| RubyHash.Get | lib/active_mdb/mdb_tools.rb:109 | a lookup succeeds exactly for stored keys and returns the stored pair's value |
| RubyHash.Store | lib/active_mdb/mdb_tools.rb:109 | after storing, the key maps to the value; a new key is appended to the key order and an existing key keeps its place |
| RubyHash.StoreElsewhere | lib/active_mdb/mdb_tools.rb:109 | storing a key leaves every other key's value alone |
| RubyHash.FromPairsKeys | lib/active_mdb/mdb_tools.rb:108-110 | filling a hash from name/value lists gives exactly the old keys and the names as keys |
| RubyHash.FromPairsElsewhere | lib/active_mdb/mdb_tools.rb:108-110 | keys not among the names keep their values |
| RubyHash.FromPairsDistinctKeys | lib/active_mdb/mdb_tools.rb:108-110 | with distinct names, the keys are the old keys followed by the names in order |
| RubyHash.FromPairsDistinctValues | lib/active_mdb/mdb_tools.rb:108-110 | with distinct names, name i maps to value i |
| RubyHash.FromPairsSize | lib/active_mdb/mdb_tools.rb:108-110 | storing the pairs adds at most one entry per pair |
| RubyHash.FromPairsLast | lib/active_mdb/mdb_tools.rb:108-110 | the last pair is stored last, so its value wins for its key even when an earlier name repeats it |
| Reassembler.GlueTokens | lib/active_mdb/mdb_tools.rb:97-103 | a continuation keeps the pending tokens before the last, appends a space and the line's first token to the last, and follows it with the line's remaining tokens, chomped, after every copy of the first token is deleted |
| Reassembler.Header | lib/active_mdb/mdb_tools.rb:92 | no header name holds the delimiter, and the last name is not empty |
| Reassembler.ToRecord | lib/active_mdb/mdb_tools.rb:108-110 | the record has at most one entry per header name, and the last header name maps to the last token |
| Reassembler.Glue | lib/active_mdb/mdb_tools.rb:98-102 | gluing keeps the pending tokens before the last, extends the last with a space and the line's first token, and adds fewer tokens than the line has |
| Reassembler.Merge | lib/active_mdb/mdb_tools.rb:96-103 | the nil concatenation happens exactly on a continuation with no token; otherwise the pending tokens are kept (the last one extended on a continuation) and at most the line's tokens are added |
| Reassembler.Step | lib/active_mdb/mdb_tools.rb:96-111 | one line fails exactly as the merge does; otherwise records are only appended, at most one, an emitted record resets the pending row, and a row left pending is never of header width |
| Reassembler.SplitLines | lib/active_mdb/mdb_tools.rb:96 | line i gives the delimiter split of line i |
| Reassembler.Final | lib/active_mdb/mdb_tools.rb:94-113 | the loop only appends records, at most one per line, and fails only with the nil concatenation on a line with no token |
| Reassembler.Reassemble | lib/active_mdb/mdb_tools.rb:91-115 | fewer than two lines is EOFError and nothing else is; there are at most as many records as data lines |
| Reassembler.MdbSql | lib/active_mdb/mdb_tools.rb:91-115 | the in-place loop over `full_line` and the record array returns exactly what `Reassemble` specifies |
| Reassembler.StepLine | lib/active_mdb/mdb_tools.rb:96-111 | one pass of the `pipe.each` block, updating the pending list and the record array, does exactly what `Step` specifies |
| Reassembler.MergeLine | lib/active_mdb/mdb_tools.rb:96-103 | the in-place merge of one line (`<<`, `last <<`, `delete`, `flatten!`) gives exactly what `Merge` specifies, including the nil-concatenation error |
| Reassembler.FinalStep | lib/active_mdb/mdb_tools.rb:94-113 | the loop from line k on is one pass on line k, then the loop from line k + 1 on, and stops at the first error |
| Reassembler.BuildRecord | lib/active_mdb/mdb_tools.rb:108-110 | the `each_index` loop builds the hash from header names to pending tokens |
| ReassemblerProperties.FinalAppend | lib/active_mdb/mdb_tools.rb:94-113 | processing a + b is processing a, then b from the state a left |
| ReassemblerProperties.FinalWellFormed | lib/active_mdb/mdb_tools.rb:94-113 | lines of exactly header width give one record each, in order, and leave nothing pending |
| ReassemblerProperties.StepWellFormed | lib/active_mdb/mdb_tools.rb:96-111 | a line of header width on an empty pending row is emitted at once as the record of its chomped tokens |
| ReassemblerProperties.WellFormedStream | lib/active_mdb/mdb_tools.rb:91-111 | the first line is dropped, the second is the header, and each well-formed data line gives its record, in input order |
| ReassemblerProperties.RowRecordValues | lib/active_mdb/mdb_tools.rb:102-110 | with distinct names, a well-formed line's record has the header as keys in order and maps name i to chomped token i |
| ReassemblerProperties.WellFormedStreamValues | lib/active_mdb/mdb_tools.rb:91-111 | the same on the whole stream: record k maps header name i to the chomped token i of data line k |
| ReassemblerProperties.ContinuationMerges | lib/active_mdb/mdb_tools.rb:97-112 | a short line continued by a line that fills the header width gives one glued record, not two partial ones |
| ReassemblerProperties.GlueStep | lib/active_mdb/mdb_tools.rb:97-112 | a continuation line that brings the pending row to header width emits the glued row and resets the pending row |
| ReassemblerProperties.GluedRecordValues | lib/active_mdb/mdb_tools.rb:97-110 | in a glued record, the columns before the break hold their chomped tokens, the broken column holds its first part, a space and the unchomped first token of the next line, and the rest hold the next line's other tokens, chomped |
| ReassemblerProperties.GlueAt | lib/active_mdb/mdb_tools.rb:97-103 | token i of a glued row: a pending token, chomped; the broken token, chomped, with a space and the next line's first token; or a remaining token of the next line, chomped |
| ReassemblerProperties.TrailingFragmentDropped | lib/active_mdb/mdb_tools.rb:94-115 | a trailing line that does not reach the header width adds no record |
| ReassemblerProperties.OverflowEmitsNothing | lib/active_mdb/mdb_tools.rb:97-106 | once the pending row is longer than the header, it only grows and no record is emitted |
| ReassemblerProperties.OverflowRows | lib/active_mdb/mdb_tools.rb:97-115 | after rows that leave the pending row overflowing, further rows add no record |
| ReassemblerProperties.OverflowIsFinal | lib/active_mdb/mdb_tools.rb:91-115 | if the pending row overflows after some line, the records emitted up to then are the result |
| ReassemblerProperties.RecordShaped | lib/active_mdb/mdb_tools.rb:108-111 | an emitted record has exactly the header names as keys, in header order when they are distinct |
| ReassemblerProperties.ToRecordKeys | lib/active_mdb/mdb_tools.rb:108-110 | the hash built from the header has exactly the header names as keys, in header order when they are distinct |
| ReassemblerProperties.FinalShaped | lib/active_mdb/mdb_tools.rb:94-113 | every record the loop emits has that shape |
| ReassemblerProperties.RecordsCarryHeaderFields | lib/active_mdb/mdb_tools.rb:91-115 | every record `mdb_sql` returns has exactly the header names as keys |
| ReassemblerProperties.ExampleTokens | lib/active_mdb/mdb_tools.rb:98-102 | gluing "b::b::c" onto "1::a" gives the tokens "1", "a b", "c" |
| ReassemblerProperties.DeleteRemovesEveryCopy | lib/active_mdb/mdb_tools.rb:97-111 | because every copy of the repeated first token is deleted, those two lines complete one three-column record |
| Conditions.BelowIrreflexive | lib/active_mdb/mdb_tools.rb:138 | no name sorts before itself |
| Conditions.BelowAsymmetric | lib/active_mdb/mdb_tools.rb:138 | two names never sort before each other |
| Conditions.BelowTransitive | lib/active_mdb/mdb_tools.rb:138 | the name order is transitive |
| Conditions.BelowTotal | lib/active_mdb/mdb_tools.rb:138 | two different names are always ordered |
| Conditions.AscendingHead | lib/active_mdb/mdb_tools.rb:138 | in an ascending list, every later pair has a larger name than the first |
| Conditions.Insert | lib/active_mdb/mdb_tools.rb:138 | inserting adds exactly that pair |
| Conditions.InsertAscending | lib/active_mdb/mdb_tools.rb:138 | inserting a pair with a new name into an ascending list keeps it ascending |
| Conditions.SortByName | lib/active_mdb/mdb_tools.rb:138 | `sort_by { k.to_s }` is a permutation of the pairs |
| Conditions.SortByNameAscending | lib/active_mdb/mdb_tools.rb:138 | the sorted pairs of a hash are in strictly ascending name order |
| Conditions.AscendingSameHead | lib/active_mdb/mdb_tools.rb:138 | two ascending arrangements of the same pairs start with the same pair |
| Conditions.AscendingUnique | lib/active_mdb/mdb_tools.rb:138 | two ascending arrangements of the same pairs are equal |
| Conditions.Fragment | lib/active_mdb/mdb_tools.rb:139-143 | with a block, the block's result; without, the name, then ` like '%`, then the value exactly as given with nothing escaped, then `%'`, each at its position, and nothing else |
| Conditions.FragmentNoEscaping | lib/active_mdb/mdb_tools.rb:142 | a value holding a quote is put into the LIKE test unchanged |
| Conditions.Fragments | lib/active_mdb/mdb_tools.rb:138-143 | one fragment per pair, fragment i being that of pair i |
| Conditions.CompileConditions | lib/active_mdb/mdb_tools.rb:137-145 | an empty hash gives "" |
| Conditions.ConditionsInNameOrder | lib/active_mdb/mdb_tools.rb:137-145 | the text is the fragments of the pairs in ascending name order, joined with " AND " |
| Conditions.InsertionOrderIrrelevant | lib/active_mdb/mdb_tools.rb:137-145 | two hashes with the same pairs, inserted in any order, give the same text |
| Conditions.SinglePair | lib/active_mdb/mdb_tools.rb:137-145 | one pair gives its fragment alone, with no " AND " |
| Conditions.DocumentedExample | lib/active_mdb/mdb_tools.rb:128-129 | first_name Summer and last_name Roberts give "first_name like '%Summer%' AND last_name like '%Roberts%'" |
| TableFilter.Select | lib/active_mdb/mdb_tools.rb:61 | `select` keeps, in order, every matching name as often as it is listed and nothing else |
| TableFilter.Reject | lib/active_mdb/mdb_tools.rb:57 | `delete_if` keeps, in order, every non-matching name as often as it is listed and nothing else |
| TableFilter.MdbTables | lib/active_mdb/mdb_tools.rb:51-64 | both options raise MDBToolsError and nothing else does; with neither, the tool's list comes back unchanged |
| TableFilter.Matches | lib/active_mdb/mdb_tools.rb:56-61 | an empty entry, an empty pattern part, matches every name, and a name always matches an entry equal to it |
| TableFilter.ExcludeKeepsNonMatching | lib/active_mdb/mdb_tools.rb:55-58 | with `:exclude`, the result keeps the list's order and holds exactly the listed names matching no entry |
| TableFilter.IncludeKeepsMatching | lib/active_mdb/mdb_tools.rb:59-62 | with `:include`, the result keeps the list's order and holds exactly the listed names matching some entry |
| TableFilter.IncludeExcludePartition | lib/active_mdb/mdb_tools.rb:55-62 | including and excluding with the same entries split the list between them |
| TableFilter.EmptyEntries | lib/active_mdb/mdb_tools.rb:56-61 | an empty entry list is the empty pattern, so it matches every name: including keeps all and excluding keeps none |
| TableFilter.SelectAll | lib/active_mdb/mdb_tools.rb:61 | selecting with no entries keeps the whole list |
| Values.MdbTruth | lib/active_mdb/mdb_tools.rb:229-244 | false, 0 and "0" give 0 and nothing else does; true, 1 and "1" give 1 and nothing else does; everything else gives nil |
| Values.MdbTruthIdempotent | lib/active_mdb/mdb_tools.rb:229-244 | normalising the result again changes nothing |
| Delimited.RubyString.GsubCrlf | lib/active_mdb/mdb_tools.rb:195 | the string object is rewritten in place with every "\r\n" replaced |
| Delimited.DelimitedRows | lib/active_mdb/mdb_tools.rb:194-197 | there is one row per line of the rewritten text |
| Delimited.DelimitedToArrays | lib/active_mdb/mdb_tools.rb:194-197 | the argument is rewritten in place, and the rows returned are the delimiter splits of its lines |
| Delimited.NoCellHoldsLineBreak | lib/active_mdb/mdb_tools.rb:194-197 | no cell holds a line feed |
| Delimited.RubyArray.Shift | lib/active_mdb/mdb_tools.rb:204 | `shift` removes and returns the first cell, or returns nil and changes nothing on an empty array |
| Delimited.FillStoresPadded | lib/active_mdb/mdb_tools.rb:203-205 | one pass stores header i to cell i, or to nil past the row's end |
| Delimited.FillPass | lib/active_mdb/mdb_tools.rb:203-205 | the `headers.each` loop shifts one cell per header and stores it, as one pass specifies |
| Delimited.FillKeys | lib/active_mdb/mdb_tools.rb:203-205 | after one pass the keys are the old keys and every header |
| Delimited.Drain | lib/active_mdb/mdb_tools.rb:202-206 | the passes keep every key, add only header names, and store every header when the row is not empty |
| Delimited.RowToHash | lib/active_mdb/mdb_tools.rb:200-207 | an empty row gives an empty hash; otherwise the keys are exactly the header names |
| Delimited.RowHashOf | lib/active_mdb/mdb_tools.rb:200-208 | the `until record.empty?` loop empties the row and builds the row's hash |
| Delimited.CollectRow | lib/active_mdb/mdb_tools.rb:200-208 | one step of `collect` appends the hash of the row's cells (none when the same array came earlier) and leaves that array empty |
| Delimited.ProgressStep | lib/active_mdb/mdb_tools.rb:200-208 | emptying row i's array, wherever it occurs, keeps every earlier row empty and every later unvisited array intact |
| Delimited.ArraysToHashes | lib/active_mdb/mdb_tools.rb:199-209 | one hash per array, in order, and every array is empty afterwards; an array object that occurs twice gives an empty hash the second time |
| Delimited.EmptyRowEmptyHash | lib/active_mdb/mdb_tools.rb:202 | an empty row gives an empty hash |
| Delimited.ShortRowOnePass | lib/active_mdb/mdb_tools.rb:202-206 | a non-empty row no longer than the header list takes a single pass |
| Delimited.ShortRowKeys | lib/active_mdb/mdb_tools.rb:202-206 | with distinct headers, a non-empty row no longer than the header list has exactly the headers as keys, in header order |
| Delimited.ShortRowHash | lib/active_mdb/mdb_tools.rb:199-209 | with distinct headers, a row of header length or shorter maps header i to cell i, maps the headers past the row's end to nil, and has the headers as keys in order |
| Queries.Quote | lib/active_mdb/mdb_tools.rb:70-72 | a quoted name is the name between two double quotes |
| Queries.ColumnListCons | lib/active_mdb/mdb_tools.rb:70 | a list of columns is written as quoted names separated by single spaces |
| Queries.ColumnList | lib/active_mdb/mdb_tools.rb:69-75 | no attributes give `*`, a string gives its quoted form, another object its text, and a list the quoted names starting with the first |
| Queries.SelectSql | lib/active_mdb/mdb_tools.rb:68-77 | the statement starts with `select <columns> from <table> `; with no conditions that is all of it, and with conditions the rest is exactly `where <conditions>` |
| Queries.SelectSqlExtends | lib/active_mdb/mdb_tools.rb:76-77 | the statement with conditions is the one without followed by `where <conditions>`, and the conditions can be read back from it |
| Queries.FormatArg | lib/active_mdb/mdb_tools.rb:163-171 | a given delimiter gives `-d` and the dumped delimiter; otherwise sql gives "-I " and csv gives "-d ',' "; any other format is an error, and nothing else is |
| Queries.ExportArgs | lib/active_mdb/mdb_tools.rb:156-174 | the format error is raised exactly when there is no delimiter and the format is neither sql nor csv; the first argument is the format argument, "-H " follows it unless headers are exactly true, "-S" comes last unless sanitising is exactly false, and there is nothing else |
| Queries.ExportDefaults | lib/active_mdb/mdb_tools.rb:155-174 | with no options, the arguments are "-I ", "-H ", "-S" |
| Queries.DelimiterOverridesFormat | lib/active_mdb/mdb_tools.rb:163-164 | a given delimiter wins over any format, even an unknown one |
| Queries.ExportCommand | lib/active_mdb/mdb_tools.rb:175 | the command can be built exactly when the arguments can; it is the program and a space, then the arguments concatenated, then a space, the file, a space and the dumped table name, with nothing else |
| Queries.ExportCommandDefaults | lib/active_mdb/mdb_tools.rb:155-175 | with no options the command is `mdb-export -I -H -S <file> <dumped table>` |

## Left out

- Running the mdbtools programs is not modelled. That covers `IO.popen`, the
  pipe write and close in `mdb_sql`, and every backtick call. Their output
  is an input to the model instead: the lines `mdb_sql` reads, and the
  listing `mdb_tables` splits.
- These are thin wrappers around the programs and are not modelled:
  `check_file`, `valid_file?`, `mdb_version`, `check_table`,
  `field_names_for`, `faked_count`, `describe_table`, `mdb_schema`,
  `table_to_csv` and `backends`.
- `sanitize!` is not modelled because it is a regular-expression
  substitution.
- `methodize` is not modelled because it calls ActiveSupport's inflector,
  which is not part of this model.
- TableFilter.Matches treats the include and exclude entries as literal
  substrings. The Ruby regular-expression engine is not modelled, so the
  entries are assumed to hold no regular-expression syntax.
- TableFilter.MdbTables takes each option as a list of strings. The
  `String#to_a` of a single string given as an option is not modelled.
- Values.MdbTruth does not model floats. `0 === 0.0` in Ruby is not
  covered.
- Queries.ExportArgs takes `String#dump` as a parameter. A delimiter that
  is not a String, which has no `dump` and would raise in Ruby, is dumped
  as its printed text instead.
- Hash key order is modelled as Ruby 1.9 and later keep it, in insertion
  order. Under Ruby 1.8, which the rest of the model follows (the argument
  array interpolated by concatenation), only the key set and the values hold.
  This concerns RubyHash.Store, RubyHash.FromPairsDistinctKeys,
  ReassemblerProperties.ToRecordKeys, ReassemblerProperties.RecordShaped,
  ReassemblerProperties.RowRecordValues, Delimited.ShortRowKeys and
  Delimited.ShortRowHash, whose statements about key order hold from Ruby
  1.9 on.
- Queries.ExportCommand writes the argument array as Ruby 1.8 interpolates
  it, by concatenation.
- Conditions.CompileConditions takes column names as their `to_s` strings,
  so a hash with two keys that print alike (such as `:a` and `"a"`) is not
  modelled. `sort_by` leaves the order of such ties open.
- Conditions.Fragment takes the values as their `to_s` strings too. The
  block receives the `to_s` strings of the name and the value, not the
  original Symbol, Integer or String objects, and its result is taken as a
  string. A block that depends on the class of its arguments (quoting
  strings but leaving numbers bare, say) cannot be expressed.
- Delimited.RowToHash cannot describe a non-empty row with an empty header
  list. Ruby loops forever there. ArraysToHashes and RowHashOf require that
  this case does not arise, and RowToHash returns the hash unchanged there.
- Delimited.ArraysToHashes models rows longer than the header list, where
  later passes overwrite earlier ones, through RowToHash. No separate
  lemma states their values column by column.
