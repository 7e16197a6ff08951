/** The command text that `MDBTools#sql_select_where` and
    `MDBTools#mdb_export` build before handing it to the mdbtools programs.
    Running the programs is not modelled; String#dump, which quotes the
    export delimiter and the table name, is a parameter. */
module Queries {
  import opened Wrappers
  import opened RubyText
  import opened Values

  /** The `attributes` argument of `sql_select_where`. */
  datatype Attributes =
    | Absent                  // nil or false
    | Names(names: seq<string>)  // anything answering `join`: an array
    | Name(name: string)      // a String
    | Other(shown: string)    // any other object, as `to_s` shows it

  /** `"\"#{a}\""`. */
  function Quote(a: string): (r: string)
    ensures |r| == |a| + 2 && r[0] == '"' && r[|r| - 1] == '"' && r[1..|r| - 1] == a
  {
    "\"" + a + "\""
  }

  /** The column list: quoted names separated by single spaces, a quoted
      string, `*` when absent, or the object's text. */
  function ColumnList(attributes: Attributes): (r: string)
    ensures attributes.Absent? ==> r == "*"
    ensures attributes.Name? ==> r == Quote(attributes.name)
    ensures attributes.Other? ==> r == attributes.shown
    ensures attributes.Names? && attributes.names == [] ==> r == ""
    ensures attributes.Names? && attributes.names != [] ==>
      StartsWith(r, Quote(attributes.names[0])) && r[0] == '"'
  {
    match attributes
    case Names(ns) => Join(seq(|ns|, i requires 0 <= i < |ns| => Quote(ns[i])), " ")
    case Name(n) => Quote(n)
    case Absent => "*"
    case Other(shown) => shown
  }

  /** The head of every statement: `select <columns> from <table> `. */
  function SelectHead(tableName: string, attributes: Attributes): string {
    "select " + ColumnList(attributes) + " from " + tableName + " "
  }

  /** The SQL statement `sql_select_where` passes to `mdb_sql`; the
      conditions are None when nil or false. The head comes first, then
      `where <conditions>` when there are conditions, and nothing else. */
  function SelectSql(tableName: string, attributes: Attributes, conditions: Option<string>): (sql: string)
    ensures StartsWith(sql, SelectHead(tableName, attributes))
    ensures conditions.None? ==> sql == SelectHead(tableName, attributes)
    ensures conditions.Some? ==>
      |sql| == |SelectHead(tableName, attributes)| + 6 + |conditions.value| &&
      sql[|SelectHead(tableName, attributes)|..] == "where " + conditions.value
  {
    var where := if conditions.Some? then "where " + conditions.value else "";
    var prefix := SelectHead(tableName, attributes);
    assert (prefix + where)[..|prefix|] == prefix;
    assert (prefix + where)[|prefix|..] == where;
    prefix + where
  }

  /** Conditions only extend the statement: the statement with conditions is
      the one without, followed by `where ` and the conditions, which can be
      read back from it. */
  lemma SelectSqlExtends(tableName: string, attributes: Attributes, conditions: string)
    ensures SelectSql(tableName, attributes, Some(conditions))
      == SelectSql(tableName, attributes, None) + "where " + conditions
    ensures var sql := SelectSql(tableName, attributes, Some(conditions));
      sql[|SelectSql(tableName, attributes, None)| + 6..] == conditions
  {
    var head := SelectHead(tableName, attributes);
    var sql := SelectSql(tableName, attributes, Some(conditions));
    assert sql == sql[..|head|] + sql[|head|..];
    assert sql[|head|..][6..] == conditions;
  }

  /** A list of column names is written as their quoted forms, space
      separated: one name gives just its quoted form, and each further name
      adds a space and its quoted form. */
  lemma ColumnListCons(n: string, ns: seq<string>)
    ensures ColumnList(Names([n] + ns)) == if ns == [] then Quote(n) else Quote(n) + " " + ColumnList(Names(ns))
  {
    var qs := seq(|ns|, i requires 0 <= i < |ns| => Quote(ns[i]));
    var all := seq(|[n] + ns|, i requires 0 <= i < |[n] + ns| => Quote(([n] + ns)[i]));
    assert all == [Quote(n)] + qs;
    JoinCons(Quote(n), qs, " ");
  }

  /** The options `mdb_export` reads after merging its defaults; None for a
      key the caller did not give. */
  datatype ExportOptions = ExportOptions(
    delimiter: Option<Value>, format: Option<Value>, headers: Option<Value>, sanitize: Option<Value>)

  /** The MDBToolsError raised for a format other than sql and csv. */
  datatype ExportError = UnknownFormat(format: Value)

  /** `defaults.merge(options)[key]`. */
  function Merged(given: Option<Value>, default: Value): Value {
    if given.Some? then given.value else default
  }

  /** Ruby truthiness: everything but nil and false. */
  predicate Truthy(v: Value) {
    v != Nil && v != Bool(false)
  }

  /** The first argument: the dumped delimiter when one is given, otherwise
      the format's flag; an unknown format is an error. */
  function FormatArg(delimiter: Value, format: Value, dump: string -> string): (r: Result<string, ExportError>)
    ensures r.Err? <==> !Truthy(delimiter) && format != Str("sql") && format != Str("csv")
    ensures r.Ok? ==> |r.value| >= 3 && r.value[0] == '-' && (r.value[1] == 'd' || r.value[1] == 'I')
    ensures Truthy(delimiter) ==> r == Ok("-d " + dump(ShowValue(delimiter)))
    ensures !Truthy(delimiter) && format == Str("sql") ==> r == Ok("-I ")
    ensures !Truthy(delimiter) && format == Str("csv") ==> r == Ok("-d ',' ")
  {
    if Truthy(delimiter) then
      var arg := "-d " + dump(ShowValue(delimiter));
      assert arg[..3] == "-d ";
      Ok(arg)
    else if format == Str("sql") then Ok("-I ")
    else if format == Str("csv") then Ok("-d ',' ")
    else Err(UnknownFormat(format))
  }

  /** The argument list of `mdb_export`: the format argument, then "-H "
      unless headers are exactly true, then "-S" unless sanitising is exactly
      false. `dump` is String#dump, applied to a delimiter given as text. */
  function ExportArgs(options: ExportOptions, dump: string -> string): (r: Result<seq<string>, ExportError>)
    ensures r.Err? <==> (!Truthy(Merged(options.delimiter, Nil)) &&
      Merged(options.format, Str("sql")) != Str("sql") && Merged(options.format, Str("sql")) != Str("csv"))
    ensures r.Ok? ==> |r.value| >= 1 && r.value[0] == FormatArg(Merged(options.delimiter, Nil), Merged(options.format, Str("sql")), dump).value
    ensures r.Ok? ==> (|r.value| == 1 + (if Merged(options.headers, Bool(false)) == Bool(true) then 0 else 1)
                                     + (if Merged(options.sanitize, Bool(true)) == Bool(false) then 0 else 1))
    ensures r.Ok? ==> ("-H " in r.value <==> Merged(options.headers, Bool(false)) != Bool(true))
    ensures r.Ok? ==> ("-S" in r.value <==> Merged(options.sanitize, Bool(true)) != Bool(false))
    ensures r.Ok? && "-H " in r.value ==> r.value[1] == "-H "
    ensures r.Ok? && "-S" in r.value ==> r.value[|r.value| - 1] == "-S"
  {
    match FormatArg(Merged(options.delimiter, Nil), Merged(options.format, Str("sql")), dump)
    case Err(e) => Err(e)
    case Ok(arg) =>
      assert arg != "-H " && arg != "-S" by {
        assert "-H "[1] == 'H' && |"-S"| == 2;
      }
      var headers := if Merged(options.headers, Bool(false)) == Bool(true) then [] else ["-H "];
      var sanitize := if Merged(options.sanitize, Bool(true)) == Bool(false) then [] else ["-S"];
      Ok([arg] + headers + sanitize)
  }

  /** How a value prints with `to_s`, for the delimiter given to String#dump. */
  function ShowValue(v: Value): string {
    match v
    case Nil => ""
    case Bool(b) => if b then "true" else "false"
    case Int(i) => IntToString(i)
    case Str(s) => s
  }

  function IntToString(i: int): string
    decreases if i < 0 then 1 - i else i
  {
    if i < 0 then "-" + IntToString(-i)
    else if i < 10 then [(('0' as int) + i) as char]
    else IntToString(i / 10) + [(('0' as int) + i % 10) as char]
  }

  /** With no options, an SQL export without headers and with sanitising. */
  lemma ExportDefaults(dump: string -> string)
    ensures ExportArgs(ExportOptions(None, None, None, None), dump) == Ok(["-I ", "-H ", "-S"])
  {
    assert FormatArg(Nil, Str("sql"), dump) == Ok("-I ");
    assert ["-I "] + ["-H "] + ["-S"] == ["-I ", "-H ", "-S"];
  }

  /** A delimiter overrides the format, even an unknown one. */
  lemma DelimiterOverridesFormat(options: ExportOptions, dump: string -> string)
    requires options.delimiter.Some? && Truthy(options.delimiter.value)
    ensures ExportArgs(options, dump).Ok?
    ensures ExportArgs(options, dump).value[0] == "-d " + dump(ShowValue(options.delimiter.value))
  {
  }

  /** The command line of `mdb_export`: the arguments interpolated as Ruby
      1.8 prints an array (concatenated), then the file and the dumped table
      name. */
  function ExportCommand(mdbFile: string, tableName: string, options: ExportOptions, dump: string -> string): (r: Result<string, ExportError>)
    ensures r.Ok? <==> ExportArgs(options, dump).Ok?
    ensures r.Ok? ==> StartsWith(r.value, "bin/mdbtools/mdb-export " + ExportArgs(options, dump).value[0])
    ensures r.Ok? ==> var tail := " " + mdbFile + " " + dump(tableName);
      |r.value| >= |tail| && r.value[|r.value| - |tail|..] == tail
    ensures r.Ok? ==> var tail := " " + mdbFile + " " + dump(tableName);
      |r.value| == |"bin/mdbtools/mdb-export "| + |Join(ExportArgs(options, dump).value, "")| + |tail| &&
      r.value[|"bin/mdbtools/mdb-export "|..|r.value| - |tail|] == Join(ExportArgs(options, dump).value, "")
  {
    match ExportArgs(options, dump)
    case Err(e) => Err(e)
    case Ok(args) =>
      var program := "bin/mdbtools/mdb-export ";
      var flags := Join(args, "");
      var tail := " " + mdbFile + " " + dump(tableName);
      assert program + flags + " " + mdbFile + " " + dump(tableName) == (program + flags) + tail;
      assert ((program + flags) + tail)[..|program + flags|] == program + flags;
      assert (program + flags)[..|program + args[0]|] == program + args[0];
      assert ((program + flags) + tail)[|program + flags|..] == tail;
      assert ((program + flags) + tail)[|program|..|program + flags|] == flags;
      Ok(program + flags + " " + mdbFile + " " + dump(tableName))
  }

  /** With no options the command exports SQL inserts, without headers and
      sanitised: `mdb-export -I -H -S <file> <dumped table>`. */
  lemma ExportCommandDefaults(mdbFile: string, tableName: string, dump: string -> string)
    ensures ExportCommand(mdbFile, tableName, ExportOptions(None, None, None, None), dump)
      == Ok("bin/mdbtools/mdb-export -I -H -S " + mdbFile + " " + dump(tableName))
  {
    ExportDefaults(dump);
    var args := ["-I ", "-H ", "-S"];
    JoinCons("-I ", args[1..], "");
    JoinCons("-H ", args[2..], "");
    assert args[1..] == ["-H "] + args[2..];
    assert args[2..] == ["-S"];
    assert Join(args, "") == "-I -H -S";
    assert "bin/mdbtools/mdb-export " + "-I -H -S" + " " == "bin/mdbtools/mdb-export -I -H -S ";
  }
}
