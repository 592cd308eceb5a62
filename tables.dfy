/**
 * The slice of a pandas DataFrame the pipeline uses: named columns over
 * rectangular rows of cells, selection of columns by name, and the failures
 * that pandas raises when a column is missing or ambiguous or a cell cannot
 * become an integer.
 */
module Tables {
  import opened Sequences

  datatype Option<T> = None | Some(value: T)

  /** A cell as read from CSV: an integer, a float, text, or NaN. */
  datatype Cell = Int(i: int) | Real(x: real) | Text(s: string) | Missing

  /** An exception that ends the run (the script catches none). */
  datatype Failure =
    | MissingColumn(name: string)    // KeyError / AttributeError on a column lookup
    | AmbiguousColumn(name: string)  // the name labels several columns, so `df[name]` is a frame
    | NotAnInteger(column: string, value: Cell)  // ValueError from `int(x)`
    | NoColumns                      // IndexError from `df.columns[-1]`
    | LengthMismatch(expected: nat, actual: nat)  // ValueError from assigning `df.columns`

  datatype Result<T> = Ok(value: T) | Err(failure: Failure)

  type Row = seq<Cell>

  datatype Table = Table(columns: seq<string>, rows: seq<Row>) {
    /** Every row has one cell per column. */
    predicate WellFormed() {
      forall r :: r in rows ==> |r| == |columns|
    }
  }

  /** Position of the first column named `x`, if any. */
  function IndexOf(s: seq<string>, x: string): (r: Option<nat>)
    ensures r.None? <==> x !in s
    ensures r.Some? ==> r.value < |s| && s[r.value] == x && x !in s[..r.value]
  {
    if x in s then Some(FirstIndex(s, x)) else None
  }

  /** The cells of column `k`. */
  function Column(rows: seq<Row>, k: nat): (c: seq<Cell>)
    requires forall r :: r in rows ==> k < |r|
    ensures |c| == |rows|
    ensures forall i :: 0 <= i < |rows| ==> c[i] == rows[i][k]
  {
    seq(|rows|, i requires 0 <= i < |rows| => rows[i][k])
  }

  /** Positions of `names` among `columns`, or the first name that is absent. */
  function Positions(columns: seq<string>, names: seq<string>): (r: Result<seq<nat>>)
    ensures r.Ok? <==> forall n :: n in names ==> n in columns
    ensures r.Ok? ==> |r.value| == |names|
    ensures r.Ok? ==> forall j :: 0 <= j < |names| ==> IndexOf(columns, names[j]) == Some(r.value[j])
    ensures r.Ok? ==> forall j :: 0 <= j < |r.value| ==> r.value[j] < |columns|
    ensures r.Err? ==> r.failure.MissingColumn? && r.failure.name in names && r.failure.name !in columns
  {
    if names == [] then Ok([])
    else match IndexOf(columns, names[0])
      case None => Err(MissingColumn(names[0]))
      case Some(k) =>
        match Positions(columns, names[1..])
        case Err(e) => Err(e)
        case Ok(ks) => Ok([k] + ks)
  }

  /** `df[names]`: the named columns, in the order given. */
  function Project(t: Table, names: seq<string>): (r: Result<Table>)
    requires t.WellFormed()
    ensures r.Ok? <==> forall n :: n in names ==> n in t.columns
    ensures r.Err? ==> r.failure.MissingColumn? && r.failure.name in names && r.failure.name !in t.columns
    ensures r.Ok? ==> r.value.columns == names && r.value.WellFormed() && |r.value.rows| == |t.rows|
    ensures r.Ok? ==> forall i, j :: 0 <= i < |t.rows| && 0 <= j < |names| ==>
      r.value.rows[i][j] == t.rows[i][IndexOf(t.columns, names[j]).value]
  {
    match Positions(t.columns, names)
    case Err(e) => Err(e)
    case Ok(ks) =>
      var rows := seq(|t.rows|, i requires 0 <= i < |t.rows| =>
        seq(|ks|, j requires 0 <= j < |ks| => t.rows[i][ks[j]]));
      assert forall r :: r in rows ==> |r| == |names|;
      Ok(Table(names, rows))
  }
}
