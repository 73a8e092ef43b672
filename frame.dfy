/** The in-memory table the cleaner works on: an ordered sequence of named
    columns of equal length. A cell is missing (pandas NaN / NaT) or holds a
    string, a number (exact `real` in place of a float) or a timestamp. */
module Frame {

  datatype Option<T> = None | Some(value: T)

  datatype Cell = Missing | Str(s: string) | Num(x: real) | Date(t: int)

  /** The pandas dtype of a column as far as the cleaner looks at it:
      `np.number`, `object`, or `datetime64`. */
  datatype Kind = Numeric | Text | Temporal

  datatype Column = Column(name: string, kind: Kind, cells: seq<Cell>)

  /** `rows` is the length of the index, which survives even when every
      column is dropped. */
  datatype Table = Table(rows: nat, cols: seq<Column>)

  /** A numeric column holds numbers and NaN; a datetime column timestamps
      and NaT; an object column anything. */
  predicate CellFits(k: Kind, c: Cell) {
    match k
    case Numeric => c.Missing? || c.Num?
    case Temporal => c.Missing? || c.Date?
    case Text => true
  }

  predicate ColumnOk(c: Column, rows: nat) {
    && |c.cells| == rows
    && forall i :: 0 <= i < |c.cells| ==> CellFits(c.kind, c.cells[i])
  }

  predicate DistinctNames(cols: seq<Column>) {
    forall i, j :: 0 <= i < j < |cols| ==> cols[i].name != cols[j].name
  }

  /** Every column is aligned with the index and has cells that fit its
      dtype, and column labels are unique. */
  predicate WellFormed(t: Table) {
    && (forall j :: 0 <= j < |t.cols| ==> ColumnOk(t.cols[j], t.rows))
    && DistinctNames(t.cols)
  }

  predicate HasColumn(cols: seq<Column>, name: string) {
    exists j :: 0 <= j < |cols| && cols[j].name == name
  }

  /** `name in df.columns`, and where. */
  function Lookup(cols: seq<Column>, name: string): (r: Option<nat>)
    ensures r.None? <==> !HasColumn(cols, name)
    ensures r.Some? ==> r.value < |cols| && cols[r.value].name == name
  {
    if cols == [] then None
    else if cols[0].name == name then Some(0)
    else match Lookup(cols[1..], name)
      case None => None
      case Some(j) => Some(j + 1)
  }

  /** With unique labels, the position `Lookup` finds is the only one. */
  lemma LookupUnique(cols: seq<Column>, name: string, j: nat)
    requires DistinctNames(cols)
    requires j < |cols| && cols[j].name == name
    ensures Lookup(cols, name) == Some(j)
  {
    var r := Lookup(cols, name);
    assert r.Some?;
    assert cols[r.value].name == cols[j].name;
  }

  /** `df.notna().sum()` for one column. */
  function NonMissing(cells: seq<Cell>): (n: nat)
    ensures n <= |cells|
    ensures n == 0 <==> forall i :: 0 <= i < |cells| ==> cells[i].Missing?
  {
    if cells == [] then 0
    else (if cells[0].Missing? then 0 else 1) + NonMissing(cells[1..])
  }

  predicate NoMissing(cells: seq<Cell>) {
    forall i :: 0 <= i < |cells| ==> !cells[i].Missing?
  }

  predicate NoDuplicates(names: seq<string>) {
    forall i, j :: 0 <= i < j < |names| ==> names[i] != names[j]
  }

  // ---------------------------------------------------------------------
  // What the table's values look like to Python outside pandas
  // ---------------------------------------------------------------------

  /** The outcome of Python's `float(s)` on a string: an error, NaN (for
      "nan"), or a finite number. */
  datatype FloatText = Invalid | NaN | Number(x: real)

  /** The behaviour the cleaner borrows from Python and pandas without
      defining it: how `astype(str)` renders a number or a timestamp, how
      `float(...)` reads a string, and how `pd.to_datetime(...,
      errors='coerce')` reads a non-missing cell (None for NaT). */
  datatype Env = Env(
    render: Cell -> string,
    parseFloat: string -> FloatText,
    parseDate: Cell -> Option<int>)

  /** `astype(str)` of one cell: strings stay, NaN becomes "nan". */
  function AsText(c: Cell, env: Env): string {
    match c
    case Missing => "nan"
    case Str(s) => s
    case _ => env.render(c)
  }
}
