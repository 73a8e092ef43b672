/** The steps of `clean_airbnb_data` as functions on tables: column pruning
    (step 1), the per-column conversions of steps 2, 4, 6, 7 and 8 and the
    loops that apply them by name, and the price outlier filter (step 5).
    Step 3 is in module Amenities. */
module Steps {
  import opened Frame
  import opened Stats
  import opened Currency

  // ---------------------------------------------------------------------
  // Step 1: drop sparse columns
  // ---------------------------------------------------------------------

  /** `df.notna().mean() >= 0.75`. On a table without rows the mean is NaN
      and the comparison is false. */
  predicate Dense(c: Column, rows: nat) {
    rows > 0 && 4 * NonMissing(c.cells) >= 3 * rows
  }

  lemma QuarterFraction(n: real, d: real)
    requires d > 0.0
    ensures 4.0 * n >= 3.0 * d <==> n / d >= 0.75
  {
    var f := n / d;
    assert f * d == n;
    if f >= 0.75 {
      assert (f - 0.75) * d >= 0.0;
    } else {
      assert (0.75 - f) * d > 0.0;
    }
  }

  /** The integer test is the fraction test of the source. */
  lemma DenseIsThreeQuarters(c: Column, rows: nat)
    requires rows > 0
    ensures Dense(c, rows) <==> (NonMissing(c.cells) as real) / (rows as real) >= 0.75
  {
    QuarterFraction(NonMissing(c.cells) as real, rows as real);
  }

  function KeepDense(cols: seq<Column>, rows: nat): (r: seq<Column>)
    ensures |r| <= |cols|
    ensures forall c :: c in r <==> c in cols && Dense(c, rows)
    ensures rows == 0 ==> r == []
  {
    if cols == [] then []
    else (if Dense(cols[0], rows) then [cols[0]] else []) + KeepDense(cols[1..], rows)
  }

  /** Survivors keep their relative order: the selection distributes over
      concatenation. */
  lemma {:induction false} KeepDenseConcat(a: seq<Column>, b: seq<Column>, rows: nat)
    ensures KeepDense(a + b, rows) == KeepDense(a, rows) + KeepDense(b, rows)
  {
    if a == [] {
      assert a + b == b;
    } else {
      assert (a + b)[0] == a[0];
      assert (a + b)[1..] == a[1..] + b;
      KeepDenseConcat(a[1..], b, rows);
    }
  }

  lemma {:induction false} KeepDenseDistinct(cols: seq<Column>, rows: nat)
    requires DistinctNames(cols)
    ensures DistinctNames(KeepDense(cols, rows))
  {
    if cols != [] {
      KeepDenseDistinct(cols[1..], rows);
      var r := KeepDense(cols, rows);
      var rest := KeepDense(cols[1..], rows);
      forall j | 0 <= j < |rest|
        ensures rest[j].name != cols[0].name
      {
        assert rest[j] in rest;
        var q :| 0 <= q < |cols[1..]| && cols[1..][q] == rest[j];
        assert cols[q + 1] == rest[j];
      }
    }
  }

  /** Step 1: a column survives exactly when at least three quarters of its
      cells are present; the rows stay as they are. */
  function Prune(t: Table): (r: Table)
    requires WellFormed(t)
    ensures WellFormed(r) && r.rows == t.rows
    ensures forall c :: c in r.cols <==> c in t.cols && Dense(c, t.rows)
    ensures t.rows == 0 ==> r.cols == []
  {
    var kept := KeepDense(t.cols, t.rows);
    KeepDenseDistinct(t.cols, t.rows);
    assert forall j :: 0 <= j < |kept| ==> kept[j] in t.cols;
    Table(t.rows, kept)
  }

  /** After step 1 every column has at least 75% of its cells present. */
  lemma PruneDense(t: Table)
    requires WellFormed(t)
    ensures var r := Prune(t);
      forall j :: 0 <= j < |r.cols| ==> 4 * NonMissing(r.cols[j].cells) >= 3 * r.rows
  {
    var r := Prune(t);
    forall j | 0 <= j < |r.cols|
      ensures 4 * NonMissing(r.cols[j].cells) >= 3 * r.rows
    {
      assert r.cols[j] in r.cols;
    }
  }

  // ---------------------------------------------------------------------
  // Per-column conversions
  // ---------------------------------------------------------------------

  /** The non-missing numbers of a column, in row order: a value is
      observed exactly when some cell holds it, and in a column of numbers
      and gaps there are as many observations as present cells. */
  function Observed(cells: seq<Cell>): (r: seq<real>)
    ensures |r| <= |cells|
    ensures |r| == 0 <==> forall i :: 0 <= i < |cells| ==> !cells[i].Num?
    ensures forall v :: v in r <==> exists i :: 0 <= i < |cells| && cells[i] == Num(v)
    ensures (forall i :: 0 <= i < |cells| ==> cells[i].Missing? || cells[i].Num?) ==> |r| == NonMissing(cells)
  {
    if cells == [] then []
    else
      var rest := Observed(cells[1..]);
      assert forall i :: 1 <= i < |cells| ==> cells[i] == cells[1..][i - 1];
      (if cells[0].Num? then [cells[0].x] else []) + rest
  }

  /** Observing distributes over concatenation, so the observations keep
      the row order and each cell contributes its own value only. */
  lemma {:induction false} ObservedConcat(a: seq<Cell>, b: seq<Cell>)
    ensures Observed(a + b) == Observed(a) + Observed(b)
  {
    if a == [] {
      assert a + b == b;
    } else {
      assert (a + b)[1..] == a[1..] + b;
      ObservedConcat(a[1..], b);
    }
  }

  /** Step 6 on one column: `fillna(median())`, the median taken once over
      the column's non-missing values. A column without any value stays as
      it is (its median is NaN). */
  function FillMedian(c: Column): (r: Column)
    ensures r.name == c.name && r.kind == c.kind && |r.cells| == |c.cells|
  {
    var vs := Observed(c.cells);
    if |vs| == 0 then c
    else
      var m := Median(vs);
      c.(cells := seq(|c.cells|, i requires 0 <= i < |c.cells| =>
        if c.cells[i].Missing? then Num(m) else c.cells[i]))
  }

  /** Step 6 on one column: present cells are kept; missing ones take the
      median of the values that were there before the fill, a value with at
      least half of those values on either side; with no value present
      nothing changes. */
  lemma FillMedianSpec(c: Column)
    ensures var r := FillMedian(c); var vs := Observed(c.cells);
      && (forall i :: 0 <= i < |c.cells| && !c.cells[i].Missing? ==> r.cells[i] == c.cells[i])
      && (|vs| == 0 ==> r == c)
      && (|vs| > 0 ==> forall i :: 0 <= i < |c.cells| && c.cells[i].Missing? ==>
            && r.cells[i] == Num(Median(vs))
            && 2 * CountAtMost(vs, r.cells[i].x) >= |vs|
            && 2 * CountAtLeast(vs, r.cells[i].x) >= |vs|)
  {
    var vs := Observed(c.cells);
    if |vs| > 0 {
      MedianSplitsInHalves(vs);
    }
  }

  /** A numeric column with at least one value has no missing cell left. */
  lemma FillMedianFills(c: Column, rows: nat)
    requires ColumnOk(c, rows) && c.kind == Numeric && NonMissing(c.cells) > 0
    ensures NoMissing(FillMedian(c).cells)
  {
    var i :| 0 <= i < |c.cells| && !c.cells[i].Missing?;
    assert c.cells[i].Num?;
  }

  const Placeholder: string := "Unknown"

  /** Step 7 on one column: `fillna('Unknown')`. */
  function FillUnknown(c: Column): (r: Column)
    ensures r.name == c.name && r.kind == c.kind && |r.cells| == |c.cells|
    ensures NoMissing(r.cells)
    ensures forall i :: 0 <= i < |c.cells| ==>
      r.cells[i] == (if c.cells[i].Missing? then Str(Placeholder) else c.cells[i])
  {
    c.(cells := seq(|c.cells|, i requires 0 <= i < |c.cells| =>
      if c.cells[i].Missing? then Str(Placeholder) else c.cells[i]))
  }

  /** `map({'t': 1, 'f': 0, np.nan: 0})` on one cell; any other value has no
      key in the dict and becomes NaN. */
  function SuperhostFlag(c: Cell): (r: Cell)
    ensures r == Num(1.0) <==> c == Str("t")
    ensures r == Num(0.0) <==> c == Str("f") || c == Missing
    ensures r == Missing <==> !(c == Str("t") || c == Str("f") || c == Missing)
  {
    match c
    case Missing => Num(0.0)
    case Str(s) => if s == "t" then Num(1.0) else if s == "f" then Num(0.0) else Missing
    case _ => Missing
  }

  /** Step 8 on one column; the result is numeric. */
  function MapSuperhost(c: Column): (r: Column)
    ensures r.name == c.name && r.kind == Numeric && |r.cells| == |c.cells|
    ensures ColumnOk(r, |c.cells|)
  {
    Column(c.name, Numeric, seq(|c.cells|, i requires 0 <= i < |c.cells| => SuperhostFlag(c.cells[i])))
  }

  /** `pd.to_datetime(errors='coerce')` on one cell: NaN stays NaT, a cell
      that does not read as a date becomes NaT. */
  function DateCell(c: Cell, env: Env): (r: Cell)
    ensures r.Missing? || r.Date?
    ensures c.Missing? ==> r.Missing?
  {
    if c.Missing? then Missing
    else match env.parseDate(c)
      case None => Missing
      case Some(d) => Date(d)
  }

  /** Step 4 on one column; the result is a datetime column. */
  function ParseDateColumn(c: Column, env: Env): (r: Column)
    ensures r.name == c.name && r.kind == Temporal && |r.cells| == |c.cells|
    ensures ColumnOk(r, |c.cells|)
  {
    Column(c.name, Temporal, seq(|c.cells|, i requires 0 <= i < |c.cells| => DateCell(c.cells[i], env)))
  }

  /** Neither fill touches a column that has no missing cell. */
  lemma FillKeepsComplete(c: Column)
    requires NoMissing(c.cells)
    ensures FillMedian(c) == c && FillUnknown(c) == c
  {
    assert FillUnknown(c).cells == c.cells;
    assert |Observed(c.cells)| > 0 ==> FillMedian(c).cells == c.cells;
  }

  /** After step 6 a numeric column has either no missing cell or no value
      at all. */
  lemma FillMedianSettles(c: Column, rows: nat)
    requires ColumnOk(c, rows) && c.kind == Numeric
    ensures var r := FillMedian(c); NoMissing(r.cells) || NonMissing(r.cells) == 0
  {
    if |Observed(c.cells)| == 0 {
      forall i | 0 <= i < |c.cells| ensures c.cells[i].Missing? {
        assert CellFits(c.kind, c.cells[i]);
      }
    } else {
      var i :| 0 <= i < |c.cells| && c.cells[i].Num?;
      FillMedianFills(c, rows);
    }
  }

  /** Step 7 runs before step 8: in an object `host_is_superhost` column a
      missing cell is first filled with "Unknown", which is no key of the
      mapping, so it ends up missing rather than 0, although the mapping
      itself sends a missing cell to 0. */
  lemma UnknownSuperhostIsMissing(c: Column, i: nat)
    requires c.kind == Text && i < |c.cells| && c.cells[i].Missing?
    ensures SuperhostFlag(Missing) == Num(0.0)
    ensures MapSuperhost(FillUnknown(c)).cells[i] == Missing
  {
    assert FillUnknown(c).cells[i] == Str(Placeholder);
    assert Placeholder != "t" && Placeholder != "f" by {
      assert |Placeholder| == 7;
    }
  }

  // ---------------------------------------------------------------------
  // Applying a conversion to columns chosen by name or by dtype
  // ---------------------------------------------------------------------

  datatype ColumnOp = CurrencyOp | DateOp | MedianOp | UnknownOp | SuperhostOp

  /** `fillna('Unknown')` is only ever applied to object columns. */
  predicate Suits(op: ColumnOp, c: Column) {
    op.UnknownOp? ==> c.kind == Text
  }

  function ApplyOp(op: ColumnOp, c: Column, env: Env): (r: Column)
    ensures r.name == c.name && |r.cells| == |c.cells|
    ensures ColumnOk(c, |c.cells|) && Suits(op, c) ==> ColumnOk(r, |c.cells|)
  {
    match op
    case CurrencyOp => CleanCurrencyColumn(c, env)
    case DateOp => ParseDateColumn(c, env)
    case MedianOp =>
      var r := FillMedian(c);
      assert ColumnOk(c, |c.cells|) ==> ColumnOk(r, |c.cells|) by {
        if ColumnOk(c, |c.cells|) {
          forall i | 0 <= i < |r.cells| ensures CellFits(r.kind, r.cells[i]) {
            assert CellFits(c.kind, c.cells[i]);
          }
        }
      }
      r
    case UnknownOp => FillUnknown(c)
    case SuperhostOp => MapSuperhost(c)
  }

  /** `for col in names: if col in df.columns: df[col] = op(df[col])` */
  function MapNamed(cols: seq<Column>, names: seq<string>, op: ColumnOp, env: Env): (r: seq<Column>)
    ensures |r| == |cols|
    ensures forall i :: 0 <= i < |cols| ==> r[i].name == cols[i].name
  {
    seq(|cols|, i requires 0 <= i < |cols| =>
      if cols[i].name in names then ApplyOp(op, cols[i], env) else cols[i])
  }

  /** Replacing columns keeps the table well formed. */
  lemma MapNamedWellFormed(t: Table, names: seq<string>, op: ColumnOp, env: Env)
    requires WellFormed(t)
    requires forall j :: 0 <= j < |t.cols| && t.cols[j].name in names ==> Suits(op, t.cols[j])
    ensures WellFormed(Table(t.rows, MapNamed(t.cols, names, op, env)))
  {
    var r := MapNamed(t.cols, names, op, env);
    forall j | 0 <= j < |r|
      ensures ColumnOk(r[j], t.rows)
    {
      assert ColumnOk(t.cols[j], t.rows);
    }
  }

  /** Applying the conversion for one more name, not listed yet, is the same
      as applying it for the longer list: the loop over names builds
      `MapNamed` one name at a time. */
  lemma MapNamedStep(cols: seq<Column>, names: seq<string>, n: string, op: ColumnOp, env: Env)
    requires n !in names
    ensures MapNamed(MapNamed(cols, names, op, env), [n], op, env) == MapNamed(cols, names + [n], op, env)
  {
  }

  /** A column outside the list is carried over as it is; one in the list
      is carried over converted. */
  lemma MapNamedKeeps(cols: seq<Column>, names: seq<string>, op: ColumnOp, env: Env, c: Column)
    requires c in cols
    ensures (if c.name in names then ApplyOp(op, c, env) else c) in MapNamed(cols, names, op, env)
  {
    var j :| 0 <= j < |cols| && cols[j] == c;
    assert MapNamed(cols, names, op, env)[j] == (if c.name in names then ApplyOp(op, c, env) else c);
  }

  /** `df.select_dtypes(...).columns`: labels of the columns of one dtype,
      in column order. */
  function NamesOfKind(cols: seq<Column>, k: Kind): (r: seq<string>)
    ensures forall n :: n in r <==> exists j :: 0 <= j < |cols| && cols[j].name == n && cols[j].kind == k
  {
    if cols == [] then []
    else
      var rest := NamesOfKind(cols[1..], k);
      assert forall j :: 1 <= j < |cols| ==> cols[j] == cols[1..][j - 1];
      (if cols[0].kind == k then [cols[0].name] else []) + rest
  }

  lemma {:induction false} NamesOfKindDistinct(cols: seq<Column>, k: Kind)
    requires DistinctNames(cols)
    ensures NoDuplicates(NamesOfKind(cols, k))
  {
    if cols != [] {
      NamesOfKindDistinct(cols[1..], k);
      var rest := NamesOfKind(cols[1..], k);
      forall i | 0 <= i < |rest|
        ensures rest[i] != cols[0].name
      {
        assert rest[i] in rest;
        var j :| 0 <= j < |cols[1..]| && cols[1..][j].name == rest[i] && cols[1..][j].kind == k;
        assert cols[j + 1].name == rest[i];
      }
    }
  }

  /** Per-column conversion by dtype, the reference the loop is held to. */
  function MapKind(cols: seq<Column>, k: Kind, op: ColumnOp, env: Env): (r: seq<Column>)
    ensures |r| == |cols|
  {
    seq(|cols|, i requires 0 <= i < |cols| =>
      if cols[i].kind == k then ApplyOp(op, cols[i], env) else cols[i])
  }

  /** With unique labels, collecting the labels of one dtype and converting
      the columns with those labels converts exactly the columns of that
      dtype. */
  lemma MapNamedOfKind(cols: seq<Column>, k: Kind, op: ColumnOp, env: Env)
    requires DistinctNames(cols)
    ensures MapNamed(cols, NamesOfKind(cols, k), op, env) == MapKind(cols, k, op, env)
  {
    NamesOfKindExact(cols, k);
  }

  /** With unique labels, a column's label is collected exactly when the
      column has the dtype. */
  lemma NamesOfKindExact(cols: seq<Column>, k: Kind)
    requires DistinctNames(cols)
    ensures forall i :: 0 <= i < |cols| ==> (cols[i].name in NamesOfKind(cols, k) <==> cols[i].kind == k)
  {
    var names := NamesOfKind(cols, k);
    forall i | 0 <= i < |cols|
      ensures cols[i].name in names <==> cols[i].kind == k
    {
      if cols[i].name in names {
        var j :| 0 <= j < |cols| && cols[j].name == cols[i].name && cols[j].kind == k;
        assert i == j;
      }
    }
  }

  // ---------------------------------------------------------------------
  // Steps 2, 4, 6, 7 and 8 on the table
  // ---------------------------------------------------------------------

  const CurrencyColumns: seq<string> := ["price", "extra_people"]
  const DateColumns: seq<string> := ["host_since", "first_review", "last_review"]
  const SuperhostColumn: string := "host_is_superhost"

  function NormalizeCurrency(t: Table, env: Env): (r: Table)
    requires WellFormed(t)
    ensures WellFormed(r) && r.rows == t.rows
  {
    MapNamedWellFormed(t, CurrencyColumns, CurrencyOp, env);
    Table(t.rows, MapNamed(t.cols, CurrencyColumns, CurrencyOp, env))
  }

  function ParseDates(t: Table, env: Env): (r: Table)
    requires WellFormed(t)
    ensures WellFormed(r) && r.rows == t.rows
  {
    MapNamedWellFormed(t, DateColumns, DateOp, env);
    Table(t.rows, MapNamed(t.cols, DateColumns, DateOp, env))
  }

  function ImputeNumeric(t: Table, env: Env): (r: Table)
    requires WellFormed(t)
    ensures WellFormed(r) && r.rows == t.rows
  {
    MapNamedOfKind(t.cols, Numeric, MedianOp, env);
    MapNamedWellFormed(t, NamesOfKind(t.cols, Numeric), MedianOp, env);
    Table(t.rows, MapKind(t.cols, Numeric, MedianOp, env))
  }

  function ImputeText(t: Table, env: Env): (r: Table)
    requires WellFormed(t)
    ensures WellFormed(r) && r.rows == t.rows
  {
    MapNamedOfKind(t.cols, Text, UnknownOp, env);
    MapNamedWellFormed(t, NamesOfKind(t.cols, Text), UnknownOp, env);
    Table(t.rows, MapKind(t.cols, Text, UnknownOp, env))
  }

  function EncodeSuperhost(t: Table, env: Env): (r: Table)
    requires WellFormed(t)
    ensures WellFormed(r) && r.rows == t.rows
  {
    MapNamedWellFormed(t, [SuperhostColumn], SuperhostOp, env);
    Table(t.rows, MapNamed(t.cols, [SuperhostColumn], SuperhostOp, env))
  }

  // ---------------------------------------------------------------------
  // Step 5: price outliers
  // ---------------------------------------------------------------------

  const PriceCap: real := 2000.0

  /** The outcome of `cell <= 2000` inside pandas: NaN compares false, and a
      string or a timestamp cannot be compared with an int (TypeError). */
  datatype Comparison = Holds | Fails | Raises

  /** `price <= 2000` on one cell: true only for a number within the cap,
      false for a larger number and for NaN, and a TypeError for a string
      or a timestamp. */
  function AtMostCap(c: Cell): (r: Comparison)
    ensures r == Holds <==> c.Num? && c.x <= PriceCap
    ensures r == Raises <==> c.Str? || c.Date?
  {
    match c
    case Num(x) => if x <= PriceCap then Holds else Fails
    case Missing => Fails
    case _ => Raises
  }

  predicate StrictlyIncreasing(idx: seq<nat>) {
    forall a, b :: 0 <= a < b < |idx| ==> idx[a] < idx[b]
  }

  /** The positions, from `i` on, of the rows the mask keeps. */
  function KeptRows(cells: seq<Cell>, i: nat): (r: seq<nat>)
    requires i <= |cells|
    ensures StrictlyIncreasing(r)
    ensures forall k :: 0 <= k < |r| ==> i <= r[k] < |cells|
    ensures forall j :: j in r <==> i <= j < |cells| && AtMostCap(cells[j]) == Holds
    decreases |cells| - i
  {
    if i == |cells| then []
    else
      var rest := KeptRows(cells, i + 1);
      (if AtMostCap(cells[i]) == Holds then [i] else []) + rest
  }

  function SelectRows(c: Column, idx: seq<nat>): (r: Column)
    requires forall k :: 0 <= k < |idx| ==> idx[k] < |c.cells|
    ensures r.name == c.name && r.kind == c.kind && |r.cells| == |idx|
    ensures forall k :: 0 <= k < |idx| ==> r.cells[k] == c.cells[idx[k]]
  {
    c.(cells := seq(|idx|, k requires 0 <= k < |idx| => c.cells[idx[k]]))
  }

  datatype CleanError = PriceNotComparable

  datatype Result<T> = Ok(value: T) | Failure(error: CleanError)

  predicate Raising(cells: seq<Cell>) {
    exists i :: 0 <= i < |cells| && AtMostCap(cells[i]) == Raises
  }

  /** Step 5: `df[df['price'] <= 2000]` when there is a `price` column. */
  function FilterOutliers(t: Table): (r: Result<Table>)
    requires WellFormed(t)
    ensures r.Ok? ==> WellFormed(r.value) && r.value.rows <= t.rows
  {
    match Lookup(t.cols, "price")
    case None => Ok(t)
    case Some(p) =>
      var cells := t.cols[p].cells;
      if Raising(cells) then Failure(PriceNotComparable)
      else
        var idx := KeptRows(cells, 0);
        assert forall k :: 0 <= k < |idx| ==> idx[k] < t.rows;
        IndicesBound(idx, t.rows);
        var cols := seq(|t.cols|, j requires 0 <= j < |t.cols| => SelectRows(t.cols[j], idx));
        assert WellFormed(Table(|idx|, cols)) by {
          forall j | 0 <= j < |cols| ensures ColumnOk(cols[j], |idx|) {
            assert ColumnOk(t.cols[j], t.rows);
          }
        }
        Ok(Table(|idx|, cols))
  }

  /** A strictly increasing sequence of positions below `n` has at most `n`
      entries. */
  lemma {:induction false} IndicesBound(idx: seq<nat>, n: nat)
    requires StrictlyIncreasing(idx)
    requires forall k :: 0 <= k < |idx| ==> idx[k] < n
    ensures |idx| <= n
  {
    if idx != [] {
      var last := idx[|idx| - 1];
      var init := idx[..|idx| - 1];
      assert forall k :: 0 <= k < |init| ==> init[k] < last;
      IndicesBound(init, last);
    }
  }

  /** Every price cell is a number of at most 2000. */
  predicate PriceCapped(t: Table) {
    forall j, i :: 0 <= j < |t.cols| && t.cols[j].name == "price" && 0 <= i < |t.cols[j].cells| ==>
      t.cols[j].cells[i].Num? && t.cols[j].cells[i].x <= PriceCap
  }

  /** Step 5 with a `price` column at position `p`: when a price cell is a
      string (the conversion of step 2 failed) the comparison raises;
      otherwise the rows kept are exactly those whose price is a number of
      at most 2000 (a missing price compares false), in their original
      order, in every column, and afterwards every price is capped. */
  lemma FilterOutliersSpec(t: Table, p: nat)
    requires WellFormed(t)
    requires p < |t.cols| && t.cols[p].name == "price"
    ensures var r := FilterOutliers(t); var idx := KeptRows(t.cols[p].cells, 0);
      && (r.Failure? <==> Raising(t.cols[p].cells))
      && (r.Ok? ==>
            && r.value.rows == |idx| && |r.value.cols| == |t.cols|
            && StrictlyIncreasing(idx)
            && (forall i :: i in idx <==> 0 <= i < t.rows && AtMostCap(t.cols[p].cells[i]) == Holds)
            && (forall j :: 0 <= j < |t.cols| ==>
                  r.value.cols[j].name == t.cols[j].name && r.value.cols[j].kind == t.cols[j].kind)
            && (forall j, k :: 0 <= j < |t.cols| && 0 <= k < |idx| ==>
                  r.value.cols[j].name == t.cols[j].name && r.value.cols[j].cells[k] == t.cols[j].cells[idx[k]])
            && PriceCapped(r.value))
  {
    LookupUnique(t.cols, "price", p);
    assert ColumnOk(t.cols[p], t.rows);
    var r := FilterOutliers(t);
    if r.Ok? {
      var idx := KeptRows(t.cols[p].cells, 0);
      forall j, i | 0 <= j < |r.value.cols| && r.value.cols[j].name == "price" && 0 <= i < |r.value.cols[j].cells|
        ensures r.value.cols[j].cells[i].Num? && r.value.cols[j].cells[i].x <= PriceCap
      {
        assert j == p;
        assert idx[i] in idx;
      }
    }
  }

  /** Without a `price` column step 5 leaves the table alone. */
  lemma FilterOutliersAbsent(t: Table)
    requires WellFormed(t) && !HasColumn(t.cols, "price")
    ensures FilterOutliers(t) == Ok(t)
  {
  }
}
