/** The cleaner as the source writes it: a data frame whose columns are
    overwritten, added and dropped in place, driven by loops over column
    labels. Each method is held to the table functions of modules Steps,
    Amenities and Pipeline. */
module Cleaner {
  import opened Frame
  import opened Amenities
  import opened Steps
  import Pipeline

  class DataFrame {
    var rows: nat
    var columns: seq<Column>

    ghost predicate Valid()
      reads this
    {
      WellFormed(Table(rows, columns))
    }

    function View(): Table
      reads this
    {
      Table(rows, columns)
    }

    constructor (t: Table)
      requires WellFormed(t)
      ensures Valid() && View() == t
    {
      rows := t.rows;
      columns := t.cols;
    }

    /** `if name in df.columns: df[name] = op(df[name])` */
    method ReplaceColumn(name: string, op: ColumnOp, env: Env)
      requires Valid()
      requires forall j :: 0 <= j < |columns| && columns[j].name == name ==> Suits(op, columns[j])
      modifies this
      ensures Valid() && rows == old(rows)
      ensures columns == MapNamed(old(columns), [name], op, env)
    {
      MapNamedWellFormed(View(), [name], op, env);
      match Lookup(columns, name)
      case None =>
        assert columns == MapNamed(columns, [name], op, env);
      case Some(p) =>
        ghost var before := columns;
        columns := columns[p := ApplyOp(op, columns[p], env)];
        assert forall i :: 0 <= i < |before| ==> (before[i].name in [name] <==> i == p);
        assert columns == MapNamed(before, [name], op, env);
    }

    /** `for col in names: if col in df.columns: df[col] = op(df[col])` */
    method ApplyToNamed(names: seq<string>, op: ColumnOp, env: Env)
      requires Valid() && NoDuplicates(names)
      requires forall j :: 0 <= j < |columns| && columns[j].name in names ==> Suits(op, columns[j])
      modifies this
      ensures Valid() && rows == old(rows)
      ensures columns == MapNamed(old(columns), names, op, env)
    {
      for k := 0 to |names|
        invariant Valid() && rows == old(rows)
        invariant columns == MapNamed(old(columns), names[..k], op, env)
      {
        assert names[k] !in names[..k];
        forall j | 0 <= j < |columns| && columns[j].name == names[k]
          ensures Suits(op, columns[j])
        {
          assert columns[j] == old(columns)[j];
        }
        ReplaceColumn(names[k], op, env);
        MapNamedStep(old(columns), names[..k], names[k], op, env);
        assert names[..k + 1] == names[..k] + [names[k]];
      }
      assert names[..|names|] == names;
    }

    /** `df.drop(columns=names, inplace=True)`. It does not require a valid
        frame, because step 3 calls it on the frame just built by `concat`,
        before the amenities columns are gone; dropping keeps a valid frame
        valid. */
    method DropColumns(names: seq<string>)
      modifies this
      ensures rows == old(rows)
      ensures columns == DropNamed(old(columns), names)
      ensures old(Valid()) ==> Valid()
    {
      ghost var before := columns;
      columns := DropNamed(columns, names);
      if WellFormed(Table(rows, before)) {
        DropNamedDistinct(before, names);
        forall j | 0 <= j < |columns|
          ensures ColumnOk(columns[j], rows)
        {
          assert columns[j] in columns;
        }
      }
    }

    /** Step 3: the count columns are appended (`pd.concat`) and the
        amenities columns dropped in place. */
    method ExpandAmenities(env: Env)
      requires Valid() && IndicatorLabelsFree(View())
      modifies this
      ensures Valid() && View() == Amenities.ExpandAmenities(old(View()), env)
    {
      match Lookup(columns, "amenities")
      case None =>
      case Some(p) =>
        var lists := RowTokens(columns[p].cells, env);
        var dummies := Indicators(lists);
        ghost var before := columns;
        columns := columns + dummies;
        DropColumns(Dropped);
        DropNamedConcat(before, dummies, Dropped);
        IndicatorsNotDropped(lists);
        ExpandAmenitiesSpec(old(View()), env, p);
    }

    /** Step 5: `df = df[df['price'] <= 2000]`; `ok` is false when the
        comparison raises, and the frame is then left as it was. */
    method FilterPriceOutliers() returns (ok: bool)
      requires Valid()
      modifies this
      ensures ok == FilterOutliers(old(View())).Ok?
      ensures ok ==> Valid() && View() == FilterOutliers(old(View())).value
      ensures !ok ==> Valid() && View() == old(View())
    {
      var r := FilterOutliers(View());
      if r.Ok? {
        rows := r.value.rows;
        columns := r.value.cols;
        ok := true;
      } else {
        ok := false;
      }
    }
  }

  /** `clean_airbnb_data(df)`: step by step on a fresh frame (step 1
      rebinds `df` to a selection, so the caller's frame is not changed),
      with the same outcome as the table function `Pipeline.Clean`. */
  method CleanAirbnbData(input: DataFrame, env: Env) returns (r: Result<DataFrame>)
    requires input.Valid() && IndicatorLabelsFree(input.View())
    ensures r.Ok? <==> Pipeline.Clean(input.View(), env).Ok?
    ensures r.Ok? ==> fresh(r.value) && r.value.Valid() && r.value.View() == Pipeline.Clean(input.View(), env).value
  {
    var t := input.View();
    // 1. sparse columns
    var df := new DataFrame(Prune(t));
    Pipeline.LabelsFreePrune(t);
    // 2. currency columns
    assert NoDuplicates(CurrencyColumns);
    df.ApplyToNamed(CurrencyColumns, CurrencyOp, env);
    assert df.View() == NormalizeCurrency(Prune(t), env);
    Pipeline.LabelsFreeSameNames(Prune(t), df.View());
    // 3. amenities
    df.ExpandAmenities(env);
    // 4. dates
    assert NoDuplicates(DateColumns);
    df.ApplyToNamed(DateColumns, DateOp, env);
    assert df.View() == Pipeline.BeforeFilter(t, env);
    // 5. price outliers
    var ok := df.FilterPriceOutliers();
    if !ok {
      return Failure(PriceNotComparable);
    }
    ghost var t5 := df.View();
    // 6. median of every numeric column
    var numericCols := NamesOfKind(df.columns, Numeric);
    NamesOfKindDistinct(df.columns, Numeric);
    MapNamedOfKind(df.columns, Numeric, MedianOp, env);
    df.ApplyToNamed(numericCols, MedianOp, env);
    assert df.View() == ImputeNumeric(t5, env);
    // 7. 'Unknown' in every object column
    var catCols := NamesOfKind(df.columns, Text);
    NamesOfKindDistinct(df.columns, Text);
    NamesOfKindExact(df.columns, Text);
    MapNamedOfKind(df.columns, Text, UnknownOp, env);
    df.ApplyToNamed(catCols, UnknownOp, env);
    assert df.View() == ImputeText(ImputeNumeric(t5, env), env);
    // 8. host_is_superhost
    df.ReplaceColumn(SuperhostColumn, SuperhostOp, env);
    r := Ok(df);
  }
}
