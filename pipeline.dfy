/** `clean_airbnb_data` as one function from a table to a cleaned table (or
    the TypeError its step 5 raises), and what holds of its result. */
module Pipeline {
  import opened Frame
  import opened Currency
  import opened Amenities
  import opened Steps

  /** Indicator labels stay free while only column contents change. */
  lemma LabelsFreeSameNames(a: Table, b: Table)
    requires IndicatorLabelsFree(a)
    requires |a.cols| == |b.cols| && forall j :: 0 <= j < |a.cols| ==> a.cols[j].name == b.cols[j].name
    ensures IndicatorLabelsFree(b)
  {
    if HasColumn(b.cols, "amenities") {
      var j :| 0 <= j < |b.cols| && b.cols[j].name == "amenities";
      assert a.cols[j].name == "amenities";
    }
  }

  lemma LabelsFreePrune(t: Table)
    requires WellFormed(t) && IndicatorLabelsFree(t)
    ensures IndicatorLabelsFree(Prune(t))
  {
    var r := Prune(t);
    if HasColumn(r.cols, "amenities") {
      var j :| 0 <= j < |r.cols| && r.cols[j].name == "amenities";
      assert r.cols[j] in r.cols;
      var q :| 0 <= q < |t.cols| && t.cols[q] == r.cols[j];
    }
    forall j | 0 <= j < |r.cols| && HasColumn(r.cols, "amenities")
      ensures r.cols[j].name in Dropped || !IsIndicatorName(r.cols[j].name)
    {
      assert r.cols[j] in r.cols;
      var q :| 0 <= q < |t.cols| && t.cols[q] == r.cols[j];
    }
  }

  /** Steps 1 to 4. */
  function BeforeFilter(t: Table, env: Env): (r: Table)
    requires WellFormed(t) && IndicatorLabelsFree(t)
    ensures WellFormed(r) && r.rows == t.rows
  {
    var t1 := Prune(t);
    LabelsFreePrune(t);
    var t2 := NormalizeCurrency(t1, env);
    LabelsFreeSameNames(t1, t2);
    var t3 := ExpandAmenities(t2, env);
    ParseDates(t3, env)
  }

  /** Steps 6 to 8. */
  function AfterFilter(t: Table, env: Env): (r: Table)
    requires WellFormed(t)
    ensures WellFormed(r) && r.rows == t.rows
  {
    EncodeSuperhost(ImputeText(ImputeNumeric(t, env), env), env)
  }

  /** The whole cleaner; the result has at most the input's rows. */
  function Clean(t: Table, env: Env): (r: Result<Table>)
    requires WellFormed(t) && IndicatorLabelsFree(t)
    ensures r.Ok? ==> WellFormed(r.value) && r.value.rows <= t.rows
  {
    match FilterOutliers(BeforeFilter(t, env))
    case Failure(e) => Failure(e)
    case Ok(t5) => Ok(AfterFilter(t5, env))
  }

  // ---------------------------------------------------------------------
  // Where the price column goes
  // ---------------------------------------------------------------------

  lemma PriceNotIndicator()
    ensures !IsIndicatorName("price")
  {
    assert "price"[0] == 'p';
    assert Prefix[0] == 'a';
  }

  /** A price column that survives step 1 reaches step 5 converted by
      step 2 and otherwise untouched. */
  lemma PriceReachesFilter(t: Table, env: Env, c: Column)
    requires WellFormed(t) && IndicatorLabelsFree(t)
    requires c in Prune(t).cols && c.name == "price"
    ensures CleanCurrencyColumn(c, env) in BeforeFilter(t, env).cols
  {
    var t1 := Prune(t);
    LabelsFreePrune(t);
    var t2 := NormalizeCurrency(t1, env);
    LabelsFreeSameNames(t1, t2);
    var c2 := CleanCurrencyColumn(c, env);
    assert CurrencyColumns[0] == "price";
    MapNamedKeeps(t1.cols, CurrencyColumns, CurrencyOp, env, c);
    assert "price" !in Dropped;
    ExpandAmenitiesKeeps(t2, env, c2);
    var t3 := ExpandAmenities(t2, env);
    assert "price" !in DateColumns;
    MapNamedKeeps(t3.cols, DateColumns, DateOp, env, c2);
  }

  /** Without a price column after step 1 there is none at step 5. */
  lemma NoPriceReachesFilter(t: Table, env: Env)
    requires WellFormed(t) && IndicatorLabelsFree(t)
    requires !HasColumn(Prune(t).cols, "price")
    ensures !HasColumn(BeforeFilter(t, env).cols, "price")
  {
    var t1 := Prune(t);
    LabelsFreePrune(t);
    var t2 := NormalizeCurrency(t1, env);
    LabelsFreeSameNames(t1, t2);
    var t3 := ExpandAmenities(t2, env);
    if HasColumn(t3.cols, "price") {
      PriceNotIndicator();
      ExpandAmenitiesLabels(t2, env, "price");
    }
  }

  /** The comparison of step 5 raises on a converted price column exactly
      when the conversion of step 2 failed and the column has a row. */
  lemma CurrencyRaising(c: Column, env: Env)
    ensures Raising(CleanCurrencyColumn(c, env).cells) <==>
      |c.cells| > 0 && !AllParse(StrippedCells(c.cells, env), env)
  {
    var r := CleanCurrencyColumn(c, env);
    CleanCurrencyColumnCases(c, env);
    if AllParse(StrippedCells(c.cells, env), env) {
      forall i | 0 <= i < |r.cells| ensures AtMostCap(r.cells[i]) != Raises {
        assert r.cells[i].Missing? || r.cells[i].Num?;
      }
    } else if |c.cells| > 0 {
      assert AtMostCap(r.cells[0]) == Raises;
    }
  }

  /** The cleaner fails exactly when a price column survives step 1 and one
      of its cells, stripped of `$` and `,`, does not read as a float. */
  lemma CleanFailsExactly(t: Table, env: Env, c: Column)
    requires WellFormed(t) && IndicatorLabelsFree(t)
    requires c in t.cols && c.name == "price"
    ensures Clean(t, env).Failure? <==> Dense(c, t.rows) && !AllParse(StrippedCells(c.cells, env), env)
  {
    var t1 := Prune(t);
    var t4 := BeforeFilter(t, env);
    if Dense(c, t.rows) {
      var c2 := CleanCurrencyColumn(c, env);
      PriceReachesFilter(t, env, c);
      var p :| 0 <= p < |t4.cols| && t4.cols[p] == c2;
      FilterOutliersSpec(t4, p);
      CurrencyRaising(c, env);
      var q :| 0 <= q < |t.cols| && t.cols[q] == c;
      assert ColumnOk(t.cols[q], t.rows);
    } else {
      var b :| 0 <= b < |t.cols| && t.cols[b] == c;
      forall j | 0 <= j < |t1.cols|
        ensures t1.cols[j].name != "price"
      {
        assert t1.cols[j] in t1.cols;
        var a :| 0 <= a < |t.cols| && t.cols[a] == t1.cols[j];
        assert a != b;
      }
      NoPriceReachesFilter(t, env);
      FilterOutliersAbsent(t4);
    }
  }

  /** A table without a price column is always cleaned. */
  lemma CleanWithoutPrice(t: Table, env: Env)
    requires WellFormed(t) && IndicatorLabelsFree(t)
    requires !HasColumn(t.cols, "price")
    ensures Clean(t, env).Ok?
  {
    var t1 := Prune(t);
    forall j | 0 <= j < |t1.cols|
      ensures t1.cols[j].name != "price"
    {
      assert t1.cols[j] in t1.cols;
    }
    NoPriceReachesFilter(t, env);
    FilterOutliersAbsent(BeforeFilter(t, env));
  }

  // ---------------------------------------------------------------------
  // What the cleaned table looks like
  // ---------------------------------------------------------------------

  lemma CappedAfterFilter(t: Table, env: Env)
    requires WellFormed(t) && IndicatorLabelsFree(t)
    requires FilterOutliers(BeforeFilter(t, env)).Ok?
    ensures PriceCapped(FilterOutliers(BeforeFilter(t, env)).value)
  {
    var t4 := BeforeFilter(t, env);
    if HasColumn(t4.cols, "price") {
      var p :| 0 <= p < |t4.cols| && t4.cols[p].name == "price";
      FilterOutliersSpec(t4, p);
    }
  }

  /** Steps 6 to 8 leave a capped price column capped: it has no missing
      cell for either fill to replace, and step 8 does not touch it. */
  lemma CappedAfterImpute(t: Table, env: Env)
    requires WellFormed(t) && PriceCapped(t)
    ensures PriceCapped(AfterFilter(t, env))
  {
    var t6 := ImputeNumeric(t, env);
    CappedAfterNumericFill(t, env);
    var t7 := ImputeText(t6, env);
    CappedAfterTextFill(t6, env);
    CappedAfterSuperhost(t7, env);
  }

  /** Step 6 leaves a capped price column as it was. */
  lemma CappedAfterNumericFill(t: Table, env: Env)
    requires WellFormed(t) && PriceCapped(t)
    ensures PriceCapped(ImputeNumeric(t, env))
  {
    var t6 := ImputeNumeric(t, env);
    forall j | 0 <= j < |t.cols| && t.cols[j].name == "price"
      ensures t6.cols[j] == t.cols[j]
    {
      FillKeepsComplete(t.cols[j]);
    }
  }

  /** Step 7 leaves a capped price column as it was. */
  lemma CappedAfterTextFill(t: Table, env: Env)
    requires WellFormed(t) && PriceCapped(t)
    ensures PriceCapped(ImputeText(t, env))
  {
    var t7 := ImputeText(t, env);
    forall j | 0 <= j < |t.cols| && t.cols[j].name == "price"
      ensures t7.cols[j] == t.cols[j]
    {
      FillKeepsComplete(t.cols[j]);
    }
  }

  /** Step 8 does not touch the price column. */
  lemma CappedAfterSuperhost(t: Table, env: Env)
    requires WellFormed(t) && PriceCapped(t)
    ensures PriceCapped(EncodeSuperhost(t, env))
  {
    var t8 := EncodeSuperhost(t, env);
    assert forall j :: 0 <= j < |t.cols| && t.cols[j].name == "price" ==> t8.cols[j] == t.cols[j];
  }

  /** Every price left in the cleaned table is a number of at most 2000. */
  lemma CleanPriceCapped(t: Table, env: Env)
    requires WellFormed(t) && IndicatorLabelsFree(t)
    requires Clean(t, env).Ok?
    ensures PriceCapped(Clean(t, env).value)
  {
    CappedAfterFilter(t, env);
    CappedAfterImpute(FilterOutliers(BeforeFilter(t, env)).value, env);
  }

  /** No object column of the cleaned table has a missing cell. */
  predicate TextComplete(t: Table) {
    forall j :: 0 <= j < |t.cols| && t.cols[j].kind == Text ==> NoMissing(t.cols[j].cells)
  }

  /** Every numeric column of the cleaned table other than
      `host_is_superhost` is either complete or holds no value at all. */
  predicate NumericSettled(t: Table) {
    forall j :: 0 <= j < |t.cols| && t.cols[j].kind == Numeric && t.cols[j].name != SuperhostColumn ==>
      NoMissing(t.cols[j].cells) || NonMissing(t.cols[j].cells) == 0
  }

  lemma ImputeSettles(t: Table, env: Env)
    requires WellFormed(t)
    ensures TextComplete(AfterFilter(t, env)) && NumericSettled(AfterFilter(t, env))
  {
    var t6 := ImputeNumeric(t, env);
    forall j | 0 <= j < |t.cols| && t.cols[j].kind == Numeric
      ensures NoMissing(t6.cols[j].cells) || NonMissing(t6.cols[j].cells) == 0
    {
      assert ColumnOk(t.cols[j], t.rows);
      FillMedianSettles(t.cols[j], t.rows);
    }
    var t7 := ImputeText(t6, env);
    var t8 := EncodeSuperhost(t7, env);
    forall j | 0 <= j < |t8.cols| && t8.cols[j].kind == Text
      ensures NoMissing(t8.cols[j].cells)
    {
      assert t8.cols[j] == t7.cols[j];
    }
    forall j | 0 <= j < |t8.cols| && t8.cols[j].kind == Numeric && t8.cols[j].name != SuperhostColumn
      ensures NoMissing(t8.cols[j].cells) || NonMissing(t8.cols[j].cells) == 0
    {
      assert t8.cols[j] == t7.cols[j];
      assert t7.cols[j] == t6.cols[j];
    }
  }

  /** After the imputation steps no object column has a missing cell, and
      every numeric column other than `host_is_superhost` is complete
      unless it had no value to take a median of. */
  lemma CleanSettled(t: Table, env: Env)
    requires WellFormed(t) && IndicatorLabelsFree(t)
    requires Clean(t, env).Ok?
    ensures TextComplete(Clean(t, env).value) && NumericSettled(Clean(t, env).value)
  {
    ImputeSettles(FilterOutliers(BeforeFilter(t, env)).value, env);
  }
}
