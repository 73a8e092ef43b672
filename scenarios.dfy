/** Worked examples of what the cleaner does to small frames, each
    checked against the model. */
module Scenarios {
  import opened Strings
  import opened Frame
  import opened Currency
  import opened Amenities
  import opened Stats
  import opened Steps

  /** The first price of the scenario: "$1,200.50" reads as "1200.50". */
  lemma StripCentsExample(price: string)
    requires price == "$1,200.50"
    ensures StripCurrency(price) == "1200.50"
  {
    StripFormattedPrice("1", "200.50");
    assert "$" + "1" + "," + "200.50" == price;
  }

  /** The second price of the scenario: "$2,500" reads as "2500". */
  lemma StripWholeExample(price: string)
    requires price == "$2,500"
    ensures StripCurrency(price) == "2500"
  {
    StripFormattedPrice("2", "500");
    assert "$" + "2" + "," + "500" == price;
  }

  /** Step 2 on a column of two prices that both read as numbers. */
  lemma CleanTwoPrices(c: Column, env: Env, a: string, b: string, x: real, y: real)
    requires c.kind == Text && c.cells == [Str(a), Str(b)]
    requires env.parseFloat(StripCurrency(a)) == Number(x) && env.parseFloat(StripCurrency(b)) == Number(y)
    ensures CleanCurrencyColumn(c, env) == Column(c.name, Numeric, [Num(x), Num(y)])
  {
    var ss := StrippedCells(c.cells, env);
    assert ss == [StripCurrency(a), StripCurrency(b)];
    assert AllParse(ss, env);
  }

  /** Step 2 on a frame whose only column is `price`. */
  lemma NormalizePriceOnly(t: Table, env: Env)
    requires WellFormed(t) && |t.cols| == 1 && t.cols[0].name == "price"
    ensures NormalizeCurrency(t, env) == Table(t.rows, [CleanCurrencyColumn(t.cols[0], env)])
  {
    assert t.cols[0].name in CurrencyColumns;
  }

  /** Step 5 on a `price` column of two numbers, the first within the cap
      and the second above it: only the first row is kept. */
  lemma FilterTwoPrices(t: Table, x: real, y: real)
    requires t == Table(2, [Column("price", Numeric, [Num(x), Num(y)])])
    requires x <= PriceCap < y
    ensures WellFormed(t)
    ensures FilterOutliers(t) == Ok(Table(1, [Column("price", Numeric, [Num(x)])]))
  {
    var cells := t.cols[0].cells;
    assert ColumnOk(t.cols[0], 2);
    assert Lookup(t.cols, "price") == Some(0);
    assert AtMostCap(cells[0]) == Holds && AtMostCap(cells[1]) == Fails;
    assert !Raising(cells);
    assert KeptRows(cells, 2) == [];
    assert KeptRows(cells, 1) == [];
    assert KeptRows(cells, 0) == [0];
    var r := FilterOutliers(t).value;
    assert r.cols[0] == SelectRows(t.cols[0], [0]);
    assert r.cols[0].cells == [Num(x)];
    assert r.rows == 1 && |r.cols| == 1;
    assert r.cols == [Column("price", Numeric, [Num(x)])];
  }

  /** The price scenario end to end: of the two listings priced
      "$1,200.50" and "$2,500", steps 2 and 5 keep only the first, its
      price now the number 1200.5. */
  lemma PriceFilterExample(t: Table, env: Env, a: string, b: string)
    requires a == "$1,200.50" && b == "$2,500"
    requires t == Table(2, [Column("price", Text, [Str(a), Str(b)])])
    requires env.parseFloat("1200.50") == Number(1200.5) && env.parseFloat("2500") == Number(2500.0)
    ensures WellFormed(t)
    ensures FilterOutliers(NormalizeCurrency(t, env)) == Ok(Table(1, [Column("price", Numeric, [Num(1200.5)])]))
  {
    assert ColumnOk(t.cols[0], 2);
    StripCentsExample(a);
    StripWholeExample(b);
    CleanTwoPrices(t.cols[0], env, a, b, 1200.5, 2500.0);
    NormalizePriceOnly(t, env);
    FilterTwoPrices(NormalizeCurrency(t, env), 1200.5, 2500.0);
  }

  /** An environment that renders every number as "5" and reads "5" back
      as the number 5. */
  function FiveEnv(): Env {
    Env(
      (c: Cell) => "5",
      (s: string) => if s == "nan" then NaN else if s == "5" then Number(5.0) else Invalid,
      (c: Cell) => None)
  }

  /** A column and an environment for which the float round trip holds, so
      that step 2 on its own output changing nothing is not vacuous. */
  lemma RoundTripsExample(c: Column, a: string)
    requires a == "$5" && c == Column("price", Text, [Str(a), Missing])
    ensures RoundTrips(StrippedCells(c.cells, FiveEnv()), FiveEnv())
    ensures CleanCurrencyColumn(c, FiveEnv()).cells == [Num(5.0), Missing]
  {
    FiveStrips(a);
    var ss := StrippedCells(c.cells, FiveEnv());
    assert ss == [StripCurrency(a), StripCurrency(AsText(Missing, FiveEnv()))];
    FiveRoundTrips(ss);
  }

  lemma FiveRoundTrips(ss: seq<string>)
    requires ss == ["5", "nan"]
    ensures RoundTrips(ss, FiveEnv()) && AllParse(ss, FiveEnv())
    ensures FiveEnv().parseFloat(ss[0]) == Number(5.0) && FiveEnv().parseFloat(ss[1]) == NaN
  {
    var env := FiveEnv();
    assert env.parseFloat(ss[0]) == Number(5.0);
    assert env.parseFloat(ss[1]) == NaN;
    assert env.render(Num(5.0)) == "5";
  }

  lemma FiveStrips(a: string)
    requires a == "$5"
    ensures StripCurrency(a) == "5" && StripCurrency("nan") == "nan"
  {
    assert a == "$" + "5";
    StripDollarPrefix("5");
    StripCurrencyKeeps("5");
    StripCurrencyKeeps("nan");
  }

  lemma WithoutFive(p1: string, p2: string, p3: string, p4: string, p5: string, bad: set<char>)
    ensures Without(p1 + p2 + p3 + p4 + p5, bad) ==
      Without(p1, bad) + Without(p2, bad) + Without(p3, bad) + Without(p4, bad) + Without(p5, bad)
  {
    WithoutConcat(p1 + p2 + p3 + p4, p5, bad);
    WithoutConcat(p1 + p2 + p3, p4, bad);
    WithoutConcat(p1 + p2, p3, bad);
    WithoutConcat(p1, p2, bad);
  }

  lemma OpenGoes()
    ensures Without("{\"", AmenityPunct) == ""
  {
  }

  lemma SeparatorStays()
    ensures Without("\", \"", AmenityPunct) == ", "
  {
  }

  lemma CloseGoes()
    ensures Without("\"}", AmenityPunct) == ""
  {
  }

  lemma UnquoteParts(a: string, b: string, open: string, mid: string, close: string)
    requires open == "{\"" && mid == "\", \"" && close == "\"}"
    requires forall k :: 0 <= k < |a| ==> a[k] !in AmenityPunct
    requires forall k :: 0 <= k < |b| ==> b[k] !in AmenityPunct
    ensures Without(open + a + mid + b + close, AmenityPunct) == a + ", " + b
  {
    WithoutFive(open, a, mid, b, close, AmenityPunct);
    OpenGoes();
    SeparatorStays();
    CloseGoes();
    WithoutIdentity(a, AmenityPunct);
    WithoutIdentity(b, AmenityPunct);
  }

  /** The braces and quotes around two quoted amenities go. */
  lemma UnquoteTwo(a: string, b: string)
    requires forall k :: 0 <= k < |a| ==> a[k] !in AmenityPunct
    requires forall k :: 0 <= k < |b| ==> b[k] !in AmenityPunct
    ensures Without("{\"" + a + "\", \"" + b + "\"}", AmenityPunct) == a + ", " + b
  {
    UnquoteParts(a, b, "{\"", "\", \"", "\"}");
  }

  /** A listing of two quoted amenities loses its braces and quotes and is
      lower-cased. */
  lemma CleanTwoAmenities(a: string, b: string)
    requires forall k :: 0 <= k < |a| ==> a[k] !in AmenityPunct
    requires forall k :: 0 <= k < |b| ==> b[k] !in AmenityPunct
    ensures CleanAmenities("{\"" + a + "\", \"" + b + "\"}") == Lower(a) + ", " + Lower(b)
  {
    UnquoteTwo(a, b);
    LowerConcat(a + ", ", b);
    LowerConcat(a, ", ");
    assert Lower(", ") == ", ";
  }

  lemma LowerWifi(a: string)
    requires a == "Wifi"
    ensures Lower(a) == "wifi"
  {
    forall k | 0 <= k < 4
      ensures Lower(a)[k] == "wifi"[k]
    {
    }
  }

  lemma LowerAirConditioning(b: string)
    requires b == "Air conditioning"
    ensures Lower(b) == "air conditioning"
  {
    forall k | 0 <= k < 16
      ensures Lower(b)[k] == "air conditioning"[k]
    {
    }
  }

  lemma SpacedExample(ts: seq<string>)
    requires ts == ["wifi", "air conditioning"]
    ensures Join(Spaced(ts), ',') == "wifi" + ", " + "air conditioning"
  {
    var ps := Spaced(ts);
    assert ps[1..] == [" " + "air conditioning"];
    assert Join(ps, ',') == "wifi" + [','] + (" " + "air conditioning");
  }

  lemma CellPieces(cell: string)
    requires cell == "{\"Wifi\", \"Air conditioning\"}"
    ensures cell == "{\"" + "Wifi" + "\", \"" + "Air conditioning" + "\"}"
  {
  }

  lemma BareTokens(ts: seq<string>)
    requires ts == ["wifi", "air conditioning"]
    ensures forall k :: 0 <= k < |ts| ==> ',' !in ts[k]
    ensures forall k :: 0 <= k < |ts| ==> ts[k] == [] || (!IsSpace(ts[k][0]) && !IsSpace(ts[k][|ts[k]| - 1]))
  {
  }

  /** The amenities cell of the scenario reads as the two lower-cased
      tokens. */
  lemma AmenitiesTokensExample(cell: string)
    requires cell == "{\"Wifi\", \"Air conditioning\"}"
    ensures Tokens(CleanAmenities(cell)) == ["wifi", "air conditioning"]
  {
    var a, b := "Wifi", "Air conditioning";
    CellPieces(cell);
    CleanTwoAmenities(a, b);
    LowerWifi(a);
    LowerAirConditioning(b);
    var ts := ["wifi", "air conditioning"];
    SpacedExample(ts);
    BareTokens(ts);
    TokensOfList(ts);
  }

  /** The row with those two tokens has a 1 in their two count columns
      and a 0 in every other one. */
  lemma AmenitiesCountsExample(lists: seq<seq<string>>, i: nat)
    requires i < |lists| && lists[i] == ["wifi", "air conditioning"]
    ensures var r := Indicators(lists);
      forall k :: 0 <= k < |r| ==>
        r[k].cells[i] == (if r[k].name == Prefix + "wifi" || r[k].name == Prefix + "air conditioning" then Num(1.0) else Num(0.0))
  {
    var r := Indicators(lists);
    var v := Vocabulary(lists);
    forall k | 0 <= k < |r|
      ensures r[k].cells[i] == (if r[k].name == Prefix + "wifi" || r[k].name == Prefix + "air conditioning" then Num(1.0) else Num(0.0))
    {
      assert r[k] == IndicatorColumn(lists, v[k]);
      if r[k].name == Prefix + "wifi" {
        PrefixInjective(v[k], "wifi");
      } else if r[k].name == Prefix + "air conditioning" {
        PrefixInjective(v[k], "air conditioning");
      } else {
        assert v[k] !in lists[i];
      }
    }
  }

  lemma ObservedExample(cells: seq<Cell>)
    requires cells == [Num(10.0), Missing, Num(30.0)]
    ensures Observed(cells) == [10.0, 30.0]
  {
    var last := cells[1..][1..];
    assert last == [Num(30.0)];
    assert last[1..] == [];
    assert Observed(last) == [30.0];
    assert Observed(cells[1..]) == [30.0];
  }

  lemma MedianExample(vs: seq<real>)
    requires vs == [10.0, 30.0]
    ensures Median(vs) == 20.0
  {
    assert vs[1..] == [30.0];
    assert Sort(vs[1..]) == [30.0];
    assert Sort(vs) == [10.0, 30.0];
  }

  /** Step 6 on a column of three cells with a gap in the middle: the gap
      takes the median of the values observed. */
  lemma FillMiddleGap(c: Column, vs: seq<real>, m: real)
    requires |c.cells| == 3 && !c.cells[0].Missing? && c.cells[1].Missing? && !c.cells[2].Missing?
    requires Observed(c.cells) == vs && |vs| > 0 && Median(vs) == m
    ensures FillMedian(c).cells == [c.cells[0], Num(m), c.cells[2]]
  {
    var r := FillMedian(c).cells;
    assert r[0] == c.cells[0] by { FillMedianAt(c, vs, m, 0); }
    assert r[1] == Num(m) by { FillMedianAt(c, vs, m, 1); }
    assert r[2] == c.cells[2] by { FillMedianAt(c, vs, m, 2); }
  }

  /** One cell of step 6 once the median is known. */
  lemma FillMedianAt(c: Column, vs: seq<real>, m: real, i: nat)
    requires i < |c.cells|
    requires Observed(c.cells) == vs && |vs| > 0 && Median(vs) == m
    ensures FillMedian(c).cells[i] == if c.cells[i].Missing? then Num(m) else c.cells[i]
  {
  }

  /** The numeric column of the scenario: the gap takes the median 20. */
  lemma FillMedianExample(c: Column)
    requires c == Column("reviews", Numeric, [Num(10.0), Missing, Num(30.0)])
    ensures FillMedian(c).cells == [Num(10.0), Num(20.0), Num(30.0)]
  {
    ObservedExample(c.cells);
    MedianExample([10.0, 30.0]);
    FillMiddleGap(c, [10.0, 30.0], 20.0);
  }

  /** The superhost scenario: "t" maps to 1, "f" and a missing cell to 0,
      and any other value to a missing cell. */
  lemma SuperhostExample(c: Column)
    requires c == Column(SuperhostColumn, Text, [Str("t"), Missing, Str("f"), Str("yes")])
    ensures MapSuperhost(c).cells == [Num(1.0), Num(0.0), Num(0.0), Missing]
  {
  }
}
