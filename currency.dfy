/** Step 2 of the cleaner: `price` and `extra_people` are rendered as
    strings, `$` and `,` are deleted, and the column is converted with
    `astype(float, errors='ignore')`, which either converts every cell or,
    when one cell fails to parse, leaves the whole column as the stripped
    strings. */
module Currency {
  import opened Strings
  import opened Frame

  const CurrencyChars: set<char> := {'$', ','}

  /** `.str.replace('$', '').str.replace(',', '')` on one string: each
      `replace` of a single character by nothing is the deletion of that
      character. */
  function StripCurrency(s: string): (r: string)
    ensures '$' !in r && ',' !in r
    ensures r == Without(s, CurrencyChars)
  {
    WithoutTwice(s, {'$'}, {','});
    assert {'$'} + {','} == CurrencyChars;
    Without(Without(s, {'$'}), {','})
  }

  /** Apart from the deleted characters, the string is kept in order. */
  lemma StripCurrencyConcat(a: string, b: string)
    ensures StripCurrency(a + b) == StripCurrency(a) + StripCurrency(b)
  {
    WithoutConcat(a, b, CurrencyChars);
  }

  /** A string without `$` or `,` is left unchanged. */
  lemma StripCurrencyKeeps(s: string)
    requires '$' !in s && ',' !in s
    ensures StripCurrency(s) == s
  {
    WithoutIdentity(s, CurrencyChars);
  }

  lemma StripCurrencyIdempotent(s: string)
    ensures StripCurrency(StripCurrency(s)) == StripCurrency(s)
  {
    StripCurrencyKeeps(StripCurrency(s));
  }

  lemma StripCurrencySymbols()
    ensures StripCurrency("$") == "" && StripCurrency(",") == ""
  {
  }

  lemma StripAroundComma(a: string, b: string)
    ensures StripCurrency(a + "," + b) == StripCurrency(a) + StripCurrency(b)
  {
    StripCurrencyConcat(a + ",", b);
    StripCurrencyConcat(a, ",");
    StripCurrencySymbols();
  }

  lemma StripDollarPrefix(a: string)
    ensures StripCurrency("$" + a) == StripCurrency(a)
  {
    StripCurrencyConcat("$", a);
    StripCurrencySymbols();
  }

  /** A dollar sign in front and a thousands separator in the middle are
      all that is removed from a formatted price. */
  lemma StripFormattedPrice(a: string, b: string)
    requires '$' !in a && ',' !in a && '$' !in b && ',' !in b
    ensures StripCurrency("$" + a + "," + b) == a + b
  {
    assert "$" + a + "," + b == "$" + (a + "," + b);
    StripDollarPrefix(a + "," + b);
    StripAroundComma(a, b);
    StripCurrencyKeeps(a);
    StripCurrencyKeeps(b);
  }

  /** The cells of the column as strings with the currency formatting gone. */
  function StrippedCells(cells: seq<Cell>, env: Env): (r: seq<string>)
    ensures |r| == |cells|
  {
    seq(|cells|, i requires 0 <= i < |cells| => StripCurrency(AsText(cells[i], env)))
  }

  predicate AllParse(ss: seq<string>, env: Env) {
    forall i :: 0 <= i < |ss| ==> !env.parseFloat(ss[i]).Invalid?
  }

  function FloatCell(f: FloatText): Cell {
    match f
    case Number(x) => Num(x)
    case _ => Missing
  }

  /** Step 2 on one column. */
  function CleanCurrencyColumn(c: Column, env: Env): (r: Column)
    ensures r.name == c.name && |r.cells| == |c.cells|
    ensures ColumnOk(r, |c.cells|)
  {
    var ss := StrippedCells(c.cells, env);
    if AllParse(ss, env) then
      Column(c.name, Numeric, seq(|ss|, i requires 0 <= i < |ss| => FloatCell(env.parseFloat(ss[i]))))
    else
      Column(c.name, Text, seq(|ss|, i requires 0 <= i < |ss| => Str(ss[i])))
  }

  /** The column becomes numeric exactly when every stripped cell parses;
      otherwise it holds the stripped strings, none with `$` or `,`, and
      nothing is missing. */
  lemma CleanCurrencyColumnCases(c: Column, env: Env)
    ensures var r := CleanCurrencyColumn(c, env);
      && (r.kind == Numeric <==> AllParse(StrippedCells(c.cells, env), env))
      && (r.kind != Numeric ==> r.kind == Text && forall i :: 0 <= i < |r.cells| ==>
            && r.cells[i] == Str(StrippedCells(c.cells, env)[i])
            && '$' !in r.cells[i].s && ',' !in r.cells[i].s)
      && (r.kind == Numeric ==> forall i :: 0 <= i < |r.cells| ==>
            r.cells[i] == FloatCell(env.parseFloat(StrippedCells(c.cells, env)[i])))
  {
  }

  /** What a float round trip through `astype(str)` and `float` promises
      for the numbers of one column: "nan" reads back as NaN, and each
      number a stripped cell reads as is rendered without currency
      formatting and reads back as that number. */
  predicate RoundTrips(ss: seq<string>, env: Env) {
    && env.parseFloat("nan") == NaN
    && forall i :: 0 <= i < |ss| && env.parseFloat(ss[i]).Number? ==>
         var x := env.parseFloat(ss[i]).x;
         && env.parseFloat(env.render(Num(x))) == Number(x)
         && '$' !in env.render(Num(x)) && ',' !in env.render(Num(x))
  }

  /** Running step 2 again on its own output changes nothing: numbers come
      back as the same numbers, NaN as NaN, and strings that failed to
      parse are already stripped and fail again. */
  lemma {:induction false} CleanCurrencyIdempotent(c: Column, env: Env)
    requires RoundTrips(StrippedCells(c.cells, env), env)
    ensures CleanCurrencyColumn(CleanCurrencyColumn(c, env), env) == CleanCurrencyColumn(c, env)
  {
    var r := CleanCurrencyColumn(c, env);
    var ss := StrippedCells(c.cells, env);
    var ss2 := StrippedCells(r.cells, env);
    if AllParse(ss, env) {
      forall i | 0 <= i < |ss|
        ensures env.parseFloat(ss2[i]) == env.parseFloat(ss[i]) || (env.parseFloat(ss[i]).NaN? && env.parseFloat(ss2[i]).NaN?)
      {
        match env.parseFloat(ss[i])
        case Number(x) =>
          StripCurrencyKeeps(env.render(Num(x)));
        case NaN =>
          StripCurrencyKeeps("nan");
      }
      assert AllParse(ss2, env);
      assert CleanCurrencyColumn(r, env).cells == r.cells;
    } else {
      forall i | 0 <= i < |ss|
        ensures ss2[i] == ss[i]
      {
        StripCurrencyIdempotent(AsText(c.cells[i], env));
      }
      assert ss2 == ss;
    }
  }
}
