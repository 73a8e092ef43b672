/** Step 3 of the cleaner: the `amenities` column, a quoted list such as
    `{"Wifi","Air conditioning"}`, is cleaned of braces and quotes,
    lower-cased and split on commas into trimmed tokens; then one count
    column `amen_<token>` is added per distinct token (the `explode`,
    `get_dummies(prefix='amen')`, `groupby(level=0).sum()` chain), and the
    original and intermediate columns are dropped. */
module Amenities {
  import opened Strings
  import opened Frame

  /** The regex character class `[\{\}"\']`. */
  const AmenityPunct: set<char> := {'{', '}', '"', '\''}

  /** `.str.replace(r'[\{\}"\']', '', regex=True).str.lower()` */
  function CleanAmenities(s: string): (r: string)
    ensures forall k :: 0 <= k < |r| ==> r[k] !in AmenityPunct && !IsUpper(r[k])
    ensures |r| <= |s|
  {
    Lower(Without(s, AmenityPunct))
  }

  /** Deleting the punctuation before or after lower-casing is the same. */
  lemma CleanAmenitiesEitherOrder(s: string)
    ensures CleanAmenities(s) == Without(Lower(s), AmenityPunct)
  {
    LowerWithoutCommute(s, AmenityPunct);
  }

  lemma CleanAmenitiesIdempotent(s: string)
    ensures CleanAmenities(CleanAmenities(s)) == CleanAmenities(s)
  {
    var r := CleanAmenities(s);
    WithoutIdentity(r, AmenityPunct);
    LowerIdempotent(Without(s, AmenityPunct));
  }

  // ---------------------------------------------------------------------
  // Tokens of one cell
  // ---------------------------------------------------------------------

  /** `[amen.strip() for amen in x.split(',')]` */
  function Tokens(s: string): (r: seq<string>)
    ensures |r| == Occurrences(s, ',') + 1
    ensures forall k :: 0 <= k < |r| ==> ',' !in r[k]
    ensures forall k :: 0 <= k < |r| ==> r[k] == [] || (!IsSpace(r[k][0]) && !IsSpace(r[k][|r[k]| - 1]))
  {
    var ps := Split(s, ',');
    seq(|ps|, k requires 0 <= k < |ps| => StripNoComma(ps[k]))
  }

  /** `Strip` of a comma-free piece, with that fact carried along. */
  function StripNoComma(p: string): (r: string)
    requires ',' !in p
    ensures r == Strip(p) && ',' !in r
  {
    var r := Strip(p);
    assert forall k :: 0 <= k < |r| ==> r[k] in p;
    r
  }

  /** Tokens without commas or surrounding whitespace, written out the way
      the listings write them (separated by a comma and a space), are read
      back as exactly those tokens. */
  lemma {:induction false} TokensOfList(ts: seq<string>)
    requires |ts| > 0
    requires forall k :: 0 <= k < |ts| ==> ',' !in ts[k]
    requires forall k :: 0 <= k < |ts| ==> ts[k] == [] || (!IsSpace(ts[k][0]) && !IsSpace(ts[k][|ts[k]| - 1]))
    ensures Tokens(Join(Spaced(ts), ',')) == ts
  {
    var ps := Spaced(ts);
    var s := Join(ps, ',');
    SplitJoin(ps, ',');
    var r := Tokens(s);
    assert |r| == |ts|;
    forall k | 0 <= k < |ts|
      ensures r[k] == ts[k]
    {
      assert r[k] == Strip(ps[k]);
      if k == 0 {
        assert ps[k] == ts[k];
        StripIdentity(ts[k]);
      } else {
        StripLeadingSpace(ts[k]);
      }
    }
  }

  /** The pieces of `", ".join(ts)` between the commas. */
  function Spaced(ts: seq<string>): (ps: seq<string>)
    requires forall k :: 0 <= k < |ts| ==> ',' !in ts[k]
    ensures |ps| == |ts|
    ensures forall k :: 0 <= k < |ps| ==> ',' !in ps[k]
    ensures forall k :: 0 <= k < |ps| ==> ps[k] == (if k == 0 then "" else " ") + ts[k]
  {
    seq(|ts|, k requires 0 <= k < |ts| => (if k == 0 then "" else " ") + ts[k])
  }

  lemma StripLeadingSpace(t: string)
    requires t == [] || (!IsSpace(t[0]) && !IsSpace(t[|t| - 1]))
    ensures Strip(" " + t) == t
  {
    var s := " " + t;
    assert s[1..] == t;
    assert TrimLeft(s) == TrimLeft(t);
    StripIdentity(t);
  }

  /** An empty cell still yields one (empty) token. */
  lemma TokensOfEmpty()
    ensures Tokens("") == [""]
  {
  }

  // ---------------------------------------------------------------------
  // Code-point order on strings, the order pandas sorts categories in
  // ---------------------------------------------------------------------

  predicate LexLess(a: string, b: string)
    decreases |a|
  {
    if a == [] then b != []
    else if b == [] then false
    else if a[0] != b[0] then a[0] < b[0]
    else LexLess(a[1..], b[1..])
  }

  lemma {:induction false} LexIrreflexive(a: string)
    ensures !LexLess(a, a)
  {
    if a != [] {
      LexIrreflexive(a[1..]);
    }
  }

  lemma {:induction false} LexTransitive(a: string, b: string, c: string)
    requires LexLess(a, b) && LexLess(b, c)
    ensures LexLess(a, c)
  {
    if a != [] && b != [] && c != [] && a[0] == b[0] && b[0] == c[0] {
      LexTransitive(a[1..], b[1..], c[1..]);
    }
  }

  lemma {:induction false} LexTotal(a: string, b: string)
    requires a != b
    ensures LexLess(a, b) || LexLess(b, a)
  {
    if a != [] && b != [] && a[0] == b[0] {
      assert a == [a[0]] + a[1..] && b == [b[0]] + b[1..];
      LexTotal(a[1..], b[1..]);
    }
  }

  predicate StrictlySorted(s: seq<string>) {
    forall i, j :: 0 <= i < j < |s| ==> LexLess(s[i], s[j])
  }

  /** A strictly sorted list has no repeated entry. */
  lemma SortedDistinct(s: seq<string>)
    requires StrictlySorted(s)
    ensures NoDuplicates(s)
  {
    forall i, j | 0 <= i < j < |s|
      ensures s[i] != s[j]
    {
      LexIrreflexive(s[i]);
    }
  }

  /** Adds `t` to a sorted list of distinct tokens, at its place. */
  function InsertToken(s: seq<string>, t: string): (r: seq<string>)
    requires StrictlySorted(s)
    ensures StrictlySorted(r)
    ensures forall u :: u in r <==> u in s || u == t
  {
    if s == [] then [t]
    else if t == s[0] then s
    else if LexLess(t, s[0]) then
      InsertFrontSorted(t, s);
      [t] + s
    else
      LexTotal(t, s[0]);
      var rest := InsertToken(s[1..], t);
      InsertFrontSorted(s[0], rest);
      [s[0]] + rest
  }

  lemma InsertFrontSorted(t: string, s: seq<string>)
    requires StrictlySorted(s)
    requires forall k :: 0 <= k < |s| ==> LexLess(t, s[k]) || (k > 0 && LexLess(s[0], s[k]) && LexLess(t, s[0]))
    ensures StrictlySorted([t] + s)
  {
    forall k | 0 <= k < |s|
      ensures LexLess(t, s[k])
    {
      if !LexLess(t, s[k]) {
        LexTransitive(t, s[0], s[k]);
      }
    }
  }

  function AddTokens(v: seq<string>, ts: seq<string>): (r: seq<string>)
    requires StrictlySorted(v)
    ensures StrictlySorted(r)
    ensures forall u :: u in r <==> u in v || u in ts
    decreases |ts|
  {
    if ts == [] then v else AddTokens(InsertToken(v, ts[0]), ts[1..])
  }

  predicate Occurs(lists: seq<seq<string>>, u: string) {
    exists i :: 0 <= i < |lists| && u in lists[i]
  }

  /** The categories `get_dummies` finds: every token of every row, each
      once, in sorted order. */
  function Vocabulary(lists: seq<seq<string>>): (r: seq<string>)
    ensures StrictlySorted(r)
    ensures forall u :: u in r <==> Occurs(lists, u)
  {
    if lists == [] then []
    else
      var init := lists[..|lists| - 1];
      var r := AddTokens(Vocabulary(init), lists[|lists| - 1]);
      assert forall u :: Occurs(lists, u) <==> Occurs(init, u) || u in lists[|lists| - 1] by {
        forall u | Occurs(lists, u) ensures Occurs(init, u) || u in lists[|lists| - 1] {
          var i :| 0 <= i < |lists| && u in lists[i];
          if i < |lists| - 1 {
            assert u in init[i];
          }
        }
        forall u | Occurs(init, u) ensures Occurs(lists, u) {
          var i :| 0 <= i < |init| && u in init[i];
          assert u in lists[i];
        }
      }
      r
  }

  // ---------------------------------------------------------------------
  // Indicator columns
  // ---------------------------------------------------------------------

  const Prefix: string := "amen_"

  /** Number of occurrences of `t` in a row's token list: what
      `groupby(level=0).sum()` adds up for that row. */
  function Count(ts: seq<string>, t: string): (n: nat)
    ensures n <= |ts|
    ensures n > 0 <==> t in ts
  {
    if ts == [] then 0 else (if ts[0] == t then 1 else 0) + Count(ts[1..], t)
  }

  function IndicatorColumn(lists: seq<seq<string>>, t: string): Column {
    Column(Prefix + t, Numeric, seq(|lists|, i requires 0 <= i < |lists| => Num(Count(lists[i], t) as real)))
  }

  /** The summed dummy columns, one per vocabulary entry, in vocabulary
      order: the k-th is labelled `amen_` and the k-th sorted token, is
      numeric, and holds in each row how often that token occurs there. */
  function Indicators(lists: seq<seq<string>>): (r: seq<Column>)
    ensures |r| == |Vocabulary(lists)|
    ensures forall k :: 0 <= k < |r| ==>
      r[k].name == Prefix + Vocabulary(lists)[k] && r[k].kind == Numeric && |r[k].cells| == |lists|
    ensures forall k, i :: 0 <= k < |r| && 0 <= i < |lists| ==>
      r[k].cells[i] == Num(Count(lists[i], Vocabulary(lists)[k]) as real)
  {
    var v := Vocabulary(lists);
    seq(|v|, k requires 0 <= k < |v| => IndicatorColumn(lists, v[k]))
  }

  lemma PrefixInjective(a: string, b: string)
    requires Prefix + a == Prefix + b
    ensures a == b
  {
    assert (Prefix + a)[|Prefix|..] == a;
    assert (Prefix + b)[|Prefix|..] == b;
  }

  predicate IsIndicatorName(n: string) {
    |n| >= |Prefix| && n[..|Prefix|] == Prefix
  }

  /** Exactly one count column per distinct token: the columns are aligned
      with the rows, hold numbers, carry distinct labels, and a label
      `amen_<t>` is present exactly when `t` occurs in some row. A row's
      value in that column is how often `t` occurs in the row: zero when it
      does not occur, at least one when it does. */
  lemma IndicatorsSpec(lists: seq<seq<string>>)
    ensures var r := Indicators(lists);
      && (forall k :: 0 <= k < |r| ==> ColumnOk(r[k], |lists|) && IsIndicatorName(r[k].name))
      && DistinctNames(r)
      && (forall t :: HasColumn(r, Prefix + t) <==> Occurs(lists, t))
      && (forall k, i :: 0 <= k < |r| && 0 <= i < |lists| ==>
            r[k].cells[i].Num? && (r[k].cells[i].x >= 1.0 <==> r[k].name[|Prefix|..] in lists[i])
            && (r[k].cells[i].x == 0.0 <==> r[k].name[|Prefix|..] !in lists[i]))
  {
    IndicatorsShape(lists);
    IndicatorsDistinct(lists);
    IndicatorsLabels(lists);
    IndicatorsCells(lists);
  }

  lemma IndicatorsShape(lists: seq<seq<string>>)
    ensures var r := Indicators(lists);
      forall k :: 0 <= k < |r| ==>
        ColumnOk(r[k], |lists|) && IsIndicatorName(r[k].name) && r[k].name[|Prefix|..] == Vocabulary(lists)[k]
  {
    var r := Indicators(lists);
    var v := Vocabulary(lists);
    forall k | 0 <= k < |r|
      ensures ColumnOk(r[k], |lists|) && IsIndicatorName(r[k].name) && r[k].name[|Prefix|..] == v[k]
    {
      assert (Prefix + v[k])[..|Prefix|] == Prefix;
      assert (Prefix + v[k])[|Prefix|..] == v[k];
    }
  }

  lemma IndicatorsDistinct(lists: seq<seq<string>>)
    ensures DistinctNames(Indicators(lists))
  {
    var r := Indicators(lists);
    var v := Vocabulary(lists);
    SortedDistinct(v);
    forall i, j | 0 <= i < j < |r|
      ensures r[i].name != r[j].name
    {
      if r[i].name == r[j].name {
        PrefixInjective(v[i], v[j]);
      }
    }
  }

  lemma IndicatorsLabels(lists: seq<seq<string>>)
    ensures forall t :: HasColumn(Indicators(lists), Prefix + t) <==> Occurs(lists, t)
  {
    var r := Indicators(lists);
    var v := Vocabulary(lists);
    forall t
      ensures HasColumn(r, Prefix + t) <==> Occurs(lists, t)
    {
      if HasColumn(r, Prefix + t) {
        var k :| 0 <= k < |r| && r[k].name == Prefix + t;
        PrefixInjective(v[k], t);
        assert v[k] in v;
      }
      if Occurs(lists, t) {
        assert t in v;
        var k :| 0 <= k < |v| && v[k] == t;
        assert r[k].name == Prefix + t;
      }
    }
  }

  lemma IndicatorsCells(lists: seq<seq<string>>)
    ensures var r := Indicators(lists);
      forall k, i :: 0 <= k < |r| && 0 <= i < |lists| ==>
        r[k].cells[i].Num? && (r[k].cells[i].x >= 1.0 <==> r[k].name[|Prefix|..] in lists[i])
        && (r[k].cells[i].x == 0.0 <==> r[k].name[|Prefix|..] !in lists[i])
  {
    var r := Indicators(lists);
    var v := Vocabulary(lists);
    IndicatorsShape(lists);
    forall k, i | 0 <= k < |r| && 0 <= i < |lists|
      ensures r[k].cells[i].Num? && (r[k].cells[i].x >= 1.0 <==> v[k] in lists[i])
        && (r[k].cells[i].x == 0.0 <==> v[k] !in lists[i])
    {
      var n := Count(lists[i], v[k]);
      assert r[k].cells[i] == Num(n as real);
    }
  }

  /** The row's token set can be read back off the count columns: the
      tokens whose column is non-zero in that row are exactly the row's
      tokens. */
  lemma IndicatorsRoundTrip(lists: seq<seq<string>>, i: nat, t: string)
    requires i < |lists|
    ensures var r := Indicators(lists);
      (exists k :: 0 <= k < |r| && r[k].name == Prefix + t && r[k].cells[i] != Num(0.0)) <==> t in lists[i]
  {
    var r := Indicators(lists);
    var v := Vocabulary(lists);
    IndicatorsShape(lists);
    IndicatorsCells(lists);
    if t in lists[i] {
      assert Occurs(lists, t);
      var k :| 0 <= k < |v| && v[k] == t;
      assert r[k].name == Prefix + t;
      assert r[k].cells[i].x >= 1.0;
    }
    if exists k :: 0 <= k < |r| && r[k].name == Prefix + t && r[k].cells[i] != Num(0.0) {
      var k :| 0 <= k < |r| && r[k].name == Prefix + t && r[k].cells[i] != Num(0.0);
      PrefixInjective(v[k], t);
      assert r[k].name[|Prefix|..] == t;
    }
  }

  // ---------------------------------------------------------------------
  // The step on the table
  // ---------------------------------------------------------------------

  /** The original column and the two intermediate ones, all dropped. */
  const Dropped: seq<string> := ["amenities", "amenities_clean", "amenities_list"]

  /** Column `amenities_list`: the token list of every row. */
  function RowTokens(cells: seq<Cell>, env: Env): (r: seq<seq<string>>)
    ensures |r| == |cells|
    ensures forall i :: 0 <= i < |r| ==> |r[i]| > 0
  {
    seq(|cells|, i requires 0 <= i < |cells| => Tokens(CleanAmenities(AsText(cells[i], env))))
  }

  /** `df.drop(columns=names)`: the other columns, in their order. */
  function DropNamed(cols: seq<Column>, names: seq<string>): (r: seq<Column>)
    ensures |r| <= |cols|
    ensures forall c {:trigger c in r} :: c in r <==> c in cols && c.name !in names
    ensures forall c :: c in r ==> exists j :: 0 <= j < |cols| && cols[j] == c
  {
    if cols == [] then []
    else (if cols[0].name in names then [] else [cols[0]]) + DropNamed(cols[1..], names)
  }

  lemma DropNamedDistinct(cols: seq<Column>, names: seq<string>)
    requires DistinctNames(cols)
    ensures DistinctNames(DropNamed(cols, names))
  {
    if cols != [] {
      var rest := DropNamed(cols[1..], names);
      DropNamedDistinct(cols[1..], names);
      forall j | 0 <= j < |rest|
        ensures rest[j].name != cols[0].name
      {
        assert rest[j] in rest;
      }
    }
  }

  /** Dropping distributes over concatenation. */
  lemma {:induction false} DropNamedConcat(a: seq<Column>, b: seq<Column>, names: seq<string>)
    ensures DropNamed(a + b, names) == DropNamed(a, names) + DropNamed(b, names)
  {
    if a == [] {
      assert a + b == b;
    } else {
      var head := if a[0].name in names then [] else [a[0]];
      var ra := DropNamed(a[1..], names);
      var rb := DropNamed(b, names);
      DropNamedCons(a, names);
      TailOfConcat(a, b);
      DropNamedCons(a + b, names);
      DropNamedConcat(a[1..], b, names);
      assert head + (ra + rb) == (head + ra) + rb;
    }
  }

  /** The head and the tail of a concatenation whose left part is not empty. */
  lemma TailOfConcat<T>(a: seq<T>, b: seq<T>)
    requires a != []
    ensures (a + b)[0] == a[0] && (a + b)[1..] == a[1..] + b
  {
  }

  /** One unfolding of `DropNamed`. */
  lemma DropNamedCons(x: seq<Column>, names: seq<string>)
    requires x != []
    ensures DropNamed(x, names) == (if x[0].name in names then [] else [x[0]]) + DropNamed(x[1..], names)
  {
  }

  /** Dropping labels a sequence does not carry leaves it as it is. */
  lemma {:induction false} DropNamedNone(cols: seq<Column>, names: seq<string>)
    requires forall j :: 0 <= j < |cols| ==> cols[j].name !in names
    ensures DropNamed(cols, names) == cols
  {
    if cols != [] {
      DropNamedNone(cols[1..], names);
    }
  }

  /** No column that survives the drop already carries an `amen_` label. */
  predicate NoIndicatorLabels(cols: seq<Column>) {
    forall j :: 0 <= j < |cols| ==> cols[j].name in Dropped || !IsIndicatorName(cols[j].name)
  }

  /** When step 3 runs (there is an `amenities` column), no surviving column
      already carries an `amen_` label, so the labels stay unique after the
      indicator columns are added. Without an `amenities` column step 3 does
      nothing and any labels are fine. */
  predicate IndicatorLabelsFree(t: Table) {
    HasColumn(t.cols, "amenities") ==> NoIndicatorLabels(t.cols)
  }

  /** Step 3 on the table; nothing happens without an `amenities` column. */
  function ExpandAmenities(t: Table, env: Env): (r: Table)
    requires WellFormed(t) && IndicatorLabelsFree(t)
    ensures WellFormed(r) && r.rows == t.rows
  {
    match Lookup(t.cols, "amenities")
    case None => t
    case Some(p) =>
      var lists := RowTokens(t.cols[p].cells, env);
      var kept := DropNamed(t.cols, Dropped);
      var dummies := Indicators(lists);
      ExpandWellFormed(t, kept, dummies, lists);
      Table(t.rows, kept + dummies)
  }

  lemma ExpandWellFormed(t: Table, kept: seq<Column>, dummies: seq<Column>, lists: seq<seq<string>>)
    requires WellFormed(t) && NoIndicatorLabels(t.cols)
    requires kept == DropNamed(t.cols, Dropped)
    requires dummies == Indicators(lists) && |lists| == t.rows
    ensures WellFormed(Table(t.rows, kept + dummies))
  {
    IndicatorsSpec(lists);
    DropNamedDistinct(t.cols, Dropped);
    var all := kept + dummies;
    forall i, j | 0 <= i < j < |all|
      ensures all[i].name != all[j].name
    {
      if i < |kept| && j >= |kept| {
        assert kept[i] in kept;
        var q :| 0 <= q < |t.cols| && t.cols[q] == kept[i];
        assert !IsIndicatorName(all[i].name);
      }
    }
    forall j | 0 <= j < |all|
      ensures ColumnOk(all[j], t.rows)
    {
      if j < |kept| {
        assert kept[j] in kept;
        var q :| 0 <= q < |t.cols| && t.cols[q] == kept[j];
      }
    }
  }

  /** None of the dropped labels looks like an indicator label. */
  lemma DroppedNotIndicators(n: string)
    requires n in Dropped
    ensures !IsIndicatorName(n)
  {
    assert n[4] == 'i';
    assert Prefix[4] == '_';
  }

  /** Dropping the amenities labels does not touch any count column. */
  lemma IndicatorsNotDropped(lists: seq<seq<string>>)
    ensures DropNamed(Indicators(lists), Dropped) == Indicators(lists)
  {
    var dummies := Indicators(lists);
    IndicatorsSpec(lists);
    forall j | 0 <= j < |dummies|
      ensures dummies[j].name !in Dropped
    {
      if dummies[j].name in Dropped {
        DroppedNotIndicators(dummies[j].name);
      }
    }
    DropNamedNone(dummies, Dropped);
  }

  /** In step 3 with an `amenities` column, none of the three dropped
      labels is left, every other column is kept as it was and in its
      order, and exactly the count columns of the row tokens follow. */
  lemma ExpandAmenitiesSpec(t: Table, env: Env, p: nat)
    requires WellFormed(t) && IndicatorLabelsFree(t)
    requires p < |t.cols| && t.cols[p].name == "amenities"
    ensures var r := ExpandAmenities(t, env);
      && (forall n :: n in Dropped ==> !HasColumn(r.cols, n))
      && r.cols == DropNamed(t.cols, Dropped) + Indicators(RowTokens(t.cols[p].cells, env))
  {
    LookupUnique(t.cols, "amenities", p);
    var r := ExpandAmenities(t, env);
    var lists := RowTokens(t.cols[p].cells, env);
    var kept := DropNamed(t.cols, Dropped);
    assert r.cols == kept + Indicators(lists);
    IndicatorsSpec(lists);
    forall j | 0 <= j < |r.cols|
      ensures r.cols[j].name !in Dropped
    {
      if j < |kept| {
        assert kept[j] in kept;
      } else {
        assert IsIndicatorName(r.cols[j].name);
        if r.cols[j].name in Dropped {
          DroppedNotIndicators(r.cols[j].name);
        }
      }
    }
  }

  /** Without an `amenities` column step 3 does nothing. */
  lemma ExpandAmenitiesAbsent(t: Table, env: Env)
    requires WellFormed(t) && !HasColumn(t.cols, "amenities")
    ensures ExpandAmenities(t, env) == t
  {
  }

  /** Step 3 keeps every column it does not drop. */
  lemma ExpandAmenitiesKeeps(t: Table, env: Env, c: Column)
    requires WellFormed(t) && IndicatorLabelsFree(t)
    requires c in t.cols && c.name !in Dropped
    ensures c in ExpandAmenities(t, env).cols
  {
    if HasColumn(t.cols, "amenities") {
      var p :| 0 <= p < |t.cols| && t.cols[p].name == "amenities";
      ExpandAmenitiesSpec(t, env, p);
    }
  }

  /** Step 3 adds no label other than indicator labels. */
  lemma ExpandAmenitiesLabels(t: Table, env: Env, n: string)
    requires WellFormed(t) && IndicatorLabelsFree(t)
    requires !IsIndicatorName(n) && HasColumn(ExpandAmenities(t, env).cols, n)
    ensures HasColumn(t.cols, n)
  {
    if HasColumn(t.cols, "amenities") {
      var p :| 0 <= p < |t.cols| && t.cols[p].name == "amenities";
      ExpandAmenitiesSpec(t, env, p);
      var r := ExpandAmenities(t, env);
      var kept := DropNamed(t.cols, Dropped);
      var lists := RowTokens(t.cols[p].cells, env);
      IndicatorsSpec(lists);
      var j :| 0 <= j < |r.cols| && r.cols[j].name == n;
      assert j < |kept|;
      assert kept[j] in kept;
    }
  }
}
