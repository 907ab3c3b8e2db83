/**
 * The reshaping half of `ExtractIncomeStatement` in Finance.py. The
 * flattened statement of every ticker is merged into one dictionary, every
 * key of the form `TICKER_REF_PERIOD_ITEM` is split on '_' into the columns
 * Ticker, Ref, Period and Item, the Ref column is dropped, the rows are
 * numbered from 0, and the Item column is passed through `FixItemName`.
 * A table is modelled as a sequence of records.
 */
module IncomeStatement {
  import opened Wrappers
  import opened Strings
  import opened ItemNames

  /** A flattened statement: its (key, value) pairs in the order they were produced. */
  type Entries<V> = seq<(string, V)>

  /** A Python dictionary: its keys in insertion order and the value of every key. */
  datatype Dict<V> = Dict(keys: seq<string>, values: map<string, V>)

  predicate Distinct(s: seq<string>)
  {
    forall i, j :: 0 <= i < j < |s| ==> s[i] != s[j]
  }

  /** Every key is listed once, and exactly the listed keys have values. */
  ghost predicate WellFormed<V>(d: Dict<V>)
  {
    Distinct(d.keys) && forall k :: k in d.values <==> k in d.keys
  }

  /** `d[k] = v`: a new key goes to the end, an existing key keeps its place. */
  function Put<V>(d: Dict<V>, k: string, v: V): Dict<V>
  {
    Dict(if k in d.values then d.keys else d.keys + [k], d.values[k := v])
  }

  /** `d.update(e)`: the pairs of `e` are put one after the other. */
  function UpdateWith<V>(d: Dict<V>, e: Entries<V>): (r: Dict<V>)
    ensures WellFormed(d) ==> WellFormed(r)
    decreases |e|
  {
    if e == [] then d
    else Put(UpdateWith(d, e[..|e| - 1]), e[|e| - 1].0, e[|e| - 1].1)
  }

  /** The mapping a list of pairs denotes when a later pair wins over an earlier one. */
  function MapOf<V>(e: Entries<V>): map<string, V>
    decreases |e|
  {
    if e == [] then map[] else MapOf(e[..|e| - 1])[e[|e| - 1].0 := e[|e| - 1].1]
  }

  /**
   * `dict_df`: the empty dictionary updated with the flattened statement of
   * every ticker in turn.
   */
  function MergeAll<V>(flattened: seq<Entries<V>>): (d: Dict<V>)
    ensures WellFormed(d)
    decreases |flattened|
  {
    if flattened == [] then Dict([], map[])
    else UpdateWith(MergeAll(flattened[..|flattened| - 1]), flattened[|flattened| - 1])
  }

  lemma MapUnionUpdate<V>(m: map<string, V>, m': map<string, V>, k: string, v: V)
    ensures (m + m')[k := v] == m + m'[k := v]
  {
  }

  /**
   * An update is a later-wins union of the two mappings: a key already
   * present gets the new value and every other key is kept.
   */
  lemma {:induction false} UpdateLaterWins<V>(d: Dict<V>, e: Entries<V>)
    ensures UpdateWith(d, e).values == d.values + MapOf(e)
    decreases |e|
  {
    if e != [] {
      var init := e[..|e| - 1];
      UpdateLaterWins(d, init);
      MapUnionUpdate(d.values, MapOf(init), e[|e| - 1].0, e[|e| - 1].1);
    } else {
      assert d.values + map[] == d.values;
    }
  }

  /** An update keeps the keys already present, in their order, in front of the new ones. */
  lemma {:induction false} UpdateKeepsOrder<V>(d: Dict<V>, e: Entries<V>)
    ensures |d.keys| <= |UpdateWith(d, e).keys| && UpdateWith(d, e).keys[..|d.keys|] == d.keys
    decreases |e|
  {
    if e != [] {
      var init := e[..|e| - 1];
      UpdateKeepsOrder(d, init);
      var r0 := UpdateWith(d, init);
      var k := e[|e| - 1].0;
      if k !in r0.values {
        assert (r0.keys + [k])[..|d.keys|] == r0.keys[..|d.keys|];
      }
    }
  }

  /** The keys of a list of pairs, in order. */
  function KeysOf<V>(e: Entries<V>): seq<string>
  {
    seq(|e|, i requires 0 <= i < |e| => e[i].0)
  }

  /** The keys of `ks` that are not in `seen`, each once, in the order they first occur. */
  function Fresh(ks: seq<string>, seen: set<string>): seq<string>
    decreases |ks|
  {
    if ks == [] then []
    else
      var f := Fresh(ks[..|ks| - 1], seen);
      var k := ks[|ks| - 1];
      if k in seen || k in f then f else f + [k]
  }

  /** `Fresh` lists every key of `ks` outside `seen`, and each only once. */
  lemma {:induction false} FreshMembers(ks: seq<string>, seen: set<string>)
    ensures forall k :: k in Fresh(ks, seen) <==> k in ks && k !in seen
    ensures Distinct(Fresh(ks, seen))
    decreases |ks|
  {
    if ks != [] {
      var init := ks[..|ks| - 1];
      FreshMembers(init, seen);
      assert ks == init + [ks[|ks| - 1]];
    }
  }

  /** Keys that are distinct and all new are kept as they are. */
  lemma {:induction false} FreshOfDistinct(ks: seq<string>, seen: set<string>)
    requires Distinct(ks) && forall i :: 0 <= i < |ks| ==> ks[i] !in seen
    ensures Fresh(ks, seen) == ks
    decreases |ks|
  {
    if ks != [] {
      var init := ks[..|ks| - 1];
      assert Distinct(init) by {
        forall i, j | 0 <= i < j < |init| ensures init[i] != init[j] {
          assert init[i] == ks[i] && init[j] == ks[j];
        }
      }
      FreshOfDistinct(init, seen);
      FreshMembers(init, seen);
      assert ks[|ks| - 1] !in init by {
        forall i | 0 <= i < |init| ensures init[i] != ks[|ks| - 1] {
          assert init[i] == ks[i];
        }
      }
      assert init + [ks[|ks| - 1]] == ks;
    }
  }

  /** The pairs' mapping has a value for exactly the listed keys. */
  lemma {:induction false} MapOfKeys<V>(e: Entries<V>)
    ensures forall k :: k in MapOf(e) <==> k in KeysOf(e)
    decreases |e|
  {
    if e != [] {
      var init := e[..|e| - 1];
      MapOfKeys(init);
      assert KeysOf(e) == KeysOf(init) + [e[|e| - 1].0];
    }
  }

  /** With distinct keys, every pair's value is the one the mapping holds. */
  lemma {:induction false} MapOfDistinct<V>(e: Entries<V>)
    requires Distinct(KeysOf(e))
    ensures forall i :: 0 <= i < |e| ==> e[i].0 in MapOf(e) && MapOf(e)[e[i].0] == e[i].1
    decreases |e|
  {
    if e != [] {
      var init := e[..|e| - 1];
      assert KeysOf(e) == KeysOf(init) + [e[|e| - 1].0];
      assert Distinct(KeysOf(init)) by {
        forall i, j | 0 <= i < j < |init| ensures KeysOf(init)[i] != KeysOf(init)[j] {
          assert KeysOf(init)[i] == KeysOf(e)[i] && KeysOf(init)[j] == KeysOf(e)[j];
        }
      }
      MapOfDistinct(init);
      forall i | 0 <= i < |e| - 1 ensures e[i].0 != e[|e| - 1].0 {
        assert KeysOf(e)[i] == e[i].0 && KeysOf(e)[|e| - 1] == e[|e| - 1].0;
      }
    }
  }

  /**
   * An update appends the keys of the statement that were not yet present,
   * in the order they first occur in the statement.
   */
  lemma {:induction false} UpdateKeyOrder<V>(d: Dict<V>, e: Entries<V>)
    ensures UpdateWith(d, e).keys == d.keys + Fresh(KeysOf(e), d.values.Keys)
    decreases |e|
  {
    if e != [] {
      var init := e[..|e| - 1];
      var k := e[|e| - 1].0;
      var r0 := UpdateWith(d, init);
      var f := Fresh(KeysOf(init), d.values.Keys);
      UpdateKeyOrder(d, init);
      assert k in r0.values <==> k in d.values.Keys || k in f by {
        UpdateLaterWins(d, init);
        MapOfKeys(init);
        FreshMembers(KeysOf(init), d.values.Keys);
      }
      assert KeysOf(e)[..|e| - 1] == KeysOf(init);
      assert Fresh(KeysOf(e), d.values.Keys) == if k in d.values.Keys || k in f then f else f + [k];
      assert (d.keys + f) + [k] == d.keys + (f + [k]);
    }
  }

  /** Updating with two lists in turn is updating with their concatenation. */
  lemma {:induction false} UpdateAppend<V>(d: Dict<V>, a: Entries<V>, b: Entries<V>)
    ensures UpdateWith(d, a + b) == UpdateWith(UpdateWith(d, a), b)
    decreases |b|
  {
    if b == [] {
      assert a + b == a;
    } else {
      var init := b[..|b| - 1];
      UpdateAppend(d, a, init);
      assert (a + b)[..|a + b| - 1] == a + init;
    }
  }

  /** All the statements one after the other. */
  function Concat<V>(flattened: seq<Entries<V>>): Entries<V>
    decreases |flattened|
  {
    if flattened == [] then []
    else Concat(flattened[..|flattened| - 1]) + flattened[|flattened| - 1]
  }

  /** Merging the statements is updating the empty dictionary with all of them in turn. */
  lemma {:induction false} MergeAllConcat<V>(flattened: seq<Entries<V>>)
    ensures MergeAll(flattened) == UpdateWith(Dict([], map[]), Concat(flattened))
    decreases |flattened|
  {
    if flattened != [] {
      var init := flattened[..|flattened| - 1];
      MergeAllConcat(init);
      UpdateAppend(Dict([], map[]), Concat(init), flattened[|flattened| - 1]);
    }
  }

  /** Updating the empty dictionary lists the keys by first occurrence and holds their later-wins mapping. */
  lemma UpdateEmpty<V>(e: Entries<V>)
    ensures UpdateWith(Dict([], map[]), e).keys == Fresh(KeysOf(e), {})
    ensures UpdateWith(Dict([], map[]), e).values == MapOf(e)
  {
    var empty: map<string, V> := map[];
    var d0 := Dict([], empty);
    UpdateKeyOrder(d0, e);
    UpdateLaterWins(d0, e);
    assert d0.values.Keys == {};
    assert [] + Fresh(KeysOf(e), {}) == Fresh(KeysOf(e), {});
    assert empty + MapOf(e) == MapOf(e);
  }

  /**
   * `dict_df` lists every key once, in the order it first occurs across the
   * statements taken ticker by ticker, and holds the later-wins mapping of
   * all their pairs.
   */
  lemma MergeAllOrder<V>(flattened: seq<Entries<V>>)
    ensures MergeAll(flattened).keys == Fresh(KeysOf(Concat(flattened)), {})
    ensures MergeAll(flattened).values == MapOf(Concat(flattened))
  {
    MergeAllConcat(flattened);
    UpdateEmpty(Concat(flattened));
  }

  /**
   * When no key repeats, within a statement or across tickers, the merged
   * pairs are the statements' pairs one after the other, in order.
   */
  lemma MergeAllDistinct<V>(flattened: seq<Entries<V>>)
    requires Distinct(KeysOf(Concat(flattened)))
    ensures Items(MergeAll(flattened)) == Concat(flattened)
  {
    var all := Concat(flattened);
    MergeAllOrder(flattened);
    FreshOfDistinct(KeysOf(all), {});
    MapOfDistinct(all);
  }

  /** After merging, a key is present exactly when some ticker's statement has it. */
  lemma {:induction false} MergeAllKeys<V>(flattened: seq<Entries<V>>, k: string)
    ensures k in MergeAll(flattened).values <==> exists t :: 0 <= t < |flattened| && k in MapOf(flattened[t])
    decreases |flattened|
  {
    if flattened != [] {
      var n := |flattened|;
      var init := flattened[..n - 1];
      MergeAllKeys(init, k);
      UpdateLaterWins(MergeAll(init), flattened[n - 1]);
      assert forall t :: 0 <= t < n - 1 ==> flattened[t] == init[t];
    }
  }

  /** After merging, a key holds the value from the last ticker's statement that has it. */
  lemma {:induction false} MergeAllLaterWins<V>(flattened: seq<Entries<V>>, t: nat, k: string)
    requires t < |flattened| && k in MapOf(flattened[t])
    requires forall u :: t < u < |flattened| ==> k !in MapOf(flattened[u])
    ensures k in MergeAll(flattened).values
    ensures MergeAll(flattened).values[k] == MapOf(flattened[t])[k]
    decreases |flattened|
  {
    var n := |flattened|;
    var init := flattened[..n - 1];
    UpdateLaterWins(MergeAll(init), flattened[n - 1]);
    if t < n - 1 {
      assert flattened[t] == init[t];
      assert forall u :: t < u < n - 1 ==> flattened[u] == init[u];
      MergeAllLaterWins(init, t, k);
    }
  }

  /** `zip(d.keys(), d.values())`. */
  function Items<V>(d: Dict<V>): Entries<V>
    requires WellFormed(d)
  {
    seq(|d.keys|, i requires 0 <= i < |d.keys| => (d.keys[i], d.values[d.keys[i]]))
  }

  /** One row of the income-statement table; `extra` holds the parts after the fourth. */
  datatype Row<V> = Row(id: nat, ticker: string, period: Option<string>, item: Option<string>,
                        extra: seq<string>, value: V)

  /** The table: how many columns the split keys produced, and the rows in key order. */
  datatype Table<V> = Table(columns: nat, rows: seq<Row<V>>)

  /**
   * The exceptions the reshaping raises: `drop(columns="Ref")` finds no
   * column 1, or `FixItemName` meets a row whose Item cell is None.
   */
  datatype Error = MissingRefColumn | ItemNotText(id: nat)

  /** The number of columns a data frame built from these lists has. */
  function MaxLen(ps: seq<seq<string>>): (w: nat)
    ensures forall k :: 0 <= k < |ps| ==> |ps[k]| <= w
    ensures |ps| == 0 ==> w == 0
    ensures |ps| > 0 ==> exists k :: 0 <= k < |ps| && |ps[k]| == w
    decreases |ps|
  {
    if ps == [] then 0
    else
      var w := MaxLen(ps[1..]);
      assert forall k :: 1 <= k < |ps| ==> ps[k] == ps[1..][k - 1];
      if |ps[0]| >= w then |ps[0]| else w
  }

  /** The first list with fewer than four parts, or `|ps|` when there is none. */
  function FirstShort(ps: seq<seq<string>>): (k: nat)
    ensures k <= |ps|
    ensures forall j :: 0 <= j < k ==> |ps[j]| >= 4
    ensures k < |ps| ==> |ps[k]| < 4
    decreases |ps|
  {
    if ps == [] then 0
    else if |ps[0]| < 4 then 0
    else
      var k := FirstShort(ps[1..]);
      assert forall j :: 1 <= j <= k ==> ps[j] == ps[1..][j - 1];
      k + 1
  }

  /** The cell in column `j` of a row built from `p`: None where the row is shorter. */
  function Cell(p: seq<string>, j: nat): Option<string>
  {
    if j < |p| then Some(p[j]) else None
  }

  /** The parts after Ticker, Ref, Period and Item. */
  function Rest(p: seq<string>): seq<string>
  {
    if |p| > 4 then p[4..] else []
  }

  /** `key.split('_')` for every key. */
  function Parts<V>(entries: Entries<V>): seq<seq<string>>
  {
    seq(|entries|, k requires 0 <= k < |entries| => Split(entries[k].0, '_'))
  }

  /** The row for key parts `p`, with the Item normalised when there is one. */
  function MakeRow<V>(id: nat, p: seq<string>, v: V): Row<V>
    requires |p| >= 1
  {
    Row(id, p[0], Cell(p, 2), if |p| >= 4 then Some(Label(p[3])) else None, Rest(p), v)
  }

  /**
   * The table built from the merged (key, value) pairs, or the exception the
   * source raises on the way.
   */
  function Tabulate<V>(entries: Entries<V>): Result<Table<V>, Error>
  {
    var ps := Parts(entries);
    var w := MaxLen(ps);
    if w < 2 then Err(MissingRefColumn)
    else if w >= 4 && FirstShort(ps) < |ps| then Err(ItemNotText(FirstShort(ps)))
    else Ok(Table(w, seq(|ps|, k requires 0 <= k < |ps| => MakeRow(k, ps[k], entries[k].1))))
  }

  /** Dropping the Ref column fails exactly when no key contains a '_' (an empty input included). */
  lemma TabulateMissingRef<V>(entries: Entries<V>)
    ensures Tabulate(entries) == Err(MissingRefColumn) <==>
              forall k :: 0 <= k < |entries| ==> '_' !in entries[k].0
  {
    var ps := Parts(entries);
    forall k | 0 <= k < |entries| ensures ('_' !in entries[k].0) <==> |ps[k]| < 2 {
      CountAbsent(entries[k].0, '_');
    }
  }

  /**
   * Normalising fails exactly when some key splits into four or more parts
   * and another into fewer: the shorter key leaves its Item cell None.
   */
  lemma TabulateItemNotText<V>(entries: Entries<V>)
    ensures Tabulate(entries).Err? && Tabulate(entries).error.ItemNotText? <==>
              && (exists k :: 0 <= k < |entries| && |Split(entries[k].0, '_')| >= 4)
              && (exists k :: 0 <= k < |entries| && |Split(entries[k].0, '_')| < 4)
  {
    var ps := Parts(entries);
    var w := MaxLen(ps);
    var id := FirstShort(ps);
    if (exists k :: 0 <= k < |entries| && |Split(entries[k].0, '_')| >= 4) &&
       (exists k :: 0 <= k < |entries| && |Split(entries[k].0, '_')| < 4) {
      var k1 :| 0 <= k1 < |entries| && |Split(entries[k1].0, '_')| >= 4;
      var k2 :| 0 <= k2 < |entries| && |Split(entries[k2].0, '_')| < 4;
      assert ps[k1] == Split(entries[k1].0, '_') && ps[k2] == Split(entries[k2].0, '_');
      assert id <= k2;
    }
    if Tabulate(entries).Err? && Tabulate(entries).error.ItemNotText? {
      var k1 :| 0 <= k1 < |ps| && |ps[k1]| == w;
      assert ps[k1] == Split(entries[k1].0, '_') && ps[id] == Split(entries[id].0, '_');
    }
  }

  /** The row reported is the first whose key splits into fewer than four parts. */
  lemma ItemNotTextRow<V>(entries: Entries<V>)
    requires Tabulate(entries).Err? && Tabulate(entries).error.ItemNotText?
    ensures var id := Tabulate(entries).error.id;
            && id < |entries|
            && |Split(entries[id].0, '_')| < 4
            && forall j :: 0 <= j < id ==> |Split(entries[j].0, '_')| >= 4
  {
    var ps := Parts(entries);
    var id := FirstShort(ps);
    assert ps[id] == Split(entries[id].0, '_');
    forall j | 0 <= j < id ensures |Split(entries[j].0, '_')| >= 4 {
      assert ps[j] == Split(entries[j].0, '_');
    }
  }

  /**
   * A table has one row per pair, numbered from 0 in key order, carrying the
   * key's first part as Ticker, its third part (where it has one) as Period
   * and the pair's value unchanged; either every row has an Item or none has.
   */
  lemma TabulateRows<V>(entries: Entries<V>)
    requires Tabulate(entries).Ok?
    ensures var rows := Tabulate(entries).value.rows;
            && |rows| == |entries|
            && (forall k :: 0 <= k < |entries| ==>
                  && rows[k].id == k
                  && rows[k].ticker == Split(entries[k].0, '_')[0]
                  && rows[k].period == (if |Split(entries[k].0, '_')| > 2
                                        then Some(Split(entries[k].0, '_')[2]) else None)
                  && rows[k].value == entries[k].1)
            && ((forall k :: 0 <= k < |entries| ==> rows[k].item.Some?) ||
                (forall k :: 0 <= k < |entries| ==> rows[k].item.None?))
  {
  }

  /**
   * A row keeps every part of its key except the Ref, which is dropped, and
   * the Item, which is replaced by its label: joining the row's Ticker, the
   * Ref, the row's Period, the raw Item and the extra parts with '_' gives
   * back the key.
   */
  lemma TabulateRowKey<V>(entries: Entries<V>, k: nat)
    requires Tabulate(entries).Ok? && k < |entries|
    requires Tabulate(entries).value.rows[k].item.Some?
    ensures var row := Tabulate(entries).value.rows[k];
            var p := Split(entries[k].0, '_');
            && |p| >= 4
            && row.period == Some(p[2])
            && row.item == Some(Label(p[3]))
            && entries[k].0 == Join([row.ticker, p[1], row.period.value, p[3]] + row.extra, '_')
  {
    var key := entries[k].0;
    var p := Split(key, '_');
    var row := Tabulate(entries).value.rows[k];
    assert row == MakeRow(k, p, entries[k].1);
    assert p == [row.ticker, p[1], p[2], p[3]] + row.extra;
    SplitJoin(key, '_');
  }

  /**
   * A row without an Item comes from a key of at most three parts: the row
   * keeps its Ticker and Period, and these with the dropped Ref rejoined
   * with '_' give back the key.
   */
  lemma TabulateShortRowKey<V>(entries: Entries<V>, k: nat)
    requires Tabulate(entries).Ok? && k < |entries|
    requires Tabulate(entries).value.rows[k].item.None?
    ensures var row := Tabulate(entries).value.rows[k];
            var p := Split(entries[k].0, '_');
            var ref := p[1..if |p| >= 2 then 2 else 1];
            && |p| < 4
            && row.extra == []
            && row.period == (if |p| == 3 then Some(p[2]) else None)
            && entries[k].0 == Join([row.ticker] + ref + (if row.period.Some? then [row.period.value] else []), '_')
  {
    var key := entries[k].0;
    var p := Split(key, '_');
    var row := Tabulate(entries).value.rows[k];
    assert row == MakeRow(k, p, entries[k].1);
    var ref := p[1..if |p| >= 2 then 2 else 1];
    assert p == [row.ticker] + ref + (if row.period.Some? then [row.period.value] else []);
    SplitJoin(key, '_');
  }

  /**
   * A single key of exactly four parts becomes a single row: Ticker, Period,
   * the label of Item, and the value.
   */
  lemma TabulateOneKey<V>(ticker: string, ref: string, period: string, item: string, v: V)
    requires '_' !in ticker && '_' !in ref && '_' !in period && '_' !in item
    ensures Tabulate([(Join([ticker, ref, period, item], '_'), v)]) ==
              Ok(Table(4, [Row(0, ticker, Some(period), Some(Label(item)), [], v)]))
  {
    var parts := [ticker, ref, period, item];
    JoinSplit(parts, '_');
    var entries := [(Join(parts, '_'), v)];
    var ps := Parts(entries);
    assert ps == [parts];
    assert MaxLen(ps) == 4 by { assert ps[1..] == []; }
    assert FirstShort(ps) == 1 by { assert ps[1..] == []; }
    assert Rest(parts) == [];
    var rows := seq(|ps|, k requires 0 <= k < |ps| => MakeRow(k, ps[k], entries[k].1));
    assert rows == [MakeRow(0, parts, v)];
    assert Tabulate(entries) == Ok(Table(4, rows));
  }

  /** Four parts joined with '_'. */
  lemma JoinFour(t: string, r: string, p: string, i: string)
    ensures Join([t, r, p, i], '_') == t + "_" + r + "_" + p + "_" + i
  {
    assert [t, r, p, i][1..] == [r, p, i] && [r, p, i][1..] == [p, i] && [p, i][1..] == [i];
    assert Join([p, i], '_') == p + "_" + i;
    assert Join([r, p, i], '_') == r + "_" + (p + "_" + i);
    assert Join([t, r, p, i], '_') == t + "_" + (r + "_" + (p + "_" + i));
  }

  /** The example key is the four parts joined with '_'. */
  lemma AaplKey()
    ensures Join(["AAPL", "0", "2023-12-31", "totalRevenue"], '_') == "AAPL_0_2023-12-31_totalRevenue"
  {
    JoinFour("AAPL", "0", "2023-12-31", "totalRevenue");
  }

  /** The key `AAPL_0_2023-12-31_totalRevenue` with value 100 becomes the row (AAPL, 2023-12-31, Total Revenue, 100). */
  lemma TabulateAaplRevenue()
    ensures Tabulate([("AAPL_0_2023-12-31_totalRevenue", 100)]) ==
              Ok(Table(4, [Row(0, "AAPL", Some("2023-12-31"), Some("Total Revenue"), [], 100)]))
  {
    AaplKey();
    TabulateOneKey("AAPL", "0", "2023-12-31", "totalRevenue", 100);
    LabelTotalRevenue();
  }

  /** The loop of `ExtractIncomeStatement` that merges the flattened statements into `dict_df`. */
  method MergeStatements<V>(flattened: seq<Entries<V>>) returns (d: Dict<V>)
    ensures d == MergeAll(flattened)
  {
    var keys: seq<string> := [];
    var values: map<string, V> := map[];
    for t := 0 to |flattened|
      invariant Dict(keys, values) == MergeAll(flattened[..t])
    {
      var flat := flattened[t];
      assert flattened[..t + 1][..t] == flattened[..t];
      for j := 0 to |flat|
        invariant Dict(keys, values) == UpdateWith(MergeAll(flattened[..t]), flat[..j])
      {
        var (key, value) := flat[j];
        if key !in values {
          keys := keys + [key];
        }
        values := values[key := value];
        assert flat[..j + 1][..j] == flat[..j];
      }
      assert flat[..|flat|] == flat;
    }
    assert flattened[..|flattened|] == flattened;
    d := Dict(keys, values);
  }

  /**
   * The data-frame steps of `ExtractIncomeStatement`: split the keys, drop
   * the Ref column, number the rows and normalise the Item column with
   * `FixItemName`.
   */
  method BuildTable<V>(entries: Entries<V>) returns (r: Result<Table<V>, Error>)
    ensures r == Tabulate(entries)
  {
    var parts := seq(|entries|, k requires 0 <= k < |entries| => Split(entries[k].0, '_'));
    assert parts == Parts(entries);
    var width := MaxLen(parts);
    if width < 2 {
      return Err(MissingRefColumn);
    }
    if width < 4 {
      var rows := seq(|parts|, k requires 0 <= k < |parts| =>
        Row(k, parts[k][0], Cell(parts[k], 2), None, [], entries[k].1));
      assert rows == seq(|parts|, k requires 0 <= k < |parts| => MakeRow(k, parts[k], entries[k].1));
      return Ok(Table(width, rows));
    }
    var short := FirstShort(parts);
    if short < |parts| {
      return Err(ItemNotText(short));
    }
    var labels := FixItemName(seq(|parts|, k requires 0 <= k < |parts| => parts[k][3]));
    var rows := seq(|parts|, k requires 0 <= k < |parts| =>
      Row(k, parts[k][0], Some(parts[k][2]), Some(labels[k]), Rest(parts[k]), entries[k].1));
    assert rows == seq(|parts|, k requires 0 <= k < |parts| => MakeRow(k, parts[k], entries[k].1));
    r := Ok(Table(width, rows));
  }

  /**
   * `ExtractIncomeStatement` after the fetch: the flattened statements of the
   * tickers, in ticker order, become the income-statement table.
   */
  method ExtractIncomeStatement<V>(flattened: seq<Entries<V>>) returns (r: Result<Table<V>, Error>)
    ensures r == Tabulate(Items(MergeAll(flattened)))
  {
    var dict := MergeStatements(flattened);
    r := BuildTable(Items(dict));
  }
}
