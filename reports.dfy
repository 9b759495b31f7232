/** What the two aggregations over the ledger rows compute: the monthly report, keyed by the
    month/year of the due date and by "total_" + type, and the per-category debit/credit summary. */
module Reports {
  import opened Records
  import opened Selection
  import Dates

  /** Why an aggregation stops with no result: a field the row lacks, or an amount that does
      not read as a number. */
  datatype Fault = MissingField(name: string) | NotANumber(text: string)

  /** Debit and credit totals of one category. */
  datatype Totals = Totals(debito: int, credito: int)

  /** The two entry types the category summary recognises. */
  const Debit: string := "d\U{00E9}bito"
  const Credit: string := "cr\U{00E9}dito"

  /** The amount of a row, read by `parse`. */
  function Amount(r: Row, parse: string -> Option<int>): int
    requires "valor" in r && parse(r["valor"]).Some?
  {
    parse(r["valor"]).value
  }

  // ----- Monthly report -----

  /** The fault the monthly report meets on a row, checked in the order the report reads the
      fields: due date, type, amount. */
  function MonthlyFault(r: Row, parse: string -> Option<int>): (f: Option<Fault>)
    ensures f == None <==> "data_vencimento" in r && "tipo" in r && "valor" in r && parse(r["valor"]).Some?
    ensures f.Some? && f.value.MissingField? ==> f.value.name !in r
    ensures f.Some? && f.value.NotANumber? ==> "valor" in r && f.value.text == r["valor"] && parse(r["valor"]).None?
  {
    if "data_vencimento" !in r then Some(MissingField("data_vencimento"))
    else if "tipo" !in r then Some(MissingField("tipo"))
    else if "valor" !in r then Some(MissingField("valor"))
    else if parse(r["valor"]).None? then Some(NotANumber(r["valor"]))
    else None
  }

  /** When a row has several faults, the monthly report meets the first one in its reading order:
      the due date, then the type, then the amount, then the amount's number. */
  lemma MonthlyFaultOrder(r: Row, parse: string -> Option<int>)
    ensures "data_vencimento" !in r ==> MonthlyFault(r, parse) == Some(MissingField("data_vencimento"))
    ensures "data_vencimento" in r && "tipo" !in r ==> MonthlyFault(r, parse) == Some(MissingField("tipo"))
    ensures "data_vencimento" in r && "tipo" in r && "valor" !in r ==> MonthlyFault(r, parse) == Some(MissingField("valor"))
    ensures "data_vencimento" in r && "tipo" in r && "valor" in r && parse(r["valor"]).None? ==>
      MonthlyFault(r, parse) == Some(NotANumber(r["valor"]))
  {
  }

  predicate MonthlyReady(rows: seq<Row>, parse: string -> Option<int>) {
    forall j :: 0 <= j < |rows| ==> MonthlyFault(rows[j], parse) == None
  }

  /** The month key of a row's due date. */
  function MonthOf(r: Row): string
    requires "data_vencimento" in r
  {
    Dates.MonthKey(r["data_vencimento"])
  }

  /** The bucket of a row's type. */
  function BucketOf(r: Row): string
    requires "tipo" in r
  {
    "total_" + r["tipo"]
  }

  /** The month keys the rows fall in. */
  function Months(rows: seq<Row>, parse: string -> Option<int>): set<string>
    requires MonthlyReady(rows, parse)
  {
    if rows == [] then {}
    else Months(rows[..|rows| - 1], parse) + {MonthOf(rows[|rows| - 1])}
  }

  /** The buckets ("total_" + type) that the rows of month `m` fall in. */
  function Buckets(rows: seq<Row>, parse: string -> Option<int>, m: string): set<string>
    requires MonthlyReady(rows, parse)
  {
    if rows == [] then {}
    else
      var last := rows[|rows| - 1];
      Buckets(rows[..|rows| - 1], parse, m) + (if MonthOf(last) == m then {BucketOf(last)} else {})
  }

  /** The sum of the amounts of the rows of month `m` whose bucket is `b`. */
  function MonthTotal(rows: seq<Row>, parse: string -> Option<int>, m: string, b: string): int
    requires MonthlyReady(rows, parse)
  {
    if rows == [] then 0
    else
      var last := rows[|rows| - 1];
      MonthTotal(rows[..|rows| - 1], parse, m, b)
        + (if MonthOf(last) == m && BucketOf(last) == b then Amount(last, parse) else 0)
  }

  /** The buckets of one month after one more faultless row. */
  lemma BucketsSnoc(rows: seq<Row>, x: Row, parse: string -> Option<int>, m: string)
    requires MonthlyReady(rows, parse) && MonthlyFault(x, parse) == None
    ensures MonthlyReady(rows + [x], parse)
    ensures Buckets(rows + [x], parse, m) == Buckets(rows, parse, m) + (if MonthOf(x) == m then {BucketOf(x)} else {})
  {
    assert (rows + [x])[..|rows|] == rows;
  }

  /** One cell of the report after one more faultless row. */
  lemma MonthTotalSnoc(rows: seq<Row>, x: Row, parse: string -> Option<int>, m: string, b: string)
    requires MonthlyReady(rows, parse) && MonthlyFault(x, parse) == None
    ensures MonthlyReady(rows + [x], parse)
    ensures MonthTotal(rows + [x], parse, m, b) ==
      MonthTotal(rows, parse, m, b) + (if MonthOf(x) == m && BucketOf(x) == b then Amount(x, parse) else 0)
  {
    assert (rows + [x])[..|rows|] == rows;
  }

  /** One more row, free of faults, extends the month keys, the buckets and the totals by itself:
      the two lemmas above, for every month and bucket at once. */
  lemma MonthlySnoc(rows: seq<Row>, x: Row, parse: string -> Option<int>)
    requires MonthlyReady(rows, parse) && MonthlyFault(x, parse) == None
    ensures MonthlyReady(rows + [x], parse)
    ensures Months(rows + [x], parse) == Months(rows, parse) + {MonthOf(x)}
    ensures forall m :: (Buckets(rows + [x], parse, m) ==
      Buckets(rows, parse, m) + (if MonthOf(x) == m then {BucketOf(x)} else {}))
    ensures forall m, b :: (MonthTotal(rows + [x], parse, m, b) ==
      MonthTotal(rows, parse, m, b) + (if MonthOf(x) == m && BucketOf(x) == b then Amount(x, parse) else 0))
  {
    assert (rows + [x])[..|rows|] == rows;
    forall m {
      BucketsSnoc(rows, x, parse, m);
    }
    forall m, b {
      MonthTotalSnoc(rows, x, parse, m, b);
    }
  }

  /** A month with no row has no bucket. */
  lemma {:induction false} BucketsWithinMonths(rows: seq<Row>, parse: string -> Option<int>, m: string)
    requires MonthlyReady(rows, parse)
    ensures m !in Months(rows, parse) ==> Buckets(rows, parse, m) == {}
  {
    if rows != [] {
      BucketsWithinMonths(rows[..|rows| - 1], parse, m);
    }
  }

  /** A month key is reported exactly when some row falls in it. */
  lemma {:induction false} MonthsMeaning(rows: seq<Row>, parse: string -> Option<int>, m: string)
    requires MonthlyReady(rows, parse)
    ensures m in Months(rows, parse) <==> exists j :: 0 <= j < |rows| && MonthOf(rows[j]) == m
  {
    if rows != [] {
      var n := |rows| - 1;
      var init := rows[..n];
      MonthsMeaning(init, parse, m);
      if m in Months(init, parse) {
        var j :| 0 <= j < n && MonthOf(init[j]) == m;
        assert init[j] == rows[j];
        assert 0 <= j < |rows| && MonthOf(rows[j]) == m;
      } else if m in Months(rows, parse) {
        assert MonthOf(rows[n]) == m;
      }
      if exists j :: 0 <= j < |rows| && MonthOf(rows[j]) == m {
        var j :| 0 <= j < |rows| && MonthOf(rows[j]) == m;
        if j < n {
          assert init[j] == rows[j];
        }
      }
    }
  }

  /** A bucket appears under a month exactly when some row of that month has that type. */
  lemma {:induction false} BucketsMeaning(rows: seq<Row>, parse: string -> Option<int>, m: string, b: string)
    requires MonthlyReady(rows, parse)
    ensures b in Buckets(rows, parse, m) <==>
      exists j :: 0 <= j < |rows| && MonthOf(rows[j]) == m && BucketOf(rows[j]) == b
  {
    if rows != [] {
      var n := |rows| - 1;
      var init := rows[..n];
      BucketsMeaning(init, parse, m, b);
      if b in Buckets(init, parse, m) {
        var j :| 0 <= j < n && MonthOf(init[j]) == m && BucketOf(init[j]) == b;
        assert init[j] == rows[j];
        assert 0 <= j < |rows| && MonthOf(rows[j]) == m && BucketOf(rows[j]) == b;
      } else if b in Buckets(rows, parse, m) {
        assert MonthOf(rows[n]) == m && BucketOf(rows[n]) == b;
      }
      if exists j :: 0 <= j < |rows| && MonthOf(rows[j]) == m && BucketOf(rows[j]) == b {
        var j :| 0 <= j < |rows| && MonthOf(rows[j]) == m && BucketOf(rows[j]) == b;
        if j < n {
          assert init[j] == rows[j];
        }
      }
    }
  }

  /** The totals of a ledger split in two are the sums of the totals of its parts; in particular,
      appending a record adds its amount to its own bucket and to no other. */
  lemma {:induction false} MonthTotalConcat(a: seq<Row>, b: seq<Row>, parse: string -> Option<int>,
                                            m: string, bucket: string)
    requires MonthlyReady(a, parse) && MonthlyReady(b, parse)
    ensures MonthlyReady(a + b, parse)
    ensures MonthTotal(a + b, parse, m, bucket) == MonthTotal(a, parse, m, bucket) + MonthTotal(b, parse, m, bucket)
  {
    assert forall j :: 0 <= j < |a + b| ==> (a + b)[j] == if j < |a| then a[j] else b[j - |a|];
    if b != [] {
      var n := |b| - 1;
      assert (a + b)[..|a + b| - 1] == a + b[..n];
      MonthTotalConcat(a, b[..n], parse, m, bucket);
    } else {
      assert a + b == a;
    }
  }

  // ----- Category summary -----

  /** The fault the category summary meets on a row, checked in the order it reads the fields:
      category, amount, type. The amount is read even for rows of another type. */
  function CategoryFault(r: Row, parse: string -> Option<int>): (f: Option<Fault>)
    ensures f == None <==> "categoria" in r && "tipo" in r && "valor" in r && parse(r["valor"]).Some?
    ensures f.Some? && f.value.MissingField? ==> f.value.name !in r
    ensures f.Some? && f.value.NotANumber? ==> "valor" in r && f.value.text == r["valor"] && parse(r["valor"]).None?
  {
    if "categoria" !in r then Some(MissingField("categoria"))
    else if "valor" !in r then Some(MissingField("valor"))
    else if parse(r["valor"]).None? then Some(NotANumber(r["valor"]))
    else if "tipo" !in r then Some(MissingField("tipo"))
    else None
  }

  /** When a row has several faults, the category summary meets the first one in its reading
      order: the category, then the amount, then the amount's number, then the type. */
  lemma CategoryFaultOrder(r: Row, parse: string -> Option<int>)
    ensures "categoria" !in r ==> CategoryFault(r, parse) == Some(MissingField("categoria"))
    ensures "categoria" in r && "valor" !in r ==> CategoryFault(r, parse) == Some(MissingField("valor"))
    ensures "categoria" in r && "valor" in r && parse(r["valor"]).None? ==> CategoryFault(r, parse) == Some(NotANumber(r["valor"]))
    ensures "categoria" in r && "valor" in r && parse(r["valor"]).Some? && "tipo" !in r ==>
      CategoryFault(r, parse) == Some(MissingField("tipo"))
  {
  }

  predicate CategoryReady(rows: seq<Row>, parse: string -> Option<int>) {
    forall j :: 0 <= j < |rows| ==> CategoryFault(rows[j], parse) == None
  }

  /** A row is summarised only when its type is one of the two recognised ones. */
  predicate Recognised(r: Row) {
    Get(r, "tipo") == Debit || Get(r, "tipo") == Credit
  }

  /** The categories of the rows whose type is recognised. */
  function Categories(rows: seq<Row>, parse: string -> Option<int>): set<string>
    requires CategoryReady(rows, parse)
  {
    if rows == [] then {}
    else
      var last := rows[|rows| - 1];
      Categories(rows[..|rows| - 1], parse) + (if Recognised(last) then {last["categoria"]} else {})
  }

  /** The sum of the amounts of the rows of category `c` and type `t`. */
  function CategoryTotal(rows: seq<Row>, parse: string -> Option<int>, c: string, t: string): int
    requires CategoryReady(rows, parse)
  {
    if rows == [] then 0
    else
      var last := rows[|rows| - 1];
      CategoryTotal(rows[..|rows| - 1], parse, c, t)
        + (if last["categoria"] == c && last["tipo"] == t then Amount(last, parse) else 0)
  }

  /** One more row, free of faults, extends the categories and the totals by itself. */
  lemma CategorySnoc(rows: seq<Row>, x: Row, parse: string -> Option<int>)
    requires CategoryReady(rows, parse) && CategoryFault(x, parse) == None
    ensures CategoryReady(rows + [x], parse)
    ensures Categories(rows + [x], parse) ==
      Categories(rows, parse) + (if Recognised(x) then {x["categoria"]} else {})
    ensures forall c, t :: (CategoryTotal(rows + [x], parse, c, t) ==
      CategoryTotal(rows, parse, c, t) + (if x["categoria"] == c && x["tipo"] == t then Amount(x, parse) else 0))
  {
    assert (rows + [x])[..|rows|] == rows;
  }

  /** A category is summarised exactly when some row of a recognised type carries it. */
  lemma {:induction false} CategoriesMeaning(rows: seq<Row>, parse: string -> Option<int>, c: string)
    requires CategoryReady(rows, parse)
    ensures c in Categories(rows, parse) <==>
      exists j :: 0 <= j < |rows| && Recognised(rows[j]) && rows[j]["categoria"] == c
  {
    if rows != [] {
      var n := |rows| - 1;
      CategoriesMeaning(rows[..n], parse, c);
      if exists j :: 0 <= j < n && Recognised(rows[..n][j]) && rows[..n][j]["categoria"] == c {
        var j :| 0 <= j < n && Recognised(rows[..n][j]) && rows[..n][j]["categoria"] == c;
        assert Recognised(rows[j]) && rows[j]["categoria"] == c;
      }
      if exists j :: 0 <= j < |rows| && Recognised(rows[j]) && rows[j]["categoria"] == c {
        var j :| 0 <= j < |rows| && Recognised(rows[j]) && rows[j]["categoria"] == c;
        if j < n {
          assert Recognised(rows[..n][j]) && rows[..n][j]["categoria"] == c;
        }
      }
    }
  }

  /** Rows of any other type neither add to a total nor create a category: dropping them all
      leaves the summary as it was. */
  lemma {:induction false} OtherTypesIgnored(rows: seq<Row>, parse: string -> Option<int>, c: string)
    requires CategoryReady(rows, parse)
    ensures CategoryReady(Filter(rows, Recognised), parse)
    ensures Categories(Filter(rows, Recognised), parse) == Categories(rows, parse)
    ensures CategoryTotal(Filter(rows, Recognised), parse, c, Debit) == CategoryTotal(rows, parse, c, Debit)
    ensures CategoryTotal(Filter(rows, Recognised), parse, c, Credit) == CategoryTotal(rows, parse, c, Credit)
  {
    var kept := Filter(rows, Recognised);
    FilterSound(rows, Recognised);
    assert forall x :: x in rows ==> CategoryFault(x, parse) == None;
    if rows != [] {
      var n := |rows| - 1;
      var last := rows[n];
      assert rows == rows[..n] + [last];
      FilterSnoc(rows[..n], last, Recognised);
      OtherTypesIgnored(rows[..n], parse, c);
      var init := Filter(rows[..n], Recognised);
      if Recognised(last) {
        assert kept == init + [last];
        assert kept[..|kept| - 1] == init;
      } else {
        assert kept == init;
      }
    }
  }
}
