/** The ledger file as a store: an optional header line (the field names) and the rows under it.
    Every operation reads the whole store; update and delete rewrite it whole. */
module Ledger {
  import opened Records
  import opened Selection
  import opened Reports

  /** The row with the fields of `fields` written over it. */
  function Merge(r: Row, fields: Row): (m: Row)
    ensures m.Keys == r.Keys + fields.Keys
    ensures forall f :: f in fields ==> m[f] == fields[f]
    ensures forall f :: f in r && f !in fields ==> m[f] == r[f]
  {
    r + fields
  }

  /** The rows after `fields` is merged into every row whose description is `key`. */
  function Merged(rows: seq<Row>, key: string, fields: Row): (r: seq<Row>)
    ensures |r| == |rows|
  {
    if rows == [] then []
    else
      var last := rows[|rows| - 1];
      Merged(rows[..|rows| - 1], key, fields)
        + [if Get(last, "descricao") == key then Merge(last, fields) else last]
  }

  /** The update keeps the number and order of the rows: row k becomes the merge of row k
      when its description is the key, and stays as it was otherwise. */
  lemma {:induction false} MergedAt(rows: seq<Row>, key: string, fields: Row)
    ensures forall k :: 0 <= k < |rows| ==>
      Merged(rows, key, fields)[k] == if Get(rows[k], "descricao") == key then Merge(rows[k], fields) else rows[k]
  {
    if rows != [] {
      MergedAt(rows[..|rows| - 1], key, fields);
    }
  }

  /** Field by field: a matching row takes every supplied value and keeps every other field;
      a row that does not match keeps all of its fields. */
  lemma MergedFields(rows: seq<Row>, key: string, fields: Row, k: nat, f: string)
    requires k < |rows|
    ensures var r := Merged(rows, key, fields)[k];
      && (f in r <==> f in rows[k] || (Get(rows[k], "descricao") == key && f in fields))
      && (Get(rows[k], "descricao") == key && f in fields ==> r[f] == fields[f])
      && ((Get(rows[k], "descricao") != key || f !in fields) && f in rows[k] ==> r[f] == rows[k][f])
  {
    MergedAt(rows, key, fields);
  }

  /** Merging the same fields twice is merging them once. */
  lemma MergeTwice(r: Row, fields: Row)
    ensures Merge(Merge(r, fields), fields) == Merge(r, fields)
  {
    assert Merge(Merge(r, fields), fields).Keys == Merge(r, fields).Keys;
  }

  /** Updating a second time with the same key and fields changes nothing more. */
  lemma UpdateIdempotent(rows: seq<Row>, key: string, fields: Row)
    ensures Merged(Merged(rows, key, fields), key, fields) == Merged(rows, key, fields)
  {
    var once := Merged(rows, key, fields);
    var twice := Merged(once, key, fields);
    MergedAt(rows, key, fields);
    MergedAt(once, key, fields);
    forall k | 0 <= k < |rows| ensures twice[k] == once[k] {
      MergeTwice(rows[k], fields);
    }
  }

  /** Updating a prefix extended by one row updates the prefix and then that row. */
  lemma MergedSnoc(rows: seq<Row>, x: Row, key: string, fields: Row)
    ensures Merged(rows + [x], key, fields) ==
      Merged(rows, key, fields) + [if Get(x, "descricao") == key then Merge(x, fields) else x]
  {
    assert (rows + [x])[..|rows|] == rows;
  }

  /** Some row's description is `key`. */
  predicate Described(rows: seq<Row>, key: string) {
    exists k :: 0 <= k < |rows| && Get(rows[k], "descricao") == key
  }

  lemma DescribedSnoc(rows: seq<Row>, x: Row, key: string)
    ensures Described(rows + [x], key) <==> Described(rows, key) || Get(x, "descricao") == key
  {
    if Described(rows, key) {
      var k :| 0 <= k < |rows| && Get(rows[k], "descricao") == key;
      assert (rows + [x])[k] == rows[k];
    }
    if Described(rows + [x], key) && Get(x, "descricao") != key {
      var k :| 0 <= k < |rows + [x]| && Get((rows + [x])[k], "descricao") == key;
      assert k < |rows| && (rows + [x])[k] == rows[k];
    }
    assert (rows + [x])[|rows|] == x;
  }

  /** Supplied fields that every matching row already has leave each row's set of fields as it was. */
  lemma MergedKeys(rows: seq<Row>, key: string, fields: Row)
    requires forall k :: 0 <= k < |rows| && Get(rows[k], "descricao") == key ==> fields.Keys <= rows[k].Keys
    ensures forall k :: 0 <= k < |rows| ==> Merged(rows, key, fields)[k].Keys == rows[k].Keys
  {
    MergedAt(rows, key, fields);
  }

  /** With no row matching the key, the update leaves every row as it was. */
  lemma {:induction false} UpdateWithoutMatch(rows: seq<Row>, key: string, fields: Row)
    requires forall k :: 0 <= k < |rows| ==> Get(rows[k], "descricao") != key
    ensures Merged(rows, key, fields) == rows
  {
    var r := Merged(rows, key, fields);
    MergedAt(rows, key, fields);
    assert forall k :: 0 <= k < |rows| ==> r[k] == rows[k];
  }

  /** The test that keeps a row on delete: its description differs from the key. */
  function DescriptionDiffers(key: string): Row -> bool {
    r => Get(r, "descricao") != key
  }

  /** The test that keeps a row in a search: every criterion with a non-empty value agrees with
      the row's field, ignoring case; a field the row lacks reads as empty. */
  predicate Matches(r: Row, criteria: Row) {
    forall f :: f in criteria && criteria[f] != "" ==> Lower(Get(r, f)) == Lower(criteria[f])
  }

  function MatchesAll(criteria: Row): Row -> bool {
    r => Matches(r, criteria)
  }

  /** A search criterion written in another case selects the same rows. */
  lemma SearchIgnoresCase(rows: seq<Row>, criteria: Row, f: string)
    requires f in criteria
    ensures Filter(rows, MatchesAll(criteria[f := Lower(criteria[f])])) == Filter(rows, MatchesAll(criteria))
  {
    var lowered := criteria[f := Lower(criteria[f])];
    LowerIdempotent(criteria[f]);
    LowerEmpty(criteria[f]);
    forall r | r in rows ensures MatchesAll(lowered)(r) == MatchesAll(criteria)(r) {
      assert forall g :: g in lowered <==> g in criteria;
      assert forall g :: g in criteria ==> Lower(lowered[g]) == Lower(criteria[g]);
      assert forall g :: g in criteria ==> (lowered[g] == "" <==> criteria[g] == "");
    }
    FilterCongruent(rows, MatchesAll(lowered), MatchesAll(criteria));
  }

  /** Criteria that are all empty select every row. */
  lemma SearchWithoutCriteria(rows: seq<Row>, criteria: Row)
    requires forall f :: f in criteria ==> criteria[f] == ""
    ensures Filter(rows, MatchesAll(criteria)) == rows
  {
    FilterKeepsAll(rows, MatchesAll(criteria));
  }

  class Store {
    /** The header line of the file; None while the file is empty or does not exist. */
    var header: Option<seq<string>>
    /** The rows under the header, in file order. */
    var rows: seq<Row>

    /** An empty file has no rows; otherwise the header names each field once, and every row
        has exactly the header's fields (the file is written and read back through the header). */
    ghost predicate Valid()
      reads this
    {
      match header
      case None => rows == []
      case Some(h) =>
        && Distinct(h)
        && (rows != [] ==> h != [])
        && forall k :: 0 <= k < |rows| ==> rows[k].Keys == KeySet(h)
    }

    /** A ledger whose file does not exist yet. */
    constructor ()
      ensures Valid() && header == None && rows == []
    {
      header := None;
      rows := [];
    }

    /** Adds a record at the end; an empty file first gets the record's keys as its header. */
    method Append(conta: Dict)
      requires Valid() && WellFormed(conta) && conta.keys != []
      requires header == None || header == Some(conta.keys)
      modifies this
      ensures Valid()
      ensures header == Some(conta.keys)
      ensures rows == old(rows) + [conta.entries]
    {
      if header == None {
        header := Some(conta.keys);
      }
      rows := rows + [conta.entries];
    }

    /** Reads every row, in file order; a missing file gives no rows. */
    method Load() returns (contas: seq<Row>)
      requires Valid()
      ensures contas == rows
      ensures header == None ==> contas == []
    {
      contas := [];
      var i := 0;
      while i < |rows|
        invariant 0 <= i <= |rows|
        invariant contas == rows[..i]
      {
        contas := contas + [rows[i]];
        i := i + 1;
      }
    }

    /** Merges `novosDados` into every row whose description equals `key`, then rewrites the file.
        Reports whether any row matched. */
    method Update(key: string, novosDados: Dict) returns (updated: bool)
      requires Valid() && WellFormed(novosDados)
      requires forall k :: 0 <= k < |rows| ==> "descricao" in rows[k]
      requires forall k :: 0 <= k < |rows| && rows[k]["descricao"] == key ==>
        novosDados.entries.Keys <= rows[k].Keys
      modifies this
      ensures Valid()
      ensures updated <==> Described(old(rows), key)
      ensures rows == Merged(old(rows), key, novosDados.entries)
      ensures header == if old(rows) == [] then Some(novosDados.keys) else old(header)
    {
      updated := UpdateKeepingHeader(key, novosDados);
      if rows == [] {
        header := Some(novosDados.keys);
      }
    }

    /** The update as its callers need it: the same rows and the same result, but the header of
        the file is left as it was, so a ledger with no rows is not given a header made of the
        supplied fields only. */
    method UpdateKeepingHeader(key: string, novosDados: Dict) returns (updated: bool)
      requires Valid()
      requires forall k :: 0 <= k < |rows| ==> "descricao" in rows[k]
      requires forall k :: 0 <= k < |rows| && rows[k]["descricao"] == key ==>
        novosDados.entries.Keys <= rows[k].Keys
      modifies this
      ensures Valid()
      ensures updated <==> Described(old(rows), key)
      ensures rows == Merged(old(rows), key, novosDados.entries)
      ensures header == old(header)
    {
      var contas := Load();
      var written;
      written, updated := MergeInto(contas, key, novosDados.entries);
      MergedKeys(contas, key, novosDados.entries);
      rows := written;
    }

    /** Keeps only the rows whose description differs from `key`, then rewrites the file; the
        header stays whenever the file held rows before, even if none is left. Reports whether
        the number of rows went down. */
    method Delete(key: string) returns (deleted: bool)
      requires Valid()
      requires forall k :: 0 <= k < |rows| ==> "descricao" in rows[k]
      modifies this
      ensures Valid()
      ensures rows == Filter(old(rows), DescriptionDiffers(key))
      ensures header == if old(rows) == [] then None else old(header)
      ensures deleted <==> Described(old(rows), key)
      ensures forall k :: 0 <= k < |rows| ==> rows[k]["descricao"] != key
    {
      var contas := Load();
      var kept := Filter(contas, DescriptionDiffers(key));
      FilterShrinks(contas, DescriptionDiffers(key));
      FilterSound(contas, DescriptionDiffers(key));
      assert forall k :: 0 <= k < |kept| ==> kept[k] in contas;
      if contas == [] {
        header := None;
      }
      rows := kept;
      deleted := |contas| != |kept|;
    }

    /** The rows matching every non-empty criterion, ignoring case, in file order. */
    method Search(criteria: Row) returns (found: seq<Row>)
      requires Valid()
      ensures found == Filter(rows, MatchesAll(criteria))
    {
      var contas := Load();
      found := SelectMatching(contas, criteria);
    }

    /** Sums the amounts per month key and per "total_" + type bucket; stops at the first row
        that lacks a field or whose amount does not parse. */
    method MonthlyReport(parse: string -> Option<int>) returns (r: Result<map<string, map<string, int>>, Fault>)
      requires Valid()
      ensures r.Failure? <==> !MonthlyReady(rows, parse)
      ensures r.Failure? ==> exists j :: 0 <= j < |rows| && MonthlyFault(rows[j], parse) == Some(r.error)
                                          && MonthlyReady(rows[..j], parse)
      ensures r.Success? ==> r.value.Keys == Months(rows, parse)
      ensures r.Success? ==> forall m :: m in r.value ==> r.value[m].Keys == Buckets(rows, parse, m)
      ensures r.Success? ==> forall m, b :: m in r.value && b in r.value[m] ==>
        r.value[m][b] == MonthTotal(rows, parse, m, b)
    {
      var contas := Load();
      r := Tally(contas, parse);
    }

    /** Per category, the debit total and the credit total; rows of another type are read but
        neither counted nor give their category an entry. Stops at the first faulty row. */
    method CategorySummary(parse: string -> Option<int>) returns (r: Result<map<string, Totals>, Fault>)
      requires Valid()
      ensures r.Failure? <==> !CategoryReady(rows, parse)
      ensures r.Failure? ==> exists j :: 0 <= j < |rows| && CategoryFault(rows[j], parse) == Some(r.error)
                                          && CategoryReady(rows[..j], parse)
      ensures r.Success? ==> r.value.Keys == Categories(rows, parse)
      ensures r.Success? ==> forall c :: c in r.value ==>
        r.value[c] == Totals(CategoryTotal(rows, parse, c, Debit), CategoryTotal(rows, parse, c, Credit))
    {
      var contas := Load();
      r := Summarise(contas, parse);
    }
  }

  /** The rows of an update, one at a time in file order: a row whose description is `key` takes
      the supplied fields, any other is written as it was. Reports whether any row matched. */
  method MergeInto(contas: seq<Row>, key: string, fields: Row) returns (written: seq<Row>, updated: bool)
    requires forall k :: 0 <= k < |contas| ==> "descricao" in contas[k]
    ensures written == Merged(contas, key, fields)
    ensures updated <==> Described(contas, key)
  {
    updated := false;
    written := [];
    var i := 0;
    while i < |contas|
      invariant 0 <= i <= |contas|
      invariant written == Merged(contas[..i], key, fields)
      invariant updated <==> Described(contas[..i], key)
    {
      var conta := contas[i];
      if conta["descricao"] == key {
        conta := Merge(conta, fields);
        updated := true;
      }
      written := written + [conta];
      PrefixSnoc(contas, i);
      MergedSnoc(contas[..i], contas[i], key, fields);
      DescribedSnoc(contas[..i], contas[i], key);
      i := i + 1;
    }
    assert contas[..|contas|] == contas;
  }

  /** The rows matching every non-empty criterion, ignoring case, in their order. */
  method SelectMatching(contas: seq<Row>, criteria: Row) returns (found: seq<Row>)
    ensures found == Filter(contas, MatchesAll(criteria))
  {
    found := [];
    var i := 0;
    while i < |contas|
      invariant 0 <= i <= |contas|
      invariant found == Filter(contas[..i], MatchesAll(criteria))
    {
      PrefixSnoc(contas, i);
      FilterSnoc(contas[..i], contas[i], MatchesAll(criteria));
      if MatchesAll(criteria)(contas[i]) {
        found := found + [contas[i]];
      }
      i := i + 1;
    }
    WholePrefix(contas);
  }

  /** The monthly report of the rows, accumulated one row at a time; the first faulty row stops it. */
  method Tally(contas: seq<Row>, parse: string -> Option<int>) returns (r: Result<map<string, map<string, int>>, Fault>)
    ensures r.Failure? <==> !MonthlyReady(contas, parse)
    ensures r.Failure? ==> exists j :: 0 <= j < |contas| && MonthlyFault(contas[j], parse) == Some(r.error)
                                        && MonthlyReady(contas[..j], parse)
    ensures r.Success? ==> r.value.Keys == Months(contas, parse)
    ensures r.Success? ==> forall m :: m in r.value ==> r.value[m].Keys == Buckets(contas, parse, m)
    ensures r.Success? ==> forall m, b :: m in r.value && b in r.value[m] ==>
      r.value[m][b] == MonthTotal(contas, parse, m, b)
  {
    var report: map<string, map<string, int>> := map[];
    var i := 0;
    while i < |contas|
      invariant 0 <= i <= |contas|
      invariant MonthlyReady(contas[..i], parse)
      invariant ReportOf(report, contas[..i], parse)
    {
      var conta := contas[i];
      var fault := MonthlyFault(conta, parse);
      if fault.Some? {
        return Failure(fault.value);
      }
      ReportStep(report, contas[..i], conta, parse);
      var mesAno := MonthOf(conta);
      var bucket := BucketOf(conta);
      report := AddTo(report, mesAno, bucket, Amount(conta, parse));
      PrefixSnoc(contas, i);
      i := i + 1;
    }
    assert contas[..|contas|] == contas;
    ReportCells(report, contas, parse);
    r := Success(report);
  }

  /** The category summary of the rows, accumulated one row at a time; the first faulty row stops it. */
  method Summarise(contas: seq<Row>, parse: string -> Option<int>) returns (r: Result<map<string, Totals>, Fault>)
    ensures r.Failure? <==> !CategoryReady(contas, parse)
    ensures r.Failure? ==> exists j :: 0 <= j < |contas| && CategoryFault(contas[j], parse) == Some(r.error)
                                        && CategoryReady(contas[..j], parse)
    ensures r.Success? ==> r.value.Keys == Categories(contas, parse)
    ensures r.Success? ==> forall c :: c in r.value ==>
      r.value[c] == Totals(CategoryTotal(contas, parse, c, Debit), CategoryTotal(contas, parse, c, Credit))
  {
    var summary: map<string, Totals> := map[];
    var i := 0;
    while i < |contas|
      invariant 0 <= i <= |contas|
      invariant CategoryReady(contas[..i], parse)
      invariant SummaryOf(summary, contas[..i], parse)
    {
      var conta := contas[i];
      var fault := CategoryFault(conta, parse);
      if fault.Some? {
        return Failure(fault.value);
      }
      SummaryStep(summary, contas[..i], conta, parse);
      var categoria := conta["categoria"];
      var valor := Amount(conta, parse);
      var totals := Entry(summary, categoria);
      if conta["tipo"] == Debit {
        summary := summary[categoria := totals.(debito := totals.debito + valor)];
      } else if conta["tipo"] == Credit {
        summary := summary[categoria := totals.(credito := totals.credito + valor)];
      }
      PrefixSnoc(contas, i);
      i := i + 1;
    }
    assert contas[..|contas|] == contas;
    r := Success(summary);
  }

  /** A monthly report cell, zero where the report has no entry yet. */
  function Cell(report: map<string, map<string, int>>, m: string, b: string): int {
    if m in report && b in report[m] then report[m][b] else 0
  }

  /** The report with `v` added to cell (m, b), creating the month and the bucket as needed. */
  function AddTo(report: map<string, map<string, int>>, m: string, b: string, v: int): (next: map<string, map<string, int>>)
    ensures next.Keys == report.Keys + {m}
    ensures next[m].Keys == (if m in report then report[m].Keys else {}) + {b}
    ensures forall m' :: m' in report && m' != m ==> next[m'] == report[m']
    ensures Cell(next, m, b) == Cell(report, m, b) + v
    ensures forall m', b' :: (m', b') != (m, b) ==> Cell(next, m', b') == Cell(report, m', b')
  {
    var buckets := if m in report then report[m] else map[];
    report[m := buckets[b := Cell(report, m, b) + v]]
  }

  /** `report` is the monthly report of `rows`: its keys, its buckets and its cells. */
  ghost predicate ReportOf(report: map<string, map<string, int>>, rows: seq<Row>, parse: string -> Option<int>)
    requires MonthlyReady(rows, parse)
  {
    && report.Keys == Months(rows, parse)
    && (forall m :: m in report ==> report[m].Keys == Buckets(rows, parse, m))
    && (forall m, b :: Cell(report, m, b) == MonthTotal(rows, parse, m, b))
  }

  /** Read as a map, a report of the rows holds each cell's total. */
  lemma ReportCells(report: map<string, map<string, int>>, rows: seq<Row>, parse: string -> Option<int>)
    requires MonthlyReady(rows, parse) && ReportOf(report, rows, parse)
    ensures forall m, b :: m in report && b in report[m] ==> report[m][b] == MonthTotal(rows, parse, m, b)
  {
    forall m, b | m in report && b in report[m] ensures report[m][b] == MonthTotal(rows, parse, m, b) {
      assert Cell(report, m, b) == report[m][b];
    }
  }

  /** Adding one more row's amount to its cell gives the report of the longer ledger. */
  lemma ReportStep(report: map<string, map<string, int>>, rows: seq<Row>, x: Row, parse: string -> Option<int>)
    requires MonthlyReady(rows, parse) && MonthlyFault(x, parse) == None
    requires ReportOf(report, rows, parse)
    ensures MonthlyReady(rows + [x], parse)
    ensures ReportOf(AddTo(report, MonthOf(x), BucketOf(x), Amount(x, parse)), rows + [x], parse)
  {
    assert (rows + [x])[..|rows|] == rows;
    AddToBuckets(report, rows, x, parse);
    AddToCells(report, rows, x, parse);
  }

  /** The month keys and the buckets under each after one more row's amount is added. */
  lemma AddToBuckets(report: map<string, map<string, int>>, rows: seq<Row>, x: Row, parse: string -> Option<int>)
    requires MonthlyReady(rows, parse) && MonthlyFault(x, parse) == None
    requires report.Keys == Months(rows, parse)
    requires forall m :: m in report ==> report[m].Keys == Buckets(rows, parse, m)
    ensures MonthlyReady(rows + [x], parse)
    ensures forall m :: (m in AddTo(report, MonthOf(x), BucketOf(x), Amount(x, parse)) ==>
      AddTo(report, MonthOf(x), BucketOf(x), Amount(x, parse))[m].Keys == Buckets(rows + [x], parse, m))
  {
    assert (rows + [x])[..|rows|] == rows;
    var m0, b0 := MonthOf(x), BucketOf(x);
    var next := AddTo(report, m0, b0, Amount(x, parse));
    forall m | m in next ensures next[m].Keys == Buckets(rows + [x], parse, m) {
      BucketsSnoc(rows, x, parse, m);
      if m == m0 {
        BucketsWithinMonths(rows, parse, m);
        assert next[m].Keys == (if m in report then report[m].Keys else {}) + {b0};
      } else {
        assert next[m] == report[m];
      }
    }
  }

  /** Every cell after one more row's amount is added to its own cell. */
  lemma AddToCells(report: map<string, map<string, int>>, rows: seq<Row>, x: Row, parse: string -> Option<int>)
    requires MonthlyReady(rows, parse) && MonthlyFault(x, parse) == None
    requires forall m, b :: Cell(report, m, b) == MonthTotal(rows, parse, m, b)
    ensures MonthlyReady(rows + [x], parse)
    ensures forall m, b :: (Cell(AddTo(report, MonthOf(x), BucketOf(x), Amount(x, parse)), m, b) ==
      MonthTotal(rows + [x], parse, m, b))
  {
    assert (rows + [x])[..|rows|] == rows;
    var next := AddTo(report, MonthOf(x), BucketOf(x), Amount(x, parse));
    forall m, b ensures Cell(next, m, b) == MonthTotal(rows + [x], parse, m, b) {
      MonthTotalSnoc(rows, x, parse, m, b);
    }
  }

  /** A category summary entry, both totals zero where the summary has no entry yet. */
  function Entry(summary: map<string, Totals>, c: string): Totals {
    if c in summary then summary[c] else Totals(0, 0)
  }

  /** `summary` is the category summary of `rows`: its categories and both totals of each. */
  ghost predicate SummaryOf(summary: map<string, Totals>, rows: seq<Row>, parse: string -> Option<int>)
    requires CategoryReady(rows, parse)
  {
    && summary.Keys == Categories(rows, parse)
    && forall c :: Entry(summary, c) == Totals(CategoryTotal(rows, parse, c, Debit), CategoryTotal(rows, parse, c, Credit))
  }

  /** The summary with one more row counted: a debit or a credit adds to its category, any other
      type leaves the summary as it was. */
  function Count(summary: map<string, Totals>, x: Row, parse: string -> Option<int>): (next: map<string, Totals>)
    requires CategoryFault(x, parse) == None
    ensures next.Keys == summary.Keys + (if Recognised(x) then {x["categoria"]} else {})
    ensures Entry(next, x["categoria"]).debito + Entry(next, x["categoria"]).credito ==
      Entry(summary, x["categoria"]).debito + Entry(summary, x["categoria"]).credito
        + (if Recognised(x) then Amount(x, parse) else 0)
    ensures Entry(next, x["categoria"]) ==
      Totals(Entry(summary, x["categoria"]).debito + (if x["tipo"] == Debit then Amount(x, parse) else 0),
             Entry(summary, x["categoria"]).credito + (if x["tipo"] == Credit then Amount(x, parse) else 0))
    ensures forall c :: c != x["categoria"] ==> Entry(next, c) == Entry(summary, c)
  {
    var totals := Entry(summary, x["categoria"]);
    if x["tipo"] == Debit then summary[x["categoria"] := totals.(debito := totals.debito + Amount(x, parse))]
    else if x["tipo"] == Credit then summary[x["categoria"] := totals.(credito := totals.credito + Amount(x, parse))]
    else summary
  }

  /** Counting one more row gives the summary of the longer ledger. */
  lemma SummaryStep(summary: map<string, Totals>, rows: seq<Row>, x: Row, parse: string -> Option<int>)
    requires CategoryReady(rows, parse) && CategoryFault(x, parse) == None
    requires SummaryOf(summary, rows, parse)
    ensures CategoryReady(rows + [x], parse)
    ensures SummaryOf(Count(summary, x, parse), rows + [x], parse)
  {
    CategorySnoc(rows, x, parse);
    var next := Count(summary, x, parse);
    assert Debit != Credit;
    forall c ensures Entry(next, c) == Totals(CategoryTotal(rows + [x], parse, c, Debit),
                                              CategoryTotal(rows + [x], parse, c, Credit)) {
      assert CategoryTotal(rows + [x], parse, c, Debit) == CategoryTotal(rows, parse, c, Debit)
        + (if x["categoria"] == c && x["tipo"] == Debit then Amount(x, parse) else 0);
      assert CategoryTotal(rows + [x], parse, c, Credit) == CategoryTotal(rows, parse, c, Credit)
        + (if x["categoria"] == c && x["tipo"] == Credit then Amount(x, parse) else 0);
    }
  }
}
