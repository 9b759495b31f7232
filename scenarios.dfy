/** Whole-program behaviour: sequences of operations on one ledger, and the reports of small ledgers. */
module Scenarios {
  import opened Records
  import opened Reports
  import opened Ledger
  import Dates

  /** Creating records one after another on a new ledger and then listing it gives back every
      record, in creation order, field for field. The records share one non-empty key order, as
      every record made by `CreateRecord` does (its keys are `Fields`). */
  method CreateThenList(records: seq<Dict>, keys: seq<string>) returns (listed: seq<Row>)
    requires keys != []
    requires forall i :: 0 <= i < |records| ==> WellFormed(records[i]) && records[i].keys == keys
    ensures |listed| == |records|
    ensures forall i :: 0 <= i < |records| ==> listed[i] == records[i].entries
  {
    var store := new Store();
    var i := 0;
    while i < |records|
      invariant 0 <= i <= |records|
      invariant store.Valid()
      invariant store.header == if i == 0 then None else Some(keys)
      invariant |store.rows| == i
      invariant forall j :: 0 <= j < i ==> store.rows[j] == records[j].entries
    {
      store.Append(records[i]);
      i := i + 1;
    }
    listed := store.Load();
  }

  /** An update on a new ledger matches nothing and leaves it without a header, so a bill created
      afterwards sets the header to its own nine fields and is listed back whole. */
  method UpdateThenCreate(key: string, novosDados: Dict, conta: Dict) returns (updated: bool, listed: seq<Row>)
    requires WellFormed(novosDados)
    requires WellFormed(conta) && conta.keys == Fields
    ensures !updated
    ensures listed == [conta.entries]
  {
    var store := new Store();
    updated := store.UpdateKeepingHeader(key, novosDados);
    store.Append(conta);
    listed := store.Load();
  }

  /** A debit and a credit due in the same month give that month one bucket per type, each
      holding its own amount (a debit of "100" due "10/05/2024" and a credit of "40" due
      "20/05/2024" give {"05/2024": {"total_débito": 100, "total_crédito": 40}}). */
  lemma MonthlyExample(parse: string -> Option<int>, rows: seq<Row>, debitDay: string, creditDay: string,
                       month: string, year: string, debit: string, credit: string)
    requires '/' !in debitDay && '/' !in creditDay && '/' !in month && '/' !in year
    requires parse(debit).Some? && parse(credit).Some?
    requires rows == [map["tipo" := Debit, "valor" := debit, "data_vencimento" := debitDay + "/" + month + "/" + year],
                      map["tipo" := Credit, "valor" := credit, "data_vencimento" := creditDay + "/" + month + "/" + year]]
    ensures MonthlyReady(rows, parse)
    ensures Months(rows, parse) == {month + "/" + year}
    ensures Buckets(rows, parse, month + "/" + year) == {"total_" + Debit, "total_" + Credit}
    ensures MonthTotal(rows, parse, month + "/" + year, "total_" + Debit) == parse(debit).value
    ensures MonthTotal(rows, parse, month + "/" + year, "total_" + Credit) == parse(credit).value
  {
    var first, second := rows[0], rows[1];
    assert first["tipo"] == Debit && first["valor"] == debit;
    assert first["data_vencimento"] == debitDay + "/" + month + "/" + year;
    assert second["tipo"] == Credit && second["valor"] == credit;
    assert second["data_vencimento"] == creditDay + "/" + month + "/" + year;
    Dates.MonthKeyOfFullDate(debitDay, month, year);
    Dates.MonthKeyOfFullDate(creditDay, month, year);
    assert ("total_" + Debit)[7] != ("total_" + Credit)[7];
    MonthlySnoc([], first, parse);
    assert [] + [first] == [first];
    MonthlySnoc([first], second, parse);
    assert [first] + [second] == rows;
  }

  /** A debit of 20 and a credit of 5 in one category give that category both totals. */
  lemma CategoryExample(parse: string -> Option<int>, rows: seq<Row>)
    requires parse("20") == Some(20) && parse("5") == Some(5)
    requires rows == [map["categoria" := "lazer", "tipo" := Debit, "valor" := "20"],
                      map["categoria" := "lazer", "tipo" := Credit, "valor" := "5"]]
    ensures CategoryReady(rows, parse)
    ensures Categories(rows, parse) == {"lazer"}
    ensures CategoryTotal(rows, parse, "lazer", Debit) == 20
    ensures CategoryTotal(rows, parse, "lazer", Credit) == 5
  {
    var first, second := rows[0], rows[1];
    assert first["categoria"] == "lazer" && first["tipo"] == Debit && first["valor"] == "20";
    assert second["categoria"] == "lazer" && second["tipo"] == Credit && second["valor"] == "5";
    assert Debit != Credit;
    CategorySnoc([], first, parse);
    assert [] + [first] == [first];
    CategorySnoc([first], second, parse);
    assert [first] + [second] == rows;
  }
}
