/** One line of the ledger file: the values a dictionary writer puts on it, and the row a
    dictionary reader makes of it under the file's header. */
module CsvRows {
  import opened Records

  /** The values written for a dictionary, in its own key order. */
  function Line(d: Dict): (line: seq<string>)
    requires WellFormed(d)
    ensures |line| == |d.keys|
  {
    seq(|d.keys|, i requires 0 <= i < |d.keys| => d.entries[d.keys[i]])
  }

  /** A row as a dictionary reader returns it. `fields` holds the header names bound to the text
      in their column. `rest` holds the values beyond the header, which the reader lists under
      the key `None` when there are any. `unfilled` holds the header names the line has no value
      for, which the reader binds to the value `None`. */
  datatype ReadRow = ReadRow(fields: Row, rest: seq<string>, unfilled: set<string>)

  /** The row read from a line under `header`. */
  function Read(header: seq<string>, line: seq<string>): (r: ReadRow)
    ensures r.fields.Keys !! r.unfilled
    ensures r.fields.Keys + r.unfilled == KeySet(header)
    ensures |header| <= |line| ==> r.unfilled == {} && |r.rest| == |line| - |header|
    ensures |line| <= |header| ==> r.rest == []
  {
    var n := if |header| <= |line| then |header| else |line|;
    BindKeys(header[..n], line[..n]);
    assert KeySet(header) == KeySet(header[..n]) + KeySet(header[n..]) by {
      assert header == header[..n] + header[n..];
    }
    ReadRow(Bind(header[..n], line[..n]) - KeySet(header[n..]), line[n..], KeySet(header[n..]))
  }

  /** With a header naming no field twice, each header name with a value in the line is bound to
      the value in its own column, and the values over are the line's tail beyond the header. */
  lemma ReadValues(header: seq<string>, line: seq<string>)
    requires Distinct(header)
    ensures var n := if |header| <= |line| then |header| else |line|;
      && Read(header, line).rest == line[n..]
      && forall i :: 0 <= i < n ==> header[i] in Read(header, line).fields && Read(header, line).fields[header[i]] == line[i]
  {
    var n := if |header| <= |line| then |header| else |line|;
    var names, vals := header[..n], line[..n];
    BindAt(names, vals);
    forall i | 0 <= i < n ensures header[i] !in KeySet(header[n..]) && names[i] == header[i] && vals[i] == line[i] {
      assert forall j :: n <= j < |header| ==> header[j] != header[i];
    }
  }

  /** A dictionary written under a header made of its own keys is read back as it was, with
      nothing left over and nothing unfilled. */
  lemma LineRoundTrip(d: Dict)
    requires WellFormed(d)
    ensures Read(d.keys, Line(d)) == ReadRow(d.entries, [], {})
  {
    var line := Line(d);
    assert d.keys[..|d.keys|] == d.keys && line[..|line|] == line;
    assert d.keys[|d.keys|..] == [];
    BindKeys(d.keys, line);
    BindAt(d.keys, line);
    var bound := Bind(d.keys, line);
    forall k | k in d.entries ensures bound[k] == d.entries[k] {
      var i :| 0 <= i < |d.keys| && d.keys[i] == k;
    }
    assert bound - KeySet([]) == bound;
  }

  /** A new bill written under the header "valor" is read back with the bill's type as its
      amount and its other eight values left over under no field name: none of its fields but
      "valor" is there. */
  lemma ShortHeaderMisreads(tipo: string, descricao: string, valor: string, dataVencimento: string,
                            dataRecebimento: string, categoria: string, status: string,
                            prioridade: string, comentarios: string)
    ensures var conta := CreateRecord(tipo, descricao, valor, dataVencimento, dataRecebimento,
                                      categoria, status, prioridade, comentarios);
      && Read(["valor"], Line(conta)).fields == map["valor" := tipo]
      && Read(["valor"], Line(conta)).rest ==
           [descricao, valor, dataVencimento, dataRecebimento, categoria, status, prioridade, comentarios]
      && Read(["valor"], Line(conta)).unfilled == {}
      && Read(["valor"], Line(conta)).fields != conta.entries
  {
    var conta := CreateRecord(tipo, descricao, valor, dataVencimento, dataRecebimento,
                              categoria, status, prioridade, comentarios);
    var vals := [tipo, descricao, valor, dataVencimento, dataRecebimento,
                 categoria, status, prioridade, comentarios];
    var line := Line(conta);
    var header: seq<string> := ["valor"];
    assert line == vals by {
      forall i | 0 <= i < 9 ensures line[i] == vals[i] {
        assert line[i] == conta.entries[Fields[i]];
      }
    }
    assert header[..1] == header && line[..1] == [tipo] && header[1..] == [];
    assert line[1..] == vals[1..];
    assert Bind(header, [tipo]) == Bind([], [])["valor" := tipo];
    assert Bind(header, [tipo]) - KeySet([]) == Bind(header, [tipo]);
    assert Fields[0] in conta.entries && Fields[0] != "valor";
  }
}
