/** Bill records of the ledger and the text operations applied to their fields. */
module Records {

  datatype Option<T> = None | Some(value: T)

  datatype Result<T, E> = Success(value: T) | Failure(error: E)

  /** A row as the ledger file gives it back: field name to text. */
  type Row = map<string, string>

  /** A dictionary built by the program: its keys in insertion order, and their bindings. */
  datatype Dict = Dict(keys: seq<string>, entries: Row)

  predicate Distinct(s: seq<string>) {
    forall i, j :: 0 <= i < j < |s| ==> s[i] != s[j]
  }

  function KeySet(s: seq<string>): set<string> {
    set k | k in s
  }

  /** Every key is listed once, and the listed keys are exactly the bound ones. */
  predicate WellFormed(d: Dict) {
    Distinct(d.keys) && KeySet(d.keys) == d.entries.Keys
  }

  /** The nine fields of a bill, in the order the program creates them. */
  const Fields: seq<string> := ["tipo", "descricao", "valor", "data_vencimento", "data_recebimento",
                                "categoria", "status", "prioridade", "comentarios"]

  /** The dictionary whose keys, in order, are `keys`, each bound to the value at the same position. */
  function Bind(keys: seq<string>, vals: seq<string>): Row
    requires |keys| == |vals|
  {
    if keys == [] then map[]
    else Bind(keys[..|keys| - 1], vals[..|vals| - 1])[keys[|keys| - 1] := vals[|vals| - 1]]
  }

  /** The bound keys are the listed ones. */
  lemma {:induction false} BindKeys(keys: seq<string>, vals: seq<string>)
    requires |keys| == |vals|
    ensures Bind(keys, vals).Keys == KeySet(keys)
  {
    if keys != [] {
      var n := |keys| - 1;
      BindKeys(keys[..n], vals[..n]);
      assert keys == keys[..n] + [keys[n]];
    }
  }

  /** With distinct keys, every key ends up bound to its own value: a later key never
      overwrites an earlier one. */
  lemma {:induction false} BindAt(keys: seq<string>, vals: seq<string>)
    requires |keys| == |vals| && Distinct(keys)
    ensures forall i :: 0 <= i < |keys| ==> keys[i] in Bind(keys, vals) && Bind(keys, vals)[keys[i]] == vals[i]
  {
    if keys != [] {
      var n := |keys| - 1;
      var init, initVals := keys[..n], vals[..n];
      BindAt(init, initVals);
      forall i | 0 <= i < |keys| ensures Bind(keys, vals)[keys[i]] == vals[i] {
        if i < n {
          assert init[i] == keys[i] && initVals[i] == vals[i];
          assert keys[i] != keys[n];
        }
      }
    }
  }

  /** A new bill record: the nine fields in their fixed order, field i bound to argument i. */
  function CreateRecord(tipo: string, descricao: string, valor: string, dataVencimento: string,
                        dataRecebimento: string, categoria: string, status: string,
                        prioridade: string, comentarios: string): (d: Dict)
    ensures WellFormed(d) && d.keys == Fields
    ensures forall i :: 0 <= i < |Fields| ==>
      d.entries[Fields[i]] == [tipo, descricao, valor, dataVencimento, dataRecebimento,
                               categoria, status, prioridade, comentarios][i]
  {
    var vals := [tipo, descricao, valor, dataVencimento, dataRecebimento,
                 categoria, status, prioridade, comentarios];
    FieldsDistinct();
    BindKeys(Fields, vals);
    BindAt(Fields, vals);
    Dict(Fields, Bind(Fields, vals))
  }

  function Tag(s: string): (char, char, int)
    requires |s| >= 2
  {
    (s[0], s[1], |s|)
  }

  /** No field name is listed twice: their first two letters and lengths already tell them apart. */
  lemma FieldsDistinct()
    ensures Distinct(Fields)
  {
    var tags := seq(|Fields|, i requires 0 <= i < |Fields| => Tag(Fields[i]));
    assert tags == [('t', 'i', 4), ('d', 'e', 9), ('v', 'a', 5), ('d', 'a', 15), ('d', 'a', 16),
                    ('c', 'a', 9), ('s', 't', 6), ('p', 'r', 10), ('c', 'o', 11)];
    forall i, j | 0 <= i < j < |Fields| ensures Fields[i] != Fields[j] {
      assert tags[i] != tags[j];
    }
  }

  /** The value of field `f` of a row, or the empty text when the row lacks it. */
  function Get(r: Row, f: string): string {
    if f in r then r[f] else ""
  }

  /** Lower case of one character: the ASCII capitals and the Latin-1 capitals map to their small letters. */
  function LowerChar(c: char): (d: char)
    ensures 'A' <= c <= 'Z' ==> 'a' <= d <= 'z' && d as int - c as int == 'a' as int - 'A' as int
    ensures c < 'A' || ('Z' < c < '\U{00C0}') || '\U{00DE}' < c ==> d == c
  {
    if 'A' <= c <= 'Z' || ('\U{00C0}' <= c <= '\U{00DE}' && c != '\U{00D7}') then
      (c as int + 32) as char
    else
      c
  }

  predicate IsLower(c: char) {
    LowerChar(c) == c
  }

  /** Lower case of a text, character by character. */
  function Lower(s: string): (r: string)
    ensures |r| == |s|
  {
    if s == [] then [] else [LowerChar(s[0])] + Lower(s[1..])
  }

  /** Lower case changes each character on its own, in place. */
  lemma {:induction false} LowerAt(s: string)
    ensures forall i :: 0 <= i < |s| ==> Lower(s)[i] == LowerChar(s[i])
  {
    if s != [] {
      LowerAt(s[1..]);
    }
  }

  lemma LowerCharIdempotent(c: char)
    ensures IsLower(LowerChar(c))
  {
  }

  /** Lowering twice is lowering once, so comparing lowered texts is an equivalence that ignores case. */
  lemma LowerIdempotent(s: string)
    ensures Lower(Lower(s)) == Lower(s)
  {
    LowerAt(s);
    LowerAt(Lower(s));
    forall i | 0 <= i < |s| ensures Lower(Lower(s))[i] == Lower(s)[i] {
      LowerCharIdempotent(s[i]);
    }
  }

  /** Lower case keeps an empty text empty and a non-empty one non-empty. */
  lemma LowerEmpty(s: string)
    ensures Lower(s) == [] <==> s == []
  {
  }
}
