/** The schema binder of `CsvSerializer`: the header index built from row 0
    (`CreateArray`) and the record built from one data row (`Create`).

    Reflection is replaced by an explicit record shape: the record type's
    fields in declaration order, each a name and a kind. A record is the list
    of its field values in shape order. */
module CsvBinder {
  import opened Wrappers
  import opened CsvValues

  // ---------------------------------------------------------------------------
  // Header index.

  predicate IsLowerOrDigit(c: char) {
    'a' <= c <= 'z' || '0' <= c <= '9'
  }

  /** What one header character contributes to the derived key. */
  function KeyChar(c: char): string {
    if IsLowerOrDigit(c) then [c]
    else if 'A' <= c <= 'Z' then [(c as int - 'A' as int + 'a' as int) as char]
    else []
  }

  /** The derived key of a header: its letters and digits, upper case folded to
      lower case, everything else dropped. */
  function DerivedKey(id: string): (k: string)
    ensures |k| <= |id|
    ensures forall i :: 0 <= i < |k| ==> IsLowerOrDigit(k[i])
  {
    if id == [] then [] else DerivedKey(id[..|id| - 1]) + KeyChar(id[|id| - 1])
  }

  /** A key already made of lower-case letters and digits is its own derived
      key, and only such a key is. */
  lemma {:induction false} DerivedKeyFixedPoint(id: string)
    ensures DerivedKey(id) == id <==> forall i :: 0 <= i < |id| ==> IsLowerOrDigit(id[i])
  {
    if id != [] {
      var init := id[..|id| - 1];
      DerivedKeyFixedPoint(init);
      if forall i :: 0 <= i < |id| ==> IsLowerOrDigit(id[i]) {
        assert forall i :: 0 <= i < |init| ==> IsLowerOrDigit(init[i]) by {
          forall i | 0 <= i < |init| ensures IsLowerOrDigit(init[i]) {
            assert init[i] == id[i];
          }
        }
        assert init + [id[|id| - 1]] == id;
      }
    }
  }

  /** Deriving a key twice gives the same key. */
  lemma DerivedKeyIdempotent(id: string)
    ensures DerivedKey(DerivedKey(id)) == DerivedKey(id)
  {
    DerivedKeyFixedPoint(DerivedKey(id));
  }

  /** A header names a key by its raw text or by its derived key. */
  predicate Names(header: string, key: string) {
    header == key || DerivedKey(header) == key
  }

  /** One column's registration: `Add` of the raw header, which fails if the
      key is present, then the derived key unless it is present by now. */
  function Register(table: map<string, nat>, id: string, column: nat): Result<map<string, nat>, CsvError> {
    if id in table then Failure(DuplicateKey(id))
    else
      var t := table[id := column];
      Success(if DerivedKey(id) in t then t else t[DerivedKey(id) := column])
  }

  /** The index of the columns from `i` on, added to `table`. */
  function IndexFrom(header: seq<string>, i: nat, table: map<string, nat>): Result<map<string, nat>, CsvError>
    requires i <= |header|
    decreases |header| - i
  {
    if i == |header| then Success(table)
    else
      match Register(table, header[i], i)
      case Failure(e) => Failure(e)
      case Success(t) => IndexFrom(header, i + 1, t)
  }

  /** The header index of row 0. */
  function HeaderIndex(header: seq<string>): Result<map<string, nat>, CsvError> {
    IndexFrom(header, 0, map[])
  }

  /** No header repeats an earlier header or an earlier header's derived key:
      exactly the headers for which every `Add` succeeds. */
  predicate Distinct(header: seq<string>, n: nat)
    requires n <= |header|
  {
    forall i, j :: 0 <= i < j < n ==> !Names(header[i], header[j])
  }

  /** Some of the first `n` headers names `k`. */
  ghost predicate NamedBefore(header: seq<string>, n: nat, k: string)
    requires n <= |header|
  {
    exists j :: 0 <= j < n && Names(header[j], k)
  }

  /** Column `c` is the first column whose header names `k`. */
  predicate FirstNamer(header: seq<string>, c: nat, k: string)
    requires c < |header|
  {
    Names(header[c], k) && forall j :: 0 <= j < c ==> !Names(header[j], k)
  }

  /** What `table` holds for key `k` once the first `n` columns are indexed. */
  ghost predicate KeyIndexed(table: map<string, nat>, header: seq<string>, n: nat, k: string)
    requires n <= |header|
  {
    && (k in table <==> NamedBefore(header, n, k))
    && (k in table ==> table[k] < n && FirstNamer(header, table[k], k))
  }

  /** `table` is the index of the first `n` columns: its keys are the raw and
      derived keys of those headers, each mapped to the first column that
      names it. */
  ghost predicate IndexOf(table: map<string, nat>, header: seq<string>, n: nat)
    requires n <= |header|
  {
    forall k :: KeyIndexed(table, header, n, k)
  }

  /** Registering a header that is not yet a key keeps every key indexed. */
  lemma RegisterKey(header: seq<string>, i: nat, table: map<string, nat>, k: string)
    requires i < |header| && header[i] !in table && Register(table, header[i], i).Success?
    requires KeyIndexed(table, header, i, k)
    ensures KeyIndexed(Register(table, header[i], i).value, header, i + 1, k)
  {
    var t := Register(table, header[i], i).value;
    assert k in t <==> k in table || Names(header[i], k);
    if k in t && k !in table {
      assert t[k] == i;
      assert !NamedBefore(header, i, k);
    }
    if NamedBefore(header, i + 1, k) && !Names(header[i], k) {
      var j :| 0 <= j < i + 1 && Names(header[j], k);
      assert NamedBefore(header, i, k);
    }
  }

  lemma RegisterKeepsIndex(header: seq<string>, i: nat, table: map<string, nat>)
    requires i < |header| && IndexOf(table, header, i)
    ensures Register(table, header[i], i).Success? <==> forall j :: 0 <= j < i ==> !Names(header[j], header[i])
    ensures Register(table, header[i], i).Success? ==> IndexOf(Register(table, header[i], i).value, header, i + 1)
  {
    var id := header[i];
    assert KeyIndexed(table, header, i, id);
    if id in table {
      assert Names(header[table[id]], id);
    } else {
      var t := Register(table, id, i).value;
      var n := i + 1;
      forall k ensures KeyIndexed(t, header, n, k) {
        assert KeyIndexed(table, header, i, k);
        RegisterKey(header, i, table, k);
      }
      assert !NamedBefore(header, i, id);
    }
  }

  lemma {:induction false} IndexFromMeaning(header: seq<string>, i: nat, table: map<string, nat>)
    requires i <= |header| && IndexOf(table, header, i) && Distinct(header, i)
    ensures IndexFrom(header, i, table).Success? <==> Distinct(header, |header|)
    ensures IndexFrom(header, i, table).Success? ==> IndexOf(IndexFrom(header, i, table).value, header, |header|)
    decreases |header| - i
  {
    if i < |header| {
      RegisterKeepsIndex(header, i, table);
      match Register(table, header[i], i)
      case Failure(_) =>
        assert !Distinct(header, |header|) by {
          var j :| 0 <= j < i && Names(header[j], header[i]);
        }
      case Success(t) =>
        assert Distinct(header, i + 1);
        IndexFromMeaning(header, i + 1, t);
    }
  }

  /** The header index succeeds exactly when no header repeats an earlier raw
      or derived key; it then maps every raw and derived key of row 0 to the
      first column that names it, and every raw header to its own column. */
  lemma HeaderIndexMeaning(header: seq<string>)
    ensures HeaderIndex(header).Success? <==> Distinct(header, |header|)
    ensures HeaderIndex(header).Success? ==> IndexOf(HeaderIndex(header).value, header, |header|)
    ensures HeaderIndex(header).Success? ==>
              forall i :: 0 <= i < |header| ==> header[i] in HeaderIndex(header).value &&
                                                  HeaderIndex(header).value[header[i]] == i
  {
    IndexFromMeaning(header, 0, map[]);
    if HeaderIndex(header).Success? {
      var t := HeaderIndex(header).value;
      forall i | 0 <= i < |header| ensures header[i] in t && t[header[i]] == i {
        var k := header[i];
        assert Names(header[i], k);
        assert NamedBefore(header, |header|, k);
        assert KeyIndexed(t, header, |header|, k);
        assert FirstNamer(header, t[k], k);
      }
    }
  }

  /** `CreateArray`, lines 24-47: the header index, with the inner loop that
      derives each header's key character by character. */
  method HeaderTable(header: seq<string>) returns (r: Result<map<string, nat>, CsvError>)
    ensures r == HeaderIndex(header)
  {
    var table: map<string, nat> := map[];
    var i := 0;
    while i < |header|
      invariant 0 <= i <= |header|
      invariant IndexFrom(header, i, table) == HeaderIndex(header)
    {
      var id := header[i];
      var id2 := DeriveKey(id);
      if id in table {
        return Failure(DuplicateKey(id));
      }
      table := table[id := i];
      if id2 !in table {
        table := table[id2 := i];
      }
      i := i + 1;
    }
    return Success(table);
  }

  /** The inner loop of lines 24-47: the key derived from one header,
      character by character. */
  method DeriveKey(id: string) returns (id2: string)
    ensures id2 == DerivedKey(id)
  {
    id2 := "";
    var j := 0;
    while j < |id|
      invariant 0 <= j <= |id|
      invariant id2 == DerivedKey(id[..j])
    {
      var t := id[j];
      if 'a' <= t <= 'z' || '0' <= t <= '9' {
        id2 := id2 + [t];
      } else if 'A' <= t <= 'Z' {
        id2 := id2 + [(t as int - 'A' as int + 'a' as int) as char];
      }
      assert id[..j + 1][..j] == id[..j];
      j := j + 1;
    }
    assert id[..j] == id;
  }

  /** `Name` then `name`: the derived key of the first is the raw text of the
      second, so the second `Add` throws. */
  lemma DerivedKeyCollisionExample()
    ensures HeaderIndex(["Name", "name"]) == Failure(DuplicateKey("name"))
  {
    assert DerivedKey("Name") == "name" by {
      assert "Name"[..3] == "Nam" && "Nam"[..2] == "Na" && "Na"[..1] == "N" && "N"[..0] == "";
    }
  }

  // ---------------------------------------------------------------------------
  // One data row into one record.

  datatype Field = Field(name: string, kind: FieldKind)

  type Shape = seq<Field>

  /** The record `Activator.CreateInstance` returns: every field at its default. */
  function Defaults(shape: Shape): (v: seq<Value>)
    ensures |v| == |shape|
    ensures forall i :: 0 <= i < |shape| ==> v[i] == Default(shape[i].kind)
  {
    seq(|shape|, i requires 0 <= i < |shape| => Default(shape[i].kind))
  }

  /** The cell a field is read from: the one in the column its name indexes,
      when the row is long enough to have it. */
  function CellFor(f: Field, table: map<string, nat>, cols: seq<string>): Option<string> {
    if f.name in table && table[f.name] < |cols| then Some(cols[table[f.name]]) else None
  }

  /** The final value of one field of a fresh record. */
  function BindField(f: Field, table: map<string, nat>, cols: seq<string>): Result<Value, CsvError> {
    match CellFor(f, table, cols)
    case None => Success(Default(f.kind))
    case Some(cell) => SetValue(f.kind, Default(f.kind), cell)
  }

  /** The record built from one data row: each field bound in shape order,
      the first field whose coercion fails giving the error. */
  function Bind(shape: Shape, table: map<string, nat>, cols: seq<string>): (r: Result<seq<Value>, CsvError>)
    ensures r.Success? <==> forall i :: 0 <= i < |shape| ==> BindField(shape[i], table, cols).Success?
    ensures r.Success? ==>
              |r.value| == |shape| &&
              forall i :: 0 <= i < |shape| ==> r.value[i] == BindField(shape[i], table, cols).value
    ensures r.Failure? ==>
              exists i :: 0 <= i < |shape| && BindField(shape[i], table, cols) == Failure(r.error) &&
                          forall j :: 0 <= j < i ==> BindField(shape[j], table, cols).Success?
  {
    if shape == [] then Success([])
    else
      match BindField(shape[0], table, cols)
      case Failure(e) => Failure(e)
      case Success(v) =>
        var rest := Bind(shape[1..], table, cols);
        assert forall i :: 1 <= i < |shape| ==> shape[1..][i - 1] == shape[i];
        if rest.Failure? then
          var i :| 0 <= i < |shape[1..]| && BindField(shape[1..][i], table, cols) == Failure(rest.error) &&
                   forall j :: 0 <= j < i ==> BindField(shape[1..][j], table, cols).Success?;
          assert BindField(shape[i + 1], table, cols) == Failure(rest.error);
          Failure(rest.error)
        else
          Success([v] + rest.value)
  }

  /** Once the first `i` fields bind, a failing field `i` decides the result. */
  lemma {:induction false} BindFirstFailure(shape: Shape, table: map<string, nat>, cols: seq<string>, i: nat)
    requires i < |shape| && BindField(shape[i], table, cols).Failure?
    requires forall j :: 0 <= j < i ==> BindField(shape[j], table, cols).Success?
    ensures Bind(shape, table, cols) == Failure(BindField(shape[i], table, cols).error)
  {
    if i > 0 {
      assert BindField(shape[0], table, cols).Success?;
      assert forall j :: 0 <= j < i - 1 ==> shape[1..][j] == shape[j + 1];
      BindFirstFailure(shape[1..], table, cols, i - 1);
    }
  }

  /** With the index of a header row whose keys do not collide, a field reads
      the cell in the first column whose header is its name or derives to it,
      and keeps its default when no header names it or the row is too short. */
  lemma BindReadsNamingColumn(header: seq<string>, f: Field, cols: seq<string>)
    requires HeaderIndex(header).Success?
    ensures var table := HeaderIndex(header).value;
      && ((forall c :: 0 <= c < |header| ==> !Names(header[c], f.name)) ==> BindField(f, table, cols) == Success(Default(f.kind)))
      && (forall c :: 0 <= c < |header| && FirstNamer(header, c, f.name) ==>
            BindField(f, table, cols) ==
              if c < |cols| then SetValue(f.kind, Default(f.kind), cols[c]) else Success(Default(f.kind)))
  {
    HeaderIndexMeaning(header);
    var table := HeaderIndex(header).value;
    assert KeyIndexed(table, header, |header|, f.name);
    forall c | 0 <= c < |header| && FirstNamer(header, c, f.name)
      ensures f.name in table && table[f.name] == c
    {
      assert NamedBefore(header, |header|, f.name);
      var c' := table[f.name];
      assert FirstNamer(header, c', f.name);
    }
  }

  /** `Create`: a fresh record, then each field in declaration order whose
      name is a key of the index and whose column exists in the row is set
      from that cell. */
  method Create(shape: Shape, table: map<string, nat>, cols: seq<string>) returns (r: Result<seq<Value>, CsvError>)
    ensures r == Bind(shape, table, cols)
  {
    var v := Defaults(shape);
    var i := 0;
    while i < |shape|
      invariant 0 <= i <= |shape| && |v| == |shape|
      invariant forall j :: 0 <= j < i ==> BindField(shape[j], table, cols) == Success(v[j])
      invariant forall j :: i <= j < |shape| ==> v[j] == Default(shape[j].kind)
    {
      var f := shape[i];
      if f.name in table {
        var idx := table[f.name];
        if idx < |cols| {
          var x := SetValue(f.kind, v[i], cols[idx]);
          if x.Failure? {
            BindFirstFailure(shape, table, cols, i);
            return Failure(x.error);
          }
          v := v[i := x.value];
        }
      }
      i := i + 1;
    }
    r := Success(v);
    assert Bind(shape, table, cols).Success?;
    assert Bind(shape, table, cols).value == v;
  }
}
