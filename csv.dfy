/** The comma-separated ingest of the question bank: the text is cut into lines
    on `'\n'`, the first line gives the headers, every other non-blank line one
    record. There is no quoting, no delimiter detection and no dropping of rows. */
module Csv {
  import opened Wrappers
  import opened Strings
  import opened Questions

  const MissingColumnsMessage := "El CSV debe contener al menos las columnas \"pregunta\" y \"respuesta\""

  /** `text.split('\n')`: never empty, so the header line always exists. */
  function Rows(text: string): seq<string> {
    Split(text, '\n')
  }

  /** The header line cut on `','`, each name trimmed and lower-cased. */
  function Headers(headerRow: string): (hs: seq<string>)
    ensures |hs| >= 1
  {
    var cells := Split(headerRow, ',');
    seq(|cells|, i requires 0 <= i < |cells| => Lower(Trim(cells[i])))
  }

  /** A data line cut on `','`, each value trimmed. */
  function Cells(row: string): seq<string> {
    var cells := Split(row, ',');
    seq(|cells|, i requires 0 <= i < |cells| => Trim(cells[i]))
  }

  /** Every header names one column: no commas, no surrounding spaces, no
      ASCII capitals. */
  lemma HeadersNormalized(headerRow: string, i: nat)
    requires i < |Headers(headerRow)|
    ensures var h := Headers(headerRow)[i];
      ',' !in h && (h == [] || (!IsSpace(h[0]) && !IsSpace(h[|h| - 1])))
      && forall k :: 0 <= k < |h| ==> !('A' <= h[k] <= 'Z')
  {
    var cell := Split(headerRow, ',')[i];
    var t := Trim(cell);
    var j := TrimIsSlice(cell);
    assert forall c :: c in t ==> c in cell;
    LowerIdempotent(t);
  }

  /** `row.trim() === ''`: the line holds nothing but spaces. */
  predicate Blank(row: string) {
    Trim(row) == []
  }

  /** The lines `rows.filter(row => row.trim() !== '')` keeps, in order. */
  function NonBlank(rows: seq<string>): (r: seq<string>)
    ensures |r| <= |rows|
    decreases |rows|
  {
    if rows == [] then []
    else (if Blank(rows[0]) then [] else [rows[0]]) + NonBlank(rows[1..])
  }

  /** A line is kept exactly when it is one of the input lines and is not
      blank (`TrimEmptyIff`: holds something other than spaces). */
  lemma {:induction false} NonBlankMembers(rows: seq<string>, line: string)
    ensures line in NonBlank(rows) <==> line in rows && !Blank(line)
    decreases |rows|
  {
    if rows != [] {
      NonBlankMembers(rows[1..], line);
      assert rows == [rows[0]] + rows[1..];
      assert line in rows <==> line == rows[0] || line in rows[1..];
    }
  }

  /** Filtering works line by line, so it keeps the file order: the lines kept
      from a concatenation are those kept from each part, in turn. */
  lemma {:induction false} NonBlankAppend(a: seq<string>, b: seq<string>)
    ensures NonBlank(a + b) == NonBlank(a) + NonBlank(b)
    decreases |a|
  {
    if a == [] {
      assert a + b == b;
    } else {
      NonBlankAppend(a[1..], b);
      var head := if Blank(a[0]) then [] else [a[0]];
      assert (a + b)[0] == a[0];
      assert (a + b)[1..] == a[1..] + b;
      calc {
        NonBlank(a + b);
        head + NonBlank(a[1..] + b);
        head + (NonBlank(a[1..]) + NonBlank(b));
        (head + NonBlank(a[1..])) + NonBlank(b);
      }
    }
  }

  /** `values[i] || ''`: the value under the i-th header, or the empty string
      when the line has fewer fields. */
  function CellAt(values: seq<string>, i: nat): string {
    if i < |values| then values[i] else ""
  }

  /** No later header repeats the one at position `j`. */
  predicate IsLastOccurrence(hs: seq<string>, j: nat)
    requires j < |hs|
  {
    forall k :: j < k < |hs| ==> hs[k] != hs[j]
  }

  /** The record's columns after `q[header] = values[i] || ''` has run for every
      header in order. */
  function Fields(hs: seq<string>, values: seq<string>): map<string, string>
    decreases |hs|
  {
    if hs == [] then map[]
    else Fields(hs[..|hs| - 1], values)[hs[|hs| - 1] := CellAt(values, |hs| - 1)]
  }

  /** Every header is a key and nothing else is, and a repeated header holds
      the value of its last column. */
  lemma {:induction false} FieldsSpec(hs: seq<string>, values: seq<string>)
    ensures forall h :: h in Fields(hs, values) <==> h in hs
    ensures forall j :: 0 <= j < |hs| && IsLastOccurrence(hs, j) ==> Fields(hs, values)[hs[j]] == CellAt(values, j)
    decreases |hs|
  {
    if hs != [] {
      var n := |hs| - 1;
      var init := hs[..n];
      FieldsSpec(init, values);
      var m := Fields(init, values);
      var m' := Fields(hs, values);
      assert m' == m[hs[n] := CellAt(values, n)];
      assert hs == init + [hs[n]];
      forall h ensures h in m' <==> h in hs {
        assert h in hs <==> h in init || h == hs[n];
      }
      forall j | 0 <= j < |hs| && IsLastOccurrence(hs, j) ensures m'[hs[j]] == CellAt(values, j) {
        if j < n {
          assert hs[n] != hs[j];
          assert IsLastOccurrence(init, j);
        }
      }
    }
  }

  /** The record built for the `idx`-th data line. */
  function Record(idx: nat, hs: seq<string>, values: seq<string>): (q: Question)
    ensures forall h :: h in q.fields <==> h in hs
    ensures "id" !in hs ==> q.id == Num(idx)
  {
    FieldsSpec(hs, values);
    var f := Fields(hs, values);
    Question(if "id" in f then Str(f["id"]) else Num(idx), f)
  }

  /** The row builder: starts from `{ id: idx }` and assigns one key per header
      in turn; a header named `id` overwrites the number. */
  method BuildRecord(idx: nat, hs: seq<string>, values: seq<string>) returns (q: Question)
    ensures q == Record(idx, hs, values)
  {
    var fields: map<string, string> := map[];
    var id := Num(idx);
    for i := 0 to |hs|
      invariant fields == Fields(hs[..i], values)
      invariant id == if "id" in fields then Str(fields["id"]) else Num(idx)
    {
      var v := if i < |values| then values[i] else "";
      fields := fields[hs[i] := v];
      if hs[i] == "id" {
        id := Str(v);
      }
      assert hs[..i + 1][..i] == hs[..i];
    }
    assert hs[..|hs|] == hs;
    q := Question(id, fields);
  }

  /** One record per data line, the line's position being its number. */
  function Records(hs: seq<string>, lines: seq<string>): (qs: seq<Question>)
    ensures |qs| == |lines|
  {
    seq(|lines|, i requires 0 <= i < |lines| => Record(i, hs, Cells(lines[i])))
  }

  /** The row builder applied to each data line in turn. */
  method BuildRecords(hs: seq<string>, lines: seq<string>) returns (parsed: seq<Question>)
    ensures parsed == Records(hs, lines)
  {
    ghost var expected := Records(hs, lines);
    parsed := [];
    for idx := 0 to |lines|
      invariant parsed == expected[..idx]
    {
      var q := BuildRecord(idx, hs, Cells(lines[idx]));
      assert expected[..idx + 1] == expected[..idx] + [q];
      parsed := parsed + [q];
    }
    assert parsed == expected;
  }

  /** The whole parse: the headers must include `pregunta` and `respuesta`,
      otherwise ingest fails with its message; else one record per non-blank
      data line, numbered from 0 in file order. */
  function Ingest(text: string): (r: Result<seq<Question>, string>)
    ensures var hs := Headers(Rows(text)[0]);
      r.Failure? <==> !("pregunta" in hs && "respuesta" in hs)
    ensures r.Failure? ==> r.error == MissingColumnsMessage
    ensures r.Success? ==> |r.value| == |NonBlank(Rows(text)[1..])| && AllWellFormed(r.value)
  {
    var rows := Rows(text);
    var hs := Headers(rows[0]);
    if "pregunta" !in hs || "respuesta" !in hs then
      Failure(MissingColumnsMessage)
    else
      var qs := Records(hs, NonBlank(rows[1..]));
      assert forall i :: 0 <= i < |qs| ==> qs[i].WellFormed();
      Success(qs)
  }

  /** What each record holds: a key for every header, the trimmed field under
      the header's last column (or `''` past the end of the line), and, when no
      column is headed `id`, its 0-based position as identifier. */
  lemma IngestRecord(text: string, i: nat, j: nat)
    requires Ingest(text).Success? && i < |Ingest(text).value|
    requires j < |Headers(Rows(text)[0])| && IsLastOccurrence(Headers(Rows(text)[0]), j)
    ensures var hs := Headers(Rows(text)[0]);
      var q := Ingest(text).value[i];
      var line := NonBlank(Rows(text)[1..])[i];
      (forall h :: h in q.fields <==> h in hs)
      && q.fields[hs[j]] == CellAt(Cells(line), j)
      && ("id" !in hs ==> q.id == Num(i))
  {
    var hs := Headers(Rows(text)[0]);
    FieldsSpec(hs, Cells(NonBlank(Rows(text)[1..])[i]));
  }

  /** Without an `id` column the identifiers are the positions, hence distinct
      and increasing. */
  lemma IngestIdsIncrease(text: string, i: nat, k: nat)
    requires Ingest(text).Success? && i < k < |Ingest(text).value|
    requires "id" !in Headers(Rows(text)[0])
    ensures Ingest(text).value[i].id.Num? && Ingest(text).value[k].id.Num?
    ensures Ingest(text).value[i].id.n < Ingest(text).value[k].id.n
  {
    var last := |Headers(Rows(text)[0])| - 1;
    IngestRecord(text, i, last);
    IngestRecord(text, k, last);
  }

  /** The parse as the upload handler runs it: header check first, then the
      row builder applied to each non-blank data line in turn. */
  method ParseCsv(text: string) returns (r: Result<seq<Question>, string>)
    ensures r == Ingest(text)
  {
    var rows := Rows(text);
    var hs := Headers(rows[0]);
    if "pregunta" !in hs || "respuesta" !in hs {
      return Failure(MissingColumnsMessage);
    }
    var parsed := BuildRecords(hs, NonBlank(rows[1..]));
    r := Success(parsed);
  }
}
