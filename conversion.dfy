/** `convert`: the records of a parsed CSV file become maps from header labels to typed cells. */
module Conversion {
  import opened RustNumbers
  import opened Cells

  /** `Csvinput`: the header record and the data records, as the CSV reader produced them. */
  datatype CsvInput = CsvInput(header: seq<string>, records: seq<seq<string>>)

  /** `OutRecord`, a `HashMap<String, OutType>`; its iteration order carries no meaning. */
  type OutRecord = map<string, OutType>

  /** `Ronfile`: the converted records, in input order. */
  datatype Ronfile = Ronfile(content: seq<OutRecord>)

  /** How a run of `convert` ends: with the converted file, or with the panic raised by
      `field.next().unwrap()` while converting record number `row`. */
  datatype Outcome = Converted(file: Ronfile) | Panicked(row: nat)

  /** Position `i` holds the last occurrence of its label among the first `n` labels. */
  predicate LastWithin(header: seq<string>, n: nat, i: nat)
    requires i < n <= |header|
  {
    forall j :: i < j < n ==> header[j] != header[i]
  }

  /** The labels of the first `n` header positions. */
  function Labels(header: seq<string>, n: nat): set<string>
    requires n <= |header|
  {
    set i | 0 <= i < n :: header[i]
  }

  /** `m` results from inserting `header[i] -> values[i]` for each `i < n` in turn: its keys
      are exactly the first `n` labels, and each label holds the value of its last position. */
  ghost predicate Zipped<V>(header: seq<string>, values: seq<V>, n: nat, m: map<string, V>)
  {
    && n <= |values| && n <= |header|
    && m.Keys == Labels(header, n)
    && forall i :: 0 <= i < n && LastWithin(header, n, i) ==> m[header[i]] == values[i]
  }

  /** One more insertion extends the description by one position. */
  lemma ZipStep<V>(header: seq<string>, values: seq<V>, n: nat, m: map<string, V>)
    requires Zipped(header, values, n, m)
    requires n < |values| && n < |header|
    ensures Zipped(header, values, n + 1, m[header[n] := values[n]])
  {
    var m' := m[header[n] := values[n]];
    assert Labels(header, n + 1) == Labels(header, n) + {header[n]};
    forall i | 0 <= i < n + 1 && LastWithin(header, n + 1, i)
      ensures m'[header[i]] == values[i]
    {
      if i < n {
        assert header[i] != header[n];
        assert LastWithin(header, n, i);
      }
    }
  }

  /** The classified cells of a record, field by field. */
  function Classified(record: seq<string>): (cells: seq<OutType>)
    ensures |cells| == |record|
    ensures forall i :: 0 <= i < |record| ==> cells[i] == Matcher(record[i])
  {
    seq(|record|, i requires 0 <= i < |record| => Matcher(record[i]))
  }

  /** `m` is the map the inner loop builds from the whole of `record`, which is then no
      longer than the header: its keys are exactly the labels of the record's fields, and
      each label holds the classified value of the last field carrying that label. */
  ghost predicate IsOutRecord(header: seq<string>, record: seq<string>, m: OutRecord)
  {
    Zipped(header, Classified(record), |record|, m)
  }

  /** `convert`: for every record in order, walk the header iterator alongside the record's
      fields, insert `label -> matcher(field)` into a fresh map and push the map. A record
      with more fields than the header exhausts the iterator, and `unwrap` panics. */
  method Convert(csv: CsvInput) returns (res: Outcome)
    ensures res.Panicked? <==> exists r :: 0 <= r < |csv.records| && |csv.records[r]| > |csv.header|
    ensures res.Panicked? ==>
              && res.row < |csv.records| && |csv.records[res.row]| > |csv.header|
              && forall r :: 0 <= r < res.row ==> |csv.records[r]| <= |csv.header|
    ensures res.Converted? ==>
              && |res.file.content| == |csv.records|
              && forall r :: 0 <= r < |csv.records| ==>
                   IsOutRecord(csv.header, csv.records[r], res.file.content[r])
  {
    var header := csv.header;
    var content: seq<OutRecord> := [];
    for r := 0 to |csv.records|
      invariant |content| == r
      invariant forall q :: 0 <= q < r ==> IsOutRecord(header, csv.records[q], content[q])
    {
      var record := csv.records[r];
      var field := 0;  // position of the header iterator
      var outrecord: OutRecord := map[];
      for j := 0 to |record|
        invariant field == j
        invariant Zipped(header, Classified(record), j, outrecord)
      {
        if field == |header| {
          // `field.next()` is `None`
          return Panicked(r);
        }
        ZipStep(header, Classified(record), j, outrecord);
        outrecord := outrecord[header[field] := Matcher(record[j])];
        field := field + 1;
      }
      content := content + [outrecord];
    }
    return Converted(Ronfile(content));
  }

  /** Every label among a record's fields has a last occurrence. */
  lemma {:induction false} HasLastOccurrence(header: seq<string>, n: nat, key: string)
    requires n <= |header|
    requires key in Labels(header, n)
    ensures exists i :: 0 <= i < n && header[i] == key && LastWithin(header, n, i)
  {
    if header[n - 1] == key {
      assert LastWithin(header, n, n - 1);
    } else {
      var k :| 0 <= k < n && header[k] == key;
      assert key in Labels(header, n - 1);
      HasLastOccurrence(header, n - 1, key);
      var i :| 0 <= i < n - 1 && header[i] == key && LastWithin(header, n - 1, i);
      assert LastWithin(header, n, i);
    }
  }

  /** The description of an output record determines it: a record has exactly one. */
  lemma OutRecordUnique(header: seq<string>, record: seq<string>, m1: OutRecord, m2: OutRecord)
    requires IsOutRecord(header, record, m1) && IsOutRecord(header, record, m2)
    ensures m1 == m2
  {
    forall key | key in m1.Keys
      ensures m1[key] == m2[key]
    {
      HasLastOccurrence(header, |record|, key);
    }
  }

  /** A later field with a repeated key overwrites the earlier one. */
  lemma LaterDuplicateWins(header: seq<string>, record: seq<string>, m: OutRecord, i: nat, j: nat)
    requires IsOutRecord(header, record, m)
    requires i < j < |record| && header[i] == header[j] && LastWithin(header, |record|, j)
    ensures m[header[i]] == Matcher(record[j])
    ensures !LastWithin(header, |record|, i)
  {
  }

  predicate DistinctLabels(header: seq<string>)
  {
    forall i, j :: 0 <= i < j < |header| ==> header[i] != header[j]
  }

  lemma {:induction false} DistinctLabelsCount(header: seq<string>, n: nat)
    requires n <= |header| && DistinctLabels(header)
    ensures |Labels(header, n)| == n
  {
    if n > 0 {
      DistinctLabelsCount(header, n - 1);
      assert Labels(header, n) == Labels(header, n - 1) + {header[n - 1]};
      assert header[n - 1] !in Labels(header, n - 1);
    }
  }

  /** With distinct labels, field `i` lands under `header[i]` and a record of `n` fields
      becomes a map of `n` entries. */
  lemma DistinctLabelsZip(header: seq<string>, record: seq<string>, m: OutRecord)
    requires DistinctLabels(header) && IsOutRecord(header, record, m)
    ensures |m| == |record|
    ensures forall i :: 0 <= i < |record| ==> m[header[i]] == Matcher(record[i])
  {
    DistinctLabelsCount(header, |record|);
    assert |m| == |m.Keys|;
  }

  /** A record shorter than the header gets only the labels of the fields it has. */
  lemma ShortRecordKeys(header: seq<string>, record: seq<string>, m: OutRecord, key: string)
    requires IsOutRecord(header, record, m)
    requires key in m
    ensures exists i :: 0 <= i < |record| && header[i] == key
  {
  }

  /** A two-field record under two distinct labels. */
  lemma TwoFieldRecord(h0: string, h1: string, f0: string, f1: string, m: OutRecord)
    requires h0 != h1 && IsOutRecord([h0, h1], [f0, f1], m)
    ensures m == map[h0 := Matcher(f0), h1 := Matcher(f1)]
  {
    var header, record := [h0, h1], [f0, f1];
    assert header[0] == h0 && header[1] == h1 && record[0] == f0 && record[1] == f1;
    assert LastWithin(header, 2, 0) && LastWithin(header, 2, 1);
    assert m.Keys == {h0, h1};
  }

  /** The record `Alice,30` under the header `name,age`: the age is a float. */
  lemma NameAgeRecord(m: OutRecord)
    requires IsOutRecord(["name", "age"], ["Alice", "30"], m)
    ensures m == map["name" := Str("Alice"), "age" := F64("30")]
  {
    TwoFieldRecord("name", "age", "Alice", "30", m);
    WordsAreText("Alice");
    IntegersAreFloats("30");
  }

  /** The record `1,` under the header `id,label`: the empty cell is empty text. */
  lemma EmptyFieldRecord(m: OutRecord)
    requires IsOutRecord(["id", "label"], ["1", ""], m)
    ensures m == map["id" := F64("1"), "label" := Str("")]
  {
    TwoFieldRecord("id", "label", "1", "", m);
    IntegersAreFloats("1");
    EmptyCellIsDefault();
  }

  /** Two fields under one repeated label: only the second is kept. */
  lemma RepeatedLabelRecord(h: string, f0: string, f1: string, m: OutRecord)
    requires IsOutRecord([h, h], [f0, f1], m)
    ensures m == map[h := Matcher(f1)]
  {
    var header, record := [h, h], [f0, f1];
    assert header[0] == h && header[1] == h && record[1] == f1;
    assert LastWithin(header, 2, 1);
    assert m.Keys == {h};
  }

  /** Under the header `a,a`, the record `x,y` keeps only `y`. */
  lemma RepeatedLabelExample(m: OutRecord)
    requires IsOutRecord(["a", "a"], ["x", "y"], m)
    ensures m == map["a" := Str("y")]
  {
    RepeatedLabelRecord("a", "x", "y", m);
    WordsAreText("y");
  }

  /** Converting the file `name,age / Alice,30 / Bob,25` gives two records, the first being
      `{name: Str("Alice"), age: F64("30")}`. */
  method ConvertNameAgeExample()
  {
    var res := Convert(CsvInput(["name", "age"], [["Alice", "30"], ["Bob", "25"]]));
    assert !(|["Alice", "30"]| > 2) && !(|["Bob", "25"]| > 2);
    assert res.Converted?;
    assert |res.file.content| == 2;
    NameAgeRecord(res.file.content[0]);
    assert res.file.content[0] == map["name" := Str("Alice"), "age" := F64("30")];
  }

  /** A record with more fields than the header panics on the first such record. */
  method ConvertLongRecordExample()
  {
    var csv := CsvInput(["a"], [["x", "y"]]);
    assert |csv.records[0]| > |csv.header|;
    var res := Convert(csv);
    assert res.Panicked? && res.row == 0;
  }
}
