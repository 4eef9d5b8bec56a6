/**
 * The pure helpers of `DatabaseStatic`: field conversion, key extraction and the
 * comparison of stored keys against incoming ones, plus the record normalisation and
 * row selection that `add_records` performs.
 */
module Records {
  import opened Wrappers
  import opened Errors
  import opened Text
  import opened Numbers
  import opened Dicts

  /** A field of a record: text as read from the CSV, or a number once `conv_float` ran. */
  datatype Value = Str(s: string) | Num(x: real)

  /** A record as the pipeline receives it: an ordered dictionary from column to field. */
  type Record = Dict<Value>

  /** Python truthiness: the empty string and zero are false. */
  predicate Truthy(v: Value) {
    match v
    case Str(s) => s != ""
    case Num(x) => x != 0.0
  }

  /** The fields of a record read straight from the CSV are all text. */
  predicate AllText(r: Record) {
    forall i :: 0 <= i < |r| ==> r[i].1.Str?
  }

  // ---------------------------------------------------------------- conv_float

  /**
   * `conv_float(val)`: a falsy value becomes 0, anything else goes through `float()`,
   * which raises `ValueError` on text it cannot read. Nothing is clamped.
   */
  function ConvFloat(v: Value): (r: Result<Value, Error>)
    ensures r.Success? ==> r.value.Num?
    ensures !Truthy(v) ==> r == Success(Num(0.0))
    ensures v.Num? ==> r == Success(v)
    ensures v.Str? && v.s != "" ==> (r.Success? <==> ParseFloat(v.s).Some?)
    ensures v.Str? && v.s != "" && r.Success? ==> r.value.x == ParseFloat(v.s).value
    ensures r.Failure? ==> r.error == ValueError(v.s)
  {
    if !Truthy(v) then Success(Num(0.0))
    else
      match v
      case Num(_) => Success(v)
      case Str(s) =>
        match ParseFloat(s)
        case None => Failure(ValueError(s))
        case Some(x) => Success(Num(x))
  }

  /** Converting a converted field again changes nothing. */
  lemma ConvFloatIdempotent(v: Value)
    requires ConvFloat(v).Success?
    ensures ConvFloat(ConvFloat(v).value) == ConvFloat(v)
  {
  }

  /** Digits around one point, such as "19.99", convert to that decimal fraction. */
  lemma ConvFloatDecimal(s: string, i: nat)
    requires i < |s| && s[i] == '.' && AllDigits(s[..i]) && AllDigits(s[i + 1..]) && |s| > 1
    ensures ConvFloat(Str(s)) == Success(Num(DecimalValue(s[..i], s[i + 1..])))
  {
    ParseFloatDecimal(s, i);
  }

  /** Non-empty text without a digit, such as "abc" or ".", raises `ValueError`: nothing is clamped. */
  lemma ConvFloatNoDigit(s: string)
    requires s != "" && NoDigit(s)
    ensures ConvFloat(Str(s)) == Failure(ValueError(s))
  {
    ParseFloatRejects(s);
  }

  // ---------------------------------------------------------------- keys

  /** `record.get(key, default)`. */
  function GetOr(r: Record, key: string, default: Value): Value {
    match Get(r, key)
    case Some(v) => v
    case None => default
  }

  /** The key of one record, when it is present and truthy. */
  function IncomingEan(r: Record): (e: Option<Value>)
    ensures e.Some? <==> "ean" in Keys(r) && Truthy(GetOr(r, "ean", Str("")))
    ensures e.Some? ==> Get(r, "ean") == e
  {
    match Get(r, "ean")
    case Some(v) => if Truthy(v) then Some(v) else None
    case None => None
  }

  /** `_get_csv_eans_records`: the truthy `ean` of each record, in record order. */
  function CsvEans(records: seq<Record>): (r: seq<Value>)
    ensures |r| <= |records|
    ensures forall i :: 0 <= i < |r| ==> Truthy(r[i])
  {
    if |records| == 0 then []
    else
      match IncomingEan(records[0])
      case Some(e) => [e] + CsvEans(records[1..])
      case None => CsvEans(records[1..])
  }

  lemma {:induction false} CsvEansConcat(a: seq<Record>, b: seq<Record>)
    ensures CsvEans(a + b) == CsvEans(a) + CsvEans(b)
  {
    if |a| == 0 {
      assert a + b == b;
    } else {
      assert (a + b)[1..] == a[1..] + b;
      CsvEansConcat(a[1..], b);
    }
  }

  /** A key is extracted exactly when some record holds it, present and truthy. */
  lemma {:induction false} CsvEansMembers(records: seq<Record>, e: Value)
    ensures e in CsvEans(records) <==> exists i :: 0 <= i < |records| && IncomingEan(records[i]) == Some(e)
  {
    if |records| > 0 {
      CsvEansMembers(records[1..], e);
      if e in CsvEans(records) && IncomingEan(records[0]) != Some(e) {
        var i :| 1 <= i + 1 < |records| && IncomingEan(records[1..][i]) == Some(e);
        assert IncomingEan(records[i + 1]) == Some(e);
      }
      if exists i :: 0 <= i < |records| && IncomingEan(records[i]) == Some(e) {
        var i :| 0 <= i < |records| && IncomingEan(records[i]) == Some(e);
        if i > 0 {
          assert IncomingEan(records[1..][i - 1]) == Some(e);
        }
      }
    }
  }

  /** `_unpack_db_eans_records`: `str(row[0])` of each fetched row; the column is text. */
  function UnpackDbEans(rows: seq<seq<Value>>): (r: seq<string>)
    requires forall i :: 0 <= i < |rows| ==> |rows[i]| > 0 && rows[i][0].Str?
    ensures |r| == |rows|
    ensures forall i :: 0 <= i < |rows| ==> r[i] == rows[i][0].s
  {
    seq(|rows|, i requires 0 <= i < |rows| => rows[i][0].s)
  }

  /** Stored keys as the values they are compared with (`str` against `str`). */
  function Texts(eans: seq<string>): (r: seq<Value>)
    ensures |r| == |eans|
    ensures forall i :: 0 <= i < |eans| ==> r[i] == Str(eans[i])
  {
    seq(|eans|, i requires 0 <= i < |eans| => Str(eans[i]))
  }

  lemma TextsMembers(eans: seq<string>, s: string)
    ensures Str(s) in Texts(eans) <==> s in eans
  {
    if s in eans {
      var i :| 0 <= i < |eans| && eans[i] == s;
      assert Texts(eans)[i] == Str(s);
    }
  }

  // ---------------------------------------------------------------- compare_db_csv

  /**
   * `compare_db_csv(db, csv)`: the incoming keys not among the stored ones, in incoming
   * order, duplicates kept.
   */
  function CompareDbCsv<T(==, !new)>(db: seq<T>, csv: seq<T>): (r: seq<T>)
    ensures |r| <= |csv|
    ensures forall x :: x in r <==> x in csv && x !in db
  {
    if |csv| == 0 then []
    else (if csv[0] in db then [] else [csv[0]]) + CompareDbCsv(db, csv[1..])
  }

  lemma {:induction false} CompareConcat<T(!new)>(db: seq<T>, a: seq<T>, b: seq<T>)
    ensures CompareDbCsv(db, a + b) == CompareDbCsv(db, a) + CompareDbCsv(db, b)
  {
    if |a| == 0 {
      assert a + b == b;
    } else {
      assert (a + b)[1..] == a[1..] + b;
      CompareConcat(db, a[1..], b);
    }
  }

  /** Every incoming key not stored survives as often as it arrives; stored keys never do. */
  lemma {:induction false} CompareCounts<T(!new)>(db: seq<T>, csv: seq<T>, x: T)
    ensures multiset(CompareDbCsv(db, csv))[x] == if x in db then 0 else multiset(csv)[x]
  {
    if |csv| > 0 {
      CompareCounts(db, csv[1..], x);
      assert csv == [csv[0]] + csv[1..];
    }
  }

  /** Nothing is missing once the missing keys have been stored too. */
  lemma {:induction false} CompareRerun<T(!new)>(db: seq<T>, csv: seq<T>)
    ensures CompareDbCsv(db + CompareDbCsv(db, csv), csv) == []
  {
    var added := db + CompareDbCsv(db, csv);
    forall x | x in csv
      ensures x in added
    {
      if x !in db {
        assert x in CompareDbCsv(db, csv);
      }
    }
    NoneMissing(added, csv);
  }

  lemma {:induction false} NoneMissing<T(!new)>(db: seq<T>, csv: seq<T>)
    requires forall x :: x in csv ==> x in db
    ensures CompareDbCsv(db, csv) == []
  {
    if |csv| > 0 {
      assert csv[0] in db;
      NoneMissing(db, csv[1..]);
    }
  }

  /** A key arriving twice and not stored is reported twice. */
  lemma CompareKeepsDuplicates(e: Value)
    ensures CompareDbCsv([], [e, e]) == [e, e]
  {
    assert [e, e][1..] == [e];
  }

  /** Stored 100 and 200, incoming 100 and 300: only 300 is missing. */
  lemma CompareExample()
    ensures CompareDbCsv([Str("100"), Str("200")], [Str("100"), Str("300")]) == [Str("300")]
  {
    assert [Str("100"), Str("300")][1..] == [Str("300")];
  }

  // ---------------------------------------------------------------- normalisation in add_records

  /** A record after normalisation, with the error that stopped it, if any. */
  datatype Normalized = Normalized(record: Record, error: Option<Error>)

  /** `record[key] = conv_float(record[key])`; a missing key raises `KeyError`. */
  function NormalizeField(r: Record, key: string): (n: Normalized)
    ensures key !in Keys(r) ==> n == Normalized(r, Some(KeyError(key)))
    ensures key in Keys(r) && ConvFloat(Get(r, key).value).Failure? ==>
              n == Normalized(r, Some(ConvFloat(Get(r, key).value).error))
    ensures key in Keys(r) && ConvFloat(Get(r, key).value).Success? ==>
              n.error.None? && Keys(n.record) == Keys(r)
              && Get(n.record, key) == Some(ConvFloat(Get(r, key).value).value)
              && forall k :: k != key ==> Get(n.record, k) == Get(r, k)
  {
    match Get(r, key)
    case None => Normalized(r, Some(KeyError(key)))
    case Some(v) =>
      match ConvFloat(v)
      case Failure(e) => Normalized(r, Some(e))
      case Success(x) => Normalized(Set(r, key, x), None)
  }

  /** Both price fields are present and readable by `conv_float`. */
  predicate PricesConvert(r: Record) {
    && "price" in Keys(r) && ConvFloat(Get(r, "price").value).Success?
    && "old_price" in Keys(r) && ConvFloat(Get(r, "old_price").value).Success?
  }

  /**
   * The loop body of `add_records`: `price`, then `old_price`. When `old_price` fails the
   * record keeps its converted `price`.
   */
  function NormalizeRecord(r: Record): (n: Normalized)
    ensures n.error.None? <==> PricesConvert(r)
    ensures n.error.None? ==>
              && Keys(n.record) == Keys(r)
              && Get(n.record, "price") == Some(ConvFloat(Get(r, "price").value).value)
              && Get(n.record, "old_price") == Some(ConvFloat(Get(r, "old_price").value).value)
              && forall k :: k != "price" && k != "old_price" ==> Get(n.record, k) == Get(r, k)
    ensures "price" !in Keys(r) ==> n == Normalized(r, Some(KeyError("price")))
    ensures "price" in Keys(r) && ConvFloat(Get(r, "price").value).Failure? ==>
              n == Normalized(r, Some(ConvFloat(Get(r, "price").value).error))
    ensures "price" in Keys(r) && ConvFloat(Get(r, "price").value).Success? && !PricesConvert(r) ==>
              && n.error == Some(if "old_price" !in Keys(r) then KeyError("old_price")
                                 else ConvFloat(Get(r, "old_price").value).error)
              && Keys(n.record) == Keys(r)
              && Get(n.record, "price") == Some(ConvFloat(Get(r, "price").value).value)
              && forall k :: k != "price" ==> Get(n.record, k) == Get(r, k)
  {
    var p := NormalizeField(r, "price");
    if p.error.Some? then p else NormalizeField(p.record, "old_price")
  }

  /** A normalised record normalises to itself. */
  lemma NormalizeRecordIdempotent(r: Record)
    requires PricesConvert(r)
    ensures NormalizeRecord(NormalizeRecord(r).record) == Normalized(NormalizeRecord(r).record, None)
  {
    var n := NormalizeRecord(r).record;
    ConvFloatIdempotent(Get(r, "price").value);
    ConvFloatIdempotent(Get(r, "old_price").value);
    var p := NormalizeField(n, "price");
    assert Get(n, "price") == Some(ConvFloat(Get(r, "price").value).value);
    SetUnchanged(n, "price", Get(n, "price").value);
    SetUnchanged(p.record, "old_price", Get(p.record, "old_price").value);
  }

  /** The records after the normalisation loop, with the error that ended it early, if any. */
  datatype Batch = Batch(records: seq<Record>, error: Option<Error>)

  /**
   * A loop that applies `step` to each record in turn, replacing it by the result, and stops
   * at the first error with the records after it untouched.
   */
  function Steps(step: Record -> Normalized, rs: seq<Record>): (b: Batch)
    ensures |b.records| == |rs|
  {
    if |rs| == 0 then Batch([], None)
    else
      var n := step(rs[0]);
      if n.error.Some? then Batch([n.record] + rs[1..], n.error)
      else
        var rest := Steps(step, rs[1..]);
        Batch([n.record] + rest.records, rest.error)
  }

  /** The loop over `a + b` runs over `a`, then, if nothing failed, over `b`. */
  lemma {:induction false} StepsConcat(step: Record -> Normalized, a: seq<Record>, b: seq<Record>)
    ensures Steps(step, a + b) ==
              if Steps(step, a).error.None?
              then Batch(Steps(step, a).records + Steps(step, b).records, Steps(step, b).error)
              else Batch(Steps(step, a).records + b, Steps(step, a).error)
  {
    if |a| == 0 {
      assert a + b == b;
    } else {
      assert (a + b)[0] == a[0];
      assert (a + b)[1..] == a[1..] + b;
      StepsConcat(step, a[1..], b);
    }
  }

  /** One more step of a loop that has not failed yet. */
  lemma StepsSnoc(step: Record -> Normalized, a: seq<Record>, x: Record)
    requires Steps(step, a).error.None?
    ensures Steps(step, a + [x]) == Batch(Steps(step, a).records + [step(x).record], step(x).error)
  {
    StepsConcat(step, a, [x]);
    assert [x][1..] == [];
  }

  /** A step that fails ends the loop: the records after it are left as they were. */
  lemma StepsStop(step: Record -> Normalized, a: seq<Record>, x: Record, rest: seq<Record>)
    requires Steps(step, a).error.None? && step(x).error.Some?
    ensures Steps(step, a + [x] + rest) == Batch(Steps(step, a).records + [step(x).record] + rest, step(x).error)
  {
    StepsSnoc(step, a, x);
    StepsConcat(step, a + [x], rest);
  }

  /** The loop finishes exactly when every step does, and then each record is its step's result. */
  lemma {:induction false} StepsSucceed(step: Record -> Normalized, rs: seq<Record>)
    ensures Steps(step, rs).error.None? <==> forall i :: 0 <= i < |rs| ==> step(rs[i]).error.None?
    ensures Steps(step, rs).error.None? ==>
              forall i :: 0 <= i < |rs| ==> Steps(step, rs).records[i] == step(rs[i]).record
  {
    if |rs| > 0 {
      StepsSucceed(step, rs[1..]);
      assert forall i :: 1 <= i < |rs| ==> rs[i] == rs[1..][i - 1];
    }
  }

  /** The loop of `add_records` over every record of the CSV, selected for insertion or not. */
  function NormalizeAll(rs: seq<Record>): (b: Batch)
    ensures |b.records| == |rs|
  {
    Steps(NormalizeRecord, rs)
  }

  lemma NormalizeAllConcat(a: seq<Record>, b: seq<Record>)
    ensures NormalizeAll(a + b) ==
              if NormalizeAll(a).error.None?
              then Batch(NormalizeAll(a).records + NormalizeAll(b).records, NormalizeAll(b).error)
              else Batch(NormalizeAll(a).records + b, NormalizeAll(a).error)
  {
    StepsConcat(NormalizeRecord, a, b);
  }

  /** The loop finishes exactly when every record's prices convert, and then normalises each. */
  lemma NormalizeAllSucceeds(rs: seq<Record>)
    ensures NormalizeAll(rs).error.None? <==> forall i :: 0 <= i < |rs| ==> PricesConvert(rs[i])
    ensures NormalizeAll(rs).error.None? ==>
              forall i :: 0 <= i < |rs| ==> NormalizeAll(rs).records[i] == NormalizeRecord(rs[i]).record
  {
    StepsSucceed(NormalizeRecord, rs);
  }

  /**
   * The first record whose prices do not convert decides the error, whether or not it is
   * one of the records to insert; the records before it are normalised, the ones after
   * it untouched.
   */
  lemma NormalizeAllFirstFailure(rs: seq<Record>, k: nat)
    requires k < |rs| && !PricesConvert(rs[k])
    requires forall i :: 0 <= i < k ==> PricesConvert(rs[i])
    ensures NormalizeAll(rs).error == NormalizeRecord(rs[k]).error
    ensures NormalizeAll(rs).records
         == NormalizeAll(rs[..k]).records + [NormalizeRecord(rs[k]).record] + rs[k + 1..]
  {
    var prefix, rest := rs[..k], rs[k..];
    assert rs == prefix + rest;
    NormalizeAllSucceeds(prefix);
    assert forall i :: 0 <= i < k ==> prefix[i] == rs[i];
    NormalizeAllConcat(prefix, rest);
    assert rest[0] == rs[k] && rest[1..] == rs[k + 1..];
    assert NormalizeAll(rest) == Batch([NormalizeRecord(rs[k]).record] + rs[k + 1..], NormalizeRecord(rs[k]).error);
  }

  // ---------------------------------------------------------------- selection in add_records

  /** `record.get("ean", "") in records_to_add`. */
  predicate Selected(r: Record, toAdd: seq<Value>) {
    GetOr(r, "ean", Str("")) in toAdd
  }

  /** `[tuple(record.values()) for record in csv_records if ...]`, in CSV order. */
  function SelectRows(rs: seq<Record>, toAdd: seq<Value>): (rows: seq<seq<Value>>)
    ensures |rows| <= |rs|
  {
    if |rs| == 0 then []
    else (if Selected(rs[0], toAdd) then [Values(rs[0])] else []) + SelectRows(rs[1..], toAdd)
  }

  lemma {:induction false} SelectConcat(a: seq<Record>, b: seq<Record>, toAdd: seq<Value>)
    ensures SelectRows(a + b, toAdd) == SelectRows(a, toAdd) + SelectRows(b, toAdd)
  {
    if |a| == 0 {
      assert a + b == b;
    } else {
      var head := if Selected(a[0], toAdd) then [Values(a[0])] else [];
      assert SelectRows(a + b, toAdd) == head + SelectRows(a[1..] + b, toAdd) by {
        assert (a + b)[0] == a[0] && (a + b)[1..] == a[1..] + b;
      }
      SelectConcat(a[1..], b, toAdd);
      assert SelectRows(a, toAdd) == head + SelectRows(a[1..], toAdd);
    }
  }

  /** A row is selected exactly when it is the values of a record whose key is to be added. */
  lemma {:induction false} SelectMembers(rs: seq<Record>, toAdd: seq<Value>, row: seq<Value>)
    ensures row in SelectRows(rs, toAdd) <==>
              exists i :: 0 <= i < |rs| && Selected(rs[i], toAdd) && row == Values(rs[i])
  {
    if |rs| > 0 {
      SelectMembers(rs[1..], toAdd, row);
      if row in SelectRows(rs[1..], toAdd) {
        var i :| 0 <= i < |rs[1..]| && Selected(rs[1..][i], toAdd) && row == Values(rs[1..][i]);
        assert rs[i + 1] == rs[1..][i];
      }
      if exists i :: 0 <= i < |rs| && Selected(rs[i], toAdd) && row == Values(rs[i]) {
        var i :| 0 <= i < |rs| && Selected(rs[i], toAdd) && row == Values(rs[i]);
        if i > 0 {
          assert rs[1..][i - 1] == rs[i];
        }
      }
    }
  }

  /** A selected record's row comes right after the rows of the records before it. */
  lemma SelectAt(rs: seq<Record>, toAdd: seq<Value>, i: nat)
    requires i < |rs| && Selected(rs[i], toAdd)
    ensures var pos := |SelectRows(rs[..i], toAdd)|;
            pos < |SelectRows(rs, toAdd)| && SelectRows(rs, toAdd)[pos] == Values(rs[i])
  {
    assert rs == rs[..i] + rs[i..];
    SelectConcat(rs[..i], rs[i..], toAdd);
    assert rs[i..][0] == rs[i];
  }

  /** A selected record adds a row: the rows before a later record are more. */
  lemma SelectGrows(rs: seq<Record>, toAdd: seq<Value>, i: nat, k: nat)
    requires i < k <= |rs| && Selected(rs[i], toAdd)
    ensures |SelectRows(rs[..i], toAdd)| < |SelectRows(rs[..k], toAdd)|
  {
    var a := rs[..k];
    assert a[..i] == rs[..i] && a[i] == rs[i];
    SelectAt(a, toAdd, i);
  }

  /** A key repeated in the CSV gives one row per occurrence. */
  lemma SelectKeepsDuplicates(r: Record, toAdd: seq<Value>)
    requires Selected(r, toAdd)
    ensures SelectRows([r, r], toAdd) == [Values(r), Values(r)]
  {
    assert [r, r][1..] == [r];
  }
}
