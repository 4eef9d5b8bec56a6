/**
 * The record-shaping helpers of the reader: the `is_number` test and the `discount` column,
 * the `shrink_line`/`shrink_list` truncation used for display, and the row filters of
 * `read_eans` and `read_data` over already-decoded CSV rows (each a dict of strings).
 */
module Reader {
  import opened Wrappers
  import opened Errors
  import opened Text
  import opened Numbers
  import opened Dicts

  /** One decoded CSV row, column name to text. */
  type Line = Dict<string>

  // ---------------------------------------------------------------- is_number

  /** `is_number(s)`: `s.replace(".", "", 1).isdigit()`. */
  predicate IsNumber(s: string) {
    IsDigitString(RemoveFirst(s, '.'))
  }

  /** The same test read off the string itself: digits with at most one point, not just ".". */
  predicate NumberShaped(s: string) {
    && |s| > 0
    && s != "."
    && (forall i :: 0 <= i < |s| ==> IsDigit(s[i]) || s[i] == '.')
    && (forall i, j :: 0 <= i < j < |s| && s[i] == '.' ==> s[j] != '.')
  }

  lemma IsNumberIff(s: string)
    ensures IsNumber(s) <==> NumberShaped(s)
  {
    var i := IndexOf(s, '.');
    if i < |s| {
      var t := s[..i] + s[i + 1..];
      assert forall j :: 0 <= j < i ==> t[j] == s[j];
      assert forall j :: i < j < |s| ==> t[j - 1] == s[j];
      if IsNumber(s) {
        assert forall j :: 0 <= j < |s| && j != i ==> IsDigit(s[j]);
      }
      if NumberShaped(s) {
        assert forall j :: 0 <= j < i ==> s[j] != '.';
        assert |t| > 0;
      }
    }
  }

  /** Text without digits, with a sign or with two points is not a number. */
  lemma NotNumberExamples()
    ensures !IsNumber("") && !IsNumber("-5") && !IsNumber("1.2.3") && !IsNumber(".")
  {
    assert !IsNumber("-5") by {
      assert IndexOf("-5", '.') == 2;
      assert !IsDigit("-5"[0]);
    }
    assert !IsNumber("1.2.3") by {
      assert IndexOf("1.2.3", '.') == 1;
      assert RemoveFirst("1.2.3", '.') == "12.3";
      assert !IsDigit("12.3"[2]);
    }
  }

  /** Digits with at most one point, anywhere, are a number. */
  lemma NumberExamples()
    ensures IsNumber("70") && IsNumber("70.0") && IsNumber(".5") && IsNumber("5.")
  {
    assert IsNumber("70") by { assert IndexOf("70", '.') == 2; }
    assert IsNumber("70.0") by {
      assert IndexOf("70.0", '.') == 2;
      assert RemoveFirst("70.0", '.') == "700";
    }
    assert IsNumber(".5") by { assert RemoveFirst(".5", '.') == "5"; }
    assert IsNumber("5.") by {
      assert IndexOf("5.", '.') == 1;
      assert RemoveFirst("5.", '.') == "5";
    }
  }

  /** Text that passes `is_number` has no surrounding space, no sign and no exponent. */
  lemma NumberIsBare(s: string)
    requires NumberShaped(s)
    ensures Strip(s) == s
    ensures SplitSign(s) == (false, s)
    ensures IndexOfExponent(s) == |s|
  {
    StripTrimmed(s);
  }

  lemma NumberMantissa(s: string)
    requires NumberShaped(s)
    ensures ParseMantissa(s).Some? && ParseMantissa(s).value >= 0.0
  {
    var i := IndexOf(s, '.');
    var whole := s[..i];
    var frac := if i < |s| then s[i + 1..] else "";
    assert AllDigits(whole);
    assert AllDigits(frac) by {
      if i < |s| {
        forall j | 0 <= j < |frac| ensures IsDigit(frac[j]) {
          assert frac[j] == s[i + 1 + j];
        }
      }
    }
    assert |whole| + |frac| > 0;
  }

  /** Whatever passes `is_number` is accepted by `float()`, as a non-negative number. */
  lemma IsNumberParses(s: string)
    requires IsNumber(s)
    ensures ParseFloat(s).Some? && ParseFloat(s).value >= 0.0
    ensures ParseFloat(s) == ParseMantissa(s)
  {
    IsNumberIff(s);
    NumberIsBare(s);
    NumberMantissa(s);
    ParseFloatPlain(s);
  }

  /** The number `float()` makes of text that passes `is_number`. */
  function NumberValue(s: string): (x: real)
    requires IsNumber(s)
    ensures x >= 0.0
  {
    IsNumberParses(s);
    ParseFloat(s).value
  }

  // ---------------------------------------------------------------- discount

  /** `f"{x:.0f}%"` for a percentage in (0, 100]: at most four characters. */
  function PercentText(x: real): (r: string)
    requires 0.0 < x <= 100.0
    ensures 2 <= |r| <= 4 && r[|r| - 1] == '%' && AllDigits(r[..|r| - 1])
  {
    var n := RoundHalfEven(x);
    assert 0 <= n <= 100;
    var digits := NatToString(n);
    assert (digits + "%")[..|digits|] == digits;
    digits + "%"
  }

  /** The discount of a price below the old price is a percentage in (0, 100]. */
  lemma PercentOffRange(p: real, o: real)
    requires 0.0 <= p < o
    ensures 0.0 < 100.0 - p * 100.0 / o <= 100.0
  {
    var q := p / o;
    assert q * o == p;
    assert 0.0 <= q < 1.0;
    assert p * 100.0 / o == 100.0 * q;
  }

  /** The numeric half of `discount`: empty unless the price is below the old price. */
  function DiscountFromValues(p: real, o: real): (r: string)
    requires p >= 0.0
    ensures r != "" <==> p < o
    ensures r != "" ==> 2 <= |r| <= 4 && r[|r| - 1] == '%' && AllDigits(r[..|r| - 1])
  {
    if p >= o then "" else PercentOffRange(p, o); PercentText(100.0 - p * 100.0 / o)
  }

  /**
   * `discount` once the two fields are read: empty unless both are numbers and the price is
   * below the old price; otherwise the rounded percentage off, then "%".
   */
  function DiscountOf(price: string, oldPrice: string): (r: string)
    ensures r != "" <==> IsNumber(price) && IsNumber(oldPrice) && NumberValue(price) < NumberValue(oldPrice)
    ensures r != "" ==> 2 <= |r| <= 4 && r[|r| - 1] == '%' && AllDigits(r[..|r| - 1])
  {
    if !IsNumber(price) || !IsNumber(oldPrice) then ""
    else DiscountFromValues(NumberValue(price), NumberValue(oldPrice))
  }

  /** The percentage is the one nearest to the exact discount, halves going to the even one. */
  lemma DiscountRounded(p: real, o: real)
    requires 0.0 <= p < o
    ensures exists n: nat ::
              && DiscountFromValues(p, o) == NatToString(n) + "%"
              && n as real - 0.5 <= 100.0 - p * 100.0 / o <= n as real + 0.5
              && n <= 100
  {
    PercentOffRange(p, o);
    var x := 100.0 - p * 100.0 / o;
    var n := RoundHalfEven(x);
    assert 0 <= n <= 100;
    assert PercentText(x) == NatToString(n as nat) + "%";
  }

  /** `discount(line)`: reads `line["price"]` then `line["old_price"]`; a missing key raises. */
  function Discount(line: Line): (r: Result<string, Error>)
    ensures r.Failure? <==> "price" !in Keys(line) || "old_price" !in Keys(line)
    ensures r.Success? ==> r.value == DiscountOf(Get(line, "price").value, Get(line, "old_price").value)
  {
    match Get(line, "price")
    case None => Failure(KeyError("price"))
    case Some(price) =>
      match Get(line, "old_price")
      case None => Failure(KeyError("old_price"))
      case Some(oldPrice) => Success(DiscountOf(price, oldPrice))
  }

  lemma DigitsOf100()
    ensures DigitsValue("100") == 100 && DigitsValue("70") == 70 && DigitsValue("150") == 150
    ensures DigitsValue("0") == 0
  {
    assert "100"[..2] == "10" && "10"[..1] == "1";
    assert "70"[..1] == "7";
    assert "150"[..2] == "15" && "15"[..1] == "1";
  }

  lemma NumberValueIsMantissa(s: string)
    requires IsNumber(s)
    ensures ParseMantissa(s).Some? && NumberValue(s) == ParseMantissa(s).value
  {
    IsNumberParses(s);
  }

  lemma MantissaOfDigits(s: string)
    requires IsDigitString(s)
    ensures ParseMantissa(s) == Some(DigitsValue(s) as real)
  {
    assert forall j :: 0 <= j < |s| ==> s[j] != '.';
    assert IndexOf(s, '.') == |s|;
    assert s[..|s|] == s;
  }

  lemma ValueOfInteger(s: string)
    requires IsDigitString(s)
    ensures IsNumber(s) && NumberValue(s) == DigitsValue(s) as real
  {
    assert forall j :: 0 <= j < |s| ==> s[j] != '.';
    assert IndexOf(s, '.') == |s|;
    assert IsNumber(s);
    NumberValueIsMantissa(s);
    MantissaOfDigits(s);
  }

  lemma MantissaOfPointZero(s: string)
    requires IsDigitString(s)
    ensures ParseMantissa(s + ".0") == Some(DigitsValue(s) as real)
  {
    assert ParseMantissa(s + "." + "0") == Some(DecimalValue(s, "0")) by { MantissaParts(s, "0"); }
    assert s + "." + "0" == s + ".0";
    assert DecimalValue(s, "0") == DigitsValue(s) as real by { DecimalOfZero(s); }
  }

  lemma DecimalOfZero(whole: string)
    requires AllDigits(whole)
    ensures DecimalValue(whole, "0") == DigitsValue(whole) as real
  {
    assert DigitsValue("0") == 0 by { assert "0"[..0] == ""; }
  }

  lemma RemovePointOfPointZero(s: string)
    requires IsDigitString(s)
    ensures RemoveFirst(s + ".0", '.') == s + "0"
  {
    var t := s + ".0";
    assert t[..|s|] == s;
    IndexOfFirst(t, '.', |s|);
    assert t[|s| + 1..] == "0";
  }

  lemma ValueOfPointZero(s: string)
    requires IsDigitString(s)
    ensures IsNumber(s + ".0") && NumberValue(s + ".0") == DigitsValue(s) as real
  {
    RemovePointOfPointZero(s);
    assert IsDigitString(s + "0");
    NumberValueIsMantissa(s + ".0");
    MantissaOfPointZero(s);
  }

  lemma NotNumberEmpty()
    ensures !IsNumber("")
  {
  }

  lemma ThirtyPercent()
    ensures DiscountFromValues(70.0, 100.0) == "30%"
  {
    assert 100.0 - 70.0 * 100.0 / 100.0 == 30.0;
    assert RoundHalfEven(30.0) == 30;
    assert NatToString(30) == "30";
  }

  /** The cases of the unit tests for `discount` with a missing number. */
  lemma DiscountTestsEmpty()
    ensures DiscountOf("", "") == ""
    ensures DiscountOf("100", "") == ""
    ensures DiscountOf("", "100") == ""
  {
    NotNumberEmpty();
  }

  /** Whole numbers are compared by their digits. */
  lemma DiscountOfIntegers(price: string, oldPrice: string)
    requires IsDigitString(price) && IsDigitString(oldPrice)
    ensures DiscountOf(price, oldPrice)
         == DiscountFromValues(DigitsValue(price) as real, DigitsValue(oldPrice) as real)
  {
    ValueOfInteger(price);
    ValueOfInteger(oldPrice);
  }

  /** A trailing ".0" does not change the discount. */
  lemma DiscountOfPointZero(price: string, oldPrice: string)
    requires IsDigitString(price) && IsDigitString(oldPrice)
    ensures DiscountOf(price + ".0", oldPrice + ".0") == DiscountOf(price, oldPrice)
  {
    ValueOfInteger(price);
    ValueOfInteger(oldPrice);
    ValueOfPointZero(price);
    ValueOfPointZero(oldPrice);
  }

  /** The cases of the unit tests for `discount` where the price is not lower. */
  lemma DiscountTestsNoDiscount()
    ensures DiscountOf("150", "100") == ""
    ensures DiscountOf("100", "100") == ""
  {
    DigitsOf100();
    DiscountOfIntegers("150", "100");
    DiscountOfIntegers("100", "100");
  }

  /** The unit test for `discount` with whole numbers that prints thirty percent. */
  lemma DiscountTestThirty()
    ensures DiscountOf("70", "100") == "30%"
  {
    DigitsOf100();
    DiscountOfIntegers("70", "100");
    ThirtyPercent();
  }

  /** The unit test for `discount` with ".0" numbers that prints thirty percent. */
  lemma DiscountTestThirtyPointZero()
    ensures DiscountOf("70.0", "100.0") == "30%"
  {
    var price, oldPrice := "70", "100";
    assert price + ".0" == "70.0" && oldPrice + ".0" == "100.0";
    DiscountTestThirty();
    DiscountOfPointZero(price, oldPrice);
  }

  // ---------------------------------------------------------------- shrink_line, shrink_list

  /** Python's `s[:k]`: a negative `k` counts from the end. */
  function SliceTo(s: string, k: int): (r: string)
    ensures k >= 0 ==> r == s[..if k < |s| then k else |s|]
    ensures k < 0 ==> r == s[..if |s| + k > 0 then |s| + k else 0]
  {
    if k >= 0 then s[..if k < |s| then k else |s|]
    else s[..if |s| + k > 0 then |s| + k else 0]
  }

  /** One value of `shrink_line`. */
  function ShrinkValue(value: string, length: int): string {
    if |value| > length then SliceTo(value, length) + "..." else value
  }

  /** `shrink_line(line, length)`: every value longer than `length` is cut and marked with "...". */
  function ShrinkLine(line: Line, length: int): (r: Line)
    ensures Keys(r) == Keys(line)
    ensures forall i :: 0 <= i < |line| && |line[i].1| <= length ==> r[i].1 == line[i].1
    ensures length >= 0 ==> forall i :: 0 <= i < |line| && |line[i].1| > length ==>
                              r[i].1 == line[i].1[..length] + "..."
    ensures length < 0 ==> forall i :: 0 <= i < |line| ==>
                             r[i].1 == SliceTo(line[i].1, length) + "..."
  {
    seq(|line|, i requires 0 <= i < |line| => (line[i].0, ShrinkValue(line[i].1, length)))
  }

  /** A shrunk value shrinks to itself again. */
  lemma ShrinkValueIdempotent(value: string, length: int)
    requires length >= 0
    ensures ShrinkValue(ShrinkValue(value, length), length) == ShrinkValue(value, length)
  {
    if |value| > length {
      var once := value[..length] + "...";
      assert once[..length] == value[..length];
    }
  }

  lemma ShrinkLineIdempotent(line: Line, length: int)
    requires length >= 0
    ensures ShrinkLine(ShrinkLine(line, length), length) == ShrinkLine(line, length)
  {
    var once := ShrinkLine(line, length);
    forall i | 0 <= i < |line|
      ensures ShrinkLine(once, length)[i] == once[i]
    {
      ShrinkValueIdempotent(line[i].1, length);
    }
  }

  /** For a negative length the cut counts from the end, so shrinking again cuts further. */
  lemma ShrinkNegativeNotIdempotent()
    ensures ShrinkValue("abc", -1) == "ab..."
    ensures ShrinkValue(ShrinkValue("abc", -1), -1) == "ab....."
  {
    assert "abc"[..2] == "ab";
    assert ("ab..." )[..4] == "ab..";
  }

  /** `shrink_list(records, length)`: `shrink_line` on each record. */
  function ShrinkList(records: seq<Line>, length: int): (r: seq<Line>)
    ensures |r| == |records|
    ensures forall i :: 0 <= i < |records| ==> r[i] == ShrinkLine(records[i], length)
  {
    if records == [] then [] else [ShrinkLine(records[0], length)] + ShrinkList(records[1..], length)
  }

  // ---------------------------------------------------------------- read_eans, read_data

  /** Two results in evaluation order: the first error wins, otherwise the lists are joined. */
  function Then<T>(first: Result<seq<T>, Error>, second: Result<seq<T>, Error>): Result<seq<T>, Error> {
    match first
    case Failure(e) => Failure(e)
    case Success(xs) =>
      match second
      case Failure(e) => Failure(e)
      case Success(ys) => Success(xs + ys)
  }

  lemma ThenAssociative<T>(a: Result<seq<T>, Error>, b: Result<seq<T>, Error>, c: Result<seq<T>, Error>)
    ensures Then(Then(a, b), c) == Then(a, Then(b, c))
  {
    if a.Success? && b.Success? && c.Success? {
      assert a.value + b.value + c.value == a.value + (b.value + c.value);
    }
  }

  /** What `read_eans` takes from one row: its `ean` when `active` is "1". */
  function ActiveEan(line: Line): Result<seq<string>, Error> {
    match Get(line, "active")
    case None => Failure(KeyError("active"))
    case Some(active) =>
      if active != "1" then Success([])
      else
        match Get(line, "ean")
        case None => Failure(KeyError("ean"))
        case Some(ean) => Success([ean])
  }

  /** `read_eans` after decoding: `[line["ean"] for line in rows if line["active"] == "1"]`. */
  function ReadEans(rows: seq<Line>): Result<seq<string>, Error> {
    if rows == [] then Success([]) else Then(ActiveEan(rows[0]), ReadEans(rows[1..]))
  }

  predicate IsActive(line: Line) {
    Get(line, "active") == Some("1")
  }

  /** `read_eans` fails exactly when some row lacks `active`, or is active and lacks `ean`. */
  lemma {:induction false} ReadEansSucceeds(rows: seq<Line>)
    ensures ReadEans(rows).Success? <==>
              forall i :: 0 <= i < |rows| ==>
                "active" in Keys(rows[i]) && (IsActive(rows[i]) ==> "ean" in Keys(rows[i]))
  {
    if rows != [] {
      ReadEansSucceeds(rows[1..]);
      assert forall i :: 1 <= i < |rows| ==> rows[i] == rows[1..][i - 1];
    }
  }

  /** Reading rows one after the other: `read_eans` keeps the order of the file. */
  lemma {:induction false} ReadEansConcat(a: seq<Line>, b: seq<Line>)
    ensures ReadEans(a + b) == Then(ReadEans(a), ReadEans(b))
  {
    if a == [] {
      assert a + b == b;
      if ReadEans(b).Success? { assert [] + ReadEans(b).value == ReadEans(b).value; }
    } else {
      assert (a + b)[1..] == a[1..] + b;
      ReadEansConcat(a[1..], b);
      ThenAssociative(ActiveEan(a[0]), ReadEans(a[1..]), ReadEans(b));
    }
  }

  /** Exactly the `ean` of every active row is returned. */
  lemma {:induction false} ReadEansMembers(rows: seq<Line>, ean: string)
    requires ReadEans(rows).Success?
    ensures ean in ReadEans(rows).value <==>
              exists i :: 0 <= i < |rows| && IsActive(rows[i]) && Get(rows[i], "ean") == Some(ean)
  {
    if rows != [] {
      ReadEansMembers(rows[1..], ean);
      assert forall i :: 1 <= i < |rows| ==> rows[i] == rows[1..][i - 1];
      if exists i :: 1 <= i < |rows| && IsActive(rows[i]) && Get(rows[i], "ean") == Some(ean) {
        var i :| 1 <= i < |rows| && IsActive(rows[i]) && Get(rows[i], "ean") == Some(ean);
        assert rows[1..][i - 1] == rows[i];
      }
    }
  }

  /** `line | {"discount": discount(line)}`. */
  function WithDiscount(line: Line): Result<seq<Line>, Error> {
    match Discount(line)
    case Failure(e) => Failure(e)
    case Success(d) => Success([Set(line, "discount", d)])
  }

  /** What the comprehension of `read_data` makes of one row; `None` keeps every row. */
  function DataRow(line: Line, eans: Option<seq<string>>): Result<seq<Line>, Error> {
    match eans
    case None => WithDiscount(line)
    case Some(keep) =>
      match Get(line, "ean")
      case None => Failure(KeyError("ean"))
      case Some(ean) => if ean in keep then WithDiscount(line) else Success([])
  }

  function DataRows(rows: seq<Line>, eans: Option<seq<string>>): Result<seq<Line>, Error> {
    if rows == [] then Success([]) else Then(DataRow(rows[0], eans), DataRows(rows[1..], eans))
  }

  /** `read_data(eans)` after decoding: an empty or absent `eans` keeps every row. */
  function ReadData(rows: seq<Line>, eans: Option<seq<string>>): Result<seq<Line>, Error> {
    DataRows(rows, if eans.Some? && |eans.value| > 0 then eans else None)
  }

  lemma {:induction false} DataRowsConcat(a: seq<Line>, b: seq<Line>, eans: Option<seq<string>>)
    ensures DataRows(a + b, eans) == Then(DataRows(a, eans), DataRows(b, eans))
  {
    if a == [] {
      assert a + b == b;
      if DataRows(b, eans).Success? { assert [] + DataRows(b, eans).value == DataRows(b, eans).value; }
    } else {
      assert (a + b)[1..] == a[1..] + b;
      DataRowsConcat(a[1..], b, eans);
      ThenAssociative(DataRow(a[0], eans), DataRows(a[1..], eans), DataRows(b, eans));
    }
  }

  /** Reading rows one after the other: `read_data` keeps the order of the file. */
  lemma ReadDataConcat(a: seq<Line>, b: seq<Line>, eans: Option<seq<string>>)
    ensures ReadData(a + b, eans) == Then(ReadData(a, eans), ReadData(b, eans))
  {
    DataRowsConcat(a, b, if eans.Some? && |eans.value| > 0 then eans else None);
  }

  /** The row `read_data` emits for a kept line: the line with its `discount` column set. */
  function Extended(line: Line): Line
    requires "price" in Keys(line) && "old_price" in Keys(line)
  {
    Set(line, "discount", DiscountOf(Get(line, "price").value, Get(line, "old_price").value))
  }

  /** A row that gets its discount has both prices, and becomes its extended line. */
  lemma WithDiscountExtended(line: Line)
    requires WithDiscount(line).Success?
    ensures "price" in Keys(line) && "old_price" in Keys(line)
    ensures WithDiscount(line).value == [Extended(line)]
  {
  }

  /** `out` is `rows`, each with both prices and extended by its discount. */
  predicate AllExtended(rows: seq<Line>, out: seq<Line>) {
    && |out| == |rows|
    && forall i :: 0 <= i < |rows| ==> "price" in Keys(rows[i]) && "old_price" in Keys(rows[i]) && out[i] == Extended(rows[i])
  }

  lemma AllExtendedCons(rows: seq<Line>, out: seq<Line>)
    requires |rows| > 0 && "price" in Keys(rows[0]) && "old_price" in Keys(rows[0])
    requires |out| > 0 && out[0] == Extended(rows[0]) && AllExtended(rows[1..], out[1..])
    ensures AllExtended(rows, out)
  {
    forall i | 1 <= i < |rows|
      ensures "price" in Keys(rows[i]) && "old_price" in Keys(rows[i]) && out[i] == Extended(rows[i])
    {
      assert rows[i] == rows[1..][i - 1] && out[i] == out[1..][i - 1];
    }
  }

  lemma {:induction false} DataRowsAll(rows: seq<Line>)
    requires DataRows(rows, None).Success?
    ensures AllExtended(rows, DataRows(rows, None).value)
  {
    if rows != [] {
      assert DataRows(rows, None) == Then(WithDiscount(rows[0]), DataRows(rows[1..], None));
      WithDiscountExtended(rows[0]);
      DataRowsAll(rows[1..]);
      var out := DataRows(rows, None).value;
      assert out == [Extended(rows[0])] + DataRows(rows[1..], None).value;
      assert out[1..] == DataRows(rows[1..], None).value;
      AllExtendedCons(rows, out);
    }
  }

  /** With no filter every row is kept, in order, each with its discount. */
  lemma ReadDataAll(rows: seq<Line>, eans: Option<seq<string>>)
    requires eans.None? || eans.value == []
    requires ReadData(rows, eans).Success?
    ensures forall i :: 0 <= i < |rows| ==> "price" in Keys(rows[i]) && "old_price" in Keys(rows[i])
    ensures |ReadData(rows, eans).value| == |rows|
    ensures forall i :: 0 <= i < |rows| ==> ReadData(rows, eans).value[i] == Extended(rows[i])
  {
    assert ReadData(rows, eans) == DataRows(rows, None);
    DataRowsAll(rows);
  }

  /** `line` is what a filtered `read_data` emits for `row`: its `ean` is listed, it has both prices, and `line` is it extended. */
  predicate KeptAs(row: Line, eans: seq<string>, line: Line) {
    && Get(row, "ean").Some? && Get(row, "ean").value in eans
    && "price" in Keys(row) && "old_price" in Keys(row)
    && line == Extended(row)
  }

  /** What a filtered `read_data` makes of one row. */
  lemma DataRowKept(row: Line, eans: seq<string>, line: Line)
    requires DataRow(row, Some(eans)).Success?
    ensures line in DataRow(row, Some(eans)).value <==> KeptAs(row, eans, line)
  {
    if Get(row, "ean").Some? && Get(row, "ean").value in eans {
      WithDiscountExtended(row);
    }
  }

  /** With a non-empty filter, the rows kept are exactly those whose `ean` is listed. */
  lemma {:induction false} ReadDataFiltered(rows: seq<Line>, eans: seq<string>, line: Line)
    requires eans != []
    requires ReadData(rows, Some(eans)).Success?
    ensures line in ReadData(rows, Some(eans)).value <==> exists i :: 0 <= i < |rows| && KeptAs(rows[i], eans, line)
  {
    if rows != [] {
      var head := DataRow(rows[0], Some(eans));
      var tail := ReadData(rows[1..], Some(eans));
      assert ReadData(rows, Some(eans)) == Then(head, tail);
      assert line in ReadData(rows, Some(eans)).value <==> line in head.value || line in tail.value;
      DataRowKept(rows[0], eans, line);
      ReadDataFiltered(rows[1..], eans, line);
      if exists i :: 1 <= i < |rows| && KeptAs(rows[i], eans, line) {
        var i :| 1 <= i < |rows| && KeptAs(rows[i], eans, line);
        assert KeptAs(rows[1..][i - 1], eans, line);
      }
      if exists i :: 0 <= i < |rows[1..]| && KeptAs(rows[1..][i], eans, line) {
        var i :| 0 <= i < |rows[1..]| && KeptAs(rows[1..][i], eans, line);
        assert KeptAs(rows[i + 1], eans, line);
      }
    }
  }

  /** Every row `read_data` emits carries a discount that fits the `VARCHAR(4)` column. */
  lemma DiscountFits(line: Line)
    requires "price" in Keys(line) && "old_price" in Keys(line)
    ensures Get(Extended(line), "discount").Some?
    ensures |Get(Extended(line), "discount").value| <= 4
  {
  }
}
