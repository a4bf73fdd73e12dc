/**
 * The listing and selection logic of the command-line front end: make_entry_list with its
 * ListOption and KeyOrdering, order_of_magnitude (as an integer floor-log10), and the entry-number
 * check and index choice of show_entry.
 */
module EntryLists {
  import opened Wrappers
  import opened Numerals
  import opened Strings
  import opened Chrono
  import opened EntryKeys

  /** ListOption: plain keys, or keys numbered from the first or from the last. */
  datatype ListOption = Enumerate | EnumerateReverse | Plain

  /** KeyOrdering: the lines in key order, or reversed. */
  datatype KeyOrdering = LatestFirst | EarliestFirst

  /** Every key holds a real date and time, as every chrono DateTime does. */
  predicate ValidKeys(keys: seq<EntryKey>)
  {
    forall i :: 0 <= i < |keys| ==> Valid(keys[i].date)
  }

  // ---------------------------------------------------------------------------------------------
  // order_of_magnitude
  // ---------------------------------------------------------------------------------------------

  /**
   * order_of_magnitude: floor(log10(n)). For n = 0 the float logarithm is minus infinity, which the
   * saturating cast to usize turns into 0.
   */
  function OrderOfMagnitude(n: nat): (m: nat)
    ensures n == 0 ==> m == 0
    ensures n >= 1 ==> Pow10(m) <= n < Pow10(m + 1)
  {
    if n < 10 then 0
    else
      var m := OrderOfMagnitude(n / 10);
      assert 10 * Pow10(m) <= 10 * (n / 10) <= n;
      assert n < 10 * (n / 10 + 1) <= 10 * Pow10(m + 1);
      1 + m
  }

  /** The floor-log10 is the only exponent whose power of ten brackets n. */
  lemma OrderOfMagnitudeUnique(n: nat, m: nat)
    requires Pow10(m) <= n < Pow10(m + 1)
    ensures OrderOfMagnitude(n) == m
  {
    var k := OrderOfMagnitude(n);
    if k < m {
      Pow10Monotone(k + 1, m);
    } else if m < k {
      Pow10Monotone(m + 1, k);
    }
  }

  /** One less than the number of digits of n, for n >= 1. */
  lemma OrderOfMagnitudeDigits(n: nat)
    requires n >= 1
    ensures OrderOfMagnitude(n) + 1 == |Decimal(n)|
  {
    DecimalLength(n, OrderOfMagnitude(n) + 1);
  }

  lemma {:induction false} DecimalLengthMonotone(a: nat, b: nat)
    requires a <= b
    ensures |Decimal(a)| <= |Decimal(b)|
    decreases b
  {
    if a >= 10 {
      DecimalLengthMonotone(a / 10, b / 10);
    }
  }

  // ---------------------------------------------------------------------------------------------
  // make_entry_list
  // ---------------------------------------------------------------------------------------------

  /** Vec::reverse, on the list of lines. */
  function Reverse<T>(s: seq<T>): (r: seq<T>)
    ensures |r| == |s|
    ensures forall i :: 0 <= i < |s| ==> r[i] == s[|s| - 1 - i]
  {
    if s == [] then [] else Reverse(s[1..]) + [s[0]]
  }

  /** Reversing twice gives the list back. */
  lemma ReverseReverse<T>(s: seq<T>)
    ensures Reverse(Reverse(s)) == s
  {
  }

  /** format!("{:width$} {}", number, key): the number right-aligned in width columns, a space, the key. */
  function NumberedLine(number: nat, width: nat, key: EntryKey): string
    requires Valid(key.date)
  {
    PadLeft(Decimal(number), width, ' ') + " " + ToString(key)
  }

  /** The number on the line of the key at index j: j + 1 counting from the first key, len - j from the last. */
  function NumberOf(count: nat, option: ListOption, j: nat): nat
    requires j < count
  {
    if option == EnumerateReverse then count - j else j + 1
  }

  /** The line of the key at index j, before any reordering. */
  function KeyLine(keys: seq<EntryKey>, option: ListOption, width: nat, j: nat): string
    requires ValidKeys(keys) && j < |keys|
  {
    if option == Plain then ToString(keys[j]) else NumberedLine(NumberOf(|keys|, option, j), width, keys[j])
  }

  /** The index of the key printed on line i: i itself, or counted from the end for LatestFirst. */
  function Position(count: nat, ordering: KeyOrdering, i: nat): nat
    requires i < count
  {
    if ordering == EarliestFirst then i else count - 1 - i
  }

  /** The key lines in key order: (1..).zip(keys).map(...) or keys.iter().map(...), collected. */
  function KeyLines(keys: seq<EntryKey>, option: ListOption, width: nat): (lines: seq<string>)
    requires ValidKeys(keys)
    ensures |lines| == |keys|
  {
    seq(|keys|, j requires 0 <= j < |keys| => KeyLine(keys, option, width, j))
  }

  /** The ordering step: EarliestFirst keeps the lines, LatestFirst reverses them. */
  function Arrange<T>(lines: seq<T>, ordering: KeyOrdering): (r: seq<T>)
    ensures |r| == |lines|
  {
    if ordering == EarliestFirst then lines else Reverse(lines)
  }

  /** Line i after ordering is line Position(len, ordering, i) before it. */
  lemma ArrangeAt<T>(lines: seq<T>, ordering: KeyOrdering, i: nat)
    requires i < |lines|
    ensures Arrange(lines, ordering)[i] == lines[Position(|lines|, ordering, i)]
  {
  }

  /** The lines of make_entry_list for a given width of the number column. */
  function EntryList(keys: seq<EntryKey>, option: ListOption, ordering: KeyOrdering, width: nat): (r: seq<string>)
    requires ValidKeys(keys)
    ensures |r| == |keys|
  {
    Arrange(KeyLines(keys, option, width), ordering)
  }

  /** make_entry_list as written: the number column is order_of_magnitude(len) wide. */
  function MakeEntryList(keys: seq<EntryKey>, option: ListOption, ordering: KeyOrdering): (r: seq<string>)
    requires ValidKeys(keys)
    ensures |r| == |keys|
    ensures keys == [] ==> r == []
  {
    EntryList(keys, option, ordering, OrderOfMagnitude(|keys|))
  }

  /** Line i of a listing is the line of the key at Position(len, ordering, i): reordering moves whole lines. */
  lemma EntryListLine(keys: seq<EntryKey>, option: ListOption, ordering: KeyOrdering, width: nat, i: nat)
    requires ValidKeys(keys) && i < |keys|
    ensures EntryList(keys, option, ordering, width)[i] == KeyLine(keys, option, width, Position(|keys|, ordering, i))
  {
    var lines := KeyLines(keys, option, width);
    ArrangeAt(lines, ordering, i);
    var j := Position(|keys|, ordering, i);
    assert lines[j] == KeyLine(keys, option, width, j);
  }

  /** A numbered line reads back: blanks and the number, a space, then exactly the key's text. */
  lemma NumberedLineReads(number: nat, width: nat, key: EntryKey)
    requires Valid(key.date)
    ensures var c := if |Decimal(number)| >= width then |Decimal(number)| else width;
      var line := NumberedLine(number, width, key);
      |line| == c + 1 + |ToString(key)| && line[c] == ' ' && line[c + 1..] == ToString(key)
      && TrimStart(line[..c]) == Decimal(number) && ValueOf(TrimStart(line[..c])) == number
  {
    PaddedLineReads(number, width, ToString(key));
  }

  lemma PaddedLineReads(number: nat, width: nat, text: string)
    ensures var c := if |Decimal(number)| >= width then |Decimal(number)| else width;
      var line := PadLeft(Decimal(number), width, ' ') + " " + text;
      |line| == c + 1 + |text| && line[c] == ' ' && line[c + 1..] == text
      && TrimStart(line[..c]) == Decimal(number) && ValueOf(TrimStart(line[..c])) == number
  {
    var d := Decimal(number);
    var p := PadLeft(d, width, ' ');
    PadLeftParts(d, width, ' ');
    var line := p + " " + text;
    assert line[..|p|] == p;
    assert line[|p| + 1..] == text;
    var pad := p[..|p| - |d|];
    assert p == pad + d;
    assert AllWhitespace(pad) by {
      forall i | 0 <= i < |pad|
        ensures IsWhitespace(pad[i])
      {
        assert pad[i] == p[i];
      }
    }
    TrimStartOfPadding(pad, d);
    ValueOfDecimal(number);
  }

  /** A plain listing in key order prints each key as text that parses back to the key. */
  lemma {:induction false} PlainLinesParse(keys: seq<EntryKey>, i: nat)
    requires ValidKeys(keys) && i < |keys|
    requires 0 <= keys[i].date.year <= 9999 && keys[i].date.second == 0
    ensures ParseFromString(MakeEntryList(keys, Plain, EarliestFirst)[i]) == Some(keys[i])
  {
    EntryListLine(keys, Plain, EarliestFirst, OrderOfMagnitude(|keys|), i);
    ParseToString(keys[i]);
    assert keys[i].date.(second := 0) == keys[i].date;
  }

  lemma {:induction false} ReverseValid(keys: seq<EntryKey>)
    requires ValidKeys(keys)
    ensures ValidKeys(Reverse(keys))
  {
    forall i | 0 <= i < |keys|
      ensures Valid(Reverse(keys)[i].date)
    {
      assert Reverse(keys)[i] == keys[|keys| - 1 - i];
    }
  }

  /**
   * Numbering from the last key and printing latest first is numbering the reversed keys from the
   * first: line i is numbered i + 1 and shows the (i+1)-th key from the end.
   */
  lemma {:induction false} ReverseEnumerationLatestFirst(keys: seq<EntryKey>, width: nat)
    requires ValidKeys(keys)
    ensures ValidKeys(Reverse(keys))
    ensures EntryList(keys, EnumerateReverse, LatestFirst, width) == EntryList(Reverse(keys), Enumerate, EarliestFirst, width)
    ensures MakeEntryList(keys, EnumerateReverse, LatestFirst) == MakeEntryList(Reverse(keys), Enumerate, EarliestFirst)
  {
    ReverseValid(keys);
    var n := |keys|;
    var a := EntryList(keys, EnumerateReverse, LatestFirst, width);
    var b := EntryList(Reverse(keys), Enumerate, EarliestFirst, width);
    forall i | 0 <= i < n
      ensures a[i] == b[i]
    {
      EntryListLine(keys, EnumerateReverse, LatestFirst, width, i);
      EntryListLine(Reverse(keys), Enumerate, EarliestFirst, width, i);
      assert Reverse(keys)[i] == keys[n - 1 - i];
      assert NumberOf(n, EnumerateReverse, n - 1 - i) == i + 1 == NumberOf(n, Enumerate, i);
    }
  }

  /** The number column make_entry_list evidently means: as wide as the largest number, len. */
  function NumberWidth(count: nat): (w: nat)
    ensures count >= 1 ==> w == OrderOfMagnitude(count) + 1
  {
    if count == 0 then 0
    else
      OrderOfMagnitudeDigits(count);
      |Decimal(count)|
  }

  /** make_entry_list with the number column as wide as the widest number. */
  function MakeAlignedEntryList(keys: seq<EntryKey>, option: ListOption, ordering: KeyOrdering): (r: seq<string>)
    requires ValidKeys(keys)
    ensures |r| == |keys|
  {
    EntryList(keys, option, ordering, NumberWidth(|keys|))
  }

  /** In an aligned enumerated listing every key starts in the same column, after its number and a space. */
  lemma {:induction false} AlignedKeyColumn(keys: seq<EntryKey>, option: ListOption, ordering: KeyOrdering, i: nat)
    requires ValidKeys(keys) && i < |keys| && option != Plain
    ensures var w := NumberWidth(|keys|);
      var j := Position(|keys|, ordering, i);
      var line := MakeAlignedEntryList(keys, option, ordering)[i];
      |line| > w && line[w] == ' ' && line[w + 1..] == ToString(keys[j])
      && TrimStart(line[..w]) == Decimal(NumberOf(|keys|, option, j))
      && ValueOf(TrimStart(line[..w])) == NumberOf(|keys|, option, j)
  {
    var w := NumberWidth(|keys|);
    var j := Position(|keys|, ordering, i);
    EntryListLine(keys, option, ordering, w, i);
    var number := NumberOf(|keys|, option, j);
    DecimalLengthMonotone(number, |keys|);
    AlignedLine(number, w, keys[j]);
  }

  lemma AlignedLine(number: nat, width: nat, key: EntryKey)
    requires Valid(key.date) && |Decimal(number)| <= width
    ensures var line := NumberedLine(number, width, key);
      |line| > width && line[width] == ' ' && line[width + 1..] == ToString(key)
      && TrimStart(line[..width]) == Decimal(number) && ValueOf(TrimStart(line[..width])) == number
  {
    NumberedLineReads(number, width, key);
  }

  /**
   * As written, ten keys misalign: the column is order_of_magnitude(10) = 1 wide, so "1" fills it and
   * its key starts at index 2, while "10" overflows it and index 2 of that line is the space.
   */
  lemma MisalignedAtTen(keys: seq<EntryKey>)
    requires ValidKeys(keys) && |keys| == 10
    ensures MakeEntryList(keys, Enumerate, EarliestFirst)[0][2..] == ToString(keys[0])
    ensures MakeEntryList(keys, Enumerate, EarliestFirst)[9][2] == ' '
    ensures MakeEntryList(keys, Enumerate, EarliestFirst)[9][3..] == ToString(keys[9])
  {
    OrderOfMagnitudeUnique(10, 1);
    var lines := MakeEntryList(keys, Enumerate, EarliestFirst);
    assert lines == EntryList(keys, Enumerate, EarliestFirst, 1);
    EntryListLine(keys, Enumerate, EarliestFirst, 1, 0);
    EntryListLine(keys, Enumerate, EarliestFirst, 1, 9);
    assert lines[0] == NumberedLine(1, 1, keys[0]);
    assert lines[9] == NumberedLine(10, 1, keys[9]);
    assert |Decimal(1)| == 1;
    DecimalLength(10, 2);
    ColumnAfterDigits(1, 1, keys[0], lines[0]);
    ColumnAfterDigits(10, 1, keys[9], lines[9]);
  }

  /** A number at least as wide as the column ends right before the space. */
  lemma ColumnAfterDigits(number: nat, width: nat, key: EntryKey, line: string)
    requires Valid(key.date) && width <= |Decimal(number)| && line == NumberedLine(number, width, key)
    ensures line[|Decimal(number)|] == ' ' && line[|Decimal(number)| + 1..] == ToString(key)
  {
    NumberedLineReads(number, width, key);
  }

  /** The listings of two keys, as the command-line tests pin them down. */
  lemma TwoKeyListings(k1: EntryKey, k2: EntryKey)
    requires Valid(k1.date) && Valid(k2.date)
    ensures ValidKeys([k1, k2])
    ensures MakeEntryList([k1, k2], Plain, EarliestFirst) == [ToString(k1), ToString(k2)]
    ensures MakeEntryList([k1, k2], Enumerate, EarliestFirst) == ["1 " + ToString(k1), "2 " + ToString(k2)]
    ensures MakeEntryList([k1, k2], EnumerateReverse, EarliestFirst) == ["2 " + ToString(k1), "1 " + ToString(k2)]
    ensures MakeEntryList([k1, k2], EnumerateReverse, LatestFirst) == ["1 " + ToString(k2), "2 " + ToString(k1)]
  {
    var keys := [k1, k2];
    assert ValidKeys(keys);
    assert OrderOfMagnitude(2) == 0;
    SingleDigitLine(1, k1);
    SingleDigitLine(2, k1);
    SingleDigitLine(1, k2);
    SingleDigitLine(2, k2);
    TwoLines(keys, Plain, EarliestFirst, ToString(k1), ToString(k2));
    TwoLines(keys, Enumerate, EarliestFirst, "1 " + ToString(k1), "2 " + ToString(k2));
    TwoLines(keys, EnumerateReverse, EarliestFirst, "2 " + ToString(k1), "1 " + ToString(k2));
    TwoLines(keys, EnumerateReverse, LatestFirst, "1 " + ToString(k2), "2 " + ToString(k1));
  }

  /** A listing of two keys whose two lines are x and y, with no room for padding. */
  lemma TwoLines(keys: seq<EntryKey>, option: ListOption, ordering: KeyOrdering, x: string, y: string)
    requires ValidKeys(keys) && |keys| == 2
    requires KeyLine(keys, option, 0, Position(2, ordering, 0)) == x
    requires KeyLine(keys, option, 0, Position(2, ordering, 1)) == y
    ensures MakeEntryList(keys, option, ordering) == [x, y]
  {
    assert OrderOfMagnitude(2) == 0;
    EntryListLine(keys, option, ordering, 0, 0);
    EntryListLine(keys, option, ordering, 0, 1);
  }

  /** A one-digit number in a column of width 0: the digit, a space, the key. */
  lemma SingleDigitLine(n: nat, key: EntryKey)
    requires 1 <= n <= 9 && Valid(key.date)
    ensures NumberedLine(n, 0, key) == [DigitChar(n)] + " " + ToString(key)
  {
    PaddedSingleDigit(n, ToString(key));
  }

  lemma PaddedSingleDigit(n: nat, text: string)
    requires 1 <= n <= 9
    ensures PadLeft(Decimal(n), 0, ' ') + " " + text == [DigitChar(n)] + " " + text
  {
  }

  // ---------------------------------------------------------------------------------------------
  // show_entry by number
  // ---------------------------------------------------------------------------------------------

  /** show's --number counts from the first entry of the listing, --number-reverse from the last. */
  datatype Counting = FromFirst | FromLast

  /** What show_entry does with an entry number: shows a key, stops with "Invalid entry number", or panics. */
  datatype ShowOutcome = Show(key: EntryKey) | InvalidEntryNumber(number: nat) | IndexPanic

  /** check_entry_number as written: refuses only a number above the entry count. */
  function CheckEntryNumber(number: nat, count: nat): (accepted: bool)
    ensures accepted <==> !(number > count)
  {
    number <= count
  }

  /**
   * show_entry's choice by number as written: after the check, keys[number - 1] or
   * keys[len - number]. An index outside the list (a usize underflow or an out-of-bounds index)
   * panics.
   */
  function ShowByNumberAsWritten(keys: seq<EntryKey>, number: nat, counting: Counting): (r: ShowOutcome)
    ensures r.Show? ==> r.key in keys
  {
    if !CheckEntryNumber(number, |keys|) then InvalidEntryNumber(number)
    else
      var index: int := if counting == FromFirst then number - 1 else |keys| - number;
      if 0 <= index < |keys| then Show(keys[index]) else IndexPanic
  }

  /** As written, every number the check lets through is shown, except 0, which panics. */
  lemma ShowAsWrittenOutcomes(keys: seq<EntryKey>, number: nat, counting: Counting)
    ensures ShowByNumberAsWritten(keys, number, counting) == IndexPanic <==> number == 0
    ensures ShowByNumberAsWritten(keys, number, counting).InvalidEntryNumber? <==> number > |keys|
  {
  }

  /** Entry number 0 passes check_entry_number and then panics instead of being refused. */
  lemma ZeroPassesCheck(keys: seq<EntryKey>, counting: Counting)
    ensures CheckEntryNumber(0, |keys|)
    ensures ShowByNumberAsWritten(keys, 0, counting) == IndexPanic
  {
    ShowAsWrittenOutcomes(keys, 0, counting);
  }

  /** The check evidently intended: an entry number names a line of the listing, 1 to the entry count. */
  function ValidEntryNumber(number: nat, count: nat): (accepted: bool)
    ensures accepted ==> CheckEntryNumber(number, count)
    ensures accepted <==> number != 0 && CheckEntryNumber(number, count)
  {
    1 <= number <= count
  }

  /** The index of the entry a valid number names. */
  function NumberedIndex(count: nat, number: nat, counting: Counting): (index: nat)
    requires ValidEntryNumber(number, count)
    ensures index < count
    ensures counting == FromFirst ==> index + 1 == number
    ensures counting == FromLast ==> count - index == number
  {
    if counting == FromFirst then number - 1 else count - number
  }

  /** show_entry by number with the intended check: a valid number shows its entry; any other is refused. */
  function ShowByNumber(keys: seq<EntryKey>, number: nat, counting: Counting): (r: ShowOutcome)
    ensures r.Show? <==> 1 <= number <= |keys|
    ensures !r.Show? ==> r == InvalidEntryNumber(number)
    ensures r.Show? ==> r.key in keys
    ensures r.Show? && counting == FromFirst ==> r.key == keys[number - 1]
    ensures r.Show? && counting == FromLast ==> r.key == keys[|keys| - number]
  {
    if ValidEntryNumber(number, |keys|) then Show(keys[NumberedIndex(|keys|, number, counting)])
    else InvalidEntryNumber(number)
  }

  /** The correction changes nothing for numbers from 1 up; it refuses 0 where the original panics. */
  lemma ShowCorrectionAgrees(keys: seq<EntryKey>, number: nat, counting: Counting)
    ensures number >= 1 ==> ShowByNumber(keys, number, counting) == ShowByNumberAsWritten(keys, number, counting)
    ensures number == 0 ==> ShowByNumber(keys, 0, counting) == InvalidEntryNumber(0)
  {
  }

  /**
   * The entry shown for a number is the one the enumerated listing prints with that number:
   * --number matches `list --enumerate`, --number-reverse matches `list --enumerate-reverse`.
   */
  lemma {:induction false} ShownIsNumbered(keys: seq<EntryKey>, number: nat, counting: Counting, width: nat)
    requires ValidKeys(keys) && ShowByNumber(keys, number, counting).Show?
    ensures var option := if counting == FromFirst then Enumerate else EnumerateReverse;
      var index := NumberedIndex(|keys|, number, counting);
      EntryList(keys, option, EarliestFirst, width)[index] == NumberedLine(number, width, ShowByNumber(keys, number, counting).key)
  {
    var option := if counting == FromFirst then Enumerate else EnumerateReverse;
    var index := NumberedIndex(|keys|, number, counting);
    EntryListLine(keys, option, EarliestFirst, width, index);
    assert NumberOf(|keys|, option, index) == number;
  }

  /** show_entry with neither date nor number: keys.last(), the latest entry if there is one. */
  function ShowLatest(keys: seq<EntryKey>): (r: Option<EntryKey>)
    ensures r.Some? <==> keys != []
    ensures r.Some? ==> r.value == keys[|keys| - 1]
  {
    if keys == [] then None else Some(keys[|keys| - 1])
  }

  /** The latest entry is the one --number-reverse 1 shows. */
  lemma LatestIsNumberOneFromLast(keys: seq<EntryKey>)
    requires keys != []
    ensures ShowByNumber(keys, 1, FromLast) == Show(ShowLatest(keys).value)
  {
  }
}
