/**
 * The tag index: one table of (tag, entry key) rows with the pair unique, keys stored as text
 * in the format "%Y%m%dT%H%M%z". The SQLite connection is modelled by the rows it sees and by
 * whether it has a transaction open; rows come back from a query in table order.
 */
module TagIndexes {
  import opened Wrappers
  import opened Chrono
  import opened Strftime
  import opened EntryKeys
  import FileRepo

  /** One row of the `tag` table. */
  datatype Row = Row(tag: string, entryKey: string)

  datatype TagIndexError = DBError | BadPathError(path: FileRepo.Path) | IoError(kind: FileRepo.IoErrorKind) | IndexFormatError

  /** KEY_DB_FORMAT, "%Y%m%dT%H%M%z". */
  const KeyDbFormat: seq<Item> := [Year, Month, Day, Literal('T'), Hour, Minute, TimezoneOffset]

  /** The name of the database file in the diary root. */
  const IndexFileName := "index.sqlite"

  lemma KeyDbFormatComplete()
    ensures Complete(KeyDbFormat) && TimezoneOffset in KeyDbFormat
  {
    assert KeyDbFormat[0] == Year && KeyDbFormat[1] == Month && KeyDbFormat[2] == Day;
    assert KeyDbFormat[4] == Hour && KeyDbFormat[5] == Minute && KeyDbFormat[6] == TimezoneOffset;
  }

  predicate NoRepeats<T(==)>(xs: seq<T>)
  {
    forall i, j :: 0 <= i < j < |xs| ==> xs[i] != xs[j]
  }

  /** entry_key_to_db_key: the key's UTC date-time written in KEY_DB_FORMAT. */
  function EntryKeyToDbKey(key: EntryKey): string
    requires Valid(key.date)
  {
    Format(KeyDbFormat, key.date, ZoneText(0, ""))
  }

  /** A stored key reads back, with parse_from_str, as the same instant to the minute. */
  lemma DbKeyRoundTrip(key: EntryKey)
    requires Valid(key.date) && 0 <= key.date.year <= 9999
    ensures ParseFromStr(KeyDbFormat, EntryKeyToDbKey(key)) == Some(key.date.(second := 0))
  {
    KeyDbFormatComplete();
    ParseOfFormat(KeyDbFormat, key.date, 0, "");
    ShiftByZero(key.date.(second := 0));
  }

  /** Distinct whole-minute keys are stored under distinct texts, so their rows never mix. */
  lemma DbKeyInjective(a: EntryKey, b: EntryKey)
    requires Valid(a.date) && 0 <= a.date.year <= 9999 && a.date.second == 0
    requires Valid(b.date) && 0 <= b.date.year <= 9999 && b.date.second == 0
    ensures EntryKeyToDbKey(a) == EntryKeyToDbKey(b) <==> a == b
  {
    DbKeyRoundTrip(a);
    DbKeyRoundTrip(b);
    assert a.date.(second := 0) == a.date && b.date.(second := 0) == b.date;
  }

  /** `times` copies of s. */
  function Repeat(s: string, times: nat): (r: string)
    ensures |r| == times * |s|
  {
    if times == 0 then [] else s + Repeat(s, times - 1)
  }

  lemma {:induction false} RepeatAt(s: string, times: nat, k: nat, j: nat)
    requires k < times && j < |s|
    ensures k * |s| + j < |Repeat(s, times)| && Repeat(s, times)[k * |s| + j] == s[j]
    decreases times
  {
    if k > 0 {
      RepeatAt(s, times - 1, k - 1, j);
      assert k * |s| == |s| + (k - 1) * |s|;
    }
  }

  /** make_placeholders: n question marks separated by ", "; n must be at least one. */
  function MakePlaceholders(n: nat): (s: string)
    requires n >= 1
    ensures |s| == 3 * n - 2
    ensures forall k :: 0 <= k < n ==> s[3 * k] == '?'
    ensures forall k :: 0 <= k < n - 1 ==> s[3 * k + 1] == ',' && s[3 * k + 2] == ' '
  {
    var r := "?" + Repeat(", ?", n - 1);
    forall k | 0 < k < n
      ensures r[3 * k] == '?'
    {
      RepeatAt(", ?", n - 1, k - 1, 2);
    }
    forall k | 0 <= k < n - 1
      ensures r[3 * k + 1] == ',' && r[3 * k + 2] == ' '
    {
      RepeatAt(", ?", n - 1, k, 0);
      RepeatAt(", ?", n - 1, k, 1);
    }
    r
  }

  /** The question marks of the placeholder list: exactly one per tag. */
  lemma PlaceholderCount(n: nat)
    requires n >= 1
    ensures |set i | 0 <= i < |MakePlaceholders(n)| && MakePlaceholders(n)[i] == '?'| == n
  {
    var s := MakePlaceholders(n);
    var qs := set i | 0 <= i < |s| && s[i] == '?';
    var ms := set k | 0 <= k < n :: 3 * k;
    forall i | 0 <= i < |s|
      ensures s[i] == '?' <==> i % 3 == 0
    {
      var k := i / 3;
      assert i == 3 * k + i % 3;
    }
    assert qs == ms by {
      forall i | i in qs
        ensures i in ms
      {
        assert i == 3 * (i / 3);
      }
    }
    MultiplesCount(n);
  }

  lemma {:induction false} MultiplesCount(n: nat)
    ensures |set k | 0 <= k < n :: 3 * k| == n
  {
    if n > 0 {
      MultiplesCount(n - 1);
      assert (set k | 0 <= k < n :: 3 * k) == (set k | 0 <= k < n - 1 :: 3 * k) + {3 * (n - 1)};
    }
  }

  /** The rows that insert tags for one key, in order. */
  function RowsFor(tags: seq<string>, dbKey: string): (rs: seq<Row>)
    ensures |rs| == |tags|
    ensures forall i :: 0 <= i < |tags| ==> rs[i] == Row(tags[i], dbKey)
  {
    if tags == [] then [] else [Row(tags[0], dbKey)] + RowsFor(tags[1..], dbKey)
  }

  /** The rows of one key, in table order. */
  function RowsOf(rows: seq<Row>, dbKey: string): (rs: seq<Row>)
    ensures forall row :: row in rs <==> row in rows && row.entryKey == dbKey
  {
    if rows == [] then []
    else (if rows[0].entryKey == dbKey then [rows[0]] else []) + RowsOf(rows[1..], dbKey)
  }

  /** DELETE FROM tag WHERE entry_key = ?: the other rows, in table order. */
  function Without(rows: seq<Row>, dbKey: string): (rs: seq<Row>)
    ensures forall row :: row in rs <==> row in rows && row.entryKey != dbKey
    ensures NoRepeats(rows) ==> NoRepeats(rs)
  {
    if rows == [] then []
    else
      var rest := Without(rows[1..], dbKey);
      assert NoRepeats(rows) ==> NoRepeats(rows[1..]) && rows[0] !in rows[1..];
      if rows[0].entryKey != dbKey then [rows[0]] + rest else rest
  }

  /** The rows after set_tags commits: the key's old rows deleted, then one row per tag appended. */
  function Retagged(rows: seq<Row>, dbKey: string, tags: seq<string>): seq<Row>
  {
    Without(rows, dbKey) + RowsFor(tags, dbKey)
  }

  /** SELECT ... WHERE tag IN (...): the rows carrying any of the tags, in table order. */
  function Matching(rows: seq<Row>, tags: seq<string>): (rs: seq<Row>)
    ensures |rs| <= |rows|
  {
    if rows == [] then []
    else (if rows[0].tag in tags then [rows[0]] else []) + Matching(rows[1..], tags)
  }

  lemma {:induction false} RowsOfAppend(a: seq<Row>, b: seq<Row>, dbKey: string)
    ensures RowsOf(a + b, dbKey) == RowsOf(a, dbKey) + RowsOf(b, dbKey)
  {
    if a == [] {
      assert a + b == b;
    } else {
      assert (a + b)[1..] == a[1..] + b;
      RowsOfAppend(a[1..], b, dbKey);
    }
  }

  lemma {:induction false} RowsOfWithout(rows: seq<Row>, k: string, other: string)
    ensures RowsOf(Without(rows, k), k) == []
    ensures other != k ==> RowsOf(Without(rows, k), other) == RowsOf(rows, other)
  {
    if rows != [] {
      RowsOfWithout(rows[1..], k, other);
      if rows[0].entryKey != k {
        RowsOfAppend([rows[0]], Without(rows[1..], k), k);
        RowsOfAppend([rows[0]], Without(rows[1..], k), other);
      }
    }
  }

  lemma {:induction false} RowsOfRowsFor(tags: seq<string>, k: string, other: string)
    ensures RowsOf(RowsFor(tags, k), k) == RowsFor(tags, k)
    ensures other != k ==> RowsOf(RowsFor(tags, k), other) == []
  {
    if tags != [] {
      RowsOfRowsFor(tags[1..], k, other);
      RowsOfAppend([Row(tags[0], k)], RowsFor(tags[1..], k), k);
      RowsOfAppend([Row(tags[0], k)], RowsFor(tags[1..], k), other);
    }
  }

  /**
   * What set_tags commits: the key's rows become exactly its tags in the given order, and
   * every other key keeps exactly the rows it had.
   */
  lemma SetTagsRows(rows: seq<Row>, tags: seq<string>, k: string, other: string)
    ensures RowsOf(Retagged(rows, k, tags), k) == RowsFor(tags, k)
    ensures other != k ==> RowsOf(Retagged(rows, k, tags), other) == RowsOf(rows, other)
  {
    RowsOfAppend(Without(rows, k), RowsFor(tags, k), k);
    RowsOfAppend(Without(rows, k), RowsFor(tags, k), other);
    RowsOfWithout(rows, k, other);
    RowsOfRowsFor(tags, k, other);
  }

  /** parse_from_str with KEY_DB_FORMAT, the instant taken in UTC. */
  function DecodeKey(text: string): Option<EntryKey>
  {
    match ParseFromStr(KeyDbFormat, text)
    case None => None
    case Some(date) => Some(EntryKey(date))
  }

  /** Reading stored keys back: the first key that does not parse fails the whole search. */
  function DecodeKeys(rows: seq<Row>): (r: Result<seq<EntryKey>, TagIndexError>)
    ensures r.Ok? ==> |r.value| == |rows|
    ensures r.Err? ==> r.error == IndexFormatError
  {
    if rows == [] then Ok([])
    else match DecodeKey(rows[0].entryKey)
      case None => Err(IndexFormatError)
      case Some(key) =>
        match DecodeKeys(rows[1..])
        case Err(e) => Err(e)
        case Ok(keys) => Ok([key] + keys)
  }

  /** The search's rows: exactly those carrying one of the tags, in table order. */
  lemma {:induction false} MatchingMembers(rows: seq<Row>, tags: seq<string>, row: Row)
    ensures row in Matching(rows, tags) <==> row in rows && row.tag in tags
  {
    if rows != [] {
      MatchingMembers(rows[1..], tags, row);
      assert rows == [rows[0]] + rows[1..];
    }
  }

  /** Decoding succeeds exactly when every stored key parses, and keeps the keys in row order. */
  lemma {:induction false} DecodeKeysMeaning(rows: seq<Row>)
    ensures DecodeKeys(rows).Ok? <==> forall i :: 0 <= i < |rows| ==> DecodeKey(rows[i].entryKey).Some?
    ensures DecodeKeys(rows).Ok? ==>
      forall i :: 0 <= i < |rows| ==> DecodeKey(rows[i].entryKey) == Some(DecodeKeys(rows).value[i])
  {
    DecodeKeysOk(rows);
    DecodeKeysValues(rows);
  }

  lemma {:induction false} DecodeKeysOk(rows: seq<Row>)
    ensures DecodeKeys(rows).Ok? <==> forall i :: 0 <= i < |rows| ==> DecodeKey(rows[i].entryKey).Some?
  {
    if rows != [] {
      var tail := rows[1..];
      DecodeKeysOk(tail);
      DecodeKeysCons(rows);
      assert forall i :: 1 <= i < |rows| ==> rows[i] == tail[i - 1];
      if !DecodeKeys(rows).Ok? && DecodeKey(rows[0].entryKey).Some? {
        var j :| 0 <= j < |tail| && DecodeKey(tail[j].entryKey).None?;
        assert rows[j + 1] == tail[j];
      }
    }
  }

  lemma DecodeKeysValues(rows: seq<Row>)
    ensures DecodeKeys(rows).Ok? ==>
      forall i :: 0 <= i < |rows| ==> DecodeKey(rows[i].entryKey) == Some(DecodeKeys(rows).value[i])
  {
    if DecodeKeys(rows).Ok? {
      forall i | 0 <= i < |rows|
        ensures DecodeKey(rows[i].entryKey) == Some(DecodeKeys(rows).value[i])
      {
        DecodeKeyAt(rows, i);
      }
    }
  }

  /** The key decoded at position i is the one its row's text parses to. */
  lemma {:induction false} DecodeKeyAt(rows: seq<Row>, i: nat)
    requires i < |rows| && DecodeKeys(rows).Ok?
    ensures DecodeKey(rows[i].entryKey) == Some(DecodeKeys(rows).value[i])
    decreases i
  {
    DecodeKeysCons(rows);
    if i > 0 {
      var tail := rows[1..];
      DecodeKeyAt(tail, i - 1);
      assert rows[i] == tail[i - 1];
    }
  }

  /** Decoding a non-empty table: its head key in front of the decoded tail, or the first failure. */
  lemma DecodeKeysCons(rows: seq<Row>)
    requires rows != []
    ensures DecodeKey(rows[0].entryKey).None? ==> DecodeKeys(rows) == Err(IndexFormatError)
    ensures DecodeKeys(rows[1..]).Err? ==> DecodeKeys(rows).Err?
    ensures DecodeKey(rows[0].entryKey).Some? && DecodeKeys(rows[1..]).Ok? ==>
      DecodeKeys(rows) == Ok([DecodeKey(rows[0].entryKey).value] + DecodeKeys(rows[1..]).value)
  {
  }

  /** One row of the search loop: skipped, decoded, or the error that ends the search. */
  lemma SearchStep(rows: seq<Row>, k: nat, tags: seq<string>, keys: seq<EntryKey>)
    requires k < |rows| && DecodeKeys(Matching(rows[..k], tags)) == Ok(keys)
    ensures rows[k].tag !in tags ==> DecodeKeys(Matching(rows[..k + 1], tags)) == Ok(keys)
    ensures rows[k].tag in tags && DecodeKey(rows[k].entryKey).Some? ==>
      DecodeKeys(Matching(rows[..k + 1], tags)) == Ok(keys + [DecodeKey(rows[k].entryKey).value])
    ensures rows[k].tag in tags && DecodeKey(rows[k].entryKey).None? ==> DecodeKeys(Matching(rows, tags)).Err?
  {
    var row := rows[k];
    var front := Matching(rows[..k], tags);
    var one := Matching([row], tags);
    assert rows[..k + 1] == rows[..k] + [row];
    MatchingAppend(rows[..k], [row], tags);
    assert Matching(rows[..k + 1], tags) == front + one;
    MatchingSingle(row, tags);
    DecodeAppend(front, one);
    if row.tag !in tags {
      assert front + one == front;
    } else {
      DecodeSingle(row);
      var d := DecodeKey(row.entryKey);
      if d.None? {
        assert DecodeKeys(front + one).Err?;
        SearchFails(rows, k + 1, tags);
      } else {
        assert DecodeKeys(one) == Ok([d.value]);
        assert DecodeKeys(front + one) == Ok(keys + [d.value]);
      }
    }
  }

  lemma MatchingSingle(row: Row, tags: seq<string>)
    ensures Matching([row], tags) == if row.tag in tags then [row] else []
  {
    var rows := [row];
    assert rows[0] == row && rows[1..] == [];
    assert Matching(rows[1..], tags) == [];
  }

  lemma DecodeSingle(row: Row)
    ensures DecodeKeys([row]) == if DecodeKey(row.entryKey).Some? then Ok([DecodeKey(row.entryKey).value]) else Err(IndexFormatError)
  {
    var rows := [row];
    assert rows[0] == row && rows[1..] == [];
    assert DecodeKeys(rows[1..]) == Ok([]);
    if DecodeKey(row.entryKey).Some? {
      var key := DecodeKey(row.entryKey).value;
      assert DecodeKeys(rows) == Ok([key] + []);
      assert [key] + [] == [key];
    }
  }

  lemma SearchFails(rows: seq<Row>, k: nat, tags: seq<string>)
    requires k <= |rows| && DecodeKeys(Matching(rows[..k], tags)).Err?
    ensures DecodeKeys(Matching(rows, tags)).Err?
  {
    assert rows == rows[..k] + rows[k..];
    MatchingAppend(rows[..k], rows[k..], tags);
    DecodeAppend(Matching(rows[..k], tags), Matching(rows[k..], tags));
  }

  /** Decoding distributes over concatenated row lists. */
  lemma {:induction false} DecodeAppend(a: seq<Row>, b: seq<Row>)
    ensures DecodeKeys(a + b).Ok? <==> DecodeKeys(a).Ok? && DecodeKeys(b).Ok?
    ensures DecodeKeys(a + b).Ok? ==> DecodeKeys(a + b).value == DecodeKeys(a).value + DecodeKeys(b).value
  {
    if a == [] {
      assert a + b == b;
    } else {
      assert (a + b)[0] == a[0] && (a + b)[1..] == a[1..] + b;
      DecodeAppend(a[1..], b);
      if DecodeKeys(a + b).Ok? {
        assert DecodeKeys(a + b).value == [DecodeKey(a[0].entryKey).value] + DecodeKeys(a[1..] + b).value;
      }
    }
  }

  /** Every stored key reads back. */
  predicate WellKeyed(rows: seq<Row>)
  {
    forall row :: row in rows ==> DecodeKey(row.entryKey).Some?
  }

  /** A key stored by set_tags reads back as the same key, to the minute. */
  lemma StoredKeyDecodes(key: EntryKey)
    requires Valid(key.date) && 0 <= key.date.year <= 9999
    ensures DecodeKey(EntryKeyToDbKey(key)) == Some(EntryKey(key.date.(second := 0)))
  {
    DbKeyRoundTrip(key);
  }

  /**
   * search_tags over rows whose keys read back: a key is found once per row carrying any of
   * the tags, so the result is the union of the tags' keys, not their intersection.
   */
  lemma SearchMeaning(rows: seq<Row>, tags: seq<string>)
    requires WellKeyed(rows)
    ensures DecodeKeys(Matching(rows, tags)).Ok?
    ensures |DecodeKeys(Matching(rows, tags)).value| == |Matching(rows, tags)|
    ensures forall key :: key in DecodeKeys(Matching(rows, tags)).value <==>
      exists row :: row in rows && row.tag in tags && DecodeKey(row.entryKey) == Some(key)
  {
    MatchingWellKeyed(rows, tags);
    var ms := Matching(rows, tags);
    DecodeKeysMeaning(ms);
    forall key
      ensures key in DecodeKeys(ms).value <==> exists row :: row in rows && row.tag in tags && DecodeKey(row.entryKey) == Some(key)
    {
      if key in DecodeKeys(ms).value {
        SearchKeyHasRow(rows, tags, key);
      }
      if exists row :: row in rows && row.tag in tags && DecodeKey(row.entryKey) == Some(key) {
        var row :| row in rows && row.tag in tags && DecodeKey(row.entryKey) == Some(key);
        SearchRowHasKey(rows, tags, row);
      }
    }
  }

  lemma MatchingWellKeyed(rows: seq<Row>, tags: seq<string>)
    requires WellKeyed(rows)
    ensures WellKeyed(Matching(rows, tags))
  {
    forall row | row in Matching(rows, tags)
      ensures DecodeKey(row.entryKey).Some?
    {
      MatchingMembers(rows, tags, row);
    }
  }

  lemma SearchKeyHasRow(rows: seq<Row>, tags: seq<string>, key: EntryKey)
    requires DecodeKeys(Matching(rows, tags)).Ok? && key in DecodeKeys(Matching(rows, tags)).value
    ensures exists row :: row in rows && row.tag in tags && DecodeKey(row.entryKey) == Some(key)
  {
    var ms := Matching(rows, tags);
    var keys := DecodeKeys(ms).value;
    DecodeKeysMeaning(ms);
    var i :| 0 <= i < |keys| && keys[i] == key;
    assert DecodeKey(ms[i].entryKey) == Some(key);
    MatchingMembers(rows, tags, ms[i]);
  }

  lemma SearchRowHasKey(rows: seq<Row>, tags: seq<string>, row: Row)
    requires DecodeKeys(Matching(rows, tags)).Ok? && row in rows && row.tag in tags
    ensures DecodeKey(row.entryKey).Some? && DecodeKey(row.entryKey).value in DecodeKeys(Matching(rows, tags)).value
  {
    var ms := Matching(rows, tags);
    MatchingMembers(rows, tags, row);
    DecodeKeysMeaning(ms);
    var i :| 0 <= i < |ms| && ms[i] == row;
    assert DecodeKeys(ms).value[i] == DecodeKey(row.entryKey).value;
  }

  /**
   * search_tags after set_tags: the rows still read back, and a search for tags sharing any
   * tag with the ones set finds the key.
   */
  lemma SetThenSearch(rows: seq<Row>, key: EntryKey, tags: seq<string>, query: seq<string>, t: string)
    requires Valid(key.date) && 0 <= key.date.year <= 9999 && WellKeyed(rows)
    requires t in tags && t in query
    ensures WellKeyed(Retagged(rows, EntryKeyToDbKey(key), tags))
    ensures DecodeKeys(Matching(Retagged(rows, EntryKeyToDbKey(key), tags), query)).Ok?
    ensures EntryKey(key.date.(second := 0)) in DecodeKeys(Matching(Retagged(rows, EntryKeyToDbKey(key), tags), query)).value
  {
    var dbKey := EntryKeyToDbKey(key);
    var after := Retagged(rows, dbKey, tags);
    StoredKeyDecodes(key);
    forall row | row in after
      ensures DecodeKey(row.entryKey).Some?
    {
      if row !in Without(rows, dbKey) {
        var i :| 0 <= i < |tags| && RowsFor(tags, dbKey)[i] == row;
      }
    }
    RowsForHas(tags, dbKey, t);
    MatchingWellKeyed(after, query);
    DecodeKeysMeaning(Matching(after, query));
    SearchRowHasKey(after, query, Row(t, dbKey));
  }

  /** Two search results with the same keys, each as often, in any order; or the same error. */
  predicate SameAnswer(a: Result<seq<EntryKey>, TagIndexError>, b: Result<seq<EntryKey>, TagIndexError>)
  {
    (a.Ok? <==> b.Ok?) && (a.Ok? ==> multiset(a.value) == multiset(b.value)) && (a.Err? ==> a == b)
  }

  /** Every search for one or more tags gives the same answer over either table. */
  ghost predicate SearchesAlike(a: seq<Row>, b: seq<Row>)
  {
    forall tags :: tags != [] ==> SameAnswer(DecodeKeys(Matching(a, tags)), DecodeKeys(Matching(b, tags)))
  }

  /** A row is selected as often as it is stored, when its tag is searched. */
  lemma {:induction false} MatchingCount(rows: seq<Row>, tags: seq<string>, row: Row)
    ensures multiset(Matching(rows, tags))[row] == if row.tag in tags then multiset(rows)[row] else 0
  {
    if rows != [] {
      MatchingCount(rows[1..], tags, row);
      assert rows == [rows[0]] + rows[1..];
    }
  }

  /** The same rows in another order select the same rows, in another order. */
  lemma MatchingPermutation(a: seq<Row>, b: seq<Row>, tags: seq<string>)
    requires multiset(a) == multiset(b)
    ensures multiset(Matching(a, tags)) == multiset(Matching(b, tags))
  {
    forall row
      ensures multiset(Matching(a, tags))[row] == multiset(Matching(b, tags))[row]
    {
      MatchingCount(a, tags, row);
      MatchingCount(b, tags, row);
    }
  }

  /** The same rows in another order decode to the same keys in another order, or both fail. */
  lemma {:induction false} DecodePermutation(a: seq<Row>, b: seq<Row>)
    requires multiset(a) == multiset(b)
    ensures DecodeKeys(a).Ok? <==> DecodeKeys(b).Ok?
    ensures DecodeKeys(a).Ok? ==> multiset(DecodeKeys(a).value) == multiset(DecodeKeys(b).value)
    decreases |a|
  {
    if a == [] {
      assert |multiset(b)| == 0;
    } else {
      var x := a[0];
      assert x in multiset(b);
      var i :| 0 <= i < |b| && b[i] == x;
      var rest := RemovedAt(b, i);
      assert a == [x] + a[1..];
      assert multiset(a[1..]) == multiset(rest) by {
        forall row
          ensures multiset(a[1..])[row] == multiset(rest)[row]
        {
          assert (multiset{x} + multiset(a[1..]))[row] == (multiset{x} + multiset(rest))[row];
        }
      }
      DecodePermutation(a[1..], rest);
      DecodeAppend([x], a[1..]);
      DecodeAppend([x], rest);
      DecodeMoved(b, i);
    }
  }

  /** The rows with the one at i taken out. */
  function RemovedAt(rows: seq<Row>, i: nat): (rs: seq<Row>)
    requires i < |rows|
    ensures multiset(rows) == multiset{rows[i]} + multiset(rs)
  {
    assert rows == rows[..i] + ([rows[i]] + rows[i + 1..]);
    rows[..i] + rows[i + 1..]
  }

  /** Decoding with the row at i moved to the front: the same keys, or the same failure. */
  lemma DecodeMoved(rows: seq<Row>, i: nat)
    requires i < |rows|
    ensures DecodeKeys(rows).Ok? <==> DecodeKeys([rows[i]] + RemovedAt(rows, i)).Ok?
    ensures DecodeKeys(rows).Ok? ==>
      multiset(DecodeKeys(rows).value) == multiset(DecodeKeys([rows[i]] + RemovedAt(rows, i)).value)
  {
    var x, front, back := rows[i], rows[..i], rows[i + 1..];
    var moved := [x] + RemovedAt(rows, i);
    MovedShape(rows, i, moved);
    DecodeSwap(rows, moved, front, x, back);
  }

  lemma MovedShape(rows: seq<Row>, i: nat, moved: seq<Row>)
    requires i < |rows| && moved == [rows[i]] + RemovedAt(rows, i)
    ensures rows == rows[..i] + ([rows[i]] + rows[i + 1..])
    ensures moved == [rows[i]] + (rows[..i] + rows[i + 1..])
  {
    assert rows == rows[..i] + ([rows[i]] + rows[i + 1..]);
  }

  lemma DecodeSwap(rows: seq<Row>, moved: seq<Row>, front: seq<Row>, x: Row, back: seq<Row>)
    requires rows == front + ([x] + back) && moved == [x] + (front + back)
    ensures DecodeKeys(rows).Ok? <==> DecodeKeys(moved).Ok?
    ensures DecodeKeys(rows).Ok? ==> multiset(DecodeKeys(rows).value) == multiset(DecodeKeys(moved).value)
  {
    DecodeAppend(front, [x] + back);
    DecodeAppend([x], back);
    DecodeAppend(front, back);
    DecodeAppend([x], front + back);
  }

  /** search_tags reads the table as a multiset: reordering the rows reorders the keys it finds. */
  lemma SearchPermutation(a: seq<Row>, b: seq<Row>)
    requires multiset(a) == multiset(b)
    ensures SearchesAlike(a, b)
  {
    forall tags | tags != []
      ensures SameAnswer(DecodeKeys(Matching(a, tags)), DecodeKeys(Matching(b, tags)))
    {
      MatchingPermutation(a, b, tags);
      DecodePermutation(Matching(a, tags), Matching(b, tags));
    }
  }

  /** A table without repeats holds each row at most once. */
  lemma {:induction false} NoRepeatsCount(rows: seq<Row>, row: Row)
    requires NoRepeats(rows)
    ensures multiset(rows)[row] == if row in rows then 1 else 0
  {
    if rows != [] {
      assert rows == [rows[0]] + rows[1..];
      assert rows[0] !in rows[1..] by {
        forall i | 0 <= i < |rows[1..]|
          ensures rows[1..][i] != rows[0]
        {
          assert rows[1..][i] == rows[i + 1];
        }
      }
      NoRepeatsCount(rows[1..], row);
    }
  }

  /** Two tables under the unique constraint with the same rows answer every search alike. */
  lemma SameRowsSearchAlike(a: seq<Row>, b: seq<Row>)
    requires NoRepeats(a) && NoRepeats(b)
    requires forall row :: row in a <==> row in b
    ensures SearchesAlike(a, b)
  {
    forall row
      ensures multiset(a)[row] == multiset(b)[row]
    {
      NoRepeatsCount(a, row);
      NoRepeatsCount(b, row);
    }
    assert multiset(a) == multiset(b);
    SearchPermutation(a, b);
  }

  /**
   * Two entries indexed one after the other, the first with the tags "hello world", "tags" and
   * "with", the second with "more" and "tags": "tags" finds both keys in that order, "hello
   * world" only the first, and "with" or "more" both.
   */
  lemma SearchAfterTwoEntries(key1: EntryKey, key2: EntryKey)
    requires Valid(key1.date) && 0 <= key1.date.year <= 9999 && key1.date.second == 0
    requires Valid(key2.date) && 0 <= key2.date.year <= 9999 && key2.date.second == 0
    requires key1 != key2
    ensures var rows := Retagged(Retagged([], EntryKeyToDbKey(key1), ["hello world", "tags", "with"]),
                                 EntryKeyToDbKey(key2), ["more", "tags"]);
      DecodeKeys(Matching(rows, ["tags"])) == Ok([key1, key2])
      && DecodeKeys(Matching(rows, ["hello world"])) == Ok([key1])
      && DecodeKeys(Matching(rows, ["with", "more"])) == Ok([key1, key2])
  {
    DbKeyInjective(key1, key2);
    StoredKeyDecodes(key1);
    StoredKeyDecodes(key2);
    assert key1.date.(second := 0) == key1.date && key2.date.(second := 0) == key2.date;
    SearchTwoKeyed(EntryKeyToDbKey(key1), EntryKeyToDbKey(key2), key1, key2);
  }

  /** The example over any two distinct stored key texts that read back as the keys. */
  lemma SearchTwoKeyed(d1: string, d2: string, key1: EntryKey, key2: EntryKey)
    requires d1 != d2 && DecodeKey(d1) == Some(key1) && DecodeKey(d2) == Some(key2)
    ensures var rows := Retagged(Retagged([], d1, ["hello world", "tags", "with"]), d2, ["more", "tags"]);
      DecodeKeys(Matching(rows, ["tags"])) == Ok([key1, key2])
      && DecodeKeys(Matching(rows, ["hello world"])) == Ok([key1])
      && DecodeKeys(Matching(rows, ["with", "more"])) == Ok([key1, key2])
  {
    var first := [Row("hello world", d1), Row("tags", d1), Row("with", d1)];
    var second := [Row("more", d2), Row("tags", d2)];
    TwoRetagged(d1, d2);
    MatchingRows(first, second, d1, d2);
    DecodeSingle(Row("tags", d1));
    DecodeSingle(Row("tags", d2));
    DecodeSingle(Row("with", d1));
    DecodeSingle(Row("more", d2));
    DecodeSingle(Row("hello world", d1));
    DecodeTwo(Row("tags", d1), Row("tags", d2), key1, key2);
    DecodeTwo(Row("with", d1), Row("more", d2), key1, key2);
  }

  /** The example's table: the first key's rows, then the second's. */
  lemma TwoRetagged(d1: string, d2: string)
    requires d1 != d2
    ensures Retagged(Retagged([], d1, ["hello world", "tags", "with"]), d2, ["more", "tags"])
      == [Row("hello world", d1), Row("tags", d1), Row("with", d1)] + [Row("more", d2), Row("tags", d2)]
  {
    var first := [Row("hello world", d1), Row("tags", d1), Row("with", d1)];
    var second := [Row("more", d2), Row("tags", d2)];
    assert RowsFor(["hello world", "tags", "with"], d1) == first;
    assert RowsFor(["more", "tags"], d2) == second;
    assert Without([], d1) == [];
    WithoutOthers(first, d2);
    assert Retagged([], d1, ["hello world", "tags", "with"]) == [] + first == first;
    assert Retagged(first, d2, ["more", "tags"]) == first + second;
  }

  /** Deleting a key no row carries keeps every row. */
  lemma {:induction false} WithoutOthers(rows: seq<Row>, dbKey: string)
    requires forall i :: 0 <= i < |rows| ==> rows[i].entryKey != dbKey
    ensures Without(rows, dbKey) == rows
  {
    if rows != [] {
      WithoutOthers(rows[1..], dbKey);
      assert rows == [rows[0]] + rows[1..];
    }
  }

  /** The rows the example's searches select. */
  lemma MatchingRows(first: seq<Row>, second: seq<Row>, d1: string, d2: string)
    requires first == [Row("hello world", d1), Row("tags", d1), Row("with", d1)]
    requires second == [Row("more", d2), Row("tags", d2)]
    ensures Matching(first + second, ["tags"]) == [Row("tags", d1), Row("tags", d2)]
    ensures Matching(first + second, ["with", "more"]) == [Row("with", d1), Row("more", d2)]
    ensures Matching(first + second, ["hello world"]) == [Row("hello world", d1)]
  {
    var q1, q2, q3 := ["tags"], ["with", "more"], ["hello world"];
    assert "hello world" !in q1 && "with" !in q1 && "more" !in q1;
    assert "hello world" !in q2 && "tags" !in q2;
    assert "tags" !in q3 && "with" !in q3 && "more" !in q3;
    MatchingFiveRows(first + second, q1);
    MatchingFiveRows(first + second, q2);
    MatchingFiveRows(first + second, q3);
  }

  /** Matching over five rows, one row at a time. */
  lemma MatchingFiveRows(rows: seq<Row>, tags: seq<string>)
    requires |rows| == 5
    ensures Matching(rows, tags) == Matching([rows[0]], tags) + Matching([rows[1]], tags)
      + Matching([rows[2]], tags) + Matching([rows[3]], tags) + Matching([rows[4]], tags)
  {
    assert rows == [rows[0]] + [rows[1]] + [rows[2]] + [rows[3]] + [rows[4]];
    MatchingAppend([rows[0]] + [rows[1]] + [rows[2]] + [rows[3]], [rows[4]], tags);
    MatchingAppend([rows[0]] + [rows[1]] + [rows[2]], [rows[3]], tags);
    MatchingAppend([rows[0]] + [rows[1]], [rows[2]], tags);
    MatchingAppend([rows[0]], [rows[1]], tags);
    MatchingSingle(rows[0], tags);
    MatchingSingle(rows[1], tags);
    MatchingSingle(rows[2], tags);
    MatchingSingle(rows[3], tags);
    MatchingSingle(rows[4], tags);
  }

  lemma DecodeTwo(a: Row, b: Row, ka: EntryKey, kb: EntryKey)
    requires DecodeKeys([a]) == Ok([ka]) && DecodeKeys([b]) == Ok([kb])
    ensures DecodeKeys([a, b]) == Ok([ka, kb])
  {
    assert [a, b] == [a] + [b];
    DecodeAppend([a], [b]);
    assert [ka] + [kb] == [ka, kb];
  }

  /** The index of one diary, over its SQLite connection. */
  class TagIndex {
    const root: FileRepo.Path
    /** The tag table as this connection sees it (its own uncommitted changes included); None before it is created. */
    var table: Option<seq<Row>>
    /** A transaction begun on the connection and not yet committed. */
    var inTransaction: bool

    /** UNIQUE(tag, entry_key). */
    predicate Valid()
      reads this
    {
      table.Some? ==> NoRepeats(table.value)
    }

    constructor (root: FileRepo.Path, stored: Option<seq<Row>>)
      ensures this.root == root && table == stored && !inTransaction
    {
      this.root := root;
      table := stored;
      inTransaction := false;
    }

    /**
     * TagIndex::new: refuses a root that exists and is not a directory, creates a missing one,
     * and opens root/index.sqlite. stored is the tag table that file already holds, if any.
     */
    static method New(disk: FileRepo.Disk, root: FileRepo.Path, stored: Option<seq<Row>>) returns (r: Result<TagIndex, TagIndexError>)
      requires stored.Some? ==> NoRepeats(stored.value)
      modifies disk
      ensures disk.files == old(disk.files)
      ensures r == Err(BadPathError(root)) <==> old(disk.Exists(root)) && root !in old(disk.dirs)
      ensures r.Ok? ==> fresh(r.value) && r.value.root == root && r.value.table == stored
      ensures r.Ok? ==> !r.value.inTransaction && r.value.Valid() && root in disk.dirs
      ensures r.Ok? <==> ((old(disk.Exists(root)) ==> root in old(disk.dirs)) && root in disk.dirs
                          && root + [IndexFileName] !in disk.dirs)
      ensures root in old(disk.dirs) ==> disk.dirs == old(disk.dirs) && (r.Err? ==> r == Err(DBError))
      ensures !old(disk.Exists(root)) ==> (root in disk.dirs <==> !old(disk.FileAbove(root)))
      ensures !old(disk.Exists(root)) && !old(disk.FileAbove(root)) ==>
        (r.Ok? <==> root + [IndexFileName] !in old(disk.dirs))
      ensures old(disk.Valid()) ==> disk.Valid()
    {
      var check := disk.PrepareRoot(root);
      assert root + [IndexFileName] !in FileRepo.Prefixes(root) by {
        forall q | q in FileRepo.Prefixes(root)
          ensures |q| <= |root|
        {
          var i :| 0 <= i <= |root| && q == root[..i];
        }
      }
      if check.RootIsFile? {
        r := Err(BadPathError(root));
      } else if check.RootIoError? {
        r := Err(IoError(check.kind));
      } else if root + [IndexFileName] in disk.dirs {
        r := Err(DBError);
      } else {
        var index := new TagIndex(root, stored);
        r := Ok(index);
      }
    }

    /** initdb: CREATE TABLE IF NOT EXISTS, so a second call changes nothing. */
    method InitDb() returns (r: Result<(), TagIndexError>)
      modifies this
      ensures r.Ok?
      ensures table == (if old(table).None? then Some([]) else old(table))
      ensures old(table).Some? ==> table == old(table)
      ensures inTransaction == old(inTransaction)
      ensures old(Valid()) ==> Valid()
    {
      if table.None? {
        table := Some([]);
      }
      r := Ok(());
    }

    /**
     * set_tags: BEGIN, delete the key's rows, insert one row per tag, COMMIT. A tag given twice
     * violates the unique constraint; the error returns with the transaction still open, having
     * deleted the old rows and inserted the tags before the repeat. Without a table the DELETE
     * fails just after BEGIN; with a transaction already open, BEGIN itself fails.
     */
    method SetTags(key: EntryKey, tags: seq<string>) returns (r: Result<(), TagIndexError>)
      requires Chrono.Valid(key.date) && Valid()
      modifies this
      ensures Valid()
      ensures r.Ok? <==> !old(inTransaction) && old(table).Some? && NoRepeats(tags)
      ensures r.Ok? ==> !inTransaction && table == Some(Retagged(old(table).value, EntryKeyToDbKey(key), tags))
      ensures r.Err? ==> r.error == DBError && inTransaction
      ensures old(inTransaction) || old(table).None? ==> table == old(table)
      ensures r.Err? && !old(inTransaction) && old(table).Some? ==>
        exists j :: 0 <= j < |tags| && tags[j] in tags[..j]
          && table == Some(Retagged(old(table).value, EntryKeyToDbKey(key), tags[..j]))
    {
      var dbKey := EntryKeyToDbKey(key);
      if inTransaction {
        return Err(DBError);
      }
      inTransaction := true;
      if table.None? {
        return Err(DBError);
      }
      var rows := Without(table.value, dbKey);
      var base := rows;
      table := Some(rows);
      for k := 0 to |tags|
        invariant rows == base + RowsFor(tags[..k], dbKey) && table == Some(rows)
        invariant NoRepeats(rows) && NoRepeats(tags[..k])
        invariant inTransaction
      {
        var row := Row(tags[k], dbKey);
        RowsForHas(tags[..k], dbKey, tags[k]);
        assert row !in base;
        if row in rows {
          var i :| 0 <= i < k && tags[..k][i] == tags[k];
          assert tags[i] == tags[k];
          return Err(DBError);
        }
        rows := rows + [row];
        table := Some(rows);
        assert tags[..k + 1] == tags[..k] + [tags[k]];
        RowsForSnoc(tags[..k], tags[k], dbKey);
      }
      assert tags[..|tags|] == tags;
      inTransaction := false;
      r := Ok(());
    }

    /** The result search_tags returns for the connection's current rows. */
    function Search(tags: seq<string>): (r: Result<seq<EntryKey>, TagIndexError>)
      reads this
    {
      if tags == [] then Ok([])
      else if table.None? then Err(DBError)
      else DecodeKeys(Matching(table.value, tags))
    }

    /**
     * search_tags: no tags, no keys; otherwise the key of every row carrying any of the tags,
     * in table order, a key once per matching row. A stored key that does not parse is an
     * IndexFormatError.
     */
    method SearchTags(tags: seq<string>) returns (r: Result<seq<EntryKey>, TagIndexError>)
      ensures r == Search(tags)
    {
      if tags == [] {
        return Ok([]);
      }
      if table.None? {
        return Err(DBError);
      }
      var rows := table.value;
      // The query's IN list: one placeholder per tag, each bound to that tag.
      var placeholders := MakePlaceholders(|tags|);
      PlaceholderCount(|tags|);
      assert |set i | 0 <= i < |placeholders| && placeholders[i] == '?'| == |tags|;
      var keys: seq<EntryKey> := [];
      for k := 0 to |rows|
        invariant DecodeKeys(Matching(rows[..k], tags)) == Ok(keys)
      {
        SearchStep(rows, k, tags, keys);
        if rows[k].tag in tags {
          var parsed := DecodeKey(rows[k].entryKey);
          if parsed.None? {
            return Err(IndexFormatError);
          }
          keys := keys + [parsed.value];
        }
      }
      assert rows[..|rows|] == rows;
      r := Ok(keys);
    }

    /**
     * recreate_index (not defined in src/index/tags.rs): assumed to make the rows exactly the
     * given pairs' tags, pair by pair, with a repeated row rejected by the unique constraint.
     */
    method RecreateIndex(pairs: seq<(EntryKey, seq<string>)>) returns (r: Result<(), TagIndexError>)
      requires ValidPairs(pairs)
      requires Valid()
      modifies this
      ensures Valid()
      ensures r.Ok? <==> NoRepeats(PairRows(pairs))
      ensures r.Ok? ==> table == Some(PairRows(pairs))
      ensures r.Err? ==> table == old(table) && r.error == DBError
      ensures inTransaction == old(inTransaction)
    {
      var rows := PairRows(pairs);
      if !NoRepeats(rows) {
        return Err(DBError);
      }
      table := Some(rows);
      r := Ok(());
    }
  }

  /** Every pair's key is a valid date-time. */
  predicate ValidPairs(pairs: seq<(EntryKey, seq<string>)>) {
    forall i :: 0 <= i < |pairs| ==> Valid(pairs[i].0.date)
  }

  /** The rows of every pair, in order. */
  function PairRows(pairs: seq<(EntryKey, seq<string>)>): seq<Row>
    requires ValidPairs(pairs)
  {
    if pairs == [] then [] else RowsFor(pairs[0].1, EntryKeyToDbKey(pairs[0].0)) + PairRows(pairs[1..])
  }

  /**
   * The rows of pairs under distinct keys, each pair's tags without repeats, have no repeats:
   * recreating such an index never meets the unique constraint.
   */
  lemma {:induction false} PairRowsNoRepeats(pairs: seq<(EntryKey, seq<string>)>)
    requires ValidPairs(pairs)
    requires forall i, j :: 0 <= i < j < |pairs| ==> EntryKeyToDbKey(pairs[i].0) != EntryKeyToDbKey(pairs[j].0)
    requires forall i :: 0 <= i < |pairs| ==> NoRepeats(pairs[i].1)
    ensures NoRepeats(PairRows(pairs))
  {
    if pairs != [] {
      var tail := pairs[1..];
      var k := EntryKeyToDbKey(pairs[0].0);
      assert ValidPairs(tail) by {
        forall i | 0 <= i < |tail| ensures Valid(tail[i].0.date) {
          assert tail[i] == pairs[i + 1];
        }
      }
      forall i, j | 0 <= i < j < |tail|
        ensures EntryKeyToDbKey(tail[i].0) != EntryKeyToDbKey(tail[j].0)
      {
        assert tail[i] == pairs[i + 1] && tail[j] == pairs[j + 1];
      }
      forall i | 0 <= i < |tail|
        ensures NoRepeats(tail[i].1)
      {
        assert tail[i] == pairs[i + 1];
      }
      PairRowsNoRepeats(tail);
      var head := RowsFor(pairs[0].1, k);
      forall row | row in PairRows(tail)
        ensures row.entryKey != k
      {
        PairRowsKeys(tail, row);
        var j :| 0 <= j < |tail| && row.entryKey == EntryKeyToDbKey(tail[j].0);
        assert tail[j] == pairs[j + 1];
      }
      NoRepeatsAppend(head, PairRows(tail));
    }
  }

  /** Every row of the pairs is keyed by one of the pairs' keys. */
  lemma {:induction false} PairRowsKeys(pairs: seq<(EntryKey, seq<string>)>, row: Row)
    requires ValidPairs(pairs) && row in PairRows(pairs)
    ensures exists j :: 0 <= j < |pairs| && row.entryKey == EntryKeyToDbKey(pairs[j].0)
  {
    var k := EntryKeyToDbKey(pairs[0].0);
    if row in RowsFor(pairs[0].1, k) {
      var i :| 0 <= i < |pairs[0].1| && RowsFor(pairs[0].1, k)[i] == row;
    } else {
      var tail := pairs[1..];
      assert ValidPairs(tail) by {
        forall i | 0 <= i < |tail| ensures Valid(tail[i].0.date) {
          assert tail[i] == pairs[i + 1];
        }
      }
      PairRowsKeys(tail, row);
      var j :| 0 <= j < |tail| && row.entryKey == EntryKeyToDbKey(tail[j].0);
      assert tail[j] == pairs[j + 1];
    }
  }

  /** Rows of one key without repeated tags, then rows of other keys without repeats, have none. */
  lemma NoRepeatsAppend(head: seq<Row>, rest: seq<Row>)
    requires NoRepeats(head) && NoRepeats(rest)
    requires forall row :: row in rest ==> row !in head
    ensures NoRepeats(head + rest)
  {
    var all := head + rest;
    forall i, j | 0 <= i < j < |all|
      ensures all[i] != all[j]
    {
      if i < |head| && j >= |head| {
        assert all[j] == rest[j - |head|] && all[j] in rest;
        assert all[i] == head[i] && all[i] in head;
      } else if i >= |head| {
        assert all[i] == rest[i - |head|] && all[j] == rest[j - |head|];
      }
    }
  }

  lemma RowsForHas(tags: seq<string>, dbKey: string, t: string)
    ensures Row(t, dbKey) in RowsFor(tags, dbKey) <==> t in tags
  {
    if t in tags {
      var i :| 0 <= i < |tags| && tags[i] == t;
      assert RowsFor(tags, dbKey)[i] == Row(t, dbKey);
    }
  }

  lemma RowsForSnoc(tags: seq<string>, t: string, dbKey: string)
    ensures RowsFor(tags + [t], dbKey) == RowsFor(tags, dbKey) + [Row(t, dbKey)]
  {
  }

  lemma MatchingSnoc(rows: seq<Row>, row: Row, tags: seq<string>)
    ensures Matching(rows + [row], tags) == Matching(rows, tags) + (if row.tag in tags then [row] else [])
  {
    MatchingAppend(rows, [row], tags);
  }

  lemma {:induction false} MatchingAppend(a: seq<Row>, b: seq<Row>, tags: seq<string>)
    ensures Matching(a + b, tags) == Matching(a, tags) + Matching(b, tags)
  {
    if a == [] {
      assert a + b == b;
    } else {
      var head := if a[0].tag in tags then [a[0]] else [];
      assert (a + b)[0] == a[0];
      assert (a + b)[1..] == a[1..] + b;
      assert Matching(a + b, tags) == head + Matching(a[1..] + b, tags);
      MatchingAppend(a[1..], b, tags);
      assert Matching(a, tags) == head + Matching(a[1..], tags);
    }
  }
}
