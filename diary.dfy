/**
 * The diary: entries in the date store, their tags in the tag index. Adding an entry first
 * records its tags, then writes the text; listing returns the keys in date order.
 */
module Diaries {
  import opened Wrappers
  import opened Strings
  import opened Chrono
  import opened EntryKeys
  import opened TagParser
  import FileRepo
  import TagIndexes

  datatype DiaryError =
    | FileRepoError(repoError: FileRepo.FileRepoError)
    | TagIndexError(indexError: TagIndexes.TagIndexError)

  /** What add_entry does when an entry with the same date already exists. */
  datatype MatchingDateBehavior = Overwrite | Append

  /** The key add_entry uses: the given one, or the clock's reading. */
  function ChosenKey(key: Option<EntryKey>, now: DateTime): EntryKey
  {
    if key.Some? then key.value else EntryKey(now)
  }

  /** Entry text as stored: trailing whitespace replaced by one newline. */
  function Normalised(content: string): string
  {
    TrimEnd(content) + "\n"
  }

  /**
   * The text add_entry stores, given what get_text returned for the date before the write:
   * Append puts the new text after the old one with an empty line between; a date without
   * readable text is written as if overwritten.
   */
  function EntryText(previous: Result<string, FileRepo.FileRepoError>, content: string, behavior: MatchingDateBehavior): string
  {
    match behavior
    case Overwrite => Normalised(content)
    case Append =>
      if previous.Ok? then TrimEnd(previous.value) + "\n\n" + Normalised(content) else Normalised(content)
  }

  /** Storing normalised text again changes nothing. */
  lemma NormalisedIdempotent(content: string)
    ensures Normalised(Normalised(content)) == Normalised(content)
  {
    var t := TrimEnd(content);
    var n := t + "\n";
    assert n[..|n| - 1] == t;
    assert IsWhitespace('\n');
    assert TrimEnd(n) == TrimEnd(t);
    TrimEndOfTrimmed(t);
  }

  lemma TrimEndOfTrimmed(t: string)
    requires t == [] || !IsWhitespace(t[|t| - 1])
    ensures TrimEnd(t) == t
  {
  }

  /** Unless text is appended to an older entry, the stored text carries exactly the content's tags. */
  lemma StoredTextTags(previous: Result<string, FileRepo.FileRepoError>, content: string, behavior: MatchingDateBehavior)
    requires behavior == Overwrite || previous.Err?
    ensures Tags(EntryText(previous, content, behavior)) == Tags(content)
  {
    TagsOfNormalised(content);
  }

  /** Appended text keeps the old text, trimmed, in front of the normalised new text. */
  lemma AppendedText(older: string, content: string)
    ensures var r := EntryText(Ok(older), content, Append);
      |r| == |TrimEnd(older)| + 2 + |Normalised(content)|
      && r[..|TrimEnd(older)|] == TrimEnd(older)
      && r[|TrimEnd(older)|..|TrimEnd(older)| + 2] == "\n\n"
      && r[|TrimEnd(older)| + 2..] == Normalised(content)
  {
  }

  /** Strictly sorted tags have no repeats, so inserting them never violates the unique constraint. */
  lemma StrictlySortedNoRepeats(tags: seq<string>)
    requires StrictlySorted(tags)
    ensures TagIndexes.NoRepeats(tags)
  {
    forall i, j | 0 <= i < j < |tags|
      ensures tags[i] != tags[j]
    {
      if tags[i] == tags[j] {
        StrLessIrreflexive(tags[i]);
      }
    }
  }

  /** Dates in order: each no later than the next. */
  predicate Ascending(ds: seq<DateTime>)
  {
    forall i, j :: 0 <= i < j < |ds| ==> NotAfter(ds[i], ds[j])
  }

  lemma NotAfterTransitive(a: DateTime, b: DateTime, c: DateTime)
    requires NotAfter(a, b) && NotAfter(b, c)
    ensures NotAfter(a, c)
  {
    if a != b && b != c {
      BeforeTransitive(a, b, c);
    }
  }

  /** d inserted before the first date it is no later than. */
  function InsertDate(ds: seq<DateTime>, d: DateTime): (r: seq<DateTime>)
    ensures multiset(r) == multiset(ds) + multiset{d}
  {
    if ds == [] || NotAfter(d, ds[0]) then [d] + ds
    else
      assert ds == [ds[0]] + ds[1..];
      [ds[0]] + InsertDate(ds[1..], d)
  }

  lemma {:induction false} InsertDateAscending(ds: seq<DateTime>, d: DateTime)
    requires Ascending(ds)
    ensures Ascending(InsertDate(ds, d))
  {
    var r := InsertDate(ds, d);
    if ds == [] {
    } else if NotAfter(d, ds[0]) {
      forall j | 1 <= j < |r|
        ensures NotAfter(d, r[j])
      {
        assert r[j] == ds[j - 1];
        if j > 1 {
          NotAfterTransitive(d, ds[0], ds[j - 1]);
        }
      }
    } else {
      var rest := InsertDate(ds[1..], d);
      InsertDateAscending(ds[1..], d);
      BeforeTotal(d, ds[0]);
      forall j | 0 <= j < |rest|
        ensures NotAfter(ds[0], rest[j])
      {
        assert rest[j] in multiset(rest);
        if rest[j] != d {
          assert rest[j] in ds[1..];
        }
      }
      assert r == [ds[0]] + rest;
    }
  }

  /** sort_unstable on the listed dates, by instant. */
  method SortDates(ds: seq<DateTime>) returns (sorted: seq<DateTime>)
    ensures Ascending(sorted)
    ensures multiset(sorted) == multiset(ds)
  {
    sorted := [];
    for i := 0 to |ds|
      invariant Ascending(sorted)
      invariant multiset(sorted) == multiset(ds[..i])
    {
      InsertDateAscending(sorted, ds[i]);
      sorted := InsertDate(sorted, ds[i]);
      assert ds[..i + 1] == ds[..i] + [ds[i]];
    }
    assert ds[..|ds|] == ds;
  }

  /** The key of each date, in order; a key occurs as often as its date. */
  function KeysOf(ds: seq<DateTime>): (ks: seq<EntryKey>)
    ensures |ks| == |ds| && forall i :: 0 <= i < |ds| ==> ks[i] == EntryKey(ds[i])
    ensures forall dt :: multiset(ks)[EntryKey(dt)] == multiset(ds)[dt]
  {
    if ds == [] then [] else
      assert ds == [ds[0]] + ds[1..];
      [EntryKey(ds[0])] + KeysOf(ds[1..])
  }

  /** A diary on a disk; the clock is the `now` argument of AddEntry. */
  class Diary {
    const tree: FileRepo.Tree

    constructor (tree: FileRepo.Tree)
      ensures this.tree == tree
    {
      this.tree := tree;
    }

    /** The root is a directory of a well-formed disk. */
    predicate Valid()
      reads tree.disk
    {
      tree.root in tree.disk.dirs && tree.disk.Valid()
    }

    /** open_custom: a diary whose date store is rooted at path. */
    static method OpenCustom(disk: FileRepo.Disk, path: FileRepo.Path) returns (r: Result<Diary, DiaryError>)
      modifies disk
      ensures disk.files == old(disk.files)
      ensures r == Err(FileRepoError(FileRepo.BadPathError(path))) <==> old(disk.Exists(path)) && path !in old(disk.dirs)
      ensures r.Err? ==> r.error.FileRepoError?
      ensures path in old(disk.dirs) ==> r.Ok?
      ensures r.Ok? <==> path in old(disk.dirs) || (!old(disk.Exists(path)) && !old(disk.FileAbove(path)))
      ensures r.Ok? ==> fresh(r.value) && r.value.tree.root == path && r.value.tree.disk == disk
      ensures r.Ok? && old(disk.Valid()) ==> r.value.Valid()
    {
      var tree := FileRepo.Tree.New(disk, path);
      if tree.Err? {
        return Err(FileRepoError(tree.error));
      }
      var diary := new Diary(tree.value);
      r := Ok(diary);
    }

    /**
     * list_keys: the key of every listed date, earliest first; a date is there once for each
     * kept file named after it.
     */
    method ListKeys() returns (keys: seq<EntryKey>)
      ensures forall i, j :: 0 <= i < j < |keys| ==> NotAfter(keys[i].date, keys[j].date)
      ensures forall dt :: multiset(keys)[EntryKey(dt)] == |tree.ListedFiles(dt)|
      ensures forall k :: k in keys <==> tree.Lists(k.date)
      ensures |keys| <= |tree.disk.FilesBelow(tree.root)|
    {
      var dates;
      ghost var visited;
      dates, visited := tree.List();
      var sorted := SortDates(dates);
      keys := KeysOf(sorted);
      assert |sorted| == |dates| by {
        assert |multiset(sorted)| == |multiset(dates)|;
      }
      forall k
        ensures k in keys <==> tree.Lists(k.date)
      {
        assert multiset(keys)[EntryKey(k.date)] == multiset(dates)[k.date];
        tree.ListedFilesOfLists(k.date);
      }
    }

    /** get_text_for_entry: the text of the entry's file; failures are the store's errors. */
    function GetTextForEntry(key: EntryKey): (r: Result<string, DiaryError>)
      requires Chrono.Valid(key.date)
      reads tree.disk
      ensures r.Ok? <==> tree.EntryPath(key.date) in tree.disk.files && tree.disk.files[tree.EntryPath(key.date)].Text?
      ensures r.Ok? ==> r.value == tree.disk.files[tree.EntryPath(key.date)].text
      ensures r.Err? ==> r.error.FileRepoError?
      ensures r.Ok? <==> tree.GetText(key.date).Ok?
      ensures r.Ok? ==> r.value == tree.GetText(key.date).value
    {
      match tree.GetText(key.date)
      case Ok(text) => Ok(text)
      case Err(e) => Err(FileRepoError(e))
    }

    /**
     * save_tags: the text's tags become the key's rows. find_tags yields no repeated tag, so
     * this fails only where set_tags itself cannot start.
     */
    method SaveTags(index: TagIndexes.TagIndex, key: EntryKey, text: string) returns (r: Result<(), DiaryError>)
      requires Chrono.Valid(key.date) && index.Valid()
      modifies index
      ensures index.Valid()
      ensures r.Ok? <==> !old(index.inTransaction) && old(index.table).Some?
      ensures r.Ok? ==> !index.inTransaction
      ensures r.Ok? ==> index.table == Some(TagIndexes.Retagged(old(index.table).value, TagIndexes.EntryKeyToDbKey(key), Tags(text)))
      ensures r.Err? ==> r == Err(TagIndexError(TagIndexes.DBError)) && index.table == old(index.table) && index.inTransaction
    {
      var tags := FindTags(text);
      StrictlySortedNoRepeats(tags);
      var stored := index.SetTags(key, tags);
      if stored.Err? {
        return Err(TagIndexError(stored.error));
      }
      r := Ok(());
    }

    /**
     * add_entry: records the content's tags under the key, then stores the text. If the tags
     * cannot be recorded nothing is written. The index holds the tags of the new content
     * only, also when it is appended to an older entry.
     */
    method AddEntry(index: TagIndexes.TagIndex, content: string, key: Option<EntryKey>,
                    behavior: MatchingDateBehavior, now: DateTime) returns (r: Result<EntryKey, DiaryError>)
      requires Chrono.Valid(now) && (key.Some? ==> Chrono.Valid(key.value.date))
      requires Valid() && index.Valid()
      modifies tree.disk, index
      ensures Valid() && index.Valid()
      ensures r.Ok? <==> !old(index.inTransaction) && old(index.table).Some? && old(tree.CanAdd(ChosenKey(key, now).date))
      ensures r.Ok? ==> r.value == ChosenKey(key, now)
      ensures r.Ok? ==> tree.disk.files == old(tree.disk.files)[tree.EntryPath(ChosenKey(key, now).date) :=
        FileRepo.Text(EntryText(old(tree.GetText(ChosenKey(key, now).date)), content, behavior))]
      ensures r.Ok? ==> tree.GetText(ChosenKey(key, now).date) == Ok(EntryText(old(tree.GetText(ChosenKey(key, now).date)), content, behavior))
      ensures r.Err? ==> tree.disk.files == old(tree.disk.files)
      ensures old(index.inTransaction) || old(index.table).None? ==>
        r == Err(TagIndexError(TagIndexes.DBError)) && tree.disk.dirs == old(tree.disk.dirs) && index.table == old(index.table)
      ensures !old(index.inTransaction) && old(index.table).Some? ==> !index.inTransaction
      ensures !old(index.inTransaction) && old(index.table).Some? ==>
        index.table == Some(TagIndexes.Retagged(old(index.table).value, TagIndexes.EntryKeyToDbKey(ChosenKey(key, now)), Tags(content)))
      ensures !old(index.inTransaction) && old(index.table).Some? && r.Err? ==>
        r.error.FileRepoError? && r.error.repoError.IoError?
      ensures r.Ok? && 0 <= ChosenKey(key, now).date.year <= 9999 ==> tree.Lists(ChosenKey(key, now).date.(second := 0))
    {
      var k := ChosenKey(key, now);
      var entryDate := k.date;
      var saved := SaveTags(index, k, content);
      if saved.Err? {
        return Err(saved.error);
      }
      var previous := tree.GetText(entryDate);
      var text := EntryText(previous, content, behavior);
      var added := tree.AddEntry(entryDate, text);
      if added.Err? {
        return Err(FileRepoError(added.error));
      }
      if 0 <= entryDate.year <= 9999 {
        FileRepo.StoredEntryIsListed(tree, entryDate);
      }
      r := Ok(EntryKey(entryDate));
    }

    /** search_tags: the index's answer, its errors wrapped. */
    method SearchTags(index: TagIndexes.TagIndex, tags: seq<string>) returns (r: Result<seq<EntryKey>, DiaryError>)
      ensures r.Ok? <==> index.Search(tags).Ok?
      ensures r.Ok? ==> r.value == index.Search(tags).value
      ensures r.Err? ==> r.error == TagIndexError(index.Search(tags).error)
    {
      var found := index.SearchTags(tags);
      if found.Err? {
        return Err(TagIndexError(found.error));
      }
      r := Ok(found.value);
    }

    /**
     * open_index: the index in the diary's root, its table created if the database did not
     * have one. stored is the table the database file already holds.
     */
    method OpenIndex(stored: Option<seq<TagIndexes.Row>>) returns (r: Result<TagIndexes.TagIndex, DiaryError>)
      requires Valid() && (stored.Some? ==> TagIndexes.NoRepeats(stored.value))
      modifies tree.disk
      ensures Valid()
      ensures tree.disk.files == old(tree.disk.files) && tree.disk.dirs == old(tree.disk.dirs)
      ensures r.Ok? <==> tree.root + [TagIndexes.IndexFileName] !in tree.disk.dirs
      ensures r.Err? ==> r == Err(TagIndexError(TagIndexes.DBError))
      ensures r.Ok? ==> fresh(r.value) && r.value.root == tree.root && r.value.Valid() && !r.value.inTransaction
      ensures r.Ok? ==> r.value.table == Some(if stored.Some? then stored.value else [])
    {
      var index := TagIndexes.TagIndex.New(tree.disk, tree.root, stored);
      if index.Err? {
        return Err(TagIndexError(index.error));
      }
      var created := index.value.InitDb();
      r := Ok(index.value);
    }

    /** The tag is one of the tags of the listed entry dated dt. */
    ghost predicate Tagged(dt: DateTime, tag: string)
      reads tree.disk
    {
      Chrono.Valid(dt) && tree.Lists(dt) && tree.GetText(dt).Ok? && tag in Tags(tree.GetText(dt).value)
    }

    /** The rows are exactly the tags of the listed entries. */
    ghost predicate Agrees(rows: seq<TagIndexes.Row>)
      reads tree.disk
    {
      forall row :: row in rows <==>
        exists dt :: Tagged(dt, row.tag) && row.entryKey == TagIndexes.EntryKeyToDbKey(EntryKey(dt))
    }

    /** Every listed entry can be read. */
    ghost predicate Readable()
      reads tree.disk
    {
      forall dt :: tree.Lists(dt) ==> Chrono.Valid(dt) && tree.GetText(dt).Ok?
    }

    /** Every listed date is listed once, for a single file, and has a four-digit year. */
    ghost predicate ListedOnce()
      reads tree.disk
    {
      forall dt :: tree.Lists(dt) ==> |tree.ListedFiles(dt)| == 1 && 0 <= dt.year <= 9999
    }

    /** The listed entries' texts and tags, each listed date in turn; the first unreadable entry fails. */
    method EntryTags(dates: seq<DateTime>) returns (r: Result<seq<(EntryKey, seq<string>)>, DiaryError>)
      requires forall dt :: dt in dates ==> Chrono.Valid(dt)
      ensures r.Ok? <==> forall i :: 0 <= i < |dates| ==> tree.GetText(dates[i]).Ok?
      ensures r.Ok? ==> |r.value| == |dates|
      ensures r.Ok? ==> forall i :: 0 <= i < |dates| ==>
        r.value[i] == (EntryKey(dates[i]), Tags(tree.GetText(dates[i]).value))
      ensures r.Err? ==> r.error.FileRepoError?
    {
      var pairs: seq<(EntryKey, seq<string>)> := [];
      for i := 0 to |dates|
        invariant |pairs| == i
        invariant forall j :: 0 <= j < i ==> tree.GetText(dates[j]).Ok?
        invariant forall j :: 0 <= j < i ==> pairs[j] == (EntryKey(dates[j]), Tags(tree.GetText(dates[j]).value))
      {
        assert dates[i] in dates;
        var text := GetTextForEntry(EntryKey(dates[i]));
        if text.Err? {
          return Err(text.error);
        }
        var tags := FindTags(text.value);
        pairs := pairs + [(EntryKey(dates[i]), tags)];
      }
      r := Ok(pairs);
    }

    /**
     * reindex: the index rebuilt from the tags of every listed entry. An unreadable entry
     * stops it before the index changes; the same date listed twice repeats rows, which the
     * unique constraint rejects.
     */
    method Reindex(index: TagIndexes.TagIndex) returns (r: Result<(), DiaryError>)
      requires index.Valid()
      modifies index
      ensures index.Valid() && index.inTransaction == old(index.inTransaction)
      ensures r.Ok? ==> index.table.Some? && Agrees(index.table.value)
      ensures r.Ok? && old(index.table).Some? && Agrees(old(index.table).value) ==>
        TagIndexes.SearchesAlike(old(index.table).value, index.table.value)
      ensures Readable() && ListedOnce() ==> r.Ok?
      ensures !Readable() ==> r.Err? && r.error.FileRepoError?
      ensures r.Err? ==> index.table == old(index.table)
      ensures r.Err? ==> (r == Err(TagIndexError(TagIndexes.DBError))
                          || (r.error.FileRepoError? && exists dt :: Chrono.Valid(dt) && tree.Lists(dt) && tree.GetText(dt).Err?))
    {
      var pairs := ListedEntryTags();
      if pairs.Err? {
        return Err(pairs.error);
      }
      var recreated := index.RecreateIndex(pairs.value);
      if recreated.Err? {
        return Err(TagIndexError(recreated.error));
      }
      if old(index.table).Some? && Agrees(old(index.table).value) {
        AgreeingTablesSearchAlike(old(index.table).value, index.table.value);
      }
      r := Ok(());
    }

    /**
     * Two tables that agree with the entries, under the unique constraint, answer every
     * search alike: rebuilding an index that already agreed changes no search result.
     */
    lemma AgreeingTablesSearchAlike(a: seq<TagIndexes.Row>, b: seq<TagIndexes.Row>)
      requires TagIndexes.NoRepeats(a) && TagIndexes.NoRepeats(b) && Agrees(a) && Agrees(b)
      ensures TagIndexes.SearchesAlike(a, b)
    {
      TagIndexes.SameRowsSearchAlike(a, b);
    }

    /** The key and tags of every listed entry, whose rows agree with the entries; or the
        error of the first entry that cannot be read. */
    method ListedEntryTags() returns (r: Result<seq<(EntryKey, seq<string>)>, DiaryError>)
      ensures r.Ok? ==> TagIndexes.ValidPairs(r.value) && Agrees(TagIndexes.PairRows(r.value))
      ensures r.Ok? <==> Readable()
      ensures r.Ok? && ListedOnce() ==> TagIndexes.NoRepeats(TagIndexes.PairRows(r.value))
      ensures r.Err? ==> r.error.FileRepoError? && exists dt :: Chrono.Valid(dt) && tree.Lists(dt) && tree.GetText(dt).Err?
    {
      var dates;
      ghost var visited;
      dates, visited := tree.List();
      r := EntryTags(dates);
      if r.Err? {
        var i :| 0 <= i < |dates| && tree.GetText(dates[i]).Err?;
        assert dates[i] in dates;
        return;
      }
      DatesReadable(dates);
      ListedPairsValid(dates, r.value);
      EntryTagsAgree(dates, r.value);
      if ListedOnce() {
        ListedOnceKeys(dates, r.value);
      }
    }

    /** When the text of every listed date reads, the store is readable. */
    lemma DatesReadable(dates: seq<DateTime>)
      requires forall dt :: dt in dates <==> tree.Lists(dt)
      requires forall dt :: dt in dates ==> Chrono.Valid(dt)
      requires forall i :: 0 <= i < |dates| ==> tree.GetText(dates[i]).Ok?
      ensures Readable()
    {
      forall dt | tree.Lists(dt)
        ensures Chrono.Valid(dt) && tree.GetText(dt).Ok?
      {
        var i :| 0 <= i < |dates| && dates[i] == dt;
      }
    }

    /** Listed once, the dates are distinct, so their pairs' rows repeat nothing. */
    lemma {:induction false} ListedOnceKeys(dates: seq<DateTime>, pairs: seq<(EntryKey, seq<string>)>)
      requires ListedOnce()
      requires forall dt :: dt in dates <==> tree.Lists(dt)
      requires forall dt :: dt in dates ==> Chrono.Valid(dt) && dt.second == 0
      requires forall dt :: multiset(dates)[dt] == |tree.ListedFiles(dt)|
      requires |pairs| == |dates| && TagIndexes.ValidPairs(pairs)
      requires forall i :: 0 <= i < |dates| ==> tree.GetText(dates[i]).Ok?
      requires forall i :: 0 <= i < |dates| ==> pairs[i] == (EntryKey(dates[i]), Tags(tree.GetText(dates[i]).value))
      ensures TagIndexes.NoRepeats(TagIndexes.PairRows(pairs))
    {
      forall i, j | 0 <= i < j < |pairs|
        ensures TagIndexes.EntryKeyToDbKey(pairs[i].0) != TagIndexes.EntryKeyToDbKey(pairs[j].0)
      {
        assert dates[i] in dates && dates[j] in dates;
        CountedTwice(dates, i, j);
        TagIndexes.DbKeyInjective(pairs[i].0, pairs[j].0);
      }
      forall i | 0 <= i < |pairs|
        ensures TagIndexes.NoRepeats(pairs[i].1)
      {
        StrictlySortedNoRepeats(pairs[i].1);
      }
      TagIndexes.PairRowsNoRepeats(pairs);
    }

    /** The pairs built from every listed date give rows that agree with the entries. */
    lemma {:induction false} EntryTagsAgree(dates: seq<DateTime>, pairs: seq<(EntryKey, seq<string>)>)
      requires forall dt :: dt in dates <==> tree.Lists(dt)
      requires forall dt :: dt in dates ==> Chrono.Valid(dt)
      requires |pairs| == |dates| && TagIndexes.ValidPairs(pairs)
      requires forall i :: 0 <= i < |dates| ==> tree.GetText(dates[i]).Ok?
      requires forall i :: 0 <= i < |dates| ==> pairs[i] == (EntryKey(dates[i]), Tags(tree.GetText(dates[i]).value))
      ensures Agrees(TagIndexes.PairRows(pairs))
    {
      forall row
        ensures row in TagIndexes.PairRows(pairs) <==> exists dt :: Tagged(dt, row.tag) && row.entryKey == TagIndexes.EntryKeyToDbKey(EntryKey(dt))
      {
        if row in TagIndexes.PairRows(pairs) {
          PairRowIsTagged(dates, pairs, row);
        }
        if exists dt :: Tagged(dt, row.tag) && row.entryKey == TagIndexes.EntryKeyToDbKey(EntryKey(dt)) {
          var dt :| Tagged(dt, row.tag) && row.entryKey == TagIndexes.EntryKeyToDbKey(EntryKey(dt));
          TaggedIsPairRow(dates, pairs, row, dt);
        }
      }
    }

    /** Every row of the pairs is a tag of a listed entry, keyed by its date. */
    lemma {:induction false} PairRowIsTagged(dates: seq<DateTime>, pairs: seq<(EntryKey, seq<string>)>, row: TagIndexes.Row)
      requires forall dt :: dt in dates ==> tree.Lists(dt) && Chrono.Valid(dt)
      requires |pairs| == |dates| && TagIndexes.ValidPairs(pairs)
      requires forall i :: 0 <= i < |dates| ==> tree.GetText(dates[i]).Ok?
      requires forall i :: 0 <= i < |dates| ==> pairs[i] == (EntryKey(dates[i]), Tags(tree.GetText(dates[i]).value))
      requires row in TagIndexes.PairRows(pairs)
      ensures exists dt :: Tagged(dt, row.tag) && row.entryKey == TagIndexes.EntryKeyToDbKey(EntryKey(dt))
    {
      PairRowsMembers(pairs, row);
      var j :| 0 <= j < |pairs| && row.tag in pairs[j].1 && row.entryKey == TagIndexes.EntryKeyToDbKey(pairs[j].0);
      PairRowTagged(dates, pairs, j, row);
    }

    /** Every tag of a listed entry, keyed by its date, is a row of the pairs. */
    lemma {:induction false} TaggedIsPairRow(dates: seq<DateTime>, pairs: seq<(EntryKey, seq<string>)>, row: TagIndexes.Row, dt: DateTime)
      requires forall dt :: tree.Lists(dt) ==> dt in dates
      requires forall dt :: dt in dates ==> Chrono.Valid(dt)
      requires |pairs| == |dates| && TagIndexes.ValidPairs(pairs)
      requires forall i :: 0 <= i < |dates| ==> tree.GetText(dates[i]).Ok?
      requires forall i :: 0 <= i < |dates| ==> pairs[i] == (EntryKey(dates[i]), Tags(tree.GetText(dates[i]).value))
      requires Tagged(dt, row.tag) && row.entryKey == TagIndexes.EntryKeyToDbKey(EntryKey(dt))
      ensures row in TagIndexes.PairRows(pairs)
    {
      assert dt in dates;
      var j :| 0 <= j < |dates| && dates[j] == dt;
      assert pairs[j] == (EntryKey(dt), Tags(tree.GetText(dt).value));
      PairRowsMembers(pairs, row);
    }

    /** The pairs of listed dates carry valid dates. */
    lemma ListedPairsValid(dates: seq<DateTime>, pairs: seq<(EntryKey, seq<string>)>)
      requires forall dt :: dt in dates ==> Chrono.Valid(dt)
      requires |pairs| == |dates|
      requires forall i :: 0 <= i < |dates| ==> tree.GetText(dates[i]).Ok?
      requires forall i :: 0 <= i < |dates| ==> pairs[i] == (EntryKey(dates[i]), Tags(tree.GetText(dates[i]).value))
      ensures TagIndexes.ValidPairs(pairs)
    {
      forall i | 0 <= i < |pairs|
        ensures Chrono.Valid(pairs[i].0.date)
      {
        assert dates[i] in dates;
      }
    }

    lemma {:induction false} PairRowTagged(dates: seq<DateTime>, pairs: seq<(EntryKey, seq<string>)>, j: nat, row: TagIndexes.Row)
      requires forall dt :: dt in dates ==> tree.Lists(dt) && Chrono.Valid(dt)
      requires |pairs| == |dates| && j < |dates| && tree.GetText(dates[j]).Ok?
      requires pairs[j] == (EntryKey(dates[j]), Tags(tree.GetText(dates[j]).value))
      requires row.tag in pairs[j].1 && row.entryKey == TagIndexes.EntryKeyToDbKey(pairs[j].0)
      ensures Tagged(dates[j], row.tag)
    {
      assert dates[j] in dates;
    }
  }

  /** Two equal positions count their date at least twice. */
  lemma CountedTwice(ds: seq<DateTime>, i: nat, j: nat)
    requires i < j < |ds|
    ensures ds[i] == ds[j] ==> multiset(ds)[ds[i]] >= 2
  {
    if ds[i] == ds[j] {
      assert ds == ds[..j] + ds[j..];
      assert ds[i] in ds[..j] && ds[j] in ds[j..];
      assert multiset(ds) == multiset(ds[..j]) + multiset(ds[j..]);
    }
  }

  /** The rows recreate_index writes: one per tag of each pair, under the pair's key. */
  lemma {:induction false} PairRowsMembers(pairs: seq<(EntryKey, seq<string>)>, row: TagIndexes.Row)
    requires TagIndexes.ValidPairs(pairs)
    ensures row in TagIndexes.PairRows(pairs) <==>
      exists j :: 0 <= j < |pairs| && row.tag in pairs[j].1 && row.entryKey == TagIndexes.EntryKeyToDbKey(pairs[j].0)
  {
    if pairs != [] {
      PairRowsMembers(pairs[1..], row);
      var k := TagIndexes.EntryKeyToDbKey(pairs[0].0);
      TagIndexes.RowsForHas(pairs[0].1, k, row.tag);
      if row in TagIndexes.PairRows(pairs[1..]) {
        var j :| 0 <= j < |pairs[1..]| && row.tag in pairs[1..][j].1
          && row.entryKey == TagIndexes.EntryKeyToDbKey(pairs[1..][j].0);
        assert pairs[j + 1] == pairs[1..][j];
      }
      if exists j :: 0 <= j < |pairs| && row.tag in pairs[j].1 && row.entryKey == TagIndexes.EntryKeyToDbKey(pairs[j].0) {
        var j :| 0 <= j < |pairs| && row.tag in pairs[j].1 && row.entryKey == TagIndexes.EntryKeyToDbKey(pairs[j].0);
        if j > 0 {
          assert pairs[1..][j - 1] == pairs[j];
        } else {
          assert row == TagIndexes.Row(row.tag, k);
        }
      }
    }
  }
}
