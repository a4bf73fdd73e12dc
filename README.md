# dear-diary, modelled in Dafny

dear-diary is a command-line diary. Each entry is a text file stored under the diary root at
`YYYY/MM/YYYYMMDDTHHMM`. The entry's key is its UTC date and time, shown as
`YYYY-MM-DD HH:MM +0000`. Tags are written in the text as `#word` or `#(a phrase)#`, with any
matching number of hashes. They are extracted and kept in an SQLite table of
(tag, entry key) rows. That table answers tag searches and can be rebuilt from the entries.

This project models the core of that system and proves properties of the model:

- `entrykey.dfy` (`EntryKeys`): the entry key. Parsing a key text in `%Y-%m-%d %H:%M %z`
  converts it to UTC; printing uses the same format.
- `tagparser.dfy` (`TagParser`): the tag finder.
  - the parser combinators (`phrase_start`, `phrase_end`, `phrase_content_until`,
    `phrase_hash`, `word_hash`, `char_or_hash`, `parsed_parts`)
  - the `collected_parts` loop, kept as a method with a `for` loop
  - `text_parts`
  - `find_tags` with its sort and dedup
- `filerepo.dfy` (`FileRepo`): the date store (`filerepo::tree`).
  - A `Disk` class with a map of files and a set of directories stands in for the filesystem.
  - A `Tree` class holds the root, and the store's methods work on that disk.
- `tagindex.dfy` (`TagIndexes`): the tag index (`index::tags`).
  - A `TagIndex` class whose table is a sequence of rows, or `None` before `initdb`.
  - A transaction flag.
  - `set_tags`, `search_tags` (its row loop written as a `for` loop), and the
    placeholders and key format it uses.
- `diary.dfy` (`Diaries`): the `Diary` class.
  - Opening a diary, listing its keys in date order, and reading an entry.
  - Adding an entry, with overwrite or append.
  - Searching tags, opening the index, and reindexing.
- `entrylist.dfy` (`EntryLists`): from the command-line program, `make_entry_list`,
  `ListOption`, `KeyOrdering`, `order_of_magnitude`, `check_entry_number`, and how
  `show_entry` picks an entry by number.
- Support modules model the library behaviour the core relies on:
  - `chrono.dfy` (`Chrono`): dates, calendar arithmetic and instants.
  - `strftime.dfy` (`Strftime`): chrono's strftime formatting and parsing for the three
    formats in use.
  - `numerals.dfy`: digits and zero padding.
  - `strings.dfy`: Rust's `trim_start`, `trim_end`, `is_whitespace` and string order.
- `tagexamples.dfy` (`TagParserExamples`): the tag parser's unit tests, restated as lemmas, and
  the scan steps (plain text, a word tag, a phrase tag) they are proved with.

Time zones are modelled as an offset in minutes. A date-time with an offset becomes UTC by
shifting it by that many minutes; `Instant` counts seconds, to state that two values are the
same moment. In the calendar, a year is a plain integer; chrono's range of years is not
modelled. The clock is not modelled: `AddEntry` takes the current time as its `now`
parameter.

## Model

| member | source | states |
|---|---|---|
| EntryKeys.DefaultKeyFormatComplete | src/diaryentrykey.rs:25 | the key format has year, month, day, hour, minute and an offset, so a key text fully determines a UTC time |
| EntryKeys.ParseFromString | src/diaryentrykey.rs:10-16 | a parsed key is a valid date truncated to the minute; it is the local time read from the text shifted back by the text's offset |
| EntryKeys.ToStringLayout | src/diaryentrykey.rs:19-23 | a key prints as its four-digit year, two-digit month, day, hour and minute, and then `+0000` |
| EntryKeys.ParseToString | src/diaryentrykey.rs:10-23 | printing a key and parsing the text gives back the key, with its seconds dropped |
| EntryKeys.ParseConvertsToUtc | src/diaryentrykey.rs:10-16 | a key text written at any offset parses to the local time shifted back by that offset: the same instant, in UTC |
| EntryKeys.ParseExample | src/diaryentrykey.rs:10-16 | "2020-08-30 13:37 +03:00" is the key 2020-08-30 10:37 UTC |
| EntryKeys.ParseShifted | src/diaryentrykey.rs:10-16 | any text formatted from a local time and an offset parses to that time shifted back by the offset |
| EntryKeys.CanonicalRoundTrip | src/diaryentrykey.rs:10-23 | a text in the printed form that names a real date and time parses, and that key prints back as exactly that text |
| EntryKeys.CanonicalPrints | src/diaryentrykey.rs:19-23 | a text in the printed form is the printing of the date it spells out |
| EntryKeys.ParseEmpty | src/diaryentrykey.rs:10-16 | the empty text is not a key |
| EntryKeys.KeyEqualityIsInstant | src/diaryentrykey.rs:4-7 | two keys are equal exactly when they denote the same instant |
| Strftime.ParseOfFormat | src/diaryentrykey.rs:11 | for a format naming every field, parsing the formatted text gives back the date-time truncated to the minute and the offset; with `%z` the result is shifted to UTC; without `%z` the offset-requiring parse fails; a parse that assumes UTC succeeds exactly when there is no `%z` or the offset is zero |
| Strftime.ParseFromStr | src/diaryentrykey.rs:11 | succeeds exactly when the local fields parse and the text carries an offset; the result is the local time minus the offset |
| Strftime.ParseFormatted | src/index/tags.rs:115 | scanning a formatted text with its own format consumes all of it and records each field's value |
| Strftime.ScanZoneText | src/index/tags.rs:125 | an offset printed as `%z`, with or without a separator, scans back to the same offset |
| Strftime.UtcZoneText | src/diaryentrykey.rs:21 | a UTC time prints its offset as `+0000` |
| Strftime.ScanFixed | src/filerepo/tree.rs:130 | a zero-padded field of width w scans back to its value |
| Strftime.ScanYearFixed | src/filerepo/tree.rs:130 | a year between 0 and 9999 prints as four digits and scans back to itself |
| Chrono.ShiftMinutes | src/diaryentrykey.rs:13 | `with_timezone(&Utc)`: shifting by an offset gives a valid date-time exactly 60 × offset seconds later |
| Chrono.ShiftByZero | src/diaryentrykey.rs:13 | a zero offset leaves the date-time unchanged |
| Chrono.NextDay | src/diaryentrykey.rs:13 | the next calendar day is valid, keeps the time of day, and is one day number later |
| Chrono.PrevDay | src/diaryentrykey.rs:13 | the previous calendar day is valid, keeps the time of day, and is one day number earlier |
| Chrono.BeforeIsEarlier | src/diary.rs:74 | the field-by-field order of `DateTime<Utc>` is the order of instants, and equality is equality of instants |
| Chrono.BeforeTotal | src/diary.rs:74 | any two date-times are equal or one comes before the other |
| Chrono.BeforeTransitive | src/diary.rs:74 | the date-time order is transitive |
| Chrono.DayNumberMonotone | src/diary.rs:74 | a later calendar date has a larger day number |
| Numerals.ValueOfFixed | src/filerepo/tree.rs:117-118 | a zero-padded numeral reads back as its number |
| Numerals.FixedValueOf | src/filerepo/tree.rs:117-118 | a digit string is the zero-padded numeral of its value |
| Numerals.ValueOfDecimal | src/bin.rs:215 | a decimal numeral reads back as its number |
| Numerals.DecimalLength | src/bin.rs:215 | a numeral has d digits exactly when the number lies between 10^(d-1) and 10^d |
| Strings.TrimStart | src/bin.rs:215 | `trim_start` removes exactly the leading whitespace: what it drops is all whitespace and what it keeps does not start with whitespace |
| Strings.TrimEnd | src/diary.rs:97 | `trim_end` removes exactly the trailing whitespace: what it drops is all whitespace and what it keeps does not end with whitespace |
| Strings.TrimStartOfPadding | src/bin.rs:215 | trimming whitespace padding in front of a text that does not start with whitespace gives the text |
| Strings.StrLessTotal | src/tagparser.rs:21 | the string order sorts any two distinct strings one way or the other |
| Strings.StrLessTransitive | src/tagparser.rs:21 | the string order is transitive |
| Strings.StrLessIrreflexive | src/tagparser.rs:21 | no string sorts before itself |
| TagParser.PhraseStart | src/tagparser.rs:38-43 | a result is a run of hashes of that length followed by `(`, and parsing resumes after the `(` |
| TagParser.PhraseStartIff | src/tagparser.rs:38-43 | `phrase_start` yields n exactly when n hashes and then `(` stand at the position |
| TagParser.HashesRun | src/tagparser.rs:39 | the hash repeat is greedy: it takes only `#` and stops at its limit, at the end, or before another character |
| TagParser.PhraseEnd | src/tagparser.rs:45-49 | a closer consumes `)` and exactly n hashes |
| TagParser.PhraseEndIff | src/tagparser.rs:45-49 | `phrase_end(n)` matches exactly when `)` stands at the position followed by n hashes |
| TagParser.PhraseContentChar | src/tagparser.rs:51-57 | a content character is taken exactly where text remains and no closer stands, and parsing resumes after it |
| TagParser.ContentStop | src/tagparser.rs:51-57 | content characters run up to the first closer, or to the end when there is none |
| TagParser.PhraseContentUntil | src/tagparser.rs:60-67 | content is at least one character and parsing resumes after the closer |
| TagParser.PhraseContentIff | src/tagparser.rs:60-67 | the content is exactly the non-empty text up to the first closer for n hashes, and parsing resumes after that closer |
| TagParser.PhraseHash | src/tagparser.rs:69-71 | a phrase tag consumes at least one character |
| TagParser.PhraseHashTagNonEmpty | src/tagparser.rs:69-71 | a phrase tag is never empty |
| TagParser.AlnumRunMaximal | src/tagparser.rs:74 | the alphanumeric repeat takes only alphanumerics, and all of them up to the next other character |
| TagParser.WordHashIff | src/tagparser.rs:73-76 | `word_hash` yields w exactly when `#` and then a maximal run of one or more alphanumerics stand at the position, and w is that run |
| TagParser.WordHashTagNonEmpty | src/tagparser.rs:73-76 | a word tag is never empty |
| TagParser.CharOrHash | src/tagparser.rs:90-92 | `char_or_hash` succeeds exactly before the end of the text, always consumes something, and never yields an empty tag |
| TagParser.PlainCharacter | src/tagparser.rs:82-84 | a character other than `#` is plain text |
| TagParser.WordTag | src/tagparser.rs:90-92 | where no phrase opens, a word tag is taken |
| TagParser.PhraseTag | src/tagparser.rs:90-92 | an opener of n hashes with content up to the first closer for n hashes is a phrase tag |
| TagParser.UnclosedPhraseIsText | src/tagparser.rs:90-92 | an opener that is never closed, or is closed at once, is a plain `#` |
| TagParser.LoneHash | src/tagparser.rs:90-92 | a `#` that opens no phrase and has no alphanumeric after it is a plain `#`; with the four lemmas above every position is covered |
| TagParser.ExtendParts | src/tagparser.rs:94-96 | whitespace added at the end of a text adds one plain part per character and leaves the earlier parts alone |
| TagParser.CollectedParts | src/tagparser.rs:103-124 | `collected_parts` returns a canonical collection that expands back to the parsed parts: no empty runs, no two runs side by side |
| TagParser.CollectChar | src/tagparser.rs:109 | a plain character extends the pending run, and the loop's invariant still holds |
| TagParser.CollectTag | src/tagparser.rs:110-116 | a tag closes the pending run, if any, and is kept after it, and the invariant still holds |
| TagParser.CollectEnd | src/tagparser.rs:119-121 | closing the pending run at the end gives a canonical collection of everything read |
| TagParser.CanonicalUnique | src/tagparser.rs:103-124 | two canonical collections of the same parts are equal: what `collected_parts` returns is determined |
| TagParser.ExpandAppend | src/tagparser.rs:103-124 | expansion distributes over concatenation |
| TagParser.TextParts | src/tagparser.rs:126-136 | `text_parts` keeps one text part per collected part |
| TagParser.TextTagsOfCollected | src/tagparser.rs:126-136 | collecting and converting the parts keeps every tag and the order of the tags |
| TagParser.TagsIgnoreTrailingWhitespace | src/tagparser.rs:7-20 | whitespace added at the end of a text brings no tag and takes none away |
| TagParser.Insert | src/tagparser.rs:21 | inserting into a sorted sequence gives a sorted sequence with one more copy of the element |
| TagParser.Sort | src/tagparser.rs:21 | `tags.sort()` gives a sorted permutation of its input |
| TagParser.Dedup | src/tagparser.rs:22 | `tags.dedup()` keeps the same elements, leaves no two neighbours equal, and turns a sorted sequence into a strictly ascending one |
| TagParser.StrictlySortedUnique | src/tagparser.rs:21-22 | two strictly ascending sequences of the same elements are the same sequence |
| TagParser.InsertUnique | src/tagparser.rs:21-22 | adding to a strictly ascending sequence keeps it strictly ascending and adds exactly that element |
| TagParser.SortedUnique | src/tagparser.rs:21-22 | the reference result: strictly ascending, with exactly the elements of the input |
| TagParser.FindTags | src/tagparser.rs:7-24 | `find_tags` returns the text's tags in strictly ascending order, each tag once, with exactly the tags the scan meets |
| TagParser.TagsNonEmpty | src/tagparser.rs:7-24 | no tag `find_tags` reports is empty |
| TagParser.TagsOfNormalised | src/diary.rs:97 | trimming trailing whitespace and ending the text with a newline keeps its tags |
| TagParserExamples.PlainPiece | src/tagparser.rs:82-96 | `parsed_parts` on a stretch of text without `#` yields one character part per character and then carries on after the stretch |
| TagParserExamples.WordPiece | src/tagparser.rs:73-96 | `parsed_parts` at `#` and a maximal alphanumeric word yields that word as a tag and carries on after it |
| TagParserExamples.PhrasePiece | src/tagparser.rs:69-96 | `parsed_parts` at n hashes, `(`, content without `)`, `)` and n hashes yields the content as a tag and carries on after the closer, whatever follows |
| TagParserExamples.SpacedWordsParts | src/tagparser.rs:73-96 | `parsed_parts` on alphanumeric words each behind a `#` and separated by single spaces yields a tag part per word with a space part between each two |
| TagParserExamples.SpacedPartsTags | src/tagparser.rs:10-20 | the tags `find_tags` reads back from that run of parts, before sorting, are the words, in order, repeats kept |
| TagParserExamples.PhraseStartCountsHashes | src/tagparser.rs:142-154 | `phrase_start` on "#(foo" yields 1 and on "###(foo" yields 3 |
| TagParserExamples.PhraseEndNeedsEnough | src/tagparser.rs:156-172 | ")##" closes phrases of one and of two hashes but not of three |
| TagParserExamples.PhraseContentCharTakesOne | src/tagparser.rs:174-178 | in "op)#" with a one-hash closer, the content character at the start is 'o' and none is taken at the closer |
| TagParserExamples.ContentMayHoldOpener | src/tagparser.rs:180-184 | the content of "#(ab)#" read up to a one-hash closer is "#(ab" |
| TagParserExamples.PhraseHashExamples | src/tagparser.rs:186-196 | "#(ab)#" is the phrase tag "ab" and "##(bc)##" the phrase tag "bc" |
| TagParserExamples.WordHashExample | src/tagparser.rs:198-202 | "#asdf" is the word tag "asdf" |
| TagParserExamples.CollectExampleParts | src/tagparser.rs:204-218 | "ab ##(cd)###z qw" is parsed as "ab ", the tag "cd", the tag "z", then " qw" |
| TagParserExamples.TextPartsExample | src/tagparser.rs:204-218 | `text_parts` of "ab ##(cd)###z qw" gives the text "ab ", the tags "cd" and "z", and the text " qw" |
| TagParserExamples.FindExample | src/tagparser.rs:220-224 | `find_tags` of "hello #world this is a #(phrase tag)#, whee" is ["phrase tag", "world"] |
| TagParserExamples.FindExampleTags | src/tagparser.rs:220-224 | in text order the tags of that text are "world", then "phrase tag" |
| TagParserExamples.DedupExample | src/tagparser.rs:226-230 | `find_tags` of "#a #b #a #b #c #a #c" is ["a", "b", "c"] |
| TagParserExamples.DedupExampleTags | src/tagparser.rs:226-230 | in text order the tags of that text are a, b, a, b, c, a, c |
| TagParserExamples.EmptyTextHasNoTags | src/tagparser.rs:7-24 | the empty text has no tags |
| FileRepo.Disk.Read | src/filerepo/tree.rs:93 | reading succeeds exactly for a stored file and gives its content |
| FileRepo.Disk.CreateDirAll | src/filerepo/tree.rs:24 | `create_dir_all` fails exactly when a file lies on the path; on success it adds the path and every prefix of it as directories; files never change |
| FileRepo.Disk.Write | src/filerepo/tree.rs:105 | `fs::write` succeeds exactly when the path is not a directory and its parent is; it then stores the text there and changes nothing else |
| FileRepo.Disk.PrepareRoot | src/filerepo/tree.rs:18-30 | a root that exists and is not a directory is refused; an existing directory is kept as is; a missing root is created with its prefixes, and the result is `RootReady` exactly when no file stands above it |
| FileRepo.FileNameFormatComplete | src/filerepo/tree.rs:185 | the file-name format has every field from year to minute and no offset |
| FileRepo.FileDirectoryLayout | src/filerepo/tree.rs:115-120 | an entry's directory is its four-digit year and then its two-digit month |
| FileRepo.PadDecimalIsFixed | src/filerepo/tree.rs:117-118 | Rust's `{:04}` and `{:02}` of a number below 10^w are its w-digit zero-padded numeral |
| FileRepo.FileNameLayout | src/filerepo/tree.rs:122-124 | an entry's file name is `YYYYMMDDTHHMM` |
| FileRepo.FilePathLayout | src/filerepo/tree.rs:109-113 | the path is year, month and file name, and `collect_files` keeps it |
| FileRepo.FileNameFields | src/filerepo/tree.rs:158-161 | a file name's first four characters are the year directory and the next two the month directory |
| FileRepo.FileNameParses | src/filerepo/tree.rs:130 | a file name parses back to its date and time truncated to the minute |
| FileRepo.LargeYearNotKept | src/filerepo/tree.rs:158-161 | an entry with a year above 9999 is written to a path that `collect_files` passes over, so it is never listed |
| FileRepo.DatesOf | src/filerepo/tree.rs:126-133 | `collect_dates` keeps exactly the dates of the names that parse in the file-name format |
| FileRepo.Tree.New | src/filerepo/tree.rs:18-30 | `Tree::new` fails with `BadPathError` exactly when the root exists and is not a directory; it succeeds exactly when the root is already a directory or is missing with no file above it, and then the root is a directory; files never change |
| FileRepo.Tree.GetText | src/filerepo/tree.rs:91-98 | `get_text` gives the stored text of the entry's file; a missing file is `EntryNotFound`; undecodable content is a decoding error |
| FileRepo.Tree.AddEntry | src/filerepo/tree.rs:100-107 | `add_entry` creates the entry's directory and writes the text to its file; afterwards `get_text` returns that text; it succeeds exactly when no file stands where the entry's directories go and the entry's path is not a directory (`Tree.CanAdd`); a failure leaves the files unchanged |
| FileRepo.Tree.CollectFiles | src/filerepo/tree.rs:135-168 | `collect_files` visits each file below the root once and keeps exactly those whose directories match the name's first six characters |
| FileRepo.Tree.List | src/filerepo/tree.rs:32-34 | `list` is the parsed names of the kept files in the walk's order, each file visited once; a date appears once for every kept file named after it, so it is listed exactly when such a file exists; each is a valid date with zero seconds |
| FileRepo.DatesOfCount | src/filerepo/tree.rs:126-133 | over distinct files, `collect_dates` gives a date as many times as there are files whose name parses as it |
| FileRepo.Tree.ListingCount | src/filerepo/tree.rs:126-168 | a walk that visits every kept file once yields each date once per kept file named after it |
| FileRepo.Tree.ListedFilesOfLists | src/filerepo/tree.rs:126-168 | a date is among the listed dates exactly when some kept file is named after it |
| FileRepo.StoredEntryIsListed | src/filerepo/tree.rs:100-133 | an entry stored for a date with a four-digit year is listed, truncated to the minute |
| TagIndexes.KeyDbFormatComplete | src/index/tags.rs:133 | the index's key format has every field from year to minute and an offset |
| TagIndexes.DbKeyRoundTrip | src/index/tags.rs:124-126 | a stored key text parses back to the key's time truncated to the minute |
| TagIndexes.DbKeyInjective | src/index/tags.rs:124-126 | two keys to the minute have the same stored text exactly when they are equal |
| TagIndexes.StoredKeyDecodes | src/index/tags.rs:113-117 | a stored key decodes to the key truncated to the minute |
| TagIndexes.MakePlaceholders | src/index/tags.rs:128-131 | `make_placeholders(n)` is n question marks separated by ", " |
| TagIndexes.PlaceholderCount | src/index/tags.rs:128-131 | the placeholder text holds exactly n question marks |
| TagIndexes.Repeat | src/index/tags.rs:130 | `str::repeat` gives the text repeated times times over |
| TagIndexes.RowsFor | src/index/tags.rs:96-98 | the rows `set_tags` inserts are one (tag, key) row per tag, in order |
| TagIndexes.Without | src/index/tags.rs:91-92 | the delete keeps exactly the rows of other keys and creates no duplicates |
| TagIndexes.SetTagsRows | src/index/tags.rs:88-101 | after `set_tags` the key's rows are exactly one per given tag, and every other key's rows are unchanged |
| TagIndexes.MatchingMembers | src/index/tags.rs:108-110 | the query selects exactly the rows whose tag is one of those searched |
| TagIndexes.DecodeKeys | src/index/tags.rs:112-120 | decoding gives one key per row, or fails with `IndexFormatError` |
| TagIndexes.DecodeKeysMeaning | src/index/tags.rs:112-120 | decoding succeeds exactly when every row's key parses, and then the i-th key is the i-th row's |
| TagIndexes.DecodeAppend | src/index/tags.rs:112-120 | decoding rows in two parts succeeds exactly when both parts decode, giving the keys of the first and then of the second |
| TagIndexes.SearchStep | src/index/tags.rs:112-119 | one row of the query's loop leaves the keys alone or adds the row's key, and a key that fails to parse makes the whole search fail |
| TagIndexes.SearchFails | src/index/tags.rs:112-119 | once decoding has failed, the search fails |
| TagIndexes.SearchMeaning | src/index/tags.rs:103-121 | over well-formed rows the search succeeds, gives one key per matching row, and finds exactly the keys of the rows carrying a searched tag |
| TagIndexes.SearchKeyHasRow | src/index/tags.rs:103-121 | every key found comes from a row with a searched tag |
| TagIndexes.SearchRowHasKey | src/index/tags.rs:103-121 | every row with a searched tag contributes its key |
| TagIndexes.SetThenSearch | src/index/tags.rs:88-121 | after tagging a key with t, a search that includes t finds that key |
| TagIndexes.MatchingCount | src/index/tags.rs:108-110 | the query selects a row as often as the table holds it, when its tag is searched, and never otherwise |
| TagIndexes.MatchingPermutation | src/index/tags.rs:108-110 | the same rows in another order select the same rows in another order |
| TagIndexes.DecodePermutation | src/index/tags.rs:112-120 | the same rows in another order decode to the same keys in another order, or both fail |
| TagIndexes.SearchPermutation | src/index/tags.rs:103-121 | the search's answer depends on the table only as a multiset of rows |
| TagIndexes.NoRepeatsCount | src/index/tags.rs:80 | under the unique constraint a table holds each row at most once |
| TagIndexes.SameRowsSearchAlike | src/index/tags.rs:103-121 | two tables under the unique constraint with the same rows answer every search alike |
| TagIndexes.WithoutOthers | src/index/tags.rs:91-92 | deleting a key that no row carries keeps every row |
| TagIndexes.SearchAfterTwoEntries | tests/tagindex_tests.rs:7-27 | after indexing the test's two entries, "tags" finds both keys in order, "hello world" only the first, "with" and "more" both |
| TagIndexes.TagIndex.New | src/index/tags.rs:57-72 | `TagIndex::new` refuses a root that exists and is not a directory; it otherwise creates the root and opens the database file in it, failing when that name is a directory; a missing root with no file above it is created, and opening then succeeds exactly when the database name is not a directory |
| TagIndexes.TagIndex.InitDb | src/index/tags.rs:74-86 | `initdb` creates the empty table when there is none and keeps an existing table |
| TagIndexes.TagIndex.SetTags | src/index/tags.rs:88-101 | `set_tags` replaces the key's rows by one row per tag; it fails, leaving an open transaction, when the table is missing, a transaction is open, or a tag repeats, and a repeated tag at position j leaves the rows inserted before it |
| TagIndexes.TagIndex.SearchTags | src/index/tags.rs:103-121 | the loop over the rows computes the search function: no key for no tags, a DB error without a table, else the decoded keys of the matching rows |
| TagIndexes.TagIndex.RecreateIndex | src/diary.rs:141 | the table becomes exactly the rows of the given pairs, or stays as it was, with a DB error, when those rows repeat |
| TagIndexes.PairRowsNoRepeats | src/index/tags.rs:80 | pairs under distinct database keys, each with tags that do not repeat, give rows without repeats |
| TagIndexes.PairRowsKeys | src/diary.rs:141 | every row built from the pairs is keyed by one of the pairs' keys |
| TagIndexes.RowsForHas | src/index/tags.rs:96-98 | a row for a key is inserted exactly when its tag is among those given |
| Diaries.NormalisedIdempotent | src/diary.rs:97 | normalising stored text again changes nothing |
| Diaries.StoredTextTags | src/diary.rs:96-111 | unless text is appended to an earlier entry, the stored text has exactly the content's tags |
| Diaries.AppendedText | src/diary.rs:102-106 | an appended entry is the old text without trailing whitespace, an empty line, then the normalised new content |
| Diaries.StrictlySortedNoRepeats | src/diary.rs:145-149 | tags from `find_tags` never repeat, so `set_tags` cannot fail on the unique constraint |
| Diaries.InsertDate | src/diary.rs:74 | inserting a date adds exactly one copy of it |
| Diaries.InsertDateAscending | src/diary.rs:74 | inserting into ascending dates keeps them ascending |
| Diaries.SortDates | src/diary.rs:74 | `sort_unstable` returns the dates ascending, as a permutation of the input |
| Diaries.Diary.OpenCustom | src/diary.rs:57-68 | opening fails with `BadPathError` exactly when the path exists and is not a directory; an existing directory always opens, and so does a missing path with no file above it |
| Diaries.KeysOf | src/diary.rs:70-79 | each date becomes its key, in order, and a key occurs as often as its date |
| Diaries.Diary.ListKeys | src/diary.rs:70-79 | the keys are in date order, and each date's key occurs once for every kept file named after that date: a permutation of the store's listing |
| Diaries.Diary.GetTextForEntry | src/diary.rs:81-83 | the text of the entry's file, or a file-store error: what `get_text` returns |
| Diaries.Diary.SaveTags | src/diary.rs:145-149 | the key's rows in the index become exactly the text's tags, or the index is unchanged with a DB error |
| Diaries.Diary.AddEntry | src/diary.rs:85-113 | the tags are saved first, and a failure there stops the add before anything is written; the entry's file then holds the normalised content, or the old text trimmed, an empty line and the new content when appending to a readable entry; the index holds the content's tags; the key is the given one or the clock's; it succeeds exactly when the index is open and outside a transaction and the store can add the entry |
| Diaries.Diary.SearchTags | src/diary.rs:115-122 | the keys the index's search finds, or its error wrapped as a tag-index error |
| Diaries.Diary.OpenIndex | src/diary.rs:124-128 | the index opens at the diary root with its table created or kept, or fails with a DB error |
| Diaries.Diary.EntryTags | src/diary.rs:132-140 | pairing each date with the tags of its text succeeds exactly when every text can be read, giving one pair per date in order |
| Diaries.Diary.ListedEntryTags | src/diary.rs:131-140 | the pairs for the listed entries have rows that agree with the store, and they are built exactly when every listed entry can be read; when each listed date has one file, their rows do not repeat |
| Diaries.Diary.EntryTagsAgree | src/diary.rs:130-143 | the rows of those pairs are exactly (tag, key) for every tag of every listed entry |
| Diaries.PairRowsMembers | src/diary.rs:141 | a row belongs to the rows of the pairs exactly when some pair has its key and tag |
| Diaries.Diary.Reindex | src/diary.rs:130-143 | after a successful reindex the index has exactly one row per tag per listed entry, and if the old table already agreed with the entries every search answers as before; on failure the index is unchanged, and the cause is a DB error or a listed entry that cannot be read; an unreadable entry always fails it, and when every entry reads and each listed date has one file in years 0 to 9999, it succeeds |
| Diaries.Diary.DatesReadable | src/diary.rs:131-140 | when the text of every listed date reads, every entry the store lists can be read |
| Diaries.Diary.ListedOnceKeys | src/diary.rs:130-143 | when each listed date has one file, the rows built for the listed entries repeat nothing, so `recreate_index` cannot meet the unique constraint |
| Diaries.Diary.AgreeingTablesSearchAlike | tests/tagindex_tests.rs:29-55 | two tables that agree with the entries answer every search with the same keys, each as often, so a reindex changes no search result |
| EntryLists.OrderOfMagnitude | src/bin.rs:250-253 | `order_of_magnitude`: 0 for 0, else the m with 10^m ≤ n < 10^(m+1) |
| EntryLists.OrderOfMagnitudeUnique | src/bin.rs:250-253 | any m with 10^m ≤ n < 10^(m+1) is the order of magnitude |
| EntryLists.OrderOfMagnitudeDigits | src/bin.rs:250-253 | the order of magnitude of a positive number is one less than its number of digits |
| EntryLists.Reverse | src/bin.rs:239 | `reverse` puts element i at position len − 1 − i |
| EntryLists.ReverseReverse | src/bin.rs:239 | reversing twice gives the original |
| EntryLists.ArrangeAt | src/bin.rs:236-242 | after ordering, line i is line i before it for EarliestFirst, and line len − 1 − i for LatestFirst |
| EntryLists.MakeEntryList | src/bin.rs:204-243 | one line per key, and no lines for no keys |
| EntryLists.EntryListLine | src/bin.rs:204-243 | line i is the key line of the key at position i (EarliestFirst) or len − 1 − i (LatestFirst): the numbered line, or the bare key for Plain |
| EntryLists.NumberedLineReads | src/bin.rs:215 | a numbered line is the number padded to the width, a space, and the key; the padding trims away and the number reads back |
| EntryLists.PlainLinesParse | src/bin.rs:234 | each plain line of keys in their printed form parses back to its key |
| EntryLists.ReverseEnumerationLatestFirst | src/bin.rs:219-242 | reverse numbering listed latest first is plain numbering of the reversed keys listed earliest first |
| EntryLists.TwoKeyListings | src/bin.rs:482-549 | two keys list as the tests expect in each of the four option and ordering combinations tested |
| EntryLists.MisalignedAtTen | src/bin.rs:211 | with ten keys the column width is 1: line 1's key starts at column 2 but line 10's starts at column 3 |
| EntryLists.NumberWidth | src/bin.rs:250-253 | the corrected width: the number of digits of the count |
| EntryLists.MakeAlignedEntryList | src/bin.rs:204-243 | one line per key, with the corrected width |
| EntryLists.AlignedKeyColumn | src/bin.rs:210-233 | with the corrected width every key starts in the same column, and the number in front reads back as the line's number |
| EntryLists.ShowByNumberAsWritten | src/bin.rs:258-277 | the entry `show_entry` looks up by number, indexing as written, is one of the keys |
| EntryLists.ShowAsWrittenOutcomes | src/bin.rs:258-277 | as written, number 0 makes the lookup panic and a number above the count is refused |
| EntryLists.ZeroPassesCheck | src/bin.rs:315-320 | number 0 passes `check_entry_number`, and the lookup after it then panics |
| EntryLists.ValidEntryNumber | src/bin.rs:315-320 | the corrected check: it accepts exactly 1 to the count, and only numbers the original check accepts |
| EntryLists.NumberedIndex | src/bin.rs:262 | a valid number gives an index inside the keys: counting from the first, number n is index n - 1; counting from the last, it is n places from the end |
| EntryLists.ShowByNumber | src/bin.rs:258-277 | the corrected lookup shows an entry exactly for 1 to the count and refuses every other number as invalid; the entry shown is the number-th key from the start or from the end |
| EntryLists.ShowCorrectionAgrees | src/bin.rs:258-277 | the corrected lookup agrees with the one as written on every number but 0 |
| EntryLists.ShownIsNumbered | src/bin.rs:258-277 | the entry shown for a number is the one listed with that number |
| EntryLists.ShowLatest | src/bin.rs:278-283 | without a number the last key is shown, when there is one, and nothing is shown only when there are no keys |
| EntryLists.LatestIsNumberOneFromLast | src/bin.rs:268-283 | the latest entry is the one reverse-numbered 1 |

## Left out

- File contents, directories and the database are models. `Disk` stands in for the filesystem. The SQL table is a sequence of rows standing in for SQLite.
- I/O errors other than a missing file, and permissions, are not modelled. `Disk` only fails on a conflict between a file and a directory.
- Text decoding (`String::from_utf8`) is not modelled. A file is either text or marked undecodable.
- Path names that are not UTF-8 are not modelled.
- Directory listing order is not modelled. `collect_files` visits the files in some order, with each file once.
- `TagIndex::recreate_index` is not part of this model: src/index/tags.rs does not define it.
  - `TagIndexes.TagIndex.RecreateIndex` gives it a contract of its own: the table becomes the rows of the pairs, or is left as it was when they repeat.
- Two things about SQLite transactions are assumptions:
  - A failed `set_tags` leaves its transaction open, with the rows inserted before the failure.
  - A later call then fails.
- `Connection::open` fails only when the database's path is a directory.
- The system clock is not read. `Diaries.Diary.AddEntry` takes the time as `now`, the way `Diary::open_custom` takes a clock.
- Diaries.Diary.Reindex: success is promised only when every listed date has one file and a year in 0 to 9999. Two files whose names read as the same minute give two entries with the same database key, and then the rows can repeat; outside the promise the model states only that a DB error comes from repeated rows. The year clause is there because `TagIndexes.DbKeyInjective` and `TagIndexes.DbKeyRoundTrip` are proved only for years 0 to 9999, not because keys with other years collide; years above 9999 are never listed anyway (`FileRepo.LargeYearNotKept`).
- `Diary::open` is not modelled. It is `open_custom` with the system clock.
- chrono is modelled only as far as the three formats use it. Its lenient scanning is modelled: a numeric field skips leading whitespace and takes one up to its width of digits (`%Y` one to four, or a sign and any number), `%z` allows any run of `:` and whitespace between hours and minutes, and a whitespace item skips all whitespace. Other items, other `%z` spellings (such as `Z`), padding modifiers and formats other than these three are left out.
- File names and database keys do not round-trip for years outside 0 to 9999: such a year prints with a sign, and `%Y` with a sign then reads on through the month digits that follow it directly. The entry-key text puts a `-` after the year, so a signed year there is followed by a stop; still, the entry-key round-trip lemmas (`EntryKeys.ParseToString`, `EntryKeys.CanonicalRoundTrip`) are proved only for years 0 to 9999, like those of the other two formats.
  - `FileRepo.LargeYearNotKept` states what becomes of an entry with a larger year.
- Seconds are kept in `DateTime`, but the formats drop them. The round-trips state the truncation.
- Sub-second precision is not modelled. `Utc::now()` carries nanoseconds and `DiaryEntryKey` equality compares them; `DateTime` stops at seconds, so two clock readings within one second are the same key here.
- Rows come back from a query in table order, that is insertion order. This is an assumption: SQLite promises no order without `ORDER BY`. The lemmas that state order (`TagIndexes.SearchAfterTwoEntries`) rest on it; `TagIndexes.SearchPermutation` states what holds in any order.
- The database file is kept off the `Disk`. `Connection::open` creates root/index.sqlite, but `TagIndexes.TagIndex.New` leaves `disk.files` alone; the table stands for that file's content.
- TagIndexes.SearchAfterTwoEntries: the tags of the test's two texts are given as the sorted lists `find_tags` reports for them, not derived from the texts.
- `Strings.IsAlphanumeric` covers ASCII letters and digits only, not Unicode's alphanumerics.
- `TagParser.Sort` is an insertion sort on a sequence, proved sorted and a permutation. Rust's library sort is not modelled.
- `Diaries.SortDates` stands in for `sort_unstable` the same way.
- With `Append`, the index records only the new content's tags, not those of the older text kept in the file. This is what the code does, and `Diaries.Diary.AddEntry` states it.
- Error payloads (the `io::Error`, the `rusqlite::Error`, the parse error's text) are not modelled. Each error is modelled by its kind only.
- EntryLists.OrderOfMagnitude: an integer floor of log10 stands in for the floating-point `log10` and cast of `order_of_magnitude`. Rounding can make the two differ only for counts just below a power of ten above 10^14, and that is not modelled.
- `EntryLists.MakeEntryList` is a function on sequences. The in-place `Vec::reverse` is modelled as reversing a sequence.
- Parsing the entry number is not modelled: `usize::from_str_radix`, and the error and exit when it fails.
- Picking an entry by date is not modelled: `parse_date_param` with local time.
- Printing and `process::exit` are not modelled. A refused number is the outcome `InvalidEntryNumber`, and a panic is `IndexPanic`.
- Not part of this model, being outside the core: src/entryinput.rs, src/diarydir.rs, src/clidiary.rs, src/lib.rs and src/model/diaryentry.rs. In src/bin.rs, everything except the listing and the `show_entry` lookup is also left out.
- `Display` for the error types is not modelled.
- TagIndexes.TagIndex.SetTags: a failing `prepare` or a failing `COMMIT` is not modelled.

## Findings

| source | as written | input that shows it | evidently intended | confidence | as-written member | corrected member |
|---|---|---|---|---|---|---|
| src/bin.rs:315-320 | `check_entry_number` only refuses numbers above the count. `show_entry` then reads `keys[number - 1]` or `keys[keys.len() - number]`, so number 0 underflows or indexes past the end and panics | `show --number 0` (or `--number-reverse 0`) on any diary | refuse 0 with "Invalid entry number", like the numbers above the count | high, not executed | EntryLists.ZeroPassesCheck | EntryLists.ShowByNumber |
| src/bin.rs:250-253 | the number column is `order_of_magnitude(count)` wide, one less than the count's number of digits. From ten entries on, the widest numbers overflow the column and push their keys one place right | a listing of 10 keys with `Enumerate` | a column as wide as the largest number, so every key starts in the same column | medium, not executed | EntryLists.MisalignedAtTen | EntryLists.AlignedKeyColumn |
