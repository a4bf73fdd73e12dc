/**
 * The date-addressed file store. An entry for date-time dt lives at
 * <root>/<year padded to 4>/<month padded to 2>/<dt rendered as %Y%m%dT%H%M>; listing walks
 * every file below the root and keeps those whose two parent directories repeat the year and
 * month the file name starts with.
 */
module FileRepo {
  import opened Wrappers
  import opened Numerals
  import opened Chrono
  import opened Strftime

  /** A path, as its components below the filesystem root ("/a/b" is ["a", "b"]). */
  type Path = seq<string>

  /** What a file holds: text that is valid UTF-8, or bytes that are not. */
  datatype Content = Text(text: string) | Undecodable

  /** The io::ErrorKind values the filesystem operations below can fail with. */
  datatype IoErrorKind = NotFound | IsADirectory | NotADirectory | AlreadyExists

  datatype FileRepoError =
    | BadPathError(path: Path)
    | EntryNotFound(date: DateTime)
    | IoError(kind: IoErrorKind)
    | NameParseError(name: string)
    | EntryContentDecodingError

  /** How preparing a store root ends: ready, refused because a file is there, or an I/O error. */
  datatype RootCheck = RootReady | RootIsFile | RootIoError(kind: IoErrorKind)

  /** p with its last component removed. */
  function Parent(p: Path): Path
    requires p != []
  {
    p[..|p| - 1]
  }

  /** p and every directory above it, down to the filesystem root []. */
  function Prefixes(p: Path): set<Path>
  {
    set i | 0 <= i <= |p| :: p[..i]
  }

  /** p lies strictly below dir. */
  predicate IsBelow(p: Path, dir: Path)
  {
    |dir| < |p| && p[..|dir|] == dir
  }

  /** The filesystem: the files and their contents, and the set of directories. */
  class Disk {
    var files: map<Path, Content>
    var dirs: set<Path>

    /** A filesystem tree: the root is a directory, every directory's ancestors are directories,
      * every file sits in a directory, and nothing is both a file and a directory. */
    predicate Valid()
      reads this
    {
      [] in dirs
      && (forall d, i :: d in dirs && 0 <= i <= |d| ==> d[..i] in dirs)
      && (forall f :: f in files ==> f != [] && Parent(f) in dirs && f !in dirs)
    }

    constructor ()
      ensures files == map[] && dirs == {[]} && Valid()
    {
      files := map[];
      dirs := {[]};
    }

    predicate Exists(p: Path)
      reads this
    {
      p in files || p in dirs
    }

    /** Some proper ancestor of p is a file. */
    predicate FileAbove(p: Path)
      reads this
    {
      exists i :: 0 <= i < |p| && p[..i] in files
    }

    /** fs::read: the file's content, or the error kind the OS reports. */
    function Read(p: Path): (r: Result<Content, IoErrorKind>)
      reads this
      ensures r.Ok? <==> p in files
      ensures r.Ok? ==> r.value == files[p]
    {
      if p in files then Ok(files[p])
      else if p in dirs then Err(IsADirectory)
      else if FileAbove(p) then Err(NotADirectory)
      else Err(NotFound)
    }

    /** fs::create_dir_all: makes p and its missing ancestors directories, unless a file is in the way. */
    method CreateDirAll(p: Path) returns (r: Result<(), IoErrorKind>)
      modifies this
      ensures files == old(files)
      ensures r.Ok? <==> forall i :: 0 <= i <= |p| ==> p[..i] !in old(files)
      ensures r.Ok? ==> dirs == old(dirs) + Prefixes(p)
      ensures r.Err? ==> dirs == old(dirs)
      ensures old(Valid()) ==> Valid()
    {
      if p in files {
        return Err(AlreadyExists);
      }
      if FileAbove(p) {
        return Err(NotADirectory);
      }
      assert p == p[..|p|];
      dirs := dirs + Prefixes(p);
      r := Ok(());
      if old(Valid()) {
        forall d, i | d in dirs && 0 <= i <= |d|
          ensures d[..i] in dirs
        {
          if d in Prefixes(p) {
            var j :| 0 <= j <= |p| && d == p[..j];
            assert d[..i] == p[..i];
          }
        }
        assert forall j :: 0 <= j <= |p| ==> p[..j] !in files by {
          assert p[..|p|] == p;
        }
      }
    }

    /** fs::write: creates or truncates the file p and writes text; its directory must exist. */
    method Write(p: Path, text: string) returns (r: Result<(), IoErrorKind>)
      modifies this
      ensures dirs == old(dirs)
      ensures r.Ok? <==> p != [] && p !in old(dirs) && Parent(p) in old(dirs)
      ensures r.Ok? ==> files == old(files)[p := Text(text)]
      ensures r.Err? ==> files == old(files)
      ensures old(Valid()) ==> Valid()
    {
      if p in dirs {
        return Err(IsADirectory);
      }
      if p == [] || Parent(p) !in dirs {
        return Err(if FileAbove(p) then NotADirectory else NotFound);
      }
      files := files[p := Text(text)];
      r := Ok(());
    }

    /**
     * The root check shared by Tree::new and TagIndex::new: a root that exists but is not a
     * directory is refused; a missing root is created with its ancestors.
     */
    method PrepareRoot(root: Path) returns (r: RootCheck)
      modifies this
      ensures files == old(files)
      ensures r == RootIsFile <==> old(Exists(root)) && root !in old(dirs)
      ensures r == RootIsFile ==> dirs == old(dirs)
      ensures r == RootReady ==> root in dirs
      ensures root in old(dirs) ==> r == RootReady && dirs == old(dirs)
      ensures r.RootIoError? ==> dirs == old(dirs)
      ensures !old(Exists(root)) && r == RootReady ==> dirs == old(dirs) + Prefixes(root)
      ensures !old(Exists(root)) ==> (r == RootReady <==> !old(FileAbove(root)))
      ensures old(Valid()) ==> Valid()
    {
      if Exists(root) && root !in dirs {
        return RootIsFile;
      }
      if !Exists(root) {
        assert root == root[..|root|];
        var created := CreateDirAll(root);
        if created.Err? {
          return RootIoError(created.error);
        }
      }
      r := RootReady;
    }

    /** Every file strictly below dir, when dir is a directory: the files visit_dirs reaches. */
    function FilesBelow(dir: Path): (fs: set<Path>)
      reads this
      ensures forall p :: p in fs <==> dir in dirs && p in files && IsBelow(p, dir)
    {
      if dir in dirs then set p | p in files.Keys && IsBelow(p, dir) else {}
    }
  }

  /** FILE_NAME_FORMAT, "%Y%m%dT%H%M". */
  const FileNameFormat: seq<Item> := [Year, Month, Day, Literal('T'), Hour, Minute]

  lemma FileNameFormatComplete()
    ensures Complete(FileNameFormat) && TimezoneOffset !in FileNameFormat
  {
    assert FileNameFormat[0] == Year && FileNameFormat[1] == Month && FileNameFormat[2] == Day;
    assert FileNameFormat[4] == Hour && FileNameFormat[5] == Minute;
  }

  /** std's `{:04}` on a signed integer: zero-padded to four characters, the sign counted. */
  function PaddedYear(y: int): string
  {
    if y >= 0 then PadLeft(Decimal(y), 4, '0') else "-" + PadLeft(Decimal(-y), 3, '0')
  }

  /** file_directory: the year and month directories of dt, written `{:04}` and `{:02}`. */
  function FileDirectory(dt: DateTime): (p: Path)
    requires Valid(dt)
    ensures |p| == 2
  {
    [PaddedYear(dt.year), PadLeft(Decimal(dt.month), 2, '0')]
  }

  /** format_file_name: dt rendered with FILE_NAME_FORMAT. */
  function FormatFileName(dt: DateTime): string
    requires Valid(dt)
  {
    Format(FileNameFormat, dt, ZoneText(0, ""))
  }

  /** file_path: the entry's location relative to the store root. */
  function FilePath(dt: DateTime): (p: Path)
    requires Valid(dt)
    ensures |p| == 3 && p[..2] == FileDirectory(dt) && p[2] == FormatFileName(dt)
  {
    FileDirectory(dt) + [FormatFileName(dt)]
  }

  /** name.chars().take(n), and name.chars().skip(a).take(n). */
  function Take(name: string, n: nat): string
  {
    if |name| <= n then name else name[..n]
  }

  function Skip(name: string, a: nat): string
  {
    if |name| <= a then [] else name[a..]
  }

  /**
   * The filter of collect_files: a file is kept when it has a parent and a grandparent directory
   * (with names) and the grandparent's name is the file name's first four characters, the
   * parent's name the next two.
   */
  predicate Kept(fp: Path)
  {
    |fp| >= 3
    && fp[|fp| - 3] == Take(fp[|fp| - 1], 4)
    && fp[|fp| - 2] == Take(Skip(fp[|fp| - 1], 4), 2)
  }

  /** FileRepoError::from_ioerror: a missing file is EntryNotFound for dt, anything else an IoError. */
  function FromIoError(kind: IoErrorKind, dt: DateTime): (e: FileRepoError)
    ensures e.EntryNotFound? <==> kind == NotFound
    ensures e.EntryNotFound? ==> e.date == dt
    ensures !e.EntryNotFound? ==> e == IoError(kind)
  {
    if kind == NotFound then EntryNotFound(dt) else IoError(kind)
  }

  /** collect_dates after the walk: every name that parses as a UTC %Y%m%dT%H%M, in order; the rest are dropped. */
  function DatesOf(names: seq<string>): (ds: seq<DateTime>)
    ensures |ds| <= |names|
    ensures forall dt :: dt in ds <==> exists n :: n in names && UtcFromStr(FileNameFormat, n) == Some(dt)
  {
    if names == [] then []
    else
      var rest := DatesOf(names[1..]);
      assert forall n :: n in names <==> n == names[0] || n in names[1..];
      match UtcFromStr(FileNameFormat, names[0])
      case Some(dt) => [dt] + rest
      case None => rest
  }

  /** The last component of a path: a file's name, or "" for the filesystem root. */
  function Name(p: Path): string
  {
    if p == [] then "" else p[|p| - 1]
  }

  /** The names of the paths, in order. */
  function Names(ps: seq<Path>): (ns: seq<string>)
    ensures |ns| == |ps| && forall i :: 0 <= i < |ps| ==> ns[i] == Name(ps[i])
  {
    if ps == [] then [] else [Name(ps[0])] + Names(ps[1..])
  }

  /** The file at p is named after dt in FILE_NAME_FORMAT. */
  predicate NamedAs(p: Path, dt: DateTime)
  {
    UtcFromStr(FileNameFormat, Name(p)) == Some(dt)
  }

  /** The paths among ps whose name parses as dt. */
  function NamedIn(ps: seq<Path>, dt: DateTime): set<Path>
  {
    set p | p in ps && NamedAs(p, dt)
  }

  /** Read from distinct paths, a date appears once for every path whose name parses as it. */
  lemma {:induction false} DatesOfCount(ps: seq<Path>, dt: DateTime)
    requires forall i, j :: 0 <= i < j < |ps| ==> ps[i] != ps[j]
    ensures multiset(DatesOf(Names(ps)))[dt] == |NamedIn(ps, dt)|
  {
    if ps != [] {
      var tail := ps[1..];
      DatesOfCount(tail, dt);
      DatesOfCons(Names(ps), dt);
      assert Names(ps)[1..] == Names(tail);
      assert ps[0] !in tail by {
        forall i | 0 <= i < |tail|
          ensures tail[i] != ps[0]
        {
          assert tail[i] == ps[i + 1];
        }
      }
      NamedInCons(ps, dt);
    }
  }

  /** The head name counts once towards its date, and only when it parses. */
  lemma DatesOfCons(names: seq<string>, dt: DateTime)
    requires names != []
    ensures multiset(DatesOf(names))[dt]
      == (if UtcFromStr(FileNameFormat, names[0]) == Some(dt) then 1 else 0) + multiset(DatesOf(names[1..]))[dt]
  {
  }

  lemma NamedInCons(ps: seq<Path>, dt: DateTime)
    requires ps != [] && ps[0] !in ps[1..]
    ensures |NamedIn(ps, dt)| == (if NamedAs(ps[0], dt) then 1 else 0) + |NamedIn(ps[1..], dt)|
  {
    var here, there := NamedIn(ps, dt), NamedIn(ps[1..], dt);
    assert forall p :: p in ps <==> p == ps[0] || p in ps[1..];
    if NamedAs(ps[0], dt) {
      assert here == there + {ps[0]};
    } else {
      assert here == there;
    }
  }

  /** The date store rooted at a directory of the disk. */
  class Tree {
    const root: Path
    const disk: Disk

    constructor (root: Path, disk: Disk)
      ensures this.root == root && this.disk == disk
    {
      this.root := root;
      this.disk := disk;
    }

    /** Tree::new: refuses a root that exists and is not a directory, creates a missing one. */
    static method New(disk: Disk, root: Path) returns (r: Result<Tree, FileRepoError>)
      modifies disk
      ensures disk.files == old(disk.files)
      ensures r == Err(BadPathError(root)) <==> old(disk.Exists(root)) && root !in old(disk.dirs)
      ensures r.Ok? ==> r.value.root == root && r.value.disk == disk && root in disk.dirs
      ensures r.Err? ==> disk.dirs == old(disk.dirs) && (r.error.BadPathError? || r.error.IoError?)
      ensures root in old(disk.dirs) ==> r.Ok? && disk.dirs == old(disk.dirs)
      ensures !old(disk.Exists(root)) && r.Ok? ==> disk.dirs == old(disk.dirs) + Prefixes(root)
      ensures r.Ok? <==> root in old(disk.dirs) || (!old(disk.Exists(root)) && !old(disk.FileAbove(root)))
      ensures old(disk.Valid()) ==> disk.Valid()
    {
      var check := disk.PrepareRoot(root);
      match check
      case RootIsFile => r := Err(BadPathError(root));
      case RootIoError(kind) => r := Err(IoError(kind));
      case RootReady =>
        var tree := new Tree(root, disk);
        r := Ok(tree);
    }

    /** Some kept file below the root has a name that parses as dt. */
    predicate Lists(dt: DateTime)
      reads disk
    {
      exists p :: p in disk.FilesBelow(root) && Kept(p) && UtcFromStr(FileNameFormat, p[|p| - 1]) == Some(dt)
    }

    /** The kept files below the root whose name parses as dt: one listed date each. */
    function ListedFiles(dt: DateTime): set<Path>
      reads disk
    {
      set p | p in disk.FilesBelow(root) && Kept(p) && NamedAs(p, dt)
    }

    /**
     * add_entry can store an entry for dt: no file stands where its year and month directories
     * go, nor above them, and its own path is not a directory.
     */
    predicate CanAdd(dt: DateTime)
      requires Valid(dt)
      reads disk
    {
      (forall i :: 0 <= i <= |root + FileDirectory(dt)| ==> (root + FileDirectory(dt))[..i] !in disk.files)
      && EntryPath(dt) !in disk.dirs
    }

    /** Where the entry for dt is stored. */
    function EntryPath(dt: DateTime): Path
      requires Valid(dt)
    {
      root + FilePath(dt)
    }

    /**
     * get_text: the entry's text. A missing file is EntryNotFound(dt), any other read failure an
     * IoError, content that is not UTF-8 an EntryContentDecodingError.
     */
    function GetText(dt: DateTime): (r: Result<string, FileRepoError>)
      requires Valid(dt)
      reads disk
      ensures r.Ok? <==> EntryPath(dt) in disk.files && disk.files[EntryPath(dt)].Text?
      ensures r.Ok? ==> r.value == disk.files[EntryPath(dt)].text
      ensures r == Err(EntryContentDecodingError) <==> EntryPath(dt) in disk.files && disk.files[EntryPath(dt)].Undecodable?
      ensures r == Err(EntryNotFound(dt)) <==> disk.Read(EntryPath(dt)) == Err(NotFound)
      ensures r.Err? ==> r.error.EntryNotFound? || r.error.IoError? || r.error == EntryContentDecodingError
    {
      match disk.Read(EntryPath(dt))
      case Err(kind) => Err(FromIoError(kind, dt))
      case Ok(Text(s)) => Ok(s)
      case Ok(Undecodable) => Err(EntryContentDecodingError)
    }

    /**
     * add_entry: creates the year and month directories, then replaces the file with text.
     * No other file changes; a failure is an IoError.
     */
    method AddEntry(dt: DateTime, text: string) returns (r: Result<(), FileRepoError>)
      requires Valid(dt)
      modifies disk
      ensures r.Ok? <==> old(CanAdd(dt))
      ensures r.Ok? ==> disk.files == old(disk.files)[EntryPath(dt) := Text(text)]
      ensures r.Ok? ==> disk.dirs == old(disk.dirs) + Prefixes(root + FileDirectory(dt))
      ensures r.Err? ==> disk.files == old(disk.files) && r.error.IoError?
      ensures old(disk.dirs) <= disk.dirs
      ensures r.Ok? ==> GetText(dt) == Ok(text)
      ensures old(disk.Valid()) ==> disk.Valid()
    {
      var dir := root + FileDirectory(dt);
      var created := disk.CreateDirAll(dir);
      if created.Err? {
        return Err(IoError(created.error));
      }
      var path := dir + [FormatFileName(dt)];
      assert path == EntryPath(dt) && Parent(path) == dir;
      assert dir == dir[..|dir|];
      assert path !in Prefixes(dir);
      var written := disk.Write(path, text);
      if written.Err? {
        return Err(IoError(written.error));
      }
      assert disk.Read(path) == Ok(Text(text));
      r := Ok(());
    }

    /**
     * collect_files: the name of every kept file below the root, in the walk's order. The walk
     * order (read_dir's) is unspecified, so the files are taken in an arbitrary order; visited
     * lists the kept paths in that order, each once.
     */
    method CollectFiles() returns (names: seq<string>, ghost visited: seq<Path>)
      ensures |names| == |visited|
      ensures forall i :: 0 <= i < |visited| ==> visited[i] != [] && names[i] == visited[i][|visited[i]| - 1]
      ensures forall p :: p in visited <==> p in disk.FilesBelow(root) && Kept(p)
      ensures forall i, j :: 0 <= i < j < |visited| ==> visited[i] != visited[j]
    {
      var todo := disk.FilesBelow(root);
      names, visited := [], [];
      while todo != {}
        invariant todo <= disk.FilesBelow(root)
        invariant |names| == |visited|
        invariant forall i :: 0 <= i < |visited| ==> visited[i] != [] && names[i] == visited[i][|visited[i]| - 1]
        invariant forall p :: p in visited <==> p in disk.FilesBelow(root) && p !in todo && Kept(p)
        invariant forall i, j :: 0 <= i < j < |visited| ==> visited[i] != visited[j]
        decreases |todo|
      {
        var fp :| fp in todo;
        todo := todo - {fp};
        if Kept(fp) {
          names := names + [fp[|fp| - 1]];
          visited := visited + [fp];
        }
      }
    }

    /**
     * list (collect_dates): the date of every kept file below the root whose name parses as
     * %Y%m%dT%H%M, in the walk's order; names that do not parse are dropped, never an error. A
     * date is listed once for each kept file named after it: two names that chrono's lenient
     * scan reads as the same minute give that date twice.
     */
    method List() returns (dates: seq<DateTime>, ghost visited: seq<Path>)
      ensures forall p :: p in visited <==> p in disk.FilesBelow(root) && Kept(p)
      ensures forall i, j :: 0 <= i < j < |visited| ==> visited[i] != visited[j]
      ensures dates == DatesOf(Names(visited))
      ensures forall dt :: multiset(dates)[dt] == |ListedFiles(dt)|
      ensures forall dt :: dt in dates <==> Lists(dt)
      ensures forall dt :: dt in dates ==> Valid(dt) && dt.second == 0
      ensures |dates| <= |disk.FilesBelow(root)|
    {
      var names;
      names, visited := CollectFiles();
      assert names == Names(visited);
      dates := DatesOf(names);
      ListingCount(visited);
      forall dt
        ensures dt in dates <==> Lists(dt)
      {
        if dt in dates {
          var n :| n in names && UtcFromStr(FileNameFormat, n) == Some(dt);
          var i :| 0 <= i < |names| && names[i] == n;
          assert visited[i] in disk.FilesBelow(root) && Kept(visited[i]);
        }
        if Lists(dt) {
          var p :| p in disk.FilesBelow(root) && Kept(p) && UtcFromStr(FileNameFormat, p[|p| - 1]) == Some(dt);
          var i :| 0 <= i < |visited| && visited[i] == p;
          assert names[i] in names;
        }
      }
      DistinctBound(visited, disk.FilesBelow(root));
    }

    /** A date is listed exactly when some kept file is named after it. */
    lemma ListedFilesOfLists(dt: DateTime)
      ensures Lists(dt) <==> |ListedFiles(dt)| > 0
    {
      if Lists(dt) {
        var p :| p in disk.FilesBelow(root) && Kept(p) && UtcFromStr(FileNameFormat, p[|p| - 1]) == Some(dt);
        assert p in ListedFiles(dt);
      }
      if |ListedFiles(dt)| > 0 {
        var p :| p in ListedFiles(dt);
      }
    }

    /** A walk that visits each kept file once lists each date once per file named after it. */
    lemma ListingCount(visited: seq<Path>)
      requires forall p :: p in visited <==> p in disk.FilesBelow(root) && Kept(p)
      requires forall i, j :: 0 <= i < j < |visited| ==> visited[i] != visited[j]
      ensures forall dt :: multiset(DatesOf(Names(visited)))[dt] == |ListedFiles(dt)|
    {
      forall dt
        ensures multiset(DatesOf(Names(visited)))[dt] == |ListedFiles(dt)|
      {
        DatesOfCount(visited, dt);
        VisitedNamedIn(visited, dt);
      }
    }

    /** The visited files named after dt are the kept files named after it. */
    lemma VisitedNamedIn(visited: seq<Path>, dt: DateTime)
      requires forall p :: p in visited <==> p in disk.FilesBelow(root) && Kept(p)
      ensures NamedIn(visited, dt) == ListedFiles(dt)
    {
      forall p
        ensures p in NamedIn(visited, dt) <==> p in ListedFiles(dt)
      {
        assert p in visited <==> p in disk.FilesBelow(root) && Kept(p);
      }
    }
  }

  /** A sequence without repeats drawn from a set is no longer than the set. */
  lemma {:induction false} DistinctBound(xs: seq<Path>, s: set<Path>)
    requires forall x :: x in xs ==> x in s
    requires forall i, j :: 0 <= i < j < |xs| ==> xs[i] != xs[j]
    ensures |xs| <= |s|
    decreases |xs|
  {
    if xs != [] {
      var last := xs[|xs| - 1];
      var init := xs[..|xs| - 1];
      assert last !in init by {
        forall i | 0 <= i < |init|
          ensures init[i] != last
        {
          assert init[i] == xs[i];
        }
      }
      forall x | x in init
        ensures x in s - {last}
      {
        var i :| 0 <= i < |init| && init[i] == x;
        assert xs[i] == x;
      }
      DistinctBound(init, s - {last});
    }
  }

  /** Leading zeros do not change the value of a digit string. */
  lemma {:induction false} ValueOfZerosPrefix(z: string, t: string)
    requires forall i :: 0 <= i < |z| ==> z[i] == '0'
    requires AllDigits(t)
    ensures AllDigits(z + t) && ValueOf(z + t) == ValueOf(t)
    decreases |t|
  {
    if t == [] {
      assert z + t == z;
      ZerosValue(z);
    } else {
      var u := t[..|t| - 1];
      ValueOfZerosPrefix(z, u);
      assert (z + t)[..|z + t| - 1] == z + u;
    }
  }

  lemma {:induction false} ZerosValue(z: string)
    requires forall i :: 0 <= i < |z| ==> z[i] == '0'
    ensures AllDigits(z) && ValueOf(z) == 0
  {
    if z != [] {
      ZerosValue(z[..|z| - 1]);
    }
  }

  /** std's zero padding of a decimal agrees with chrono's fixed-width field, for values that fit. */
  lemma PadDecimalIsFixed(n: nat, w: nat)
    requires 1 <= w && n < Pow10(w)
    ensures PadLeft(Decimal(n), w, '0') == Fixed(n, w)
  {
    var d := Decimal(n);
    DecimalLength(n, |d|);
    if |d| > w {
      Pow10Monotone(w, |d| - 1);
    }
    PadZeros(d, w);
    ValueOfDecimal(n);
    FixedOfValue(PadLeft(d, w, '0'), n);
  }

  /** Zeros in front of a numeral keep its value. */
  lemma PadZeros(d: string, w: nat)
    requires AllDigits(d) && |d| <= w
    ensures |PadLeft(d, w, '0')| == w && AllDigits(PadLeft(d, w, '0')) && ValueOf(PadLeft(d, w, '0')) == ValueOf(d)
  {
    var s := PadLeft(d, w, '0');
    PadLeftParts(d, w, '0');
    var z := s[..|s| - |d|];
    assert s == z + d;
    ValueOfZerosPrefix(z, d);
  }

  /** A numeral is the fixed-width rendering of its value. */
  lemma FixedOfValue(s: string, n: nat)
    requires AllDigits(s) && ValueOf(s) == n
    ensures n < Pow10(|s|) && Fixed(n, |s|) == s
  {
    FixedValueOf(s);
  }

  /** The file name, field by field: "YYYYMMDDTHHMM" for a year of four digits. */
  lemma FileNameLayout(dt: DateTime)
    requires Valid(dt) && 0 <= dt.year <= 9999
    ensures FormatFileName(dt) == Fixed(dt.year, 4) + (Fixed(dt.month, 2) + (Fixed(dt.day, 2)
      + ("T" + (Fixed(dt.hour, 2) + Fixed(dt.minute, 2)))))
  {
    var z := ZoneText(0, "");
    FileTimeLayout(dt, z);
    FileDateLayout(dt, z, [Literal('T'), Hour, Minute]);
    assert FileNameFormat == [Year, Month, Day] + [Literal('T'), Hour, Minute];
  }

  lemma FileTimeLayout(dt: DateTime, zone: string)
    requires Valid(dt)
    ensures Format([Literal('T'), Hour, Minute], dt, zone) == "T" + (Fixed(dt.hour, 2) + Fixed(dt.minute, 2))
  {
    FormatCons(Minute, [], dt, zone);
    FormatCons(Hour, [Minute], dt, zone);
    FormatCons(Literal('T'), [Hour, Minute], dt, zone);
    assert Format([], dt, zone) == [];
    assert [Literal('T'), Hour, Minute] == [Literal('T')] + ([Hour] + [Minute]);
    assert Fixed(dt.minute, 2) + [] == Fixed(dt.minute, 2);
  }

  lemma FileDateLayout(dt: DateTime, zone: string, rest: seq<Item>)
    requires Valid(dt) && 0 <= dt.year <= 9999
    ensures Format([Year, Month, Day] + rest, dt, zone)
      == Fixed(dt.year, 4) + (Fixed(dt.month, 2) + (Fixed(dt.day, 2) + Format(rest, dt, zone)))
  {
    FormatCons(Day, rest, dt, zone);
    FormatCons(Month, [Day] + rest, dt, zone);
    FormatCons(Year, [Month] + ([Day] + rest), dt, zone);
    assert [Year, Month, Day] + rest == [Year] + ([Month] + ([Day] + rest));
  }

  /** The first four characters of a file name are the year, the next two the month. */
  lemma FileNameFields(dt: DateTime)
    requires Valid(dt) && 0 <= dt.year <= 9999
    ensures Take(FormatFileName(dt), 4) == Fixed(dt.year, 4)
    ensures Take(Skip(FormatFileName(dt), 4), 2) == Fixed(dt.month, 2)
  {
    FileNameLayout(dt);
    var name := FormatFileName(dt);
    var y, m := Fixed(dt.year, 4), Fixed(dt.month, 2);
    var tail := Fixed(dt.day, 2) + ("T" + (Fixed(dt.hour, 2) + Fixed(dt.minute, 2)));
    assert name == y + (m + tail);
    assert name[..4] == y;
    assert Skip(name, 4) == m + tail;
    assert Skip(name, 4)[..2] == m;
  }

  /** For a year of four digits the directories are <YYYY>/<MM>, as chrono writes those fields. */
  lemma FileDirectoryLayout(dt: DateTime)
    requires Valid(dt) && 0 <= dt.year <= 9999
    ensures FileDirectory(dt) == [Fixed(dt.year, 4), Fixed(dt.month, 2)]
  {
    PadDecimalIsFixed(dt.year, 4);
    PadDecimalIsFixed(dt.month, 2);
  }

  /**
   * For a year of four digits the location is <YYYY>/<MM>/<YYYYMMDDTHHMM>, and it passes the
   * filter of collect_files wherever the store root is.
   */
  lemma FilePathLayout(dt: DateTime, root: Path)
    requires Valid(dt) && 0 <= dt.year <= 9999
    ensures FilePath(dt) == [Fixed(dt.year, 4), Fixed(dt.month, 2), FormatFileName(dt)]
    ensures Kept(root + FilePath(dt))
  {
    FileDirectoryLayout(dt);
    FileNameFields(dt);
    var fp := root + FilePath(dt);
    var name := FormatFileName(dt);
    assert FilePath(dt) == [Fixed(dt.year, 4), Fixed(dt.month, 2), name];
    assert fp[|fp| - 3] == Fixed(dt.year, 4) && fp[|fp| - 2] == Fixed(dt.month, 2) && fp[|fp| - 1] == name;
  }

  /** A file name parses back to the minute it was made from. */
  lemma FileNameParses(dt: DateTime)
    requires Valid(dt) && 0 <= dt.year <= 9999
    ensures UtcFromStr(FileNameFormat, FormatFileName(dt)) == Some(dt.(second := 0))
  {
    FileNameFormatComplete();
    ParseOfFormat(FileNameFormat, dt, 0, "");
  }

  /**
   * Years past 9999: `{:04}` writes the bare digits while chrono's %Y writes a '+' first, so the
   * entry's own location fails the filter and the entry is never listed.
   */
  lemma LargeYearNotKept(dt: DateTime, root: Path)
    requires Valid(dt) && dt.year > 9999
    ensures !Kept(root + FilePath(dt))
  {
    var z := ZoneText(0, "");
    FormatCons(Year, [Month, Day, Literal('T'), Hour, Minute], dt, z);
    var name := FormatFileName(dt);
    assert name[0] == '+';
    var dir := PaddedYear(dt.year);
    var d := Decimal(dt.year);
    assert IsDigit(dir[0]) by {
      if |d| < 4 {
        assert dir[0] == '0';
      } else {
        assert dir == d;
      }
    }
    var fp := root + FilePath(dt);
    assert fp[|fp| - 3] == dir && fp[|fp| - 1] == name;
    assert Take(name, 4)[0] == '+';
  }

  /**
   * An entry stored at its location, for a year of four digits, is one the listing reports, at
   * minute precision.
   */
  lemma StoredEntryIsListed(tree: Tree, dt: DateTime)
    requires Valid(dt) && 0 <= dt.year <= 9999
    requires tree.root in tree.disk.dirs && tree.EntryPath(dt) in tree.disk.files
    ensures tree.Lists(dt.(second := 0))
  {
    var p := tree.EntryPath(dt);
    FilePathLayout(dt, tree.root);
    FileNameParses(dt);
    assert p[|p| - 1] == FormatFileName(dt);
    assert IsBelow(p, tree.root) by {
      assert p[..|tree.root|] == tree.root;
    }
    assert p in tree.disk.FilesBelow(tree.root);
  }
}
