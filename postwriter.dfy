/** The write-if-absent decision of scripts/makePost.js lines 76-90 over an
    in-memory file system, and the whole script (lines 13-90) run against it.
    `fs.existsSync` is membership in the directories or the files;
    `fs.mkdirSync` adds a directory; `fs.writeFile` adds a file, and fails
    when the parent path names a file rather than a directory. */
module PostWriter {
  import opened Wrappers
  import opened Padding
  import opened DevDiary
  import opened PostTemplate

  /** What a run of the script ends with. */
  datatype Outcome =
    | AlreadyExists                    // line 77: the post file is there already
    | Written(createdDirectory: bool)  // lines 81-88: the file is written, its folder made first if absent
    | ParentNotDirectory               // line 87: the write fails, the folder path names a file

  /** The directories and the files (path to contents) of the file system. */
  datatype FsState = FsState(dirs: set<string>, files: map<string, string>) {
    /** `fs.existsSync(p)`. */
    predicate Exists(p: string) {
      p in dirs || p in files
    }

    /** No path is both a directory and a file, and every file sits in a directory. */
    predicate Valid() {
      dirs !! files.Keys && forall p :: p in files ==> Dirname(p) in dirs
    }
  }

  /** Lines 76-90 for the post of `today` numbered `num`. */
  function Post(s: FsState, today: string, num: Option<nat>): (Outcome, FsState) {
    var path := PostPath(today, num);
    var directory := Dirname(path);
    if s.Exists(path) then (AlreadyExists, s)
    else if directory in s.files then (ParentNotDirectory, s)
    else (Written(directory !in s.dirs), FsState(s.dirs + {directory}, s.files[path := FileContent(today, num)]))
  }

  /** The whole script on the clock reading `year`, `month0` (0-11), `date`
      and on the listing `entries` of the blog root. */
  function Script(s: FsState, entries: seq<Dirent>, year: int, month0: int, date: int): (Outcome, FsState)
    requires 0 <= month0 < 12 && 1 <= date <= 31
  {
    Post(s, Today(year, month0, date), Latest(entries))
  }

  /** A post never breaks the file system's shape. */
  lemma PostKeepsValid(s: FsState, today: string, num: Option<nat>)
    requires s.Valid()
    ensures Post(s, today, num).1.Valid()
  {
    PostDirectory(today, num);
  }

  /** No file that was there changes, and no directory goes away; when the
      post file is there already, nothing at all changes. */
  lemma PostNeverOverwrites(s: FsState, today: string, num: Option<nat>)
    ensures var r := Post(s, today, num).1;
      && s.dirs <= r.dirs
      && (forall p :: p in s.files ==> p in r.files && r.files[p] == s.files[p])
    ensures s.Exists(PostPath(today, num)) ==> Post(s, today, num) == (AlreadyExists, s)
  {
  }

  /** When the post file is absent and its folder path does not name a file,
      the post is written, and the only changes are its folder and its file. */
  lemma PostWritesOneFile(s: FsState, today: string, num: Option<nat>)
    requires !s.Exists(PostPath(today, num)) && BlogRoot + PostDirName(today, num) !in s.files
    ensures Post(s, today, num).0.Written?
    ensures var r := Post(s, today, num).1;
      && r.files.Keys == s.files.Keys + {PostPath(today, num)}
      && r.files[PostPath(today, num)] == FileContent(today, num)
      && r.dirs == s.dirs + {BlogRoot + PostDirName(today, num)}
      && (Post(s, today, num).0.createdDirectory <==> BlogRoot + PostDirName(today, num) !in s.dirs)
  {
    PostDirectory(today, num);
  }

  /** When the post file is absent but its folder path names a file, the write
      fails and nothing changes. */
  lemma PostParentIsFile(s: FsState, today: string, num: Option<nat>)
    requires !s.Exists(PostPath(today, num)) && BlogRoot + PostDirName(today, num) in s.files
    ensures Post(s, today, num) == (ParentNotDirectory, s)
  {
    PostDirectory(today, num);
  }

  /** Posting the same post again changes nothing. */
  lemma PostTwice(s: FsState, today: string, num: Option<nat>)
    ensures var (o1, s1) := Post(s, today, num);
      Post(s1, today, num) == (if o1 == ParentNotDirectory then ParentNotDirectory else AlreadyExists, s1)
  {
    PostDirectory(today, num);
  }

  lemma WellNamedAppend(entries: seq<Dirent>, name: string)
    requires WellNamed(entries) && MatchNumber(name).Some?
    ensures WellNamed(entries + [Dirent(name, true)])
  {
    var e := entries + [Dirent(name, true)];
    forall j | 0 <= j < |e| && IsCandidate(e[j]) ensures MatchNumber(e[j].name).Some? {
      if j < |entries| {
        assert e[j] == entries[j];
      }
    }
  }

  /** In a well-named listing, adding a directory that carries the latest number
      leaves the latest number alone. */
  lemma LatestWithSameNumber(entries: seq<Dirent>, name: string, n: nat)
    requires WellNamed(entries) && Latest(entries) == Some(n) && MatchNumber(name) == Some(n)
    ensures Latest(entries + [Dirent(name, true)]) == Some(n)
  {
    var e := entries + [Dirent(name, true)];
    var last := |entries|;
    assert e[last] == Dirent(name, true);
    WellNamedAppend(entries, name);
    LatestIsLargest(e, last);
    var j := LatestFromListing(e);
    if j < last {
      assert e[j] == entries[j];
      LatestIsLargest(entries, j);
    } else {
      assert e[j].name == name;
    }
    assert Latest(e).value == n;
  }

  /** A well-named listing in which no number is found has no candidate at all. */
  lemma NoCandidates(entries: seq<Dirent>)
    requires WellNamed(entries) && Latest(entries) == None
    ensures forall j :: 0 <= j < |entries| ==> !IsCandidate(entries[j])
  {
    forall j | 0 <= j < |entries| ensures !IsCandidate(entries[j]) {
      if IsCandidate(entries[j]) {
        LatestIsLargest(entries, j);
      }
    }
  }

  /** A number found is found in a candidate directory of the listing. */
  lemma LatestCandidate(entries: seq<Dirent>)
    ensures Latest(entries).Some? ==>
      exists j :: 0 <= j < |entries| && IsCandidate(entries[j]) && MatchNumber(entries[j].name) == Latest(entries)
  {
    if Latest(entries).Some? {
      var j := LatestFromListing(entries);
      assert IsCandidate(entries[j]);
    }
  }

  /** Where every candidate directory carries the one name `name`, and that
      name does not match, no number is found. */
  lemma LatestOnlyUnmatched(entries: seq<Dirent>, name: string)
    requires MatchNumber(name) == None
    requires forall j :: 0 <= j < |entries| && IsCandidate(entries[j]) ==> entries[j].name == name
    ensures Latest(entries) == None
  {
    LatestCandidate(entries);
  }

  /** Where no number is found, adding a directory whose name does not match
      still leaves no number, wherever it is listed. */
  lemma LatestWithoutNumber(entries: seq<Dirent>, name: string, listing: seq<Dirent>)
    requires WellNamed(entries) && Latest(entries) == None && MatchNumber(name) == None
    requires multiset(listing) == multiset(entries + [Dirent(name, true)])
    ensures Latest(listing) == None
  {
    var e := entries + [Dirent(name, true)];
    NoCandidates(entries);
    assert forall i :: 0 <= i < |entries| ==> e[i] == entries[i];
    forall j | 0 <= j < |listing| && IsCandidate(listing[j]) ensures listing[j].name == name {
      assert listing[j] in multiset(e);
      var i :| 0 <= i < |e| && e[i] == listing[j];
    }
    LatestOnlyUnmatched(listing, name);
  }

  /** In a well-named listing, listing the new post's folder, in any position, leaves the found number as
      it was: the folder carries that very number, or "null" when there was none. */
  lemma LatestAfterPost(entries: seq<Dirent>, today: string, listing: seq<Dirent>)
    requires DateChars(today) && WellNamed(entries)
    requires multiset(listing) == multiset(entries + [Dirent(PostDirName(today, Latest(entries)), true)])
    ensures Latest(listing) == Latest(entries)
  {
    var n0 := Latest(entries);
    var name := PostDirName(today, n0);
    PostDirNumber(today, n0);
    match n0
    case Some(n) =>
      LatestWithSameNumber(entries, name, n);
      WellNamedAppend(entries, name);
      LatestPermutation(entries + [Dirent(name, true)], listing);
    case None => LatestWithoutNumber(entries, name, listing);
  }

  /** Running the script twice on the same day, the second time on a listing
      that holds the folder the first run made besides the first run's entries,
      in any order, leaves the file system as the first run left it. */
  lemma RerunSameDay(s: FsState, entries: seq<Dirent>, listing: seq<Dirent>, year: int, month0: int, date: int)
    requires 0 <= month0 < 12 && 1 <= date <= 31 && WellNamed(entries)
    requires multiset(listing) ==
      multiset(entries + [Dirent(PostDirName(Today(year, month0, date), Latest(entries)), true)])
    ensures var s1 := Script(s, entries, year, month0, date).1;
      Script(s1, listing, year, month0, date).1 == s1
  {
    var today := Today(year, month0, date);
    TodayChars(year, month0, date);
    LatestAfterPost(entries, today, listing);
    PostTwice(s, today, Latest(entries));
  }

  /** The file system the script runs against, updated in place. */
  class FileSystem {
    var dirs: set<string>
    var files: map<string, string>

    function State(): FsState
      reads this
    {
      FsState(dirs, files)
    }

    constructor (initial: FsState)
      requires initial.Valid()
      ensures State() == initial && State().Valid()
    {
      dirs := initial.dirs;
      files := initial.files;
    }

    /** Lines 76-90: check for the post file, make its folder if absent, write it. */
    method WritePost(today: string, num: Option<nat>) returns (outcome: Outcome)
      requires State().Valid()
      modifies this
      ensures State().Valid()
      ensures (outcome, State()) == Post(old(State()), today, num)
    {
      var path := PostPath(today, num);
      ghost var before := State();
      PostKeepsValid(before, today, num);
      if path in dirs || path in files {
        outcome := AlreadyExists;
      } else {
        var directory := Dirname(path);
        var created := false;
        if !(directory in dirs || directory in files) {
          dirs := dirs + {directory};
          created := true;
        }
        assert directory in dirs <==> directory !in before.files;
        if directory in dirs {
          assert dirs == before.dirs + {directory};
          files := files[path := FileContent(today, num)];
          outcome := Written(created);
        } else {
          outcome := ParentNotDirectory;
        }
      }
    }

    /** The script: take the date stamp, find the latest number, write the post. */
    method Run(entries: seq<Dirent>, year: int, month0: int, date: int) returns (outcome: Outcome)
      requires State().Valid() && 0 <= month0 < 12 && 1 <= date <= 31
      modifies this
      ensures State().Valid()
      ensures (outcome, State()) == Script(old(State()), entries, year, month0, date)
    {
      var today := Today(year, month0, date);
      var devDiaryNum := Latest(entries);
      outcome := WritePost(today, devDiaryNum);
    }
  }
}
