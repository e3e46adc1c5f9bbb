/** `findLatestDevDiaryNumber` (scripts/makePost.js lines 19-54) over a
    directory listing given as a value: the directory entries that are
    directories, whose names contain "dev-diary-", sorted by the number that
    `dev-diary-(\d+)` captures, descending; the first one's number is the result. */
module DevDiary {
  import opened Wrappers
  import opened Decimal

  /** One entry of `readdirSync(blogPath, { withFileTypes: true })`. */
  datatype Dirent = Dirent(name: string, isDirectory: bool)

  const Marker: string := "dev-diary-"

  /** `s` holds the marker at position `p`. */
  predicate MarkerAt(s: string, p: int) {
    0 <= p && p + |Marker| <= |s| && s[p..p + |Marker|] == Marker
  }

  /** The marker occurs at `from` or later. */
  predicate MarkerFrom(s: string, from: nat)
    decreases |s| - from
  {
    from + |Marker| <= |s| && (MarkerAt(s, from) || MarkerFrom(s, from + 1))
  }

  /** `name.includes("dev-diary-")`. */
  predicate HasMarker(s: string) {
    MarkerFrom(s, 0)
  }

  /** An occurrence of the marker at `p` is found by the search from any `from <= p`. */
  lemma {:induction false} MarkerFound(s: string, from: nat, p: nat)
    requires from <= p && MarkerAt(s, p)
    decreases p - from
    ensures MarkerFrom(s, from)
  {
    if from < p {
      MarkerFound(s, from + 1, p);
    }
  }

  /** Conversely, `includes` is true only where the marker occurs at `from` or later. */
  lemma {:induction false} MarkerFromWitness(s: string, from: nat) returns (p: nat)
    requires MarkerFrom(s, from)
    decreases |s| - from
    ensures from <= p && MarkerAt(s, p)
  {
    if MarkerAt(s, from) {
      p := from;
    } else {
      p := MarkerFromWitness(s, from + 1);
    }
  }

  /** The pattern `dev-diary-(\d+)` can start matching at position `p`. */
  predicate MatchAt(s: string, p: int) {
    MarkerAt(s, p) && p + |Marker| < |s| && IsDigit(s[p + |Marker|])
  }

  /** The length of the greedy run of digits that starts at `start` (`\d+`). */
  function DigitRun(s: string, start: nat): (n: nat)
    requires start <= |s|
    decreases |s| - start
    ensures start + n <= |s| && IsDigits(s[start..start + n])
    ensures start + n == |s| || !IsDigit(s[start + n])
  {
    if start < |s| && IsDigit(s[start]) then
      var m := DigitRun(s, start + 1);
      assert s[start..start + 1 + m] == [s[start]] + s[start + 1..start + 1 + m];
      1 + m
    else 0
  }

  /** `parseInt(match[1])` for a match at `p`: the value of the digits after the marker. */
  function Captured(s: string, p: nat): nat
    requires MatchAt(s, p)
  {
    var start := p + |Marker|;
    DigitsValue(s[start..start + DigitRun(s, start)])
  }

  /** The number of the leftmost match at or after `from`, if there is one. */
  function Extract(s: string, from: nat): (r: Option<nat>)
    decreases |s| - from
    ensures r.Some? ==> MarkerFrom(s, from)
  {
    if from + |Marker| >= |s| then None
    else if MatchAt(s, from) then Some(Captured(s, from))
    else Extract(s, from + 1)
  }

  /** `regex.exec(name)` and `parseInt(match[1])` for `dev-diary-(\d+)`;
      `None` where `exec` returns `null`. */
  function MatchNumber(name: string): (r: Option<nat>)
    ensures r.Some? ==> HasMarker(name)
  {
    Extract(name, 0)
  }

  /** Where the pattern matches at `p` and nowhere between `from` and `p`,
      the search from `from` captures the number at `p`. */
  lemma {:induction false} ExtractAt(s: string, from: nat, p: nat)
    requires from <= p && MatchAt(s, p)
    requires forall q :: from <= q < p ==> !MatchAt(s, q)
    decreases p - from
    ensures Extract(s, from) == Some(Captured(s, p))
  {
    if from < p {
      ExtractAt(s, from + 1, p);
    }
  }

  /** Where the pattern matches nowhere at or after `from`, the search finds nothing. */
  lemma {:induction false} ExtractNone(s: string, from: nat)
    requires forall q :: from <= q ==> !MatchAt(s, q)
    decreases |s| - from
    ensures Extract(s, from) == None
  {
    if from + |Marker| < |s| {
      ExtractNone(s, from + 1);
    }
  }

  /** The marker starts with 'd', so it cannot start where there is no 'd'. */
  lemma NoMarkerWithoutD(s: string, q: int)
    requires 0 <= q < |s| && s[q] != 'd'
    ensures !MarkerAt(s, q)
  {
  }

  /** A run of digits reaching the end of the string is taken whole. */
  lemma RunToEnd(s: string, start: nat)
    requires start <= |s| && IsDigits(s[start..])
    ensures DigitRun(s, start) == |s| - start
  {
    var n := DigitRun(s, start);
    if start + n < |s| {
      assert s[start + n] == s[start..][n];
    }
  }

  /** A leftmost match whose digits run to the end of the name captures all of them. */
  lemma MatchToEnd(s: string, p: nat, digits: string)
    requires MatchAt(s, p) && forall q :: 0 <= q < p ==> !MatchAt(s, q)
    requires IsDigits(digits) && s[p + |Marker|..] == digits
    ensures MatchNumber(s) == Some(DigitsValue(digits))
  {
    ExtractAt(s, 0, p);
    var start := p + |Marker|;
    RunToEnd(s, start);
    assert s[start..start + DigitRun(s, start)] == digits;
  }

  /** A name with no 'd' in `pre`, then the marker, then digits and nothing
      else yields the value of those digits. */
  lemma MatchAfterPrefix(pre: string, digits: string)
    requires forall i :: 0 <= i < |pre| ==> pre[i] != 'd'
    requires |digits| >= 1 && IsDigits(digits)
    ensures MatchNumber(pre + Marker + digits) == Some(DigitsValue(digits))
  {
    var s := pre + Marker + digits;
    var p := |pre|;
    assert s[p..p + |Marker|] == Marker;
    assert s[p + |Marker|] == digits[0];
    forall q | 0 <= q < p ensures !MatchAt(s, q) {
      assert s[q] == pre[q];
      NoMarkerWithoutD(s, q);
    }
    assert s[p + |Marker|..] == digits;
    MatchToEnd(s, p, digits);
  }

  /** A name with no 'd' in `pre`, then the marker, then "null" does not match. */
  lemma NoMatchOnNull(pre: string)
    requires forall i :: 0 <= i < |pre| ==> pre[i] != 'd'
    ensures MatchNumber(pre + Marker + "null") == None
  {
    var s := pre + Marker + "null";
    var p := |pre|;
    assert s[p..] == "dev-diary-null";
    forall q | 0 <= q ensures !MatchAt(s, q) {
      if q < p {
        assert s[q] == pre[q];
        NoMarkerWithoutD(s, q);
      } else if q == p {
        assert s[p + |Marker|] == 'n';
      } else if q < p + 4 {
        assert s[q] == s[p..][q - p];
        NoMarkerWithoutD(s, q);
      } else if q == p + 4 {
        assert s[q + 1] == s[p..][5] == 'i';
        if MarkerAt(s, q) {
          assert s[q + 1] == s[q..q + |Marker|][1];
        }
      }
    }
    ExtractNone(s, 0);
  }

  /** Directories whose name contains the marker (lines 25-27). */
  predicate IsCandidate(e: Dirent) {
    e.isDirectory && HasMarker(e.name)
  }

  /** The names kept by the two filters and the map of lines 23-27, in listing order. */
  function Candidates(entries: seq<Dirent>): (names: seq<string>)
    ensures |names| <= |entries|
  {
    if entries == [] then []
    else (if IsCandidate(entries[0]) then [entries[0].name] else []) + Candidates(entries[1..])
  }

  /** Every kept name is that of a candidate directory of the listing. */
  lemma {:induction false} CandidateFromListing(entries: seq<Dirent>, i: nat) returns (j: nat)
    requires i < |Candidates(entries)|
    ensures j < |entries| && IsCandidate(entries[j]) && entries[j].name == Candidates(entries)[i]
  {
    if IsCandidate(entries[0]) && i == 0 {
      j := 0;
    } else {
      var k := CandidateFromListing(entries[1..], if IsCandidate(entries[0]) then i - 1 else i);
      j := k + 1;
    }
  }

  /** Every candidate directory of the listing is kept. */
  lemma {:induction false} CandidateKept(entries: seq<Dirent>, j: nat)
    requires j < |entries| && IsCandidate(entries[j])
    ensures entries[j].name in Candidates(entries)
  {
    if j > 0 {
      assert entries[1..][j - 1] == entries[j];
      CandidateKept(entries[1..], j - 1);
    }
  }

  /** The number a name carries under `number`; 0 for a name without one. */
  function Key(name: string, number: string -> Option<nat>): nat {
    match number(name)
    case Some(k) => k
    case None => 0
  }

  /** The comparator of lines 28-39, for the extraction `number`:
      `parseInt(matchB[1]) - parseInt(matchA[1])` when both names match, and 0 otherwise. */
  function Compare(a: string, b: string, number: string -> Option<nat>): (c: int)
    ensures number(a).Some? && number(b).Some? ==> (c <= 0 <==> Key(b, number) <= Key(a, number))
    ensures number(a).None? || number(b).None? ==> c == 0
  {
    match (number(a), number(b))
    case (Some(x), Some(y)) => y as int - x as int
    case _ => 0
  }

  predicate AllMatch(names: seq<string>, number: string -> Option<nat>) {
    forall i :: 0 <= i < |names| ==> number(names[i]).Some?
  }

  predicate SortedDescending(names: seq<string>, number: string -> Option<nat>) {
    forall i, j :: 0 <= i < j < |names| ==> Key(names[j], number) <= Key(names[i], number)
  }

  /** Puts `x` in front of the first element it does not sort after, which
      keeps equal elements in their original order. */
  function Insert(x: string, sorted: seq<string>, number: string -> Option<nat>): (r: seq<string>)
    ensures multiset(r) == multiset(sorted) + multiset{x}
    ensures forall i :: 0 <= i < |r| ==> r[i] == x || r[i] in sorted
  {
    if sorted == [] || Compare(x, sorted[0], number) <= 0 then [x] + sorted
    else
      assert sorted == [sorted[0]] + sorted[1..];
      [sorted[0]] + Insert(x, sorted[1..], number)
  }

  /** Inserting a matching name into sorted matching names keeps them sorted. */
  lemma {:induction false} InsertSorted(x: string, sorted: seq<string>, number: string -> Option<nat>)
    requires number(x).Some? && AllMatch(sorted, number) && SortedDescending(sorted, number)
    ensures SortedDescending(Insert(x, sorted, number), number)
  {
    if sorted != [] && Compare(x, sorted[0], number) > 0 {
      var rest := Insert(x, sorted[1..], number);
      InsertSorted(x, sorted[1..], number);
      forall i | 0 <= i < |rest| ensures Key(rest[i], number) <= Key(sorted[0], number) {
        if rest[i] != x {
          var k :| 0 < k < |sorted| && sorted[k] == rest[i];
        }
      }
    }
  }

  /** `Array.prototype.sort` with the comparator above, as a stable insertion
      sort. When every name matches, the comparator is a consistent order and
      every stable sort gives this result. */
  function Sort(names: seq<string>, number: string -> Option<nat>): (r: seq<string>)
    ensures multiset(r) == multiset(names)
  {
    if names == [] then []
    else
      assert names == [names[0]] + names[1..];
      Insert(names[0], Sort(names[1..], number), number)
  }

  /** Sorting names that all match puts them in descending order of their numbers. */
  lemma {:induction false} SortSorted(names: seq<string>, number: string -> Option<nat>)
    requires AllMatch(names, number)
    ensures SortedDescending(Sort(names, number), number)
  {
    if names != [] {
      var rest := Sort(names[1..], number);
      SortSorted(names[1..], number);
      forall i | 0 <= i < |rest| ensures number(rest[i]).Some? {
        assert rest[i] in multiset(names[1..]);
      }
      InsertSorted(names[0], rest, number);
    }
  }

  /** Every directory that contains the marker also matches the whole pattern:
      then the comparator orders the candidates consistently. */
  predicate WellNamed(entries: seq<Dirent>) {
    forall j :: 0 <= j < |entries| && IsCandidate(entries[j]) ==> MatchNumber(entries[j].name).Some?
  }

  /** `findLatestDevDiaryNumber()`, with `None` for `null`: the number of the
      first folder once the candidates are sorted, or `None` when there is no
      candidate or the first one does not match the whole pattern. */
  function Latest(entries: seq<Dirent>): Option<nat> {
    var folders := Sort(Candidates(entries), MatchNumber);
    if |folders| > 0 then MatchNumber(folders[0]) else None
  }

  /** Lines 41 and 53: without a candidate directory the result is `null`. */
  lemma LatestWithoutCandidates(entries: seq<Dirent>)
    requires forall j :: 0 <= j < |entries| ==> !IsCandidate(entries[j])
    ensures Latest(entries) == None
  {
    CandidatesNone(entries);
  }

  lemma {:induction false} CandidatesNone(entries: seq<Dirent>)
    requires forall j :: 0 <= j < |entries| ==> !IsCandidate(entries[j])
    ensures Candidates(entries) == []
  {
    if entries != [] {
      assert !IsCandidate(entries[0]);
      assert forall j :: 0 <= j < |entries[1..]| ==> entries[1..][j] == entries[j + 1];
      CandidatesNone(entries[1..]);
    }
  }

  /** Lines 42-48: a number found is the number of a directory in the listing. */
  lemma LatestFromListing(entries: seq<Dirent>) returns (j: nat)
    requires Latest(entries).Some?
    ensures j < |entries| && entries[j].isDirectory && MatchNumber(entries[j].name) == Latest(entries)
  {
    var candidates := Candidates(entries);
    var folders := Sort(candidates, MatchNumber);
    assert folders[0] in multiset(candidates);
    var i :| 0 <= i < |candidates| && candidates[i] == folders[0];
    j := CandidateFromListing(entries, i);
  }

  lemma WellNamedAllMatch(entries: seq<Dirent>)
    requires WellNamed(entries)
    ensures AllMatch(Candidates(entries), MatchNumber)
  {
    var candidates := Candidates(entries);
    forall i | 0 <= i < |candidates| ensures MatchNumber(candidates[i]).Some? {
      var j := CandidateFromListing(entries, i);
    }
  }

  /** Lines 28-48 with well-named directories: a number is found, and it is at
      least the number of every matching directory, compared as numbers. */
  lemma LatestIsLargest(entries: seq<Dirent>, k: nat)
    requires WellNamed(entries) && k < |entries|
    requires entries[k].isDirectory && MatchNumber(entries[k].name).Some?
    ensures Latest(entries).Some? && MatchNumber(entries[k].name).value <= Latest(entries).value
  {
    var candidates := Candidates(entries);
    var folders := Sort(candidates, MatchNumber);
    CandidateKept(entries, k);
    WellNamedAllMatch(entries);
    SortSorted(candidates, MatchNumber);
    assert entries[k].name in multiset(folders);
    var i :| 0 <= i < |folders| && folders[i] == entries[k].name;
    assert folders[0] in multiset(candidates);
  }

  /** `dev-diary-10` sorts before `dev-diary-2` as text, but its number is larger: numbers are compared as integers. */
  lemma NumericNotLexicographic()
    ensures Latest([Dirent("dev-diary-2", true), Dirent("dev-diary-10", true), Dirent("dev-diary-1", true)]) == Some(10)
  {
    var entries := [Dirent("dev-diary-2", true), Dirent("dev-diary-10", true), Dirent("dev-diary-1", true)];
    ExampleWellNamed();
    LatestIsLargest(entries, 1);
    var j := LatestFromListing(entries);
    assert MatchNumber(entries[j].name).value <= 10;
  }

  lemma ExampleWellNamed()
    ensures var entries := [Dirent("dev-diary-2", true), Dirent("dev-diary-10", true), Dirent("dev-diary-1", true)];
      && WellNamed(entries) && MatchNumber(entries[0].name) == Some(2)
      && MatchNumber(entries[1].name) == Some(10) && MatchNumber(entries[2].name) == Some(1)
  {
    ExampleNumbers();
  }

  lemma ExampleNumbers()
    ensures MatchNumber("dev-diary-2") == Some(2)
    ensures MatchNumber("dev-diary-10") == Some(10)
    ensures MatchNumber("dev-diary-1") == Some(1)
  {
    MarkerThenDigits("2");
    MarkerThenDigits("10");
    MarkerThenDigits("1");
    assert Marker + "2" == "dev-diary-2";
    assert Marker + "10" == "dev-diary-10";
    assert Marker + "1" == "dev-diary-1";
  }

  /** A name that is the marker and then digits matches with those digits. */
  lemma MarkerThenDigits(digits: string)
    requires |digits| >= 1 && IsDigits(digits)
    ensures MatchNumber(Marker + digits) == Some(DigitsValue(digits))
  {
    MatchAfterPrefix("", digits);
    assert "" + Marker + digits == Marker + digits;
  }

  /** A plain file never counts, whatever its name and wherever it is listed. */
  lemma FilesNeverCount(before: seq<Dirent>, name: string, after: seq<Dirent>)
    ensures Latest(before + [Dirent(name, false)] + after) == Latest(before + after)
  {
    var file := [Dirent(name, false)];
    assert !IsCandidate(file[0]) && file[1..] == [];
    assert Candidates(file) == [];
    CandidatesConcat(before + file, after);
    CandidatesConcat(before, file);
    CandidatesConcat(before, after);
    assert Candidates(before + file + after) == Candidates(before + after);
  }

  /** The filters of lines 25-27 keep the listing's order: the candidates of
      two listings one after the other are those of the first, then those of the second. */
  lemma {:induction false} CandidatesConcat(a: seq<Dirent>, b: seq<Dirent>)
    ensures Candidates(a + b) == Candidates(a) + Candidates(b)
  {
    if a == [] {
      assert a + b == b;
    } else {
      var head := if IsCandidate(a[0]) then [a[0].name] else [];
      assert (a + b)[0] == a[0] && (a + b)[1..] == a[1..] + b;
      assert Candidates(a + b) == head + Candidates(a[1..] + b);
      CandidatesConcat(a[1..], b);
      assert Candidates(a) == head + Candidates(a[1..]);
    }
  }

  /** Appending an entry appends its name exactly when it is a candidate. */
  lemma CandidatesAppend(entries: seq<Dirent>, e: Dirent)
    ensures Candidates(entries + [e]) == Candidates(entries) + (if IsCandidate(e) then [e.name] else [])
  {
    CandidatesConcat(entries, [e]);
    assert [e][1..] == [];
  }

  /** In a well-named listing the order of the entries does not matter: any
      reordering gives the same number, since the number is the maximum. */
  lemma LatestPermutation(a: seq<Dirent>, b: seq<Dirent>)
    requires WellNamed(a) && multiset(a) == multiset(b)
    ensures WellNamed(b) && Latest(b) == Latest(a)
  {
    forall j | 0 <= j < |b| && IsCandidate(b[j]) ensures MatchNumber(b[j].name).Some? {
      assert b[j] in multiset(a);
      var i :| 0 <= i < |a| && a[i] == b[j];
    }
    LatestAtMost(a, b);
    LatestAtMost(b, a);
  }

  /** A number found in a reordering of a well-named listing is found, at
      least as large, in the listing itself. */
  lemma LatestAtMost(a: seq<Dirent>, b: seq<Dirent>)
    requires WellNamed(a) && multiset(a) == multiset(b)
    ensures Latest(b).Some? ==> Latest(a).Some? && Latest(b).value <= Latest(a).value
  {
    if Latest(b).Some? {
      var k := LatestFromListing(b);
      assert b[k] in multiset(a);
      var i :| 0 <= i < |a| && a[i] == b[k];
      LatestIsLargest(a, i);
    }
  }
}
