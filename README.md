# makePost: a verified model of the dev diary post generator

`scripts/makePost.js` creates the skeleton of a new "dev diary" blog post:

1. It builds today's date stamp `YYYY-MM-DD` with a small left-padding helper.
2. It finds the number of the latest `dev-diary-N` folder in `./content/blog/`.
3. It fills in the post's path and front matter.
4. It writes the file unless it is there already, creating the folder first when that is missing.

This project models all four steps in Dafny and proves what each one promises.

- **`Wrappers`** (`wrappers.dfy`): `Option`, which stands for JavaScript's `null`.
- **`Decimal`** (`decimal.dfy`): how a number turns into text (`n + ""`), and `parseInt` on a run of decimal digits.
- **`Padding`** (`padding.dfy`): `pad` and the `today` date stamp. The clock is not read: the year, the zero-based month and the day are parameters.
- **`DevDiary`** (`devdiary.dfy`): `findLatestDevDiaryNumber` over a directory listing given as a value.
  - The filters and map of lines 23-27.
  - The comparator of lines 28-39, inside a stable insertion sort.
  - The extraction for the fixed pattern `dev-diary-(\d+)`. It finds the leftmost occurrence of the marker followed by a digit, then takes the greedy run of digits.
- **`PostTemplate`** (`posttemplate.dfy`): the destination path, the permalink, the file's front matter and `path.dirname`.
- **`PostWriter`** (`postwriter.dfy`): lines 76-90 over an in-memory file system.
  - `Post` is the pure transition.
  - `FileSystem` is a class whose `dirs` and `files` fields are updated in place.
  - `FileSystem.WritePost` performs the check, the `mkdirSync` and the `writeFile` step by step. It is proved to end in the state that `Post` describes.
  - `FileSystem.Run` is the whole script.

The script uses the latest number as it finds it, without adding one, so the new post reuses the newest existing number. The model keeps that behaviour. `PostWriter.LatestAfterPost` states a consequence for a well-named listing, one where every directory whose name contains "dev-diary-" has digits right after a marker: the folder a run creates does not change the number the next run finds. Without that condition the result can depend on the order of the listing. A `null` number appears in the path, permalink and title as the text `null`.

## Model

| member | source | states |
|---|---|---|
| Decimal.IntString | scripts/makePost.js:9 | The decimal text of any integer: at least one character, digits or a minus sign. It reads back as the integer, and a negative number gets a leading '-'. There is no leading zero: only 0 itself starts with '0', and the digits after a minus sign do not start with '0'. |
| Decimal.NatStringValue | scripts/makePost.js:9 | Reading back the decimal text of a natural number gives the number (`parseInt` undoes `n + ""`). |
| Decimal.NatStringLength | scripts/makePost.js:9-10 | A number below 10^k has at most k digits. This is the case split `n.length >= width` depends on. |
| Padding.Fill | scripts/makePost.js:8 | The fill string used is never empty. |
| Padding.Repeat | scripts/makePost.js:10 | `new Array(k + 1).join(z)` with a one-character `z`: exactly k characters, all equal to z. |
| Padding.PadShape | scripts/makePost.js:7-11 | Text that is `width` or longer comes back unchanged. The number's text is always kept at the end. With a one-character fill and shorter text, the result is exactly `width` long, with the fill in every position before the number. |
| Padding.PadDefaultFill | scripts/makePost.js:8 | A missing fill and an empty fill both behave as "0". |
| Padding.PadValue | scripts/makePost.js:7-11 | Zero-padding a non-negative number gives only digits, which read back as the number. |
| Padding.ZerosValue | scripts/makePost.js:10 | Leading zeros in front of digits do not change the value read back. |
| Padding.PadTwo | scripts/makePost.js:14-17 | For 1 to 99, `pad(n, 2)` is exactly two digits that read back as n. |
| Padding.MonthDayParts | scripts/makePost.js:14-17 | The month and day parts are two digits each. They read back as `getMonth() + 1` and `getDate()`. |
| Padding.TodayLayout | scripts/makePost.js:13-17 | The stamp is the year's text, a dash, two digits for the month counted from 1, a dash and two digits for the day. |
| Padding.TodayChars | scripts/makePost.js:13-17 | The stamp holds only digits and dashes. |
| Padding.MarchThird | scripts/makePost.js:13-17 | March 3rd 2024 is stamped "2024-03-03". |
| DevDiary.MarkerFound | scripts/makePost.js:27 | Any occurrence of "dev-diary-" makes `includes` true. |
| DevDiary.MarkerFromWitness | scripts/makePost.js:27 | Conversely, `includes` is true only when "dev-diary-" occurs, and the lemma returns the position where it occurs. |
| DevDiary.DigitRun | scripts/makePost.js:30 | `\d+` is greedy: the run holds only digits and stops at the end or at a non-digit. |
| DevDiary.Extract | scripts/makePost.js:30-31 | A number is found only where the marker occurs at or after the search start. |
| DevDiary.MatchNumber | scripts/makePost.js:30-31 | A name that matches `dev-diary-(\d+)` contains "dev-diary-". |
| DevDiary.ExtractAt | scripts/makePost.js:30-35 | The match used is the leftmost one, and its captured digits give the number. |
| DevDiary.ExtractNone | scripts/makePost.js:30-31 | When the pattern matches nowhere, `exec` gives `null`. |
| DevDiary.NoMarkerWithoutD | scripts/makePost.js:30 | The marker cannot start at a character other than 'd'. |
| DevDiary.RunToEnd | scripts/makePost.js:30 | A run of digits that reaches the end of the name is taken whole. |
| DevDiary.MatchToEnd | scripts/makePost.js:30-35 | A leftmost match whose digits run to the end of the name captures exactly those digits. |
| DevDiary.MatchAfterPrefix | scripts/makePost.js:30-35 | A prefix without 'd', then "dev-diary-", then digits: the number is the value of those digits. |
| DevDiary.NoMatchOnNull | scripts/makePost.js:30-31 | A prefix without 'd', then "dev-diary-null": `exec` gives `null`. |
| DevDiary.MarkerThenDigits | scripts/makePost.js:30-35 | "dev-diary-" followed by digits gives the value of the digits. |
| DevDiary.ExampleNumbers | scripts/makePost.js:30-35 | "dev-diary-2", "dev-diary-10" and "dev-diary-1" give 2, 10 and 1. |
| DevDiary.Candidates | scripts/makePost.js:23-27 | Filtering keeps at most as many names as there are entries. |
| DevDiary.CandidateFromListing | scripts/makePost.js:23-27 | Every kept name belongs to a directory of the listing whose name contains "dev-diary-". |
| DevDiary.CandidateKept | scripts/makePost.js:23-27 | Every directory whose name contains "dev-diary-" is kept. |
| DevDiary.CandidatesNone | scripts/makePost.js:23-27 | With no such directory, nothing is kept. |
| DevDiary.CandidatesConcat | scripts/makePost.js:23-27 | The filters keep listing order: the candidates of two listings one after the other are those of the first, then those of the second. |
| DevDiary.CandidatesAppend | scripts/makePost.js:23-27 | An appended entry's name is appended exactly when it is a candidate. |
| DevDiary.Compare | scripts/makePost.js:28-39 | When both names match, the comparator is non-positive exactly when the second number is at most the first (descending order). Otherwise it returns 0. |
| DevDiary.Insert | scripts/makePost.js:28-39 | Insertion adds exactly the one name (multiset) and takes every element from the input. |
| DevDiary.InsertSorted | scripts/makePost.js:28-39 | Inserting a matching name into matching names in descending order keeps them descending. |
| DevDiary.Sort | scripts/makePost.js:28-39 | Sorting is a permutation of the candidates. |
| DevDiary.SortSorted | scripts/makePost.js:28-39 | When every candidate matches, the sorted names are in descending numeric order. |
| DevDiary.WellNamedAllMatch | scripts/makePost.js:28-39 | When every candidate directory matches, every kept name has a number. |
| DevDiary.LatestWithoutCandidates | scripts/makePost.js:25-27 | No directory whose name contains "dev-diary-" means the result is `null`. |
| DevDiary.LatestFromListing | scripts/makePost.js:41-49 | A non-null result is the number of a directory that is actually in the listing. |
| DevDiary.LatestIsLargest | scripts/makePost.js:28-48 | When every candidate matches, any matching directory means the result is non-null and at least that directory's number compared as integers, so the result is the maximum. |
| DevDiary.NumericNotLexicographic | scripts/makePost.js:28-48 | `dev-diary-2`, `dev-diary-10` and `dev-diary-1` give 10. |
| DevDiary.ExampleWellNamed | scripts/makePost.js:28-39 | In that example listing every candidate matches, with the numbers 2, 10 and 1. |
| DevDiary.FilesNeverCount | scripts/makePost.js:25 | A plain file never changes the result, whatever its name and wherever it appears in the listing. |
| DevDiary.LatestPermutation | scripts/makePost.js:23-48 | In a well-named listing the order of the entries does not matter: any reordering is well named too and gives the same result. |
| DevDiary.LatestAtMost | scripts/makePost.js:23-48 | A number found in a reordering of a well-named listing is also found in the listing itself, at least as large. |
| PostTemplate.NumberText | scripts/makePost.js:56-57 | The interpolated number is "null" when absent. Otherwise it is digits that read back as the number, with no leading zero. |
| PostTemplate.PostPathInFolder | scripts/makePost.js:57 | The path is `index.md` inside `TEST-{today}-dev-diary-{N}` in the blog root. |
| PostTemplate.PermalinkNumber | scripts/makePost.js:61 | The permalink is "/dev-diary-", then the number reused as is (or "null"), then "/". |
| PostTemplate.IndexOf | scripts/makePost.js:59-74 | The first position of a character, or none when it does not occur. |
| PostTemplate.Split | scripts/makePost.js:59-74 | Cutting at line breaks gives at least one line, and no line holds a break. |
| PostTemplate.FirstBreak | scripts/makePost.js:59-74 | In a line without a break, then a break, then the rest, the first break is right after the line, and the text splits back into the line and the rest. |
| PostTemplate.SplitJoin | scripts/makePost.js:59-74 | Cutting the joined lines at the line breaks gives the lines back. |
| PostTemplate.JoinSplit | scripts/makePost.js:59-74 | Joining the pieces of a text back together gives the text. |
| PostTemplate.ConcatHasNoNewline | scripts/makePost.js:59-74 | Two texts without a line break concatenate to one without a line break. |
| PostTemplate.DescriptionHasNoNewline | scripts/makePost.js:62 | The description line holds no line break. |
| PostTemplate.NumberTextHasNoNewline | scripts/makePost.js:60-61 | The interpolated number holds no line break. |
| PostTemplate.TitleHasNoNewline | scripts/makePost.js:60 | The title line holds no line break. |
| PostTemplate.PermalinkHasNoNewline | scripts/makePost.js:61 | The permalink line holds no line break. |
| PostTemplate.FixedLinesHaveNoNewline | scripts/makePost.js:59-74 | The template's fixed lines hold no line break. |
| PostTemplate.LinesHaveNoNewline | scripts/makePost.js:59-74 | No front-matter line holds a line break, given a date without one. |
| PostTemplate.FileContentLines | scripts/makePost.js:59-74 | Read line by line, the file is exactly the template's 16 lines, ending in the three empty lines of 72-74. |
| PostTemplate.LastIndexOf | scripts/makePost.js:79 | The last position of a character, or none when it does not occur. |
| PostTemplate.DirnameOfChild | scripts/makePost.js:79 | The parent of `dir/file` is `dir` when `file` has no '/' and `dir` is not the root "/". |
| PostTemplate.PostDirectory | scripts/makePost.js:57-79 | The directory computed at line 79 is the post's own folder in the blog root. |
| PostTemplate.PostDirNumber | scripts/makePost.js:27-57 | The new folder's name contains "dev-diary-". Read by the same pattern, it gives back the number it was named with, and `null` for "null". |
| PostWriter.PostKeepsValid | scripts/makePost.js:76-90 | A run never leaves a path that is both a file and a directory, nor a file outside a directory. |
| PostWriter.PostNeverOverwrites | scripts/makePost.js:76-77 | No existing file changes and no directory disappears. When the post path exists, nothing at all changes. |
| PostWriter.PostWritesOneFile | scripts/makePost.js:76-88 | When the post file is absent and its folder path does not name a file, the post is written. The only changes are that one new file with the template contents and its folder. The folder is reported as created exactly when it was absent. |
| PostWriter.PostParentIsFile | scripts/makePost.js:79-87 | When the post file is absent but its folder path names a file, the write fails and nothing changes. |
| PostWriter.PostTwice | scripts/makePost.js:76-90 | Repeating the same post changes nothing further and reports that it already exists. A write that failed fails again. |
| PostWriter.WellNamedAppend | scripts/makePost.js:28-39 | Adding a matching directory keeps every candidate matching. |
| PostWriter.LatestWithSameNumber | scripts/makePost.js:28-48 | In a well-named listing, appending a directory with the latest number leaves the latest number unchanged. |
| PostWriter.NoCandidates | scripts/makePost.js:28-53 | A well-named listing in which no number is found has no candidate directory at all. |
| PostWriter.LatestCandidate | scripts/makePost.js:41-49 | A number found is the number of a candidate directory of the listing. |
| PostWriter.LatestOnlyUnmatched | scripts/makePost.js:41-53 | When every candidate directory has the same non-matching name, the result is `null`. |
| PostWriter.LatestWithoutNumber | scripts/makePost.js:41-53 | A well-named listing that gives `null` still gives `null` with a non-matching directory added, in any position. |
| PostWriter.LatestAfterPost | scripts/makePost.js:19-57 | For a well-named listing, listing the folder a run creates, in any position, does not change the number found, because that folder reuses the number. |
| PostWriter.RerunSameDay | scripts/makePost.js:13-90 | Take a well-named listing. A second run on the same day, on that listing plus the first run's folder in any order, leaves the file system as the first run left it. |
| PostWriter.FileSystem.constructor | scripts/makePost.js:76-90 | The file system starts in the given well-formed state. |
| PostWriter.FileSystem.WritePost | scripts/makePost.js:76-90 | The in-place check, `mkdirSync` and `writeFile` end in exactly the outcome and state of the `Post` transition, and keep the file system well formed. |
| PostWriter.FileSystem.Run | scripts/makePost.js:13-90 | The whole script on a clock reading and a listing ends in the outcome and state of `Script`: today's stamp, the latest number, then the post. |

## Left out

- Real file-system calls are not made.
  - The listing `readdirSync` returns is a parameter. It is not derived from the file-system state.
  - When the blog root is missing or is a file, `readdirSync` throws and the script stops before any write. This is not modelled: `Script` and `FileSystem.Run` go on to write the post.
  - `existsSync`, `mkdirSync` and `writeFile` act on the in-memory `FsState`.
- `new Date()` is not read: the year, the zero-based month and the day of the month are parameters.
- `console.log` output is not modelled, because it has no effect on state.
- The asynchronous `writeFile` callback is modelled as a write that completes before the script ends.
  - The only write error modelled is the folder path naming a file. The outcome is `ParentNotDirectory` and nothing changes.
  - Other I/O errors (permissions, a full disk) are not modelled.
- `mkdirSync(directory, { recursive: true })` adds only the post's own folder. Ancestors that it would also create are not added, and the failure it would raise when an ancestor is a file is not modelled.
- Paths are compared exactly as the script writes them, with no normalisation: `content/blog/x` and `./content/blog/x` are two different paths to `FsState.Exists`, while `existsSync` treats them as one. The script only ever builds the `./content/blog/` form.
- PostTemplate.Dirname follows POSIX `path.dirname` only for paths that do not end in '/'. That is all the script passes it; trailing slashes and Windows separators are not modelled.
- Regular expressions in general are not modelled. Only the fixed pattern `dev-diary-(\d+)` is written out by hand.
- JavaScript numbers are modelled as unbounded naturals. Two behaviours of large numbers are not modelled:
  - the loss of precision in `parseInt` above 2^53;
  - the exponent form ("1e+21") that `${n}` switches to from 10^21 on.
- DevDiary.Sort fixes one order, a stable insertion sort, for the case where a name contains "dev-diary-" without digits. In that case the comparator returns 0 and is not a consistent order, and ECMAScript leaves the result implementation-defined.
- DevDiary.LatestIsLargest: the maximum property is proved only when every candidate name matches the whole pattern, since only then is the comparator consistent.
- Padding.PadShape: a multi-character fill is specified only by the number's text being kept at the end. The script only uses "0".
- The commented-out `slugify` import is not modelled; the script has no slug code.
