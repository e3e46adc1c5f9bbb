/** The destination path, the permalink and the front matter of a new dev
    diary post (scripts/makePost.js lines 56-74), with `null` standing for a
    listing in which no diary number was found. */
module PostTemplate {
  import opened Wrappers
  import opened Decimal
  import opened Padding
  import opened DevDiary

  const BlogRoot: string := "./content/blog/"

  /** `${devDiaryNum}`: the decimal text of the number, or "null". */
  function NumberText(num: Option<nat>): (t: string)
    ensures num.None? ==> t == "null"
    ensures num.Some? ==> |t| >= 1 && IsDigits(t) && DigitsValue(t) == num.value
    ensures num.Some? ==> (t[0] == '0' ==> num.value == 0 && |t| == 1)
  {
    match num
    case None => "null"
    case Some(n) => NatStringValue(n); NatString(n)
  }

  /** The folder the post goes in: `TEST-${today}-dev-diary-${devDiaryNum}`. */
  function PostDirName(today: string, num: Option<nat>): string {
    "TEST-" + today + "-" + Marker + NumberText(num)
  }

  /** Line 57: the file the post is written to. */
  function PostPath(today: string, num: Option<nat>): string {
    "./content/blog/TEST-" + today + "-dev-diary-" + NumberText(num) + "/index.md"
  }

  /** The post file is `index.md` in the post's folder under the blog root. */
  lemma PostPathInFolder(today: string, num: Option<nat>)
    ensures PostPath(today, num) == BlogRoot + PostDirName(today, num) + "/index.md"
  {
    var t := NumberText(num);
    assert "./content/blog/TEST-" == BlogRoot + "TEST-";
    assert "-dev-diary-" == "-" + Marker;
    calc {
      PostPath(today, num);
      (BlogRoot + "TEST-") + today + ("-" + Marker) + t + "/index.md";
      BlogRoot + ("TEST-" + today + "-" + Marker + t) + "/index.md";
    }
  }

  /** The permalink of line 61: `/dev-diary-${devDiaryNum}/`. */
  function Permalink(num: Option<nat>): string {
    "/dev-diary-" + NumberText(num) + "/"
  }

  /** The permalink is "/dev-diary-", the number as it was found (or "null")
      and a closing "/". */
  lemma PermalinkNumber(num: Option<nat>)
    ensures var p, k := Permalink(num), |Marker| + 1;
      && |p| > k + 1 && p[..k] == "/" + Marker && p[|p| - 1] == '/'
      && (num.None? ==> p[k..|p| - 1] == "null")
      && (num.Some? ==> IsDigits(p[k..|p| - 1]) && DigitsValue(p[k..|p| - 1]) == num.value)
  {
    var p, k, t := Permalink(num), |Marker| + 1, NumberText(num);
    assert p == ("/" + Marker) + t + "/";
    assert p[..k] == "/" + Marker;
    assert p[k..|p| - 1] == t;
  }

  /** Line 62, written in three pieces. */
  const DescriptionLine: string :=
    "description: A description " + "that will show as subtitle " + "and also on social sharing"

  /** Line 60: the title, with the number in it. */
  function TitleLine(num: Option<nat>): string {
    "title: \"Reps Dev Diary #" + NumberText(num) + ": TITLE HERE\""
  }

  /** Line 61. */
  function PermalinkLine(num: Option<nat>): string {
    "permalink: " + Permalink(num)
  }

  /** Line 63: the date stamp. */
  function DateLine(today: string): string {
    "date: " + today
  }

  /** The lines of the template literal of lines 59-74, without their line breaks. */
  function FrontMatterLines(today: string, num: Option<nat>): seq<string> {
    [ "---",
      TitleLine(num),
      PermalinkLine(num),
      DescriptionLine,
      DateLine(today),
      "tags:",
      "  - dev",
      "  - dev-diary",
      "---",
      "",
      "Content to go here",
      "",
      "## Current TODO list",
      "",
      "",
      "" ]
  }

  predicate NoNewline(s: string) {
    forall i :: 0 <= i < |s| ==> s[i] != '\n'
  }

  /** Lines glued together with a line break between each two. */
  function Join(lines: seq<string>): string
    requires |lines| >= 1
  {
    if |lines| == 1 then lines[0] else lines[0] + "\n" + Join(lines[1..])
  }

  /** `fileContent`: the template literal of lines 59-74. */
  function FileContent(today: string, num: Option<nat>): string {
    Join(FrontMatterLines(today, num))
  }

  /** The first position of `c` in `s`, if any. */
  function IndexOf(s: string, c: char): (k: Option<nat>)
    ensures k.Some? ==> k.value < |s| && s[k.value] == c && forall i :: 0 <= i < k.value ==> s[i] != c
    ensures k.None? ==> forall i :: 0 <= i < |s| ==> s[i] != c
  {
    if s == [] then None
    else if s[0] == c then Some(0)
    else match IndexOf(s[1..], c)
      case None => None
      case Some(k) => Some(k + 1)
  }

  /** A text cut at its line breaks. */
  function Split(s: string): (lines: seq<string>)
    decreases |s|
    ensures |lines| >= 1
    ensures forall i :: 0 <= i < |lines| ==> NoNewline(lines[i])
  {
    match IndexOf(s, '\n')
    case None => [s]
    case Some(k) => [s[..k]] + Split(s[k + 1..])
  }

  /** In `a`, a line break and `b`, with no break in `a`, the first break
      is the one after `a`. */
  lemma FirstBreak(a: string, b: string)
    requires NoNewline(a)
    ensures var s := a + "\n" + b;
      && IndexOf(s, '\n') == Some(|a|) && s[..|a|] == a && s[|a| + 1..] == b
  {
    var s := a + "\n" + b;
    assert s[|a|] == '\n';
    forall i | 0 <= i < |a| ensures s[i] != '\n' {
      assert s[i] == a[i];
    }
    assert s[..|a|] == a;
    assert s[|a| + 1..] == b;
  }

  /** Cutting the joined lines at the line breaks gives the lines back. */
  lemma {:induction false} SplitJoin(lines: seq<string>)
    requires |lines| >= 1 && forall i :: 0 <= i < |lines| ==> NoNewline(lines[i])
    ensures Split(Join(lines)) == lines
  {
    if |lines| == 1 {
      assert IndexOf(lines[0], '\n') == None;
    } else {
      var rest := Join(lines[1..]);
      FirstBreak(lines[0], rest);
      SplitJoin(lines[1..]);
      assert lines == [lines[0]] + lines[1..];
    }
  }

  /** Gluing the pieces of a text back together gives the text back. */
  lemma {:induction false} JoinSplit(s: string)
    decreases |s|
    ensures Join(Split(s)) == s
  {
    match IndexOf(s, '\n')
    case None =>
    case Some(k) =>
      var lines, rest := Split(s), Split(s[k + 1..]);
      assert lines[0] == s[..k] && lines[1..] == rest;
      JoinSplit(s[k + 1..]);
      assert Join(lines) == s[..k] + "\n" + s[k + 1..];
      assert s == s[..k] + "\n" + s[k + 1..];
  }

  lemma ConcatHasNoNewline(a: string, b: string)
    requires NoNewline(a) && NoNewline(b)
    ensures NoNewline(a + b)
  {
    forall i | 0 <= i < |a + b| ensures (a + b)[i] != '\n' {
      if i >= |a| {
        assert (a + b)[i] == b[i - |a|];
      }
    }
  }

  lemma DescriptionHasNoNewline()
    ensures NoNewline(DescriptionLine)
  {
    var a, b, c := "description: A description ", "that will show as subtitle ", "and also on social sharing";
    assert NoNewline(a) && NoNewline(b) && NoNewline(c);
    ConcatHasNoNewline(a, b);
    ConcatHasNoNewline(a + b, c);
  }

  lemma NumberTextHasNoNewline(num: Option<nat>)
    ensures NoNewline(NumberText(num))
  {
    var t := NumberText(num);
    if num.Some? {
      forall i | 0 <= i < |t| ensures t[i] != '\n' {
        assert IsDigit(t[i]);
      }
    }
  }

  lemma TitleHasNoNewline(num: Option<nat>)
    ensures NoNewline(TitleLine(num))
  {
    var a, t, b := "title: \"Reps Dev Diary #", NumberText(num), ": TITLE HERE\"";
    NumberTextHasNoNewline(num);
    assert NoNewline(a) && NoNewline(b);
    ConcatHasNoNewline(a, t);
    ConcatHasNoNewline(a + t, b);
  }

  lemma PermalinkHasNoNewline(num: Option<nat>)
    ensures NoNewline(PermalinkLine(num))
  {
    var a, b, t := "permalink: ", "/dev-diary-", NumberText(num);
    NumberTextHasNoNewline(num);
    assert NoNewline(a) && NoNewline(b) && NoNewline("/");
    ConcatHasNoNewline(b, t);
    ConcatHasNoNewline(b + t, "/");
    ConcatHasNoNewline(a, Permalink(num));
  }

  lemma LinesHaveNoNewline(today: string, num: Option<nat>)
    requires NoNewline(today)
    ensures forall i :: 0 <= i < |FrontMatterLines(today, num)| ==> NoNewline(FrontMatterLines(today, num)[i])
  {
    DescriptionHasNoNewline();
    TitleHasNoNewline(num);
    PermalinkHasNoNewline(num);
    assert NoNewline("date: ");
    ConcatHasNoNewline("date: ", today);
    FixedLinesHaveNoNewline();
  }

  lemma FixedLinesHaveNoNewline()
    ensures NoNewline("---") && NoNewline("tags:") && NoNewline("  - dev") && NoNewline("  - dev-diary")
    ensures NoNewline("") && NoNewline("Content to go here") && NoNewline("## Current TODO list")
  {
  }

  /** The post file reads, line by line, as the template lays it out: the
      title on line 1, the permalink on line 2, the date on line 4. */
  lemma FileContentLines(today: string, num: Option<nat>)
    requires NoNewline(today)
    ensures Split(FileContent(today, num)) == FrontMatterLines(today, num)
  {
    LinesHaveNoNewline(today, num);
    SplitJoin(FrontMatterLines(today, num));
  }

  /** The last position of `c` in `s`, if any. */
  function LastIndexOf(s: string, c: char): (k: Option<nat>)
    ensures k.Some? ==> k.value < |s| && s[k.value] == c && forall i :: k.value < i < |s| ==> s[i] != c
    ensures k.None? ==> forall i :: 0 <= i < |s| ==> s[i] != c
  {
    if s == [] then None
    else if s[|s| - 1] == c then Some(|s| - 1)
    else LastIndexOf(s[..|s| - 1], c)
  }

  /** `path.dirname` (POSIX) for a path that does not end in '/': everything
      before the last '/'; "/" when that is the first character; "//" when it is
      the second and the path starts with '/'; "." when there is none. */
  function Dirname(path: string): string {
    match LastIndexOf(path, '/')
    case None => "."
    case Some(k) => if k == 0 then "/" else if k == 1 && path[0] == '/' then "//" else path[..k]
  }

  /** The parent of `dir/file` is `dir` whenever `file` holds no '/' and `dir`
      is not the root itself (the parent of "//file" is "//"). */
  lemma DirnameOfChild(dir: string, file: string)
    requires |dir| >= 1 && dir != "/" && forall i :: 0 <= i < |file| ==> file[i] != '/'
    ensures Dirname(dir + "/" + file) == dir
  {
    var s := dir + "/" + file;
    assert s[|dir|] == '/';
    forall i | |dir| < i < |s| ensures s[i] != '/' {
      assert s[i] == file[i - |dir| - 1];
    }
    assert s[..|dir|] == dir;
    if |dir| == 1 {
      assert s[0] == dir[0];
    }
  }

  /** The directory line 79 computes is the post's own folder under the blog root. */
  lemma PostDirectory(today: string, num: Option<nat>)
    ensures Dirname(PostPath(today, num)) == BlogRoot + PostDirName(today, num)
  {
    var dir := BlogRoot + PostDirName(today, num);
    PostPathInFolder(today, num);
    assert dir[0] == '.';
    assert dir + "/index.md" == dir + "/" + "index.md";
    DirnameOfChild(dir, "index.md");
  }

  /** The new folder carries the number it was named with: listed again, it is a
      candidate, and its number is the one it was built from ("null" matches nothing). */
  lemma PostDirNumber(today: string, num: Option<nat>)
    requires DateChars(today)
    ensures HasMarker(PostDirName(today, num))
    ensures MatchNumber(PostDirName(today, num)) == num
  {
    var pre := "TEST-" + today + "-";
    forall i | 0 <= i < |pre| ensures pre[i] != 'd' {
      if 5 <= i < 5 + |today| {
        assert pre[i] == today[i - 5];
      }
    }
    var name := PostDirName(today, num);
    assert name == pre + Marker + NumberText(num);
    assert name[|pre|..|pre| + |Marker|] == Marker;
    assert MarkerAt(name, |pre|);
    MarkerFound(name, 0, |pre|);
    match num
    case None => NoMatchOnNull(pre);
    case Some(n) => MatchAfterPrefix(pre, NumberText(num));
  }
}
