/** The command-line scraper: identifier extraction, the file filters, the probe for an
    existing subtitle, the choice between the two Chinese variants, the early exits of the
    per-file pipeline and the folder loop with its two counters. */
module Scraper {
  import opened Strings
  import opened Paths

  // ---------------------------------------------------------------------------------------
  // Identifier extraction: re.match(r'^([A-Za-z]+-\d+)', ...)

  /** Number of leading ASCII letters. */
  function LeadingLetters(s: string): (n: nat)
    ensures n <= |s|
    ensures forall i | 0 <= i < n :: IsAsciiLetter(s[i])
    ensures n < |s| ==> !IsAsciiLetter(s[n])
  {
    if s != [] && IsAsciiLetter(s[0]) then 1 + LeadingLetters(s[1..]) else 0
  }

  /** Number of leading ASCII digits. */
  function LeadingDigits(s: string): (n: nat)
    ensures n <= |s|
    ensures forall i | 0 <= i < n :: IsAsciiDigit(s[i])
    ensures n < |s| ==> !IsAsciiDigit(s[n])
  {
    if s != [] && IsAsciiDigit(s[0]) then 1 + LeadingDigits(s[1..]) else 0
  }

  /** `k` is letters, a hyphen at index `n`, then digits, with at least one of each. */
  predicate HyphenAt(k: string, n: int) {
    0 < n < |k| - 1 && k[n] == '-'
    && (forall i | 0 <= i < n :: IsAsciiLetter(k[i]))
    && (forall i | n < i < |k| :: IsAsciiDigit(k[i]))
  }

  /** The whole of `k` matches `[A-Za-z]+-\d+`. */
  predicate IsKeyword(k: string) {
    exists n | 0 <= n < |k| :: HyphenAt(k, n)
  }

  /** The regular expression anchored at the start of `s`: greedy letters, a hyphen,
      greedy digits; the captured group, or None. */
  function MatchKeyword(s: string): Option<string> {
    var n := LeadingLetters(s);
    if 0 < n < |s| && s[n] == '-' then
      var m := LeadingDigits(s[n + 1..]);
      if m > 0 then Some(s[..n + 1 + m]) else None
    else None
  }

  /** Any identifier-shaped prefix of `s` fixes the letter run and the hyphen that the
      expression finds, and the digit run it finds is at least as long. */
  lemma KeywordPrefixAnchors(s: string, i: int, n: int)
    requires 0 <= i <= |s| && HyphenAt(s[..i], n)
    ensures LeadingLetters(s) == n && s[n] == '-'
    ensures LeadingDigits(s[n + 1..]) >= i - n - 1
  {
    var k := s[..i];
    assert k[n] == s[n];
    var letters := LeadingLetters(s);
    forall j | 0 <= j < n ensures IsAsciiLetter(s[j]) {
      assert k[j] == s[j];
    }
    assert !IsAsciiLetter(s[n]);
    assert letters == n;
    var t := s[n + 1..];
    forall j | 0 <= j < i - n - 1 ensures IsAsciiDigit(t[j]) {
      assert t[j] == k[n + 1 + j];
    }
  }

  /** What the expression captures is an identifier-shaped prefix of `s` that is not
      followed by another digit. */
  lemma MatchIsMaximalPrefix(s: string)
    requires MatchKeyword(s).Some?
    ensures var k := MatchKeyword(s).value;
      StartsWith(s, k) && IsKeyword(k) && (|k| == |s| || !IsAsciiDigit(s[|k|]))
  {
    var n := LeadingLetters(s);
    var m := LeadingDigits(s[n + 1..]);
    var k := s[..n + 1 + m];
    forall j | n < j < |k| ensures IsAsciiDigit(k[j]) {
      assert k[j] == s[n + 1..][j - n - 1];
    }
    assert HyphenAt(k, n);
    if |k| < |s| {
      assert s[|k|] == s[n + 1..][m];
    }
  }

  /** An identifier-shaped prefix that no digit follows is what the expression captures. */
  lemma MaximalPrefixIsMatch(s: string, k: string)
    requires StartsWith(s, k) && IsKeyword(k) && (|k| == |s| || !IsAsciiDigit(s[|k|]))
    ensures MatchKeyword(s) == Some(k)
  {
    var h :| 0 <= h < |k| && HyphenAt(k, h);
    assert s[..|k|] == k;
    KeywordPrefixAnchors(s, |k|, h);
    var t := s[h + 1..];
    var m := LeadingDigits(t);
    if |k| < |s| {
      assert t[|k| - h - 1] == s[|k|];
    }
    assert m == |k| - h - 1;
  }

  /** What the expression captures is exactly the identifier-shaped prefix of `s` that
      cannot be extended by another digit. */
  lemma MatchKeywordIsMaximalPrefix(s: string, k: string)
    ensures MatchKeyword(s) == Some(k)
        <==> StartsWith(s, k) && IsKeyword(k) && (|k| == |s| || !IsAsciiDigit(s[|k|]))
  {
    if MatchKeyword(s) == Some(k) {
      MatchIsMaximalPrefix(s);
    }
    if StartsWith(s, k) && IsKeyword(k) && (|k| == |s| || !IsAsciiDigit(s[|k|])) {
      MaximalPrefixIsMatch(s, k);
    }
  }

  /** The expression fails exactly when no prefix of `s` is identifier-shaped. */
  lemma MatchKeywordNoneIffNoPrefix(s: string)
    ensures MatchKeyword(s) == None <==> forall i | 0 <= i <= |s| :: !IsKeyword(s[..i])
  {
    if MatchKeyword(s).Some? {
      var k := MatchKeyword(s).value;
      MatchKeywordIsMaximalPrefix(s, k);
      assert s[..|k|] == k;
    } else {
      forall i | 0 <= i <= |s| ensures IsKeyword(s[..i]) ==> MatchKeyword(s).Some? {
        if IsKeyword(s[..i]) {
          var h :| 0 <= h < i && HyphenAt(s[..i], h);
          KeywordPrefixAnchors(s, i, h);
        }
      }
    }
  }

  /** The file name without folder and extension. */
  function Stem(p: string): string {
    Splitext(Basename(p)).0
  }

  /** `extract_keyword`: the raw input first, then its stem. */
  function ExtractKeyword(input: string): Option<string> {
    match MatchKeyword(input)
    case Some(k) => Some(k)
    case None => MatchKeyword(Stem(input))
  }

  predicate HasKeywordPrefix(s: string) {
    exists i | 0 <= i <= |s| :: IsKeyword(s[..i])
  }

  /** No identifier comes back exactly when neither the input nor its stem starts with one;
      an identifier in the raw input always wins, and otherwise the stem's match is taken;
      what comes back is an identifier-shaped prefix of the input or of its stem. */
  lemma ExtractKeywordSpec(input: string)
    ensures ExtractKeyword(input).None? <==> !HasKeywordPrefix(input) && !HasKeywordPrefix(Stem(input))
    ensures HasKeywordPrefix(input) ==> ExtractKeyword(input) == MatchKeyword(input)
    ensures !HasKeywordPrefix(input) ==> ExtractKeyword(input) == MatchKeyword(Stem(input))
    ensures ExtractKeyword(input).Some? ==>
      var k := ExtractKeyword(input).value;
      IsKeyword(k) && (StartsWith(input, k) || StartsWith(Stem(input), k))
    ensures ExtractKeyword(input).Some? ==>
      var k := ExtractKeyword(input).value;
      var src := if HasKeywordPrefix(input) then input else Stem(input);
      StartsWith(src, k) && (|k| == |src| || !IsAsciiDigit(src[|k|]))
  {
    MatchKeywordNoneIffNoPrefix(input);
    MatchKeywordNoneIffNoPrefix(Stem(input));
    if ExtractKeyword(input).Some? {
      var k := ExtractKeyword(input).value;
      if MatchKeyword(input).Some? {
        MatchKeywordIsMaximalPrefix(input, k);
      } else {
        MatchKeywordIsMaximalPrefix(Stem(input), k);
      }
    }
  }

  /** An identifier on its own is matched whole. */
  lemma KeywordMatchesItself(k: string)
    requires IsKeyword(k)
    ensures MatchKeyword(k) == Some(k) && ExtractKeyword(k) == Some(k)
  {
    assert k[..|k|] == k;
    MatchKeywordIsMaximalPrefix(k, k);
  }

  lemma SampleKeyword()
    ensures IsKeyword("NIMA-014")
  {
    assert HyphenAt("NIMA-014", 4);
  }

  /** `NIMA-014-extra` gives `NIMA-014`: the match stops at the first non-digit. */
  lemma ExtractKeywordStopsAtNonDigit()
    ensures ExtractKeyword("NIMA-014-extra") == Some("NIMA-014")
  {
    var s := "NIMA-014-extra";
    SampleKeyword();
    assert s[..8] == "NIMA-014";
    assert !IsAsciiDigit(s[8]);
    MatchKeywordIsMaximalPrefix(s, "NIMA-014");
  }

  // ---------------------------------------------------------------------------------------
  // File filters

  const VideoExtensions: set<string> :=
    {".mp4", ".avi", ".mkv", ".mov", ".wmv", ".flv", ".webm", ".m4v", ".ts"}

  /** `is_video_file`: the lower-cased extension is one of the nine. */
  predicate IsVideoFile(filename: string) {
    Lower(Splitext(filename).1) in VideoExtensions
  }

  lemma LowerIdempotent(s: string)
    ensures Lower(Lower(s)) == Lower(s)
  {
  }

  /** The video test does not depend on letter case. */
  lemma VideoTestIgnoresCase(filename: string)
    ensures IsVideoFile(Lower(filename)) == IsVideoFile(filename)
  {
    SplitextLower(filename);
    LowerIdempotent(Splitext(filename).1);
  }

  /** A plain name followed by one of the nine extensions, in any letter case, is a video. */
  lemma VideoExtensionRecognised(stem: string, ext: string)
    requires stem != [] && NoSlash(stem) && forall j | 0 <= j < |stem| :: stem[j] != '.'
    requires Lower(ext) in VideoExtensions
    ensures IsVideoFile(stem + ext)
  {
    var e := Lower(ext);
    assert e[0] == '.' && forall j | 0 < j < |e| :: e[j] != '.' && e[j] != '/';
    forall j | 0 <= j < |ext| ensures ext[j] != '/' && (ext[j] == '.' <==> j == 0) {
      assert e[j] == LowerChar(ext[j]);
    }
    SplitextOfName(stem, ext);
  }

  /** A file called just `.mp4` has no extension for `splitext`, so it is not a video. */
  lemma DotOnlyNameIsNotVideo()
    ensures !IsVideoFile(".mp4")
  {
    var p := ".mp4";
    RFindAbsent(p, '/');
    RFindIsLast(p, '.', 0);
    assert Splitext(p) == (p, "");
    assert Lower("") == "";
  }

  /** `is_hidden_file`: a name starting with a dot, or the platform's hidden attribute. */
  predicate IsHidden(path: string, hiddenAttribute: bool) {
    StartsWith(Basename(path), ".") || hiddenAttribute
  }

  /** For an entry of a listed folder the dot rule looks at the entry's own name. */
  lemma HiddenEntryByName(folder: string, name: string, hiddenAttribute: bool)
    requires name != [] && NoSlash(name)
    ensures IsHidden(Join(folder, name), hiddenAttribute) <==> name[0] == '.' || hiddenAttribute
  {
    BasenameOfJoin(folder, name);
    assert StartsWith(name, ".") <==> name[0] == '.' by {
      assert name[..1] == [name[0]];
    }
  }

  // ---------------------------------------------------------------------------------------
  // Existing subtitles

  /** The three paths probed for an identifier, in probing order. */
  function Candidates(keyword: string, folder: string): seq<string> {
    [Join(folder, keyword + ".zh-CN.srt"), Join(folder, keyword + ".zh-TW.srt"),
     Join(folder, keyword + ".srt")]
  }

  /** The first of `paths` that exists: None exactly when none does. */
  function FirstExisting(paths: seq<string>, fs: set<string>): (r: Option<string>)
    ensures r.None? <==> forall i | 0 <= i < |paths| :: paths[i] !in fs
    ensures r.Some? ==> r.value in paths && r.value in fs
  {
    if paths == [] then None
    else if paths[0] in fs then Some(paths[0])
    else FirstExisting(paths[1..], fs)
  }

  /** What FirstExisting finds is preceded only by paths that do not exist. */
  lemma {:induction false} FirstExistingIsFirst(paths: seq<string>, fs: set<string>)
    requires FirstExisting(paths, fs).Some?
    ensures exists i | 0 <= i < |paths| ::
      FirstExisting(paths, fs).value == paths[i] && forall j | 0 <= j < i :: paths[j] !in fs
  {
    if paths[0] !in fs {
      var r := FirstExisting(paths[1..], fs);
      FirstExistingIsFirst(paths[1..], fs);
      var i :| 0 <= i < |paths[1..]| && r.value == paths[1..][i]
        && forall j | 0 <= j < i :: paths[1..][j] !in fs;
      forall j | 0 <= j < i + 1 ensures paths[j] !in fs {
        if j > 0 { assert paths[j] == paths[1..][j - 1]; }
      }
      assert r.value == paths[i + 1];
    } else {
      assert FirstExisting(paths, fs).value == paths[0];
    }
  }

  /** `is_subtitle_exists`: probes the three names in order and stops at the first that
      exists, on the file system given as the set of existing paths. */
  method SubtitleExists(keyword: string, folder: string, fs: set<string>)
    returns (found: bool, existing: Option<string>)
    ensures existing == FirstExisting(Candidates(keyword, folder), fs)
    ensures found == existing.Some?
  {
    var names := [keyword + ".zh-CN.srt", keyword + ".zh-TW.srt", keyword + ".srt"];
    ghost var c := Candidates(keyword, folder);
    for i := 0 to |names|
      invariant forall j | 0 <= j < i :: c[j] !in fs
    {
      var fullPath := Join(folder, names[i]);
      if fullPath in fs {
        assert fullPath == c[i];
        return true, Some(fullPath);
      }
    }
    return false, None;
  }

  // ---------------------------------------------------------------------------------------
  // Choosing the variant to download

  datatype DownloadTarget = DownloadTarget(url: string, language: string, path: string)

  /** `download_chinese_subtitle`: zh-CN whenever it is offered, zh-TW otherwise, nothing when
      neither is; the file goes to `<folder>/<base>.<tag>.srt`. */
  function ChooseDownload(links: map<string, string>, base: string, folder: string)
    : (r: Option<DownloadTarget>)
    ensures r.None? <==> "zh-CN" !in links && "zh-TW" !in links
    ensures "zh-CN" in links ==> r == Some(DownloadTarget(
      links["zh-CN"], "Chinese Simplified (zh-CN)", Join(folder, base + ".zh-CN.srt")))
    ensures "zh-CN" !in links && "zh-TW" in links ==> r == Some(DownloadTarget(
      links["zh-TW"], "Chinese Traditional (zh-TW)", Join(folder, base + ".zh-TW.srt")))
  {
    if "zh-CN" in links then
      Some(DownloadTarget(links["zh-CN"], "Chinese Simplified (zh-CN)",
                          Join(folder, base + ".zh-CN.srt")))
    else if "zh-TW" in links then
      Some(DownloadTarget(links["zh-TW"], "Chinese Traditional (zh-TW)",
                          Join(folder, base + ".zh-TW.srt")))
    else None
  }

  /** When the base name is the identifier itself, the saved file is one of the probed
      names, so the next probe finds a subtitle. */
  lemma SavedUnderKeywordIsFound(links: map<string, string>, keyword: string, folder: string,
                                 fs: set<string>)
    requires ChooseDownload(links, keyword, folder).Some?
    ensures ChooseDownload(links, keyword, folder).value.path in Candidates(keyword, folder)
    ensures FirstExisting(Candidates(keyword, folder),
                          fs + {ChooseDownload(links, keyword, folder).value.path}).Some?
  {
    var c := Candidates(keyword, folder);
    if "zh-CN" in links {
      assert c[0] in fs + {c[0]};
    } else {
      assert c[1] in fs + {c[1]};
    }
  }

  // ---------------------------------------------------------------------------------------
  // Early exits of process_video_file

  datatype VideoPlan =
    | NoKeyword
    | AlreadyHave(existing: string)
    | Search(keyword: string, srtBase: string)

  /** The part of `process_video_file` before any network call: give up without an
      identifier, skip when a subtitle for the identifier exists, otherwise search for the
      identifier and name the file after the video's stem. */
  function PlanVideo(videoPath: string, folder: string, fs: set<string>): (plan: VideoPlan)
    ensures plan.NoKeyword? <==> ExtractKeyword(videoPath).None?
    ensures plan.Search? <==>
      ExtractKeyword(videoPath).Some?
      && forall i | 0 <= i < 3 :: Candidates(ExtractKeyword(videoPath).value, folder)[i] !in fs
    ensures plan.Search? ==>
      plan.keyword == ExtractKeyword(videoPath).value && plan.srtBase == Stem(videoPath)
    ensures plan.AlreadyHave? ==> plan.existing in fs
  {
    match ExtractKeyword(videoPath)
    case None => NoKeyword
    case Some(k) =>
      match FirstExisting(Candidates(k, folder), fs)
      case Some(p) => AlreadyHave(p)
      case None => Search(k, Stem(videoPath))
  }

  /** A video whose stem is exactly its identifier is skipped on the run after a download. */
  lemma StemKeywordSkippedAfterDownload(videoPath: string, folder: string, fs: set<string>,
                                         links: map<string, string>)
    requires PlanVideo(videoPath, folder, fs).Search?
    requires Stem(videoPath) == PlanVideo(videoPath, folder, fs).keyword
    requires ChooseDownload(links, Stem(videoPath), folder).Some?
    ensures PlanVideo(videoPath, folder,
                      fs + {ChooseDownload(links, Stem(videoPath), folder).value.path}).AlreadyHave?
  {
    SavedUnderKeywordIsFound(links, Stem(videoPath), folder, fs);
  }

  lemma KeywordStartsWithLetter(k: string)
    requires IsKeyword(k)
    ensures k != [] && IsAsciiLetter(k[0])
  {
    var h :| 0 <= h < |k| && HyphenAt(k, h);
  }

  /** An absolute folder path without a trailing slash. */
  predicate PlainFolder(folder: string) {
    folder != [] && folder[0] == '/' && folder[|folder| - 1] != '/'
  }

  /** Text that may follow an identifier in a file name without extending it: it does not
      start with a digit and has no dot or slash. */
  predicate PlainSuffix(x: string) {
    x != [] && !IsAsciiDigit(x[0]) && forall j | 0 <= j < |x| :: x[j] != '.' && x[j] != '/'
  }

  /** A video named after an identifier followed by such text: its stem is the whole name
      without `.mp4`, its identifier the leading part. */
  lemma SuffixedVideoNames(folder: string, k: string, x: string)
    requires PlainFolder(folder) && IsKeyword(k) && PlainSuffix(x)
    ensures Stem(Join(folder, k + x + ".mp4")) == k + x
    ensures ExtractKeyword(Join(folder, k + x + ".mp4")) == Some(k)
  {
    var stem := k + x;
    var name := stem + ".mp4";
    var video := Join(folder, name);
    var h :| 0 <= h < |k| && HyphenAt(k, h);
    forall j | 0 <= j < |stem| ensures stem[j] != '.' && stem[j] != '/' {
      if j < |k| {
        assert stem[j] == k[j];
        assert IsAsciiLetter(k[j]) || IsAsciiDigit(k[j]) || k[j] == '-';
      } else {
        assert stem[j] == x[j - |k|];
      }
    }
    forall j | 0 <= j < |name| ensures name[j] != '/' {
      if j < |stem| { assert name[j] == stem[j]; } else { assert name[j] == ".mp4"[j - |stem|]; }
    }
    assert name[0] == k[0] != '/';
    JoinWithSlash(folder, name);
    BasenameOfJoin(folder, name);
    SplitextOfName(stem, ".mp4");
    assert video[0] == '/';
    assert LeadingLetters(video) == 0;
    assert stem[..|k|] == k && stem[|k|] == x[0];
    MatchKeywordIsMaximalPrefix(stem, k);
  }

  /** A subtitle saved under a stem longer than the identifier is none of the three
      paths probed for the identifier. */
  lemma LongerStemNotProbed(folder: string, k: string, x: string, tag: string)
    requires PlainFolder(folder) && IsKeyword(k) && x != []
    requires tag == ".zh-CN.srt" || tag == ".zh-TW.srt"
    ensures forall i | 0 <= i < 3 :: Candidates(k, folder)[i] != Join(folder, k + x + tag)
  {
    KeywordStartsWithLetter(k);
    var c := Candidates(k, folder);
    assert (k + x + tag)[0] == k[0];
    assert (k + ".zh-CN.srt")[0] == k[0] && (k + ".zh-TW.srt")[0] == k[0] && (k + ".srt")[0] == k[0];
    JoinWithSlash(folder, k + x + tag);
    JoinWithSlash(folder, k + ".zh-CN.srt");
    JoinWithSlash(folder, k + ".zh-TW.srt");
    JoinWithSlash(folder, k + ".srt");
    assert |c[0]| == |c[1]| == |folder| + 1 + |k| + 10 && |c[2]| == |folder| + 1 + |k| + 4;
  }

  /** A video named after an identifier followed by such text is searched for under the
      identifier while none of the identifier's three subtitle paths exists, and the result
      is to be saved under the longer stem. */
  lemma SuffixedStemSearched(folder: string, k: string, x: string, fs: set<string>)
    requires PlainFolder(folder) && IsKeyword(k) && PlainSuffix(x)
    requires forall i | 0 <= i < 3 :: Candidates(k, folder)[i] !in fs
    ensures PlanVideo(Join(folder, k + x + ".mp4"), folder, fs) == Search(k, k + x)
  {
    SuffixedVideoNames(folder, k, x);
  }

  /** The probe uses the identifier but the file is saved under the video's stem. When the
      stem carries text after the identifier (`NIMA-014-extra.mp4`), the saved subtitle
      (`NIMA-014-extra.zh-CN.srt`) is not one of the probed paths, and the next run searches
      for the same identifier again. */
  lemma SuffixedStemSearchedAgain(folder: string, k: string, x: string,
                                  links: map<string, string>, fs: set<string>)
    requires PlainFolder(folder) && IsKeyword(k) && PlainSuffix(x)
    requires "zh-CN" in links || "zh-TW" in links
    requires forall i | 0 <= i < 3 :: Candidates(k, folder)[i] !in fs
    ensures var saved := ChooseDownload(links, k + x, folder).value.path;
      PlanVideo(Join(folder, k + x + ".mp4"), folder, fs + {saved}) == Search(k, k + x)
  {
    var tag := if "zh-CN" in links then ".zh-CN.srt" else ".zh-TW.srt";
    var saved := Join(folder, k + x + tag);
    LongerStemNotProbed(folder, k, x, tag);
    SuffixedStemSearched(folder, k, x, fs + {saved});
  }

  /** Inside a folder whose own name is an identifier, every file gets that identifier,
      because the raw path is matched before the file's stem. */
  lemma KeywordFolderNamesEveryFile(folder: string, name: string)
    requires MatchKeyword(folder) == Some(folder)
    requires name != [] && NoSlash(name)
    ensures ExtractKeyword(Join(folder, name)) == Some(folder)
  {
    var p := Join(folder, name);
    MatchKeywordIsMaximalPrefix(folder, folder);
    assert folder != [] && folder[|folder| - 1] != '/' by {
      var h :| 0 <= h < |folder| && HyphenAt(folder, h);
    }
    JoinWithSlash(folder, name);
    assert p[..|folder|] == folder;
    MatchKeywordIsMaximalPrefix(p, folder);
  }

  // ---------------------------------------------------------------------------------------
  // The folder loop of main

  /** One result of listing a folder: its name, whether it is a regular file, and whether
      the platform marks it hidden. */
  datatype Entry = Entry(name: string, isFile: bool, hiddenAttribute: bool)

  /** The entries the loop counts as video files. */
  predicate CountedVideo(input: string, e: Entry) {
    !IsHidden(Join(input, e.name), e.hiddenAttribute) && e.isFile && IsVideoFile(e.name)
  }

  /** What the loop body decides about an entry before looking at the file system: not a
      counted video, or a counted video with the identifier found in its path, if any. */
  datatype EntryKind = Ignored | Video(keyword: Option<string>)

  /** An entry's full path with its kind. */
  datatype Item = Item(path: string, kind: EntryKind)

  function Classify(input: string, e: Entry): EntryKind {
    if CountedVideo(input, e) then Video(ExtractKeyword(Join(input, e.name))) else Ignored
  }

  function Items(input: string, entries: seq<Entry>): (items: seq<Item>)
    ensures |items| == |entries|
  {
    seq(|entries|, i requires 0 <= i < |entries| =>
      Item(Join(input, entries[i].name), Classify(input, entries[i])))
  }

  /** The loop state: the two counters, the paths handed to `process_video_file` in order,
      and the existing paths. */
  datatype Tally = Tally(processed: nat, withKeywords: nat, handled: seq<string>, fs: set<string>)

  /** One pass of the loop body. `writes` gives the paths that processing a video adds to
      the file system (what the download saves); it stands for the network. */
  function Step(folder: string, t: Tally, item: Item, writes: string -> set<string>): Tally {
    match item.kind
    case Ignored => t
    case Video(None) => t.(processed := t.processed + 1)
    case Video(Some(k)) =>
      if FirstExisting(Candidates(k, folder), t.fs).Some? then t.(processed := t.processed + 1)
      else Tally(t.processed + 1, t.withKeywords + 1, t.handled + [item.path],
                 t.fs + writes(item.path))
  }

  /** The loop over a sequence of classified entries. */
  function Run(folder: string, items: seq<Item>, fs0: set<string>,
               writes: string -> set<string>): Tally
    decreases |items|
  {
    if items == [] then Tally(0, 0, [], fs0)
    else Step(folder, Run(folder, items[..|items| - 1], fs0, writes), items[|items| - 1], writes)
  }

  /** The loop over a whole listing, as a function of the entries. */
  function FolderRun(input: string, folder: string, entries: seq<Entry>, fs0: set<string>,
                     writes: string -> set<string>): Tally
  {
    Run(folder, Items(input, entries), fs0, writes)
  }

  /** The output folder of folder mode: the one given, else the input folder. */
  function FolderOutput(input: string, outputDir: Option<string>): string {
    outputDir.GetOr(DefaultOutput(FolderInput, input, ""))
  }

  /** The counted-video half of one pass: skip a video without an identifier or with an
      existing subtitle, process it otherwise. */
  method VisitVideo(folder: string, filePath: string, keyword: Option<string>, t: Tally,
                    writes: string -> set<string>)
    returns (next: Tally)
    ensures next == Step(folder, t, Item(filePath, Video(keyword)), writes)
  {
    next := t.(processed := t.processed + 1);
    if keyword.Some? {
      var exists_, _ := SubtitleExists(keyword.value, folder, t.fs);
      if exists_ {
        return;
      }
      next := Tally(next.processed, t.withKeywords + 1, t.handled + [filePath],
                    t.fs + writes(filePath));
    }
  }

  /** One pass of the folder loop of `main` on one entry: skip it when hidden or not a
      video file, count it and visit it otherwise. */
  method VisitEntry(input: string, folder: string, e: Entry, t: Tally,
                    writes: string -> set<string>)
    returns (next: Tally)
    ensures next == Step(folder, t, Item(Join(input, e.name), Classify(input, e)), writes)
  {
    var filePath := Join(input, e.name);
    if IsHidden(filePath, e.hiddenAttribute) {
      return t;
    }
    if e.isFile && IsVideoFile(e.name) {
      var keyword := ExtractKeyword(filePath);
      next := VisitVideo(folder, filePath, keyword, t, writes);
    } else {
      next := t;
    }
  }

  /** The folder branch of `main`: visits every listed entry in order, starting from zero
      counts and the initial file system. */
  method ScanFolder(input: string, entries: seq<Entry>, outputDir: Option<string>,
                    fs0: set<string>, writes: string -> set<string>)
    returns (processed: nat, withKeywords: nat, handled: seq<string>, fs: set<string>)
    ensures Tally(processed, withKeywords, handled, fs)
            == FolderRun(input, FolderOutput(input, outputDir), entries, fs0, writes)
  {
    var folder := match outputDir case Some(d) => d case None => input;
    ghost var items := Items(input, entries);
    var t := Tally(0, 0, [], fs0);
    for i := 0 to |entries|
      invariant t == Run(folder, items[..i], fs0, writes)
    {
      assert items[..i + 1][..i] == items[..i];
      assert items[i] == Item(Join(input, entries[i].name), Classify(input, entries[i]));
      t := VisitEntry(input, folder, entries[i], t, writes);
    }
    assert items[..|entries|] == items;
    processed, withKeywords, handled, fs := t.processed, t.withKeywords, t.handled, t.fs;
  }

  /** Number of counted videos among the items. */
  function CountVideos(items: seq<Item>): nat
    decreases |items|
  {
    if items == [] then 0
    else CountVideos(items[..|items| - 1]) + (if items[|items| - 1].kind.Video? then 1 else 0)
  }

  /** Hidden and non-video entries are never counted, every processed video has been
      counted, and the file system only grows. */
  lemma {:induction false} RunCounts(folder: string, items: seq<Item>, fs0: set<string>,
                                     writes: string -> set<string>)
    ensures var t := Run(folder, items, fs0, writes);
      t.processed == CountVideos(items) && t.withKeywords == |t.handled| <= t.processed
      && fs0 <= t.fs
    decreases |items|
  {
    if items != [] {
      RunCounts(folder, items[..|items| - 1], fs0, writes);
    }
  }

  /** `items[i]` has path `p` and is a counted video with an identifier none of whose three
      subtitle names exists when the loop reaches it. */
  predicate UnsatisfiedAt(folder: string, items: seq<Item>, fs0: set<string>,
                          writes: string -> set<string>, i: int, p: string) {
    0 <= i < |items| && items[i].path == p && items[i].kind.Video?
    && items[i].kind.keyword.Some?
    && FirstExisting(Candidates(items[i].kind.keyword.value, folder),
                     Run(folder, items[..i], fs0, writes).fs).None?
  }

  /** Every processed path belongs to a counted video whose path has an identifier and none
      of whose three subtitle names existed when the loop reached it: a video whose subtitle
      exists at its turn is skipped. */
  lemma {:induction false} RunHandlesOnlyKeyedVideos(folder: string, items: seq<Item>,
      fs0: set<string>, writes: string -> set<string>)
    ensures forall p | p in Run(folder, items, fs0, writes).handled ::
      exists i :: UnsatisfiedAt(folder, items, fs0, writes, i, p)
    decreases |items|
  {
    if items != [] {
      var init := items[..|items| - 1];
      var t := Run(folder, init, fs0, writes);
      RunHandlesOnlyKeyedVideos(folder, init, fs0, writes);
      forall p | p in Run(folder, items, fs0, writes).handled
        ensures exists i :: UnsatisfiedAt(folder, items, fs0, writes, i, p)
      {
        if p in t.handled {
          var i :| UnsatisfiedAt(folder, init, fs0, writes, i, p);
          assert init[..i] == items[..i] && init[i] == items[i];
          assert UnsatisfiedAt(folder, items, fs0, writes, i, p);
        } else {
          assert init == items[..|items| - 1];
          assert UnsatisfiedAt(folder, items, fs0, writes, |items| - 1, p);
        }
      }
    }
  }

  /** In terms of the listing: a processed path is the path of a listed entry that is a
      counted video, an identifier is extracted from it, and none of that identifier's
      subtitle names existed when the loop reached the entry. */
  lemma FolderRunHandlesOnlyKeyedVideos(input: string, folder: string, entries: seq<Entry>,
                                        fs0: set<string>, writes: string -> set<string>)
    ensures forall p | p in FolderRun(input, folder, entries, fs0, writes).handled ::
      exists i | 0 <= i < |entries| ::
        p == Join(input, entries[i].name) && CountedVideo(input, entries[i])
        && ExtractKeyword(p).Some?
        && FirstExisting(Candidates(ExtractKeyword(p).value, folder),
                         FolderRun(input, folder, entries[..i], fs0, writes).fs).None?
  {
    var items := Items(input, entries);
    RunHandlesOnlyKeyedVideos(folder, items, fs0, writes);
    forall p | p in Run(folder, items, fs0, writes).handled
      ensures exists i | 0 <= i < |entries| ::
        p == Join(input, entries[i].name) && CountedVideo(input, entries[i])
        && ExtractKeyword(p).Some?
        && FirstExisting(Candidates(ExtractKeyword(p).value, folder),
                         FolderRun(input, folder, entries[..i], fs0, writes).fs).None?
    {
      var i :| UnsatisfiedAt(folder, items, fs0, writes, i, p);
      assert items[i] == Item(Join(input, entries[i].name), Classify(input, entries[i]));
      ItemsPrefix(input, entries, i);
      assert FolderRun(input, folder, entries[..i], fs0, writes) == Run(folder, items[..i], fs0, writes);
    }
  }

  /** A counted video with an identifier none of whose three subtitle names exists when the
      loop reaches it is processed: its path is among the processed paths at the end. */
  lemma {:induction false} RunHandlesUnsatisfiedVideo(folder: string, items: seq<Item>,
      fs0: set<string>, writes: string -> set<string>, i: int, k: string)
    requires 0 <= i < |items| && items[i].kind == Video(Some(k))
    requires FirstExisting(Candidates(k, folder), Run(folder, items[..i], fs0, writes).fs).None?
    ensures items[i].path in Run(folder, items, fs0, writes).handled
    decreases |items|
  {
    var init := items[..|items| - 1];
    if i == |items| - 1 {
      assert init == items[..i];
    } else {
      assert init[..i] == items[..i];
      RunHandlesUnsatisfiedVideo(folder, init, fs0, writes, i, k);
      var t := Run(folder, init, fs0, writes);
      assert t.handled <= Step(folder, t, items[|items| - 1], writes).handled;
    }
  }

  /** In terms of the listing: a listed, counted video whose path has an identifier and none
      of whose subtitle names exists when the loop reaches it goes to `process_video_file`. */
  lemma FolderRunHandlesUnsatisfiedVideo(input: string, folder: string, entries: seq<Entry>,
      fs0: set<string>, writes: string -> set<string>, i: int, k: string)
    requires 0 <= i < |entries| && CountedVideo(input, entries[i])
    requires ExtractKeyword(Join(input, entries[i].name)) == Some(k)
    requires FirstExisting(Candidates(k, folder),
                           FolderRun(input, folder, entries[..i], fs0, writes).fs).None?
    ensures Join(input, entries[i].name) in FolderRun(input, folder, entries, fs0, writes).handled
  {
    var items := Items(input, entries);
    ItemsPrefix(input, entries, i);
    var kind := Classify(input, entries[i]);
    assert kind == Video(Some(k));
    assert items[i] == Item(Join(input, entries[i].name), kind);
    RunHandlesUnsatisfiedVideo(folder, items, fs0, writes, i, k);
  }

  /** Classifying a prefix of the listing gives the prefix of its classification. */
  lemma ItemsPrefix(input: string, entries: seq<Entry>, i: int)
    requires 0 <= i <= |entries|
    ensures Items(input, entries[..i]) == Items(input, entries)[..i]
  {
    var a := Items(input, entries[..i]);
    var b := Items(input, entries)[..i];
    forall j | 0 <= j < i ensures a[j] == b[j] {
      assert entries[..i][j] == entries[j];
    }
  }

  /** A counted video is satisfied when it has an identifier and one of its three subtitle
      names exists. */
  predicate Satisfied(folder: string, kind: EntryKind, fs: set<string>) {
    kind.Video? && kind.keyword.Some?
    && exists i | 0 <= i < 3 :: Candidates(kind.keyword.value, folder)[i] in fs
  }

  /** When every counted video with an identifier is satisfied at the start, the loop
      processes nothing: no search is made and nothing is written. Videos without an
      identifier are skipped whatever exists. */
  lemma {:induction false} RunIdleWhenSatisfied(folder: string, items: seq<Item>,
      fs0: set<string>, writes: string -> set<string>)
    requires forall i | 0 <= i < |items| ::
      items[i].kind.Video? && items[i].kind.keyword.Some? ==> Satisfied(folder, items[i].kind, fs0)
    ensures Run(folder, items, fs0, writes).handled == []
    ensures Run(folder, items, fs0, writes).fs == fs0
    decreases |items|
  {
    if items != [] {
      var init := items[..|items| - 1];
      assert forall i | 0 <= i < |init| :: init[i] == items[i];
      RunIdleWhenSatisfied(folder, init, fs0, writes);
      var last := items[|items| - 1];
      if last.kind.Video? && last.kind.keyword.Some? {
        assert Satisfied(folder, last.kind, fs0);
      }
    }
  }

  // ---------------------------------------------------------------------------------------
  // Output folders and keyword mode

  datatype InputKind = FolderInput | FileInput | KeywordInput

  /** The output folder when none is given: the folder itself, the file's directory, or
      the current directory `.` for a bare identifier. */
  function DefaultOutput(kind: InputKind, input: string, cwd: string): string {
    match kind
    case FolderInput => input
    case FileInput => Dirname(Abspath(input, cwd))
    case KeywordInput => "."
  }

  /** For a file given by a normalised absolute path the subtitle lands next to the video:
      the default folder joined with the file name gives the input back. */
  lemma FileOutputIsVideoDirectory(dir: string, name: string, cwd: string)
    requires IsNormalAbsolute(dir)
    requires name != [] && NoSlash(name) && name != "." && name != ".."
    ensures DefaultOutput(FileInput, Join(dir, name), cwd) == dir
    ensures Join(DefaultOutput(FileInput, Join(dir, name), cwd), name) == Join(dir, name)
  {
    var p := Join(dir, name);
    JoinWithSlash(dir, name);
    assert p[..1] == dir[..1] == "/";
    assert Abspath(p, cwd) == p;
    DirnameJoin(dir, name);
  }

  datatype KeywordJob = KeywordJob(keyword: string, srtBase: string, folder: string)

  /** Keyword mode: search for the identifier found in the input, name the subtitle after
      the whole input, save it in the given folder or `.`; nothing when no identifier is
      found. */
  function KeywordModeJob(input: string, outputDir: Option<string>): (job: Option<KeywordJob>)
    ensures job.Some? <==> ExtractKeyword(input).Some?
    ensures job.Some? ==> Some(job.value.keyword) == ExtractKeyword(input)
    ensures job.Some? ==> job.value.srtBase == input
    ensures job.Some? ==> job.value.folder == outputDir.GetOr(".")
  {
    match ExtractKeyword(input)
    case None => None
    case Some(k) => Some(KeywordJob(k, input, outputDir.GetOr(DefaultOutput(KeywordInput, input, ""))))
  }

  /** A bare identifier with no output folder is searched for as it is and saved as
      `./<identifier>.zh-CN.srt` (or `.zh-TW.srt`). */
  lemma KeywordModeSavesInCurrentDirectory(k: string, links: map<string, string>)
    requires IsKeyword(k)
    requires "zh-CN" in links
    ensures KeywordModeJob(k, None) == Some(KeywordJob(k, k, "."))
    ensures ChooseDownload(links, k, ".").value.path == "./" + k + ".zh-CN.srt"
  {
    KeywordMatchesItself(k);
    SavedInCurrentDirectory(k, ".zh-CN.srt");
  }

  /** An input with text after its identifier is searched for by the identifier but saved
      under the whole input: `NIMA-014-extra` gives `./NIMA-014-extra.zh-CN.srt`. */
  lemma KeywordModeKeepsInputName(links: map<string, string>)
    requires "zh-CN" in links
    ensures KeywordModeJob("NIMA-014-extra", None)
            == Some(KeywordJob("NIMA-014", "NIMA-014-extra", "."))
    ensures ChooseDownload(links, "NIMA-014-extra", ".").value.path
            == "./" + "NIMA-014-extra" + ".zh-CN.srt"
  {
    var input := "NIMA-014-extra";
    ExtractKeywordStopsAtNonDigit();
    var job := KeywordModeJob(input, None);
    assert job.Some? && job.value.keyword == "NIMA-014";
    assert job.value == KeywordJob("NIMA-014", input, ".");
    assert input[0] == 'N';
    SavedInCurrentDirectory(input, ".zh-CN.srt");
  }

  /** A name that does not start with `/` joined onto `.` is that name after `./`. */
  lemma SavedInCurrentDirectory(k: string, suffix: string)
    requires k != [] && k[0] != '/'
    ensures Join(".", k + suffix) == "./" + k + suffix
  {
    assert (k + suffix)[0] == k[0];
    JoinWithSlash(".", k + suffix);
    assert "./" + (k + suffix) == "./" + k + suffix;
  }
}
