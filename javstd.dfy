/** The batch job of `javstd.py`: walk a library, skip what needs no subtitle, read the
    identifier and the Chinese-subtitle mark from each video's NFO file, ask the subtitle
    handler for the rest and rename a simplified-Chinese download to `<num>.srt`.
    Directory listings, the NFO files and the handler are inputs; the subtitle library is
    a set of existing paths. */
module Javstd {
  import opened Strings
  import opened Paths
  import Scraper

  /** The text that marks a video as already having Chinese subtitles. */
  const ChineseSubtitleMark: string := "中文字幕"

  // ---------------------------------------------------------------------------------------
  // Reading the NFO file

  /** An element below the root of the NFO document, in document order: its tag, whether
      it is a direct child of the root, and its text (None when it has none). */
  datatype Element = Element(name: string, isChild: bool, text: Option<string>)

  /** What opening and parsing an NFO path gives: the elements below the root, or one of
      the three failures the function catches. */
  datatype NfoRead = Parsed(elements: seq<Element>) | ParseError | NotFound | ReadError

  /** `root.findall('.//' + name)`: the elements with that tag at any depth, in order. */
  function FindAll(es: seq<Element>, name: string): seq<Element>
    decreases |es|
  {
    if es == [] then []
    else (if es[0].name == name then [es[0]] else []) + FindAll(es[1..], name)
  }

  /** `findall` keeps exactly the elements with the tag. */
  lemma {:induction false} FindAllSpec(es: seq<Element>, name: string)
    ensures forall e :: e in FindAll(es, name) <==> e in es && e.name == name
    decreases |es|
  {
    if es != [] {
      FindAllSpec(es[1..], name);
      assert es == [es[0]] + es[1..];
    }
  }

  /** `root.find(name)`: the first direct child with that tag. */
  function FindChild(es: seq<Element>, name: string): Option<Element>
    decreases |es|
  {
    if es == [] then None
    else if es[0].isChild && es[0].name == name then Some(es[0])
    else FindChild(es[1..], name)
  }

  /** `es[i]` is a direct child with the tag, and no earlier element is one. */
  predicate FirstChildAt(es: seq<Element>, name: string, i: int) {
    0 <= i < |es| && es[i].isChild && es[i].name == name
    && forall j | 0 <= j < i :: !(es[j].isChild && es[j].name == name)
  }

  /** `find` gives the first direct child with the tag, and gives nothing only when there
      is none. */
  lemma {:induction false} FindChildSpec(es: seq<Element>, name: string)
    ensures FindChild(es, name).Some? ==>
      FindChild(es, name).value in es && FindChild(es, name).value.isChild
      && FindChild(es, name).value.name == name
    ensures FindChild(es, name).Some? ==>
      exists i | 0 <= i < |es| :: FirstChildAt(es, name, i) && es[i] == FindChild(es, name).value
    ensures FindChild(es, name).None? ==> forall e | e in es :: !(e.isChild && e.name == name)
    decreases |es|
  {
    if es != [] {
      FindChildSpec(es[1..], name);
      assert es == [es[0]] + es[1..];
      if es[0].isChild && es[0].name == name {
        assert FirstChildAt(es, name, 0);
      } else if FindChild(es, name).Some? {
        var k :| 0 <= k < |es[1..]| && FirstChildAt(es[1..], name, k)
                 && es[1..][k] == FindChild(es, name).value;
        assert FirstChildAt(es, name, k + 1);
      }
    }
  }

  /** The first direct child `num`'s text; None when there is no such child or it has no text. */
  function NumValue(es: seq<Element>): Option<string> {
    match FindChild(es, "num")
    case None => None
    case Some(e) => e.text
  }

  predicate Marked(e: Element) {
    e.text == Some(ChineseSubtitleMark)
  }

  predicate AnyMarked(es: seq<Element>) {
    exists i | 0 <= i < |es| :: Marked(es[i])
  }

  /** What `extract_info_from_nfo` returns: the num value and the flag, which is set when a
      `tag` element, or else a `genre` element, carries the mark; every failure gives
      (None, false). */
  function NfoInfo(read: NfoRead): (Option<string>, bool) {
    match read
    case Parsed(es) => (NumValue(es), AnyMarked(FindAll(es, "tag")) || AnyMarked(FindAll(es, "genre")))
    case _ => (None, false)
  }

  /** Scans `es` for a marked element, leaving at the first one. */
  method ScanForMark(es: seq<Element>) returns (found: bool)
    ensures found == AnyMarked(es)
  {
    found := false;
    var i := 0;
    while i < |es|
      invariant 0 <= i <= |es|
      invariant forall j | 0 <= j < i :: !Marked(es[j])
    {
      if es[i].text == Some(ChineseSubtitleMark) {
        found := true;
        break;
      }
      i := i + 1;
    }
  }

  /** `extract_info_from_nfo`: the `tag` elements are scanned first and the `genre` elements
      only when no tag carried the mark. */
  method ExtractInfoFromNfo(read: NfoRead) returns (num: Option<string>, hasChineseSubtitle: bool)
    ensures (num, hasChineseSubtitle) == NfoInfo(read)
  {
    if !read.Parsed? {
      return None, false;
    }
    var root := read.elements;
    var numElement := FindChild(root, "num");
    num := if numElement.Some? then numElement.value.text else None;
    hasChineseSubtitle := ScanForMark(FindAll(root, "tag"));
    if !hasChineseSubtitle {
      hasChineseSubtitle := ScanForMark(FindAll(root, "genre"));
    }
  }

  /** The flag is set exactly when some `tag` or `genre` element anywhere below the root has
      exactly the mark as its text. */
  lemma FlagIffMarkedElement(es: seq<Element>)
    ensures NfoInfo(Parsed(es)).1
            <==> exists i | 0 <= i < |es| :: (es[i].name == "tag" || es[i].name == "genre") && Marked(es[i])
  {
    var tags := FindAll(es, "tag");
    var genres := FindAll(es, "genre");
    FindAllSpec(es, "tag");
    FindAllSpec(es, "genre");
    if NfoInfo(Parsed(es)).1 {
      var e;
      if AnyMarked(tags) {
        var j :| 0 <= j < |tags| && Marked(tags[j]);
        e := tags[j];
      } else {
        var j :| 0 <= j < |genres| && Marked(genres[j]);
        e := genres[j];
      }
      assert e in es;
      var i :| 0 <= i < |es| && es[i] == e;
    }
    if exists i | 0 <= i < |es| :: (es[i].name == "tag" || es[i].name == "genre") && Marked(es[i]) {
      var i :| 0 <= i < |es| && (es[i].name == "tag" || es[i].name == "genre") && Marked(es[i]);
      var e := es[i];
      if e.name == "tag" {
        assert e in tags;
        var j :| 0 <= j < |tags| && tags[j] == e;
      } else {
        assert e in genres;
        var j :| 0 <= j < |genres| && genres[j] == e;
      }
    }
  }

  /** The num value is the text of the first direct `num` child: a deeper or a later `num`
      element is not read. */
  lemma NumComesFromDirectChild(es: seq<Element>)
    ensures NumValue(es).Some? ==> exists i | 0 <= i < |es| ::
      es[i].isChild && es[i].name == "num" && es[i].text == NumValue(es)
    ensures NumValue(es).Some? ==> exists i | 0 <= i < |es| ::
      FirstChildAt(es, "num", i) && es[i].text == NumValue(es)
  {
    var c := FindChild(es, "num");
    FindChildSpec(es, "num");
    if c.Some? {
      var i :| 0 <= i < |es| && FirstChildAt(es, "num", i) && es[i] == c.value;
    }
  }

  /** The mark is reported even when there is no num: the result is (None, true), not the
      (None, false) the function's documentation promises. */
  lemma MarkWithoutNum()
    ensures NfoInfo(Parsed([Element("tag", true, Some(ChineseSubtitleMark))])) == (None, true)
  {
    var es := [Element("tag", true, Some(ChineseSubtitleMark))];
    assert es[1..] == [];
    assert es[0].name != "num";
    assert FindChild(es, "num") == None;
    assert FindAll(es, "tag") == es;
    assert Marked(FindAll(es, "tag")[0]);
  }

  // ---------------------------------------------------------------------------------------
  // The NFO path and the rename

  /** The NFO file name: every `.mp4`, `.avi` and `.mkv` in the name, in that order, is
      replaced by `.nfo`, with case kept. */
  function NfoName(filename: string): string {
    Replace(Replace(Replace(filename, ".mp4", ".nfo"), ".avi", ".nfo"), ".mkv", ".nfo")
  }

  function NfoPath(root: string, filename: string): string {
    Join(root, NfoName(filename))
  }

  predicate FreeOfExtensions(stem: string) {
    !Contains(stem, ".mp4") && !Contains(stem, ".avi") && !Contains(stem, ".mkv")
  }

  /** Replacing an extension that is not in the text changes nothing. */
  lemma ReplaceMissing(s: string, t: string, p: string)
    requires LeadsUniquely(p) && |t| == |p| && t != p && t[0] == p[0]
    requires !Contains(s, p)
    ensures !Contains(s + t, p)
    ensures Replace(s + t, p, ".nfo") == s + t
  {
    AppendKeepsAbsent(s, t, p);
    ReplaceAbsent(s + t, p, ".nfo");
  }

  /** A video named `<stem>.mp4`, `<stem>.avi` or `<stem>.mkv`, with none of the three
      extensions inside its stem, has its NFO file at `<stem>.nfo`. */
  lemma NfoNameOfVideo(stem: string, ext: string)
    requires ext == ".mp4" || ext == ".avi" || ext == ".mkv"
    requires FreeOfExtensions(stem)
    ensures NfoName(stem + ext) == stem + ".nfo"
  {
    assert LeadsUniquely(".mp4") && LeadsUniquely(".avi") && LeadsUniquely(".mkv");
    if ext == ".mp4" {
      ReplaceAtEnd(stem, ".mp4", ".nfo");
      ReplaceMissing(stem, ".nfo", ".avi");
      ReplaceMissing(stem, ".nfo", ".mkv");
    } else if ext == ".avi" {
      ReplaceMissing(stem, ".avi", ".mp4");
      ReplaceAtEnd(stem, ".avi", ".nfo");
      ReplaceMissing(stem, ".nfo", ".mkv");
    } else {
      ReplaceMissing(stem, ".mkv", ".mp4");
      ReplaceMissing(stem, ".mkv", ".avi");
      ReplaceAtEnd(stem, ".mkv", ".nfo");
    }
  }

  /** Any other name, such as a `.wmv` video, is its own NFO name: the NFO path is the
      video file itself. */
  lemma NfoNameUnchanged(filename: string)
    requires FreeOfExtensions(filename)
    ensures NfoName(filename) == filename
  {
    ReplaceAbsent(filename, ".mp4", ".nfo");
    ReplaceAbsent(filename, ".avi", ".nfo");
    ReplaceAbsent(filename, ".mkv", ".nfo");
  }

  /** Every occurrence of the three extensions is replaced, wherever it stands in the name:
      none of them is left in the NFO name, and `.nfo` creates none of them. */
  lemma NfoNameHasNoExtensions(filename: string)
    ensures FreeOfExtensions(NfoName(filename))
  {
    var mp4Gone := Replace(filename, ".mp4", ".nfo");
    var aviGone := Replace(mp4Gone, ".avi", ".nfo");
    ReplaceLeavesNo(filename, ".mp4", ".nfo", ".mp4");
    ReplaceLeavesNo(mp4Gone, ".avi", ".nfo", ".mp4");
    ReplaceLeavesNo(mp4Gone, ".avi", ".nfo", ".avi");
    ReplaceLeavesNo(aviGone, ".mkv", ".nfo", ".mp4");
    ReplaceLeavesNo(aviGone, ".mkv", ".nfo", ".avi");
    ReplaceLeavesNo(aviGone, ".mkv", ".nfo", ".mkv");
  }

  /** `p.rsplit('.', 2)[0]`: the text before the second-to-last dot, before the only dot,
      or all of `p` when it has no dot. */
  function RSplitHead(p: string): (r: string)
    ensures |r| <= |p| && r == p[..|r|]
  {
    var last := RFind(p, '.');
    if last < 0 then p
    else
      var second := RFind(p[..last], '.');
      if second < 0 then p[..last] else p[..second]
  }

  const SimplifiedSuffix: string := ".zh-CN.srt"

  /** Where a downloaded subtitle is moved: only a path ending in `.zh-CN.srt` is renamed,
      to its `rsplit` head followed by `.srt`. */
  function RenameTarget(resultPath: string): Option<string> {
    if EndsWith(resultPath, SimplifiedSuffix) then Some(RSplitHead(resultPath) + ".srt")
    else None
  }

  /** The two last dots of `<q>.zh-CN.srt` are those of the suffix, so the rename replaces
      exactly the suffix by `.srt`, whatever dots `q` holds. */
  lemma RenameReplacesSuffix(q: string)
    ensures RenameTarget(q + SimplifiedSuffix) == Some(q + ".srt")
  {
    var p := q + SimplifiedSuffix;
    assert p[|p| - |SimplifiedSuffix|..] == SimplifiedSuffix;
    var n := |q|;
    assert p[n + 6] == '.';
    forall j | n + 6 < j < |p| ensures p[j] != '.' {
      assert p[j] == SimplifiedSuffix[j - n];
    }
    RFindIsLast(p, '.', n + 6);
    var head := p[..n + 6];
    assert head == q + ".zh-CN";
    forall j | n < j < |head| ensures head[j] != '.' {
      assert head[j] == SimplifiedSuffix[j - n];
    }
    RFindIsLast(head, '.', n);
    assert p[..n] == q;
  }

  /** Paths that do not end in `.zh-CN.srt`, such as a traditional-Chinese download, are
      left where they are. */
  lemma TraditionalNotRenamed(q: string)
    ensures RenameTarget(q + ".zh-TW.srt") == None
  {
    var p := q + ".zh-TW.srt";
    assert p[|p| - |SimplifiedSuffix|..] == ".zh-TW.srt";
    assert ".zh-TW.srt"[4] != SimplifiedSuffix[4];
  }

  // ---------------------------------------------------------------------------------------
  // Deciding about one file

  /** A file as `os.walk` reports it: the directory and the file name. */
  datatype LibraryFile = LibraryFile(root: string, name: string)

  /** What the loop body decides before looking at the subtitle library. */
  datatype Verdict = NotVideo | Trailer | MarkedInName | NoNum | MarkedInNfo | Wanted(num: string)

  /** The skip tests on the name alone: not a video, `trailer` in any case, or `-C` with
      that case. */
  function NameVerdict(filename: string): Option<Verdict> {
    if !Scraper.IsVideoFile(filename) then Some(NotVideo)
    else if Contains(Lower(filename), "trailer") then Some(Trailer)
    else if Contains(filename, "-C") then Some(MarkedInName)
    else None
  }

  function Judge(file: LibraryFile, nfo: string -> NfoRead): Verdict {
    match NameVerdict(file.name)
    case Some(v) => v
    case None =>
      var info := NfoInfo(nfo(NfoPath(file.root, file.name)));
      if info.0.None? || info.0.value == [] then NoNum
      else if info.1 then MarkedInNfo
      else Wanted(info.0.value)
  }

  /** The early exits of the loop body of `main`, up to the existence check. */
  method JudgeFile(file: LibraryFile, nfo: string -> NfoRead) returns (v: Verdict)
    ensures v == Judge(file, nfo)
  {
    var filename := file.name;
    if !Scraper.IsVideoFile(filename) {
      return NotVideo;
    }
    if Contains(Lower(filename), "trailer") {
      return Trailer;
    }
    if Contains(filename, "-C") {
      return MarkedInName;
    }
    var nfoPath := Join(file.root, NfoName(filename));
    var javNumber, hasChineseSubtitle := ExtractInfoFromNfo(nfo(nfoPath));
    if javNumber.None? || javNumber.value == [] {
      return NoNum;
    }
    if hasChineseSubtitle {
      return MarkedInNfo;
    }
    return Wanted(javNumber.value);
  }

  /** Only a wanted file can lead to a handler call: it is a video, its name has neither
      `trailer` nor `-C`, and its NFO file names a non-empty num without the mark. */
  lemma WantedMeansEligible(file: LibraryFile, nfo: string -> NfoRead, num: string)
    requires Judge(file, nfo) == Wanted(num)
    ensures Scraper.IsVideoFile(file.name)
    ensures !Contains(Lower(file.name), "trailer") && !Contains(file.name, "-C")
    ensures num != [] && NfoInfo(nfo(NfoPath(file.root, file.name))) == (Some(num), false)
  {
    var info := NfoInfo(nfo(NfoPath(file.root, file.name)));
    assert info.0 == Some(num) && !info.1;
    assert info == (info.0, info.1);
  }

  /** Conversely, an eligible video whose NFO names a num without the mark is wanted. */
  lemma EligibleIsWanted(file: LibraryFile, nfo: string -> NfoRead, num: string)
    requires Scraper.IsVideoFile(file.name)
    requires !Contains(Lower(file.name), "trailer") && !Contains(file.name, "-C")
    requires num != [] && NfoInfo(nfo(NfoPath(file.root, file.name))) == (Some(num), false)
    ensures Judge(file, nfo) == Wanted(num)
  {
    assert NameVerdict(file.name) == None;
  }

  const PartName: string := "IPX-123-CD1.mp4"

  lemma PartNameIsVideo()
    ensures Scraper.IsVideoFile(PartName)
  {
    var stem := "IPX-123-CD1";
    forall j | 0 <= j < |stem| ensures stem[j] != '.' && stem[j] != '/' {
    }
    var e := Lower(".mp4");
    assert e[0] == '.' && e[1] == 'm' && e[2] == 'p' && e[3] == '4';
    assert e == ".mp4";
    assert e in Scraper.VideoExtensions;
    assert PartName == stem + ".mp4";
    Scraper.VideoExtensionRecognised(stem, ".mp4");
  }

  lemma PartNameHasNoTrailer()
    ensures !Contains(Lower(PartName), "trailer")
  {
    var l := Lower(PartName);
    forall i | 0 <= i < |l| ensures l[i] != 't' {
      assert l[i] == LowerChar(PartName[i]);
    }
    FirstCharAbsent(l, "trailer");
  }

  /** Multi-part names such as `IPX-123-CD1.mp4` contain `-C` and are skipped too. */
  lemma PartNamesSkipped()
    ensures NameVerdict(PartName) == Some(MarkedInName)
  {
    PartNameIsVideo();
    PartNameHasNoTrailer();
    assert OccursAt(PartName, "-C", 7);
  }

  // ---------------------------------------------------------------------------------------
  // The loop of main

  /** One entry of the handler's result list: its success flag and, when present, the path
      of the saved subtitle. */
  datatype HandlerEntry = HandlerEntry(success: bool, path: Option<string>)

  /** A handler call either raises or returns its list of entries. */
  datatype HandlerOutcome = Raised | Returned(entries: seq<HandlerEntry>)

  /** The loop state: the nums handed to the handler, in order, and the existing paths. */
  datatype Batch = Batch(called: seq<string>, fs: set<string>)

  /** The one path probed before calling the handler. */
  function ProbePath(save: string, num: string): string {
    Join(save, num + ".srt")
  }

  /** What the result handling does to the library: a successful first entry whose path
      ends in `.zh-CN.srt` is renamed when that path exists; a failure, an empty list, a
      raised error or a missing file leaves it as it is. */
  function AfterHandler(fs: set<string>, outcome: HandlerOutcome): set<string> {
    match outcome
    case Raised => fs
    case Returned(entries) =>
      if entries == [] || !entries[0].success then fs
      else
        var resultPath := entries[0].path.GetOr("");
        match RenameTarget(resultPath)
        case None => fs
        case Some(newPath) => if resultPath in fs then fs - {resultPath} + {newPath} else fs
  }

  /** One file of the loop. `handler` gives the outcome of `subtitle_handler` for a num and
      `writes` the paths it saves; both stand for the network. */
  function Step(save: string, b: Batch, v: Verdict, handler: string -> HandlerOutcome,
                writes: string -> set<string>): Batch
  {
    match v
    case Wanted(num) =>
      if ProbePath(save, num) in b.fs then b
      else Batch(b.called + [num], AfterHandler(b.fs + writes(num), handler(num)))
    case _ => b
  }

  function Run(save: string, vs: seq<Verdict>, fs0: set<string>,
               handler: string -> HandlerOutcome, writes: string -> set<string>): Batch
    decreases |vs|
  {
    if vs == [] then Batch([], fs0)
    else Step(save, Run(save, vs[..|vs| - 1], fs0, handler, writes), vs[|vs| - 1], handler, writes)
  }

  function Verdicts(walk: seq<LibraryFile>, nfo: string -> NfoRead): (vs: seq<Verdict>)
    ensures |vs| == |walk|
  {
    seq(|walk|, i requires 0 <= i < |walk| => Judge(walk[i], nfo))
  }

  /** The whole job: nothing happens when either folder is unset. */
  function LibraryRun(src: string, save: string, walk: seq<LibraryFile>, nfo: string -> NfoRead,
                      fs0: set<string>, handler: string -> HandlerOutcome,
                      writes: string -> set<string>): Batch
  {
    if src == [] || save == [] then Batch([], fs0)
    else Run(save, Verdicts(walk, nfo), fs0, handler, writes)
  }

  /** The part of the loop body after the verdict: the existence check, the handler call and
      the rename. */
  method HandleWanted(save: string, num: string, b: Batch, handler: string -> HandlerOutcome,
                      writes: string -> set<string>)
    returns (next: Batch)
    ensures next == Step(save, b, Wanted(num), handler, writes)
  {
    var subtitlePath := Join(save, num + ".srt");
    if subtitlePath in b.fs {
      return b;
    }
    var fs := b.fs + writes(num);
    var results := handler(num);
    if results.Returned? && results.entries != [] && results.entries[0].success {
      var resultPath := results.entries[0].path.GetOr("");
      if EndsWith(resultPath, SimplifiedSuffix) {
        var newPath := RSplitHead(resultPath) + ".srt";
        if resultPath in fs {
          fs := fs - {resultPath} + {newPath};
        }
      }
    }
    next := Batch(b.called + [num], fs);
  }

  /** The loop body of `main` for one file. */
  method VisitFile(save: string, walk: seq<LibraryFile>, i: nat, nfo: string -> NfoRead,
                   fs0: set<string>, b: Batch, handler: string -> HandlerOutcome,
                   writes: string -> set<string>)
    returns (next: Batch)
    requires i < |walk| && b == Run(save, Verdicts(walk, nfo)[..i], fs0, handler, writes)
    ensures next == Run(save, Verdicts(walk, nfo)[..i + 1], fs0, handler, writes)
  {
    ghost var vs := Verdicts(walk, nfo);
    assert vs[..i + 1][..i] == vs[..i];
    var v := JudgeFile(walk[i], nfo);
    if v.Wanted? {
      next := HandleWanted(save, v.num, b, handler, writes);
    } else {
      next := b;
    }
  }

  /** `main` after the configuration: every file of the walk, in order. */
  method ProcessLibrary(src: string, save: string, walk: seq<LibraryFile>, nfo: string -> NfoRead,
                        fs0: set<string>, handler: string -> HandlerOutcome,
                        writes: string -> set<string>)
    returns (called: seq<string>, fs: set<string>)
    ensures Batch(called, fs) == LibraryRun(src, save, walk, nfo, fs0, handler, writes)
  {
    if src == [] || save == [] {
      return [], fs0;
    }
    ghost var vs := Verdicts(walk, nfo);
    var b := Batch([], fs0);
    for i := 0 to |walk|
      invariant b == Run(save, vs[..i], fs0, handler, writes)
    {
      b := VisitFile(save, walk, i, nfo, fs0, b, handler, writes);
    }
    assert vs[..|walk|] == vs;
    called, fs := b.called, b.fs;
  }

  // ---------------------------------------------------------------------------------------
  // Properties of the loop

  /** `vs[i]` wants `n`, and the probe path of `n` does not exist when the loop reaches it. */
  predicate UnprobedAt(save: string, vs: seq<Verdict>, fs0: set<string>,
                       handler: string -> HandlerOutcome, writes: string -> set<string>,
                       i: int, n: string) {
    0 <= i < |vs| && vs[i] == Wanted(n)
    && ProbePath(save, n) !in Run(save, vs[..i], fs0, handler, writes).fs
  }

  /** Every num handed to the handler is the num of a wanted file whose `<num>.srt` did not
      exist when the loop reached it, and no file leads to more than one call: a wanted file
      whose subtitle exists at its turn is skipped. */
  lemma {:induction false} RunCallsOnlyWanted(save: string, vs: seq<Verdict>, fs0: set<string>,
      handler: string -> HandlerOutcome, writes: string -> set<string>)
    ensures var b := Run(save, vs, fs0, handler, writes);
      |b.called| <= |vs|
      && forall n | n in b.called :: exists i :: UnprobedAt(save, vs, fs0, handler, writes, i, n)
    decreases |vs|
  {
    if vs != [] {
      var init := vs[..|vs| - 1];
      var b := Run(save, init, fs0, handler, writes);
      RunCallsOnlyWanted(save, init, fs0, handler, writes);
      forall n | n in Run(save, vs, fs0, handler, writes).called
        ensures exists i :: UnprobedAt(save, vs, fs0, handler, writes, i, n)
      {
        if n in b.called {
          var i :| UnprobedAt(save, init, fs0, handler, writes, i, n);
          assert init[..i] == vs[..i] && init[i] == vs[i];
          assert UnprobedAt(save, vs, fs0, handler, writes, i, n);
        } else {
          assert init == vs[..|vs| - 1];
          assert UnprobedAt(save, vs, fs0, handler, writes, |vs| - 1, n);
        }
      }
    }
  }

  /** In terms of the walk: every num handed to the handler comes from a video file without
      `trailer` or `-C` in its name whose NFO file names that num and has no mark, and whose
      `<num>.srt` did not exist when the walk reached it. */
  lemma LibraryCallsOnlyEligible(src: string, save: string, walk: seq<LibraryFile>,
      nfo: string -> NfoRead, fs0: set<string>, handler: string -> HandlerOutcome,
      writes: string -> set<string>)
    ensures forall n | n in LibraryRun(src, save, walk, nfo, fs0, handler, writes).called ::
      exists i | 0 <= i < |walk| ::
        Scraper.IsVideoFile(walk[i].name) && !Contains(Lower(walk[i].name), "trailer")
        && !Contains(walk[i].name, "-C") && n != []
        && NfoInfo(nfo(NfoPath(walk[i].root, walk[i].name))) == (Some(n), false)
        && ProbePath(save, n) !in LibraryRun(src, save, walk[..i], nfo, fs0, handler, writes).fs
  {
    if src != [] && save != [] {
      var vs := Verdicts(walk, nfo);
      RunCallsOnlyWanted(save, vs, fs0, handler, writes);
      forall n | n in Run(save, vs, fs0, handler, writes).called
        ensures exists i | 0 <= i < |walk| ::
          Scraper.IsVideoFile(walk[i].name) && !Contains(Lower(walk[i].name), "trailer")
          && !Contains(walk[i].name, "-C") && n != []
          && NfoInfo(nfo(NfoPath(walk[i].root, walk[i].name))) == (Some(n), false)
          && ProbePath(save, n) !in LibraryRun(src, save, walk[..i], nfo, fs0, handler, writes).fs
      {
        var i :| UnprobedAt(save, vs, fs0, handler, writes, i, n);
        assert vs[i] == Judge(walk[i], nfo);
        WantedMeansEligible(walk[i], nfo, n);
        VerdictsPrefix(walk, nfo, i);
        assert LibraryRun(src, save, walk[..i], nfo, fs0, handler, writes)
            == Run(save, vs[..i], fs0, handler, writes);
      }
    }
  }

  /** A wanted file whose probe path does not exist when the loop reaches it has its num
      handed to the handler. */
  lemma {:induction false} RunCallsUnprobedWanted(save: string, vs: seq<Verdict>,
      fs0: set<string>, handler: string -> HandlerOutcome, writes: string -> set<string>,
      i: int, n: string)
    requires 0 <= i < |vs| && vs[i] == Wanted(n)
    requires ProbePath(save, n) !in Run(save, vs[..i], fs0, handler, writes).fs
    ensures n in Run(save, vs, fs0, handler, writes).called
    decreases |vs|
  {
    var init := vs[..|vs| - 1];
    if i == |vs| - 1 {
      assert init == vs[..i];
    } else {
      assert init[..i] == vs[..i];
      RunCallsUnprobedWanted(save, init, fs0, handler, writes, i, n);
      var b := Run(save, init, fs0, handler, writes);
      assert b.called <= Step(save, b, vs[|vs| - 1], handler, writes).called;
    }
  }

  /** Judging a prefix of the walk gives the prefix of its verdicts. */
  lemma VerdictsPrefix(walk: seq<LibraryFile>, nfo: string -> NfoRead, i: int)
    requires 0 <= i <= |walk|
    ensures Verdicts(walk[..i], nfo) == Verdicts(walk, nfo)[..i]
  {
    var a := Verdicts(walk[..i], nfo);
    var b := Verdicts(walk, nfo)[..i];
    forall j | 0 <= j < i ensures a[j] == b[j] {
      assert walk[..i][j] == walk[j];
    }
  }

  /** In terms of the walk: with both folders set, an eligible video whose NFO names a num
      without the mark, and whose `<num>.srt` does not exist when the walk reaches it, has
      that num handed to the handler. */
  lemma LibraryCallsUnprobedEligible(src: string, save: string, walk: seq<LibraryFile>,
      nfo: string -> NfoRead, fs0: set<string>, handler: string -> HandlerOutcome,
      writes: string -> set<string>, i: int, n: string)
    requires src != [] && save != [] && 0 <= i < |walk|
    requires Scraper.IsVideoFile(walk[i].name)
    requires !Contains(Lower(walk[i].name), "trailer") && !Contains(walk[i].name, "-C")
    requires n != [] && NfoInfo(nfo(NfoPath(walk[i].root, walk[i].name))) == (Some(n), false)
    requires ProbePath(save, n) !in LibraryRun(src, save, walk[..i], nfo, fs0, handler, writes).fs
    ensures n in LibraryRun(src, save, walk, nfo, fs0, handler, writes).called
  {
    EligibleIsWanted(walk[i], nfo, n);
    VerdictsPrefix(walk, nfo, i);
    var vs := Verdicts(walk, nfo);
    assert vs[i] == Wanted(n);
    RunCallsUnprobedWanted(save, vs, fs0, handler, writes, i, n);
  }

  /** When every wanted num already has its `.srt` at the start, the handler is never called
      and the library is not touched. */
  lemma {:induction false} RunIdleWhenSubtitlesExist(save: string, vs: seq<Verdict>,
      fs0: set<string>, handler: string -> HandlerOutcome, writes: string -> set<string>)
    requires forall i | 0 <= i < |vs| :: vs[i].Wanted? ==> ProbePath(save, vs[i].num) in fs0
    ensures Run(save, vs, fs0, handler, writes) == Batch([], fs0)
    decreases |vs|
  {
    if vs != [] {
      var init := vs[..|vs| - 1];
      assert forall i | 0 <= i < |init| :: init[i] == vs[i];
      RunIdleWhenSubtitlesExist(save, init, fs0, handler, writes);
    }
  }

  /** A simplified-Chinese subtitle saved as `<num>.zh-CN.srt` in the save folder is renamed
      onto the very path the existence check probes. */
  lemma RenameLandsOnProbe(save: string, num: string)
    requires num != []
    ensures RenameTarget(Join(save, num + SimplifiedSuffix)) == Some(ProbePath(save, num))
  {
    JoinAppend(save, num, SimplifiedSuffix);
    JoinAppend(save, num, ".srt");
    RenameReplacesSuffix(Join(save, num));
  }

  /** After the handler has saved and reported `<num>.zh-CN.srt`, the probe path exists,
      so a second file with the same num is skipped without calling the handler again. */
  lemma SecondFileWithSameNumSkipped(save: string, b: Batch, num: string,
      handler: string -> HandlerOutcome, writes: string -> set<string>)
    requires num != [] && ProbePath(save, num) !in b.fs
    requires handler(num).Returned? && handler(num).entries != []
    requires handler(num).entries[0] == HandlerEntry(true, Some(Join(save, num + SimplifiedSuffix)))
    requires Join(save, num + SimplifiedSuffix) in writes(num)
    ensures var after := Step(save, b, Wanted(num), handler, writes);
      after.called == b.called + [num] && ProbePath(save, num) in after.fs
      && Step(save, after, Wanted(num), handler, writes) == after
  {
    RenameLandsOnProbe(save, num);
  }

  /** A traditional-Chinese download is not renamed, so unless the handler also writes the
      probe path, the same num is handed to the handler again on the next file or run. */
  lemma TraditionalDownloadRepeats(save: string, b: Batch, num: string,
      handler: string -> HandlerOutcome, writes: string -> set<string>)
    requires num != [] && ProbePath(save, num) !in b.fs && ProbePath(save, num) !in writes(num)
    requires handler(num).Returned? && handler(num).entries != []
    requires handler(num).entries[0] == HandlerEntry(true, Some(Join(save, num + ".zh-TW.srt")))
    ensures var after := Step(save, b, Wanted(num), handler, writes);
      Step(save, after, Wanted(num), handler, writes).called == b.called + [num, num]
  {
    JoinAppend(save, num, ".zh-TW.srt");
    TraditionalNotRenamed(Join(save, num));
  }
}
