# JavSubtitle in Dafny

A model of the decision logic of JavSubtitle, a set of Python scripts that fetch Chinese
subtitles for video files from subtitlecat.com:

- `subtitle_scraper.py` extracts an identifier such as `NIMA-014` from a keyword, a file
  path or each video of a folder. It skips videos that already have a subtitle, picks the
  simplified-Chinese (zh-CN) download over the traditional one (zh-TW) and decides where
  the file goes.
- `subtitlecat.py` builds the search URL, picks one result per table row of the search
  page, and reads the Chinese download buttons of a subtitle page.
- `javstd.py` walks a video library. It skips trailers, files marked `-C` and videos whose
  NFO file says they already have Chinese subtitles. It asks a subtitle handler for the
  rest and renames a reported `<x>.zh-CN.srt` to `<x>.srt`.

The network, HTML parsing and the file system are inputs of the model:

- A search page is its table rows and a subtitle page is its anchors.
- An NFO file is its list of elements.
- A directory listing is a sequence of entries.
- The file system is the set of existing paths.
- What a download or the subtitle handler saves is a function from its argument to the
  paths written.

Modules, one per file:

- `Strings` (strings.dfy) and `Paths` (paths.dfy): the Python `str` operations and the POSIX
  `os.path` functions the scripts use.
- `UrlQuote` (quote.dfy): `urllib.parse.quote`.
- `Scraper` (scraper.dfy): `subtitle_scraper.py`.
- `Subtitlecat` (subtitlecat.dfy): `subtitlecat.py`.
- `Javstd` (javstd.dfy): `javstd.py`.

Loops of the source are methods with loop invariants. Each is proved equal to a
specification function, for example:

- `ScanFolder` equals `FolderRun`;
- `SearchRows` equals `Results`;
- `CheckChineseButtons` equals `ScanButtons`;
- `ProcessLibrary` equals `LibraryRun`.

The properties of the scripts are lemmas about those functions.

Two behaviours of the code are stated as lemmas rather than assumed away:

- The search loop and `format_subtitlecat_url` resolve links differently (`ResolversDisagree`).
- The existence check probes the identifier while the download is saved under the video's
  stem, so `NIMA-014-extra.mp4` is searched for again on every run
  (`SuffixedStemSearchedAgain`).

`extract_info_from_nfo` documents `(None, False)` for a missing num but returns the mark
anyway. The model follows the code (`MarkWithoutNum`).

## Model

| member | source | states |
|---|---|---|
| Strings.StripSpec | subtitlecat.py:65 | `strip()` gives a piece of the text with no whitespace at either end, and everything before and after that piece is whitespace, so exactly one leading and one trailing whitespace run are removed; it is empty exactly when the text is all whitespace |
| Strings.ReplaceAbsent | javstd.py:200 | `replace` leaves a text without the pattern unchanged |
| Strings.ReplaceAtEnd | javstd.py:200 | replacing a pattern such as `.mp4` that occurs only at the end of the text replaces just that occurrence |
| Strings.ReplaceLeavesNo | javstd.py:200 | after `replace`, no occurrence of the pattern is left, and no occurrence of another pattern absent before is created, when the replacement cannot form one |
| Strings.Strip | subtitlecat.py:65 | definition: `str.strip()` as `rstrip` after `lstrip`; characterised by `StripSpec` |
| Strings.Lower | subtitle_scraper.py:55 | definition: `str.lower()` on ASCII letters, same length, every other character kept |
| Strings.Replace | javstd.py:200 | definition: `str.replace` of a non-empty pattern, left to right without overlap; characterised by `ReplaceAbsent` and `ReplaceAtEnd` |
| Paths.Basename | subtitle_scraper.py:61 | `basename` is the slash-free tail of the path, preceded by a `/` when shorter than the path |
| Paths.Splitext | subtitle_scraper.py:54 | the two parts concatenate to the path; the extension is empty or a `.` followed by no further `.` and no `/`; it is empty exactly when the path has no extension (`HasExtension`: a last dot in the last component with a non-dot character before it), so the split is at the last dot and leading dots are ignored |
| Paths.SplitextOfName | subtitle_scraper.py:29 | a dot-free stem followed by a one-dot extension splits into exactly those two parts |
| Paths.SplitextLower | subtitle_scraper.py:54-55 | splitting a lower-cased path gives the lower-cased parts of splitting the path |
| Paths.JoinWithSlash | subtitle_scraper.py:90 | `join` of a folder without a trailing slash and a relative name inserts exactly one `/` |
| Paths.BasenameOfJoin | subtitle_scraper.py:266 | `basename` of a folder joined with a slash-free name is the name |
| Paths.DirnameJoin | subtitle_scraper.py:296 | `dirname` of a folder joined with a name is the folder, and joining it with the `basename` gives the path back |
| Paths.JoinAppend | javstd.py:213 | appending text to the joined name appends it to the joined path |
| Paths.Join | subtitle_scraper.py:266 | definition: `os.path.join` of two components: an absolute second part wins, otherwise one `/` between; characterised by `JoinWithSlash` and `JoinAppend` |
| Paths.Dirname | subtitle_scraper.py:296 | definition: `os.path.dirname`: the text up to the last `/` with trailing slashes removed unless only slashes remain; characterised by `DirnameJoin` |
| Paths.Abspath | subtitle_scraper.py:296 | definition: `os.path.abspath` for a given working directory, without `normpath` |
| UrlQuote.Utf8RoundTrip | subtitlecat.py:30 | each character's UTF-8 encoding has the lead and continuation bytes its length calls for and decodes back to the character |
| UrlQuote.Escape | subtitlecat.py:30 | a byte is written as `%` followed by two upper-case hexadecimal digits whose value is the byte |
| UrlQuote.QuoteAlphabet | subtitlecat.py:30 | the quoted keyword holds only unreserved characters, `/` and `%` |
| UrlQuote.Quote | subtitlecat.py:30 | definition: `urllib.parse.quote` with safe `/`, character by character; characterised by `QuoteAlphabet`, `QuoteSafe`, `QuoteRoundTrip`, `QuoteOneChar` and `QuoteAppend` |
| UrlQuote.QuoteSafe | subtitlecat.py:30 | a keyword made of unreserved characters is quoted to itself |
| UrlQuote.QuoteRoundTrip | subtitlecat.py:30 | percent-decoding the quoted keyword gives back its UTF-8 bytes |
| UrlQuote.QuoteOneChar | subtitlecat.py:30 | a safe character is quoted to itself, any other to the escapes of its UTF-8 bytes |
| UrlQuote.QuoteAppend | subtitlecat.py:30 | quoting a concatenation quotes each part, so quoting works character by character |
| UrlQuote.EscapeAllSpec | subtitlecat.py:30 | the escapes of a byte sequence are the three-character escapes of its bytes, in order |
| Scraper.LeadingLetters | subtitle_scraper.py:34 | the greedy `[A-Za-z]+` run: all letters, and not followed by a letter |
| Scraper.MatchKeyword | subtitle_scraper.py:34-44 | definition: `re.match(r'^([A-Za-z]+-\d+)', s)` as greedy letters, a hyphen and greedy digits; characterised by `MatchKeywordIsMaximalPrefix` |
| Scraper.ExtractKeyword | subtitle_scraper.py:22-47 | definition: the pattern on the raw input, then on the stem of its basename; characterised by `ExtractKeywordSpec` |
| Scraper.KeywordPrefixAnchors | subtitle_scraper.py:34 | any identifier-shaped prefix fixes the letter run and hyphen the pattern finds, and the digit run found is at least as long |
| Scraper.MatchIsMaximalPrefix | subtitle_scraper.py:34-36 | a match is an identifier-shaped prefix of the text that is not followed by a digit |
| Scraper.MaximalPrefixIsMatch | subtitle_scraper.py:34-36 | an identifier-shaped prefix that no digit follows is what the pattern returns |
| Scraper.MatchKeywordIsMaximalPrefix | subtitle_scraper.py:34-36 | the match is `k` if and only if `k` is an identifier-shaped prefix of the text not followed by a digit |
| Scraper.MatchKeywordNoneIffNoPrefix | subtitle_scraper.py:34-44 | the pattern fails exactly when no prefix of the text is identifier-shaped |
| Scraper.ExtractKeywordSpec | subtitle_scraper.py:29-44 | None exactly when neither the input nor its stem has an identifier prefix; a prefix of the raw input always wins, and otherwise the stem's match is taken; the result is an identifier that starts the input (or, failing that, the stem) and is not followed there by another digit |
| Scraper.KeywordMatchesItself | subtitle_scraper.py:34-36 | an identifier on its own is extracted whole |
| Scraper.ExtractKeywordStopsAtNonDigit | subtitle_scraper.py:34-36 | example: `NIMA-014-extra` gives `NIMA-014` |
| Scraper.VideoTestIgnoresCase | subtitle_scraper.py:53-55 | the video test gives the same answer for the lower-cased name |
| Scraper.VideoExtensionRecognised | subtitle_scraper.py:53-55 | a plain stem followed by one of the nine extensions, in any letter case, is a video |
| Scraper.IsVideoFile | subtitle_scraper.py:49-55 | definition: the lower-cased `splitext` extension is one of the nine; characterised by `VideoTestIgnoresCase` and `VideoExtensionRecognised` |
| Scraper.IsHidden | subtitle_scraper.py:57-74 | definition: the basename starts with `.`, or the hidden attribute is set; characterised by `HiddenEntryByName` |
| Scraper.CountedVideo | subtitle_scraper.py:266-270 | definition: a listed entry that is not hidden, is a regular file and has a video extension; used by `FolderRunHandlesOnlyKeyedVideos` and `FolderRunHandlesUnsatisfiedVideo` |
| Scraper.Candidates | subtitle_scraper.py:82-90 | definition: the three subtitle paths `<id>.zh-CN.srt`, `<id>.zh-TW.srt`, `<id>.srt` in the folder, in probing order; used by `SubtitleExists` and `SavedUnderKeywordIsFound` |
| Scraper.DotOnlyNameIsNotVideo | subtitle_scraper.py:54-55 | example: a file called just `.mp4` has no extension for `splitext`, so it is not a video |
| Scraper.HiddenEntryByName | subtitle_scraper.py:61-65 | for a listed entry the dot rule looks at the entry's own first character |
| Scraper.FirstExisting | subtitle_scraper.py:89-94 | None exactly when no probed path exists; otherwise an existing probed path |
| Scraper.FirstExistingIsFirst | subtitle_scraper.py:89-94 | every path probed before the one found does not exist |
| Scraper.SubtitleExists | subtitle_scraper.py:82-94 | the probe loop returns the first existing one of `<k>.zh-CN.srt`, `<k>.zh-TW.srt`, `<k>.srt` in that order, and reports found exactly when there is one |
| Scraper.ChooseDownload | subtitle_scraper.py:183-200 | zh-CN whenever offered, zh-TW otherwise, nothing when neither; the path is `<folder>/<base>.<tag>.srt` |
| Scraper.SavedUnderKeywordIsFound | subtitle_scraper.py:186-198 | a download saved under the identifier is one of the probed names, so the next probe finds it |
| Scraper.PlanVideo | subtitle_scraper.py:103-121 | no identifier stops, an existing subtitle skips, and otherwise the identifier is searched for with the video's stem as file name |
| Scraper.StemKeywordSkippedAfterDownload | subtitle_scraper.py:109-117 | a video whose stem is its identifier is skipped once its download exists |
| Scraper.KeywordStartsWithLetter | subtitle_scraper.py:34 | an identifier starts with an ASCII letter |
| Scraper.SuffixedVideoNames | subtitle_scraper.py:103-117 | for `<folder>/<id><text>.mp4` the stem is `<id><text>` and the identifier is `<id>` |
| Scraper.LongerStemNotProbed | subtitle_scraper.py:82-90 | a subtitle saved under a stem longer than the identifier is none of the probed paths |
| Scraper.SuffixedStemSearched | subtitle_scraper.py:103-121 | such a video is searched for under its identifier and saved under the longer stem |
| Scraper.SuffixedStemSearchedAgain | subtitle_scraper.py:109-153 | after its download is saved, the same video is searched for again |
| Scraper.KeywordFolderNamesEveryFile | subtitle_scraper.py:273 | inside a folder whose path is an identifier, every file gets that identifier, because the raw path is matched first |
| Scraper.VisitVideo | subtitle_scraper.py:270-283 | a counted video is skipped without an identifier or with an existing subtitle, and processed otherwise; the result is one step of the loop function |
| Scraper.VisitEntry | subtitle_scraper.py:265-286 | a hidden entry or a non-video is skipped, and the rest is a counted video; the result is one step of the loop function |
| Scraper.Step | subtitle_scraper.py:265-283 | definition: one classified entry of the folder loop: skipped, counted, or counted and processed; used by `VisitEntry` |
| Scraper.Run | subtitle_scraper.py:263-283 | definition: the folder loop over classified entries from zero counts; a counted video with an identifier is processed exactly when none of its three subtitle names exists at its turn (`RunHandlesOnlyKeyedVideos` one way, `RunHandlesUnsatisfiedVideo` the other); counters by `RunCounts` |
| Scraper.FolderRun | subtitle_scraper.py:263-286 | definition: the folder loop over a listing; equal to `ScanFolder` |
| Scraper.FolderOutput | subtitle_scraper.py:256-260 | definition: the given output folder, else the folder-mode default |
| Scraper.DefaultOutput | subtitle_scraper.py:254-306 | definition: the output folder when none is given: the input folder, the file's directory, or `.`; characterised by `FileOutputIsVideoDirectory` |
| Scraper.ScanFolder | subtitle_scraper.py:256-286 | the folder loop, with the input folder as default output, ends in the counters, processed paths and file system of the loop function over the listing |
| Scraper.RunCounts | subtitle_scraper.py:263-282 | only non-hidden video files are counted; the number of processed files never exceeds the count; the file system only grows |
| Scraper.RunHandlesOnlyKeyedVideos | subtitle_scraper.py:265-283 | every processed path belongs to a counted video with an identifier none of whose three subtitle names existed when the loop reached it: a video whose subtitle exists at its turn is skipped |
| Scraper.FolderRunHandlesOnlyKeyedVideos | subtitle_scraper.py:265-283 | every processed path is a listed, non-hidden video file whose path has an identifier none of whose subtitle names existed when the loop reached the entry |
| Scraper.RunHandlesUnsatisfiedVideo | subtitle_scraper.py:274-283 | a counted video with an identifier none of whose subtitle names exists when the loop reaches it is processed |
| Scraper.FolderRunHandlesUnsatisfiedVideo | subtitle_scraper.py:265-283 | the same over the listing: a listed counted video whose path has an identifier and no subtitle at its turn goes to `process_video_file` |
| Scraper.RunIdleWhenSatisfied | subtitle_scraper.py:274-279 | when every counted video with an identifier already has a subtitle, nothing is processed or written, whatever videos without an identifier the folder holds |
| Scraper.FileOutputIsVideoDirectory | subtitle_scraper.py:295-296 | for a file given by a normalised absolute path (no `//`, `.` or `..` component), the default output folder is the video's directory |
| Scraper.KeywordModeJob | subtitle_scraper.py:305-325 | keyword mode does something exactly when an identifier is found; it then searches for the identifier, names the `.srt` after the raw input, and saves in the given folder or `.` |
| Scraper.KeywordModeSavesInCurrentDirectory | subtitle_scraper.py:305-325 | a bare identifier is searched for as it is and saved as `./<identifier>.zh-CN.srt` |
| Scraper.KeywordModeKeepsInputName | subtitle_scraper.py:305-325 | example: `NIMA-014-extra` is searched for as `NIMA-014` and saved as `./NIMA-014-extra.zh-CN.srt` |
| Scraper.SavedInCurrentDirectory | subtitle_scraper.py:198 | a relative name joined onto `.` is `./` followed by the name |
| Subtitlecat.FormatUrl | subtitlecat.py:104-112 | the result starts with `http://` or `https://` and ends with the given URL; an absolute URL is kept, a `/` path gets the domain in front, and any other path gets the domain and a slash |
| Subtitlecat.FormatUrlIdempotent | subtitlecat.py:104-112 | formatting twice is formatting once |
| Subtitlecat.FormatUrlPrefixes | subtitlecat.py:108-112 | only the domain, the domain and a slash, or nothing is put in front; a `/` path gets the domain |
| Subtitlecat.InlineResolve | subtitlecat.py:76-81 | the result ends with the href; a `/` path gets the domain in front, an href starting with `http` is kept as it is, and any other href gets the domain and a slash |
| Subtitlecat.ResolversDisagree | subtitlecat.py:76-81 | the inline resolver and `format_subtitlecat_url` differ exactly on hrefs starting with `http` that are not http or https URLs |
| Subtitlecat.HttpdocsExample | subtitlecat.py:76-81 | `httpdocs/x` is kept by the inline resolver but put behind the domain by `format_subtitlecat_url` |
| Subtitlecat.FirstWhere | subtitlecat.py:64-68 | the index found satisfies the test and every earlier element fails it; None exactly when all fail |
| Subtitlecat.Relevant | subtitlecat.py:61-68 | definition: an anchor with an href whose stripped lower-cased text contains the lower-cased keyword, or whose href contains `/view.php?` or `/subs/` |
| Subtitlecat.RowLanguage | subtitlecat.py:70-73 | definition: the stripped text of the second cell, or empty |
| Subtitlecat.RowResult | subtitlecat.py:59-88 | definition: a row's first relevant anchor as a result; characterised by `RowResultIsFirstRelevant` |
| Subtitlecat.Results | subtitlecat.py:54-88 | definition: the row results collected in row order; equal to `SearchRows` |
| Subtitlecat.RowResultIsFirstRelevant | subtitlecat.py:59-88 | a row gives nothing exactly when no anchor is relevant, and otherwise the stripped title, resolved link and language of its first relevant anchor |
| Subtitlecat.RowMatch | subtitlecat.py:64-88 | the anchor loop of one row returns the row's result |
| Subtitlecat.SearchRows | subtitlecat.py:54-88 | the row loop returns the results of the rows, in row order |
| Subtitlecat.ResultsAppend | subtitlecat.py:59-88 | results of consecutive rows concatenate, so results follow row order |
| Subtitlecat.ResultsPerRow | subtitlecat.py:59-88 | there are at most as many results as rows, and each is the result of some row |
| Subtitlecat.SearchSubtitlecat | subtitlecat.py:20-102 | None exactly for an empty keyword or a failed fetch; otherwise the title element's string (None when the element has no single string), or `No title found` when there is no title element, then the results, the request URL and the status |
| Subtitlecat.SearchUrl | subtitlecat.py:30-31 | definition: the search address followed by the quoted keyword; characterised by `IdentifierSearchUrl` |
| Subtitlecat.IdentifierSearchUrl | subtitlecat.py:30-31 | an identifier appears in the search URL unchanged |
| Subtitlecat.VisitButton | subtitlecat.py:171-182 | one anchor of the button loop is one step of the fold |
| Subtitlecat.ButtonStep | subtitlecat.py:171-182 | definition: one anchor of the button loop, the two variant tests independent and a later link overwriting an earlier one |
| Subtitlecat.IsDownloadButton | subtitlecat.py:170-174 | definition: a `green-link` anchor whose lower-cased id or lower-cased text contains `download`; used by `ScanLastOfferWins` and `ChineseLinkIsLastOffer` |
| Subtitlecat.Mentions | subtitlecat.py:176-181 | definition: the case-sensitive variant test on the id or the href; used by `ScanFlagsMatchKeys` |
| Subtitlecat.ScanButtons | subtitlecat.py:162-184 | definition: the fold of `ButtonStep` over the buttons from `(False, False, {})`; characterised by `ScanFlagsMatchKeys` and `ScanLastOfferWins` |
| Subtitlecat.CheckChineseButtons | subtitlecat.py:158-184 | the button loop gives the fold of the page's anchors from `(False, False, {})` |
| Subtitlecat.ScanFlagsMatchKeys | subtitlecat.py:162-182 | each flag is set exactly when its key is present, and no other key appears |
| Subtitlecat.ScanLastOfferWins | subtitlecat.py:171-182 | a variant has a link exactly when some button offers it, and the link is the last such button's |
| Subtitlecat.ChineseLinkIsLastOffer | subtitlecat.py:169-182 | on a page, a variant has a link exactly when some `green-link` download anchor names it, and the link is the formatted href of the last one |
| Subtitlecat.ScanWithoutOffers | subtitlecat.py:162-166 | with no qualifying anchor the result is `(False, False, {})` |
| Javstd.FindAllSpec | javstd.py:147 | `findall` keeps exactly the elements with the tag |
| Javstd.FindChildSpec | javstd.py:140 | `find` gives the first direct child with the tag (no earlier element is a direct child with it), and nothing only when there is none |
| Javstd.FindAll | javstd.py:147 | definition: `findall('.//tag')` as the elements with the tag at any depth, in document order; characterised by `FindAllSpec` |
| Javstd.FindChild | javstd.py:140 | definition: `find('num')` as the first direct child with the tag; characterised by `FindChildSpec` |
| Javstd.ScanForMark | javstd.py:147-150 | the scan sets the flag exactly when some element's text is the mark |
| Javstd.ExtractInfoFromNfo | javstd.py:128-168 | the num and the flag are those of the NFO specification function; every failure gives `(None, False)` |
| Javstd.NfoInfo | javstd.py:128-168 | definition: the num of the first direct `num` child and the mark flag from `tag` then `genre`, or `(None, False)` on any failure; characterised by `FlagIffMarkedElement` and `NumComesFromDirectChild` |
| Javstd.FlagIffMarkedElement | javstd.py:144-157 | the flag is set exactly when some `tag` or `genre` element has exactly the mark as text |
| Javstd.NumComesFromDirectChild | javstd.py:140-141 | a num value is the text of the first direct `num` child; deeper and later `num` elements are not read |
| Javstd.MarkWithoutNum | javstd.py:132-159 | a marked NFO without num gives `(None, True)`, not the documented `(None, False)` |
| Javstd.ReplaceMissing | javstd.py:200 | replacing an extension that is not in the name changes nothing |
| Javstd.NfoNameOfVideo | javstd.py:200 | `<stem>.mp4`, `<stem>.avi` and `<stem>.mkv` have their NFO at `<stem>.nfo` |
| Javstd.NfoNameUnchanged | javstd.py:200 | any other name, such as a `.wmv` video, is its own NFO path |
| Javstd.NfoName | javstd.py:200 | definition: the three chained `replace` calls; characterised by `NfoNameOfVideo`, `NfoNameUnchanged` and `NfoNameHasNoExtensions` |
| Javstd.NfoNameHasNoExtensions | javstd.py:200 | every `.mp4`, `.avi` and `.mkv`, wherever it stands in the name, is replaced: none is left in the NFO name |
| Javstd.NfoPath | javstd.py:200 | definition: the NFO name joined onto the file's folder; used by `LibraryCallsOnlyEligible` |
| Javstd.RenameReplacesSuffix | javstd.py:228-229 | `<q>.zh-CN.srt` is renamed to `<q>.srt`, whatever dots `q` holds |
| Javstd.TraditionalNotRenamed | javstd.py:228 | a `.zh-TW.srt` path is not renamed |
| Javstd.RSplitHead | javstd.py:229 | definition: `rsplit('.', 2)[0]`: the text before the second-to-last dot; the result is a prefix of the path |
| Javstd.RenameTarget | javstd.py:228-229 | definition: only a path ending in `.zh-CN.srt` is renamed, to its `rsplit` head and `.srt`; characterised by `RenameReplacesSuffix` and `TraditionalNotRenamed` |
| Javstd.ProbePath | javstd.py:213 | definition: `<num>.srt` in the save folder, the one path checked before the handler; used by `RunCallsOnlyWanted`, `RunCallsUnprobedWanted` and `RenameLandsOnProbe` |
| Javstd.JudgeFile | javstd.py:184-210 | the early exits of the loop body give the verdict function's result |
| Javstd.NameVerdict | javstd.py:185-195 | definition: the three skip tests on the file name, in source order |
| Javstd.Judge | javstd.py:184-210 | definition: the name tests, then the NFO num and mark; characterised by `WantedMeansEligible` and `EligibleIsWanted` |
| Javstd.WantedMeansEligible | javstd.py:185-210 | a wanted file is a video without `trailer` or `-C`, and its NFO names a non-empty num without the mark |
| Javstd.EligibleIsWanted | javstd.py:185-210 | conversely, an eligible video whose NFO names a non-empty num without the mark is wanted |
| Javstd.PartNameIsVideo | javstd.py:185 | example: `IPX-123-CD1.mp4` is a video |
| Javstd.PartNameHasNoTrailer | javstd.py:189 | example: `IPX-123-CD1.mp4` has no `trailer` |
| Javstd.PartNamesSkipped | javstd.py:193-195 | multi-part names such as `IPX-123-CD1.mp4` contain `-C` and are skipped |
| Javstd.HandleWanted | javstd.py:213-237 | the existence check, handler call and rename are one step of the loop function |
| Javstd.VisitFile | javstd.py:184-237 | after the loop body for the next file, the state is the loop function over one more file |
| Javstd.ProcessLibrary | javstd.py:176-237 | with both folders set, the walk ends in the calls and library of the loop function; otherwise nothing happens |
| Javstd.AfterHandler | javstd.py:220-237 | definition: the rename after a successful first result ending in `.zh-CN.srt`; any other outcome leaves the library as it is |
| Javstd.Step | javstd.py:213-237 | definition: one file of the loop: the existence check, then the handler call and the rename |
| Javstd.Run | javstd.py:183-237 | definition: the loop over the verdicts; a wanted num is handed to the handler exactly when its `<num>.srt` does not exist at its file's turn (`RunCallsOnlyWanted` one way, `RunCallsUnprobedWanted` the other); see also `RunIdleWhenSubtitlesExist` |
| Javstd.LibraryRun | javstd.py:176-237 | definition: nothing when a folder is unset, otherwise the loop over the walk; equal to `ProcessLibrary` |
| Javstd.RunCallsOnlyWanted | javstd.py:183-221 | every num handed to the handler is a wanted file's whose `<num>.srt` did not exist when the loop reached it, with at most one call per file: a file whose subtitle exists at its turn is skipped |
| Javstd.RunCallsUnprobedWanted | javstd.py:213-221 | a wanted file whose `<num>.srt` does not exist when the loop reaches it has its num handed to the handler |
| Javstd.LibraryCallsOnlyEligible | javstd.py:183-221 | every num handed to the handler comes from an eligible video whose NFO names that num without the mark and whose `<num>.srt` did not exist when the walk reached it |
| Javstd.LibraryCallsUnprobedEligible | javstd.py:183-221 | with both folders set, an eligible video whose NFO names an unmarked num, and whose `<num>.srt` does not exist at its turn, has that num handed to the handler |
| Javstd.RunIdleWhenSubtitlesExist | javstd.py:213-216 | when every wanted num already has its `.srt`, the handler is never called and the library is untouched |
| Javstd.RenameLandsOnProbe | javstd.py:213-230 | a `<num>.zh-CN.srt` in the save folder is renamed onto the very path the existence check probes |
| Javstd.SecondFileWithSameNumSkipped | javstd.py:213-230 | after a simplified download, a second file with the same num is skipped |
| Javstd.TraditionalDownloadRepeats | javstd.py:213-233 | after a traditional download, unless the handler also wrote the probe path, the same num is handed to the handler again |

## Left out

- Network access is not modelled: the `requests` calls, headers and status errors. The
  search page is the `fetch` parameter of `SearchSubtitlecat`, and a download is the
  `writes` parameter of the loops.
- `get_subtitle_page_content` and `download_subtitle_file` are not modelled; they are
  request-and-parse plumbing around `check_chinese_download_buttons` and a file write.
- BeautifulSoup and ElementTree are not modelled. Rows, anchors and NFO elements are
  already-parsed inputs. The `<title>` element is an input too: absent, or present with its
  `.string`, which is None when the element is empty or holds more than one child.
- `find_all('a', href=True)` is modelled by `Relevant` requiring an href.
- The file system is a set of existing paths:
  - `os.listdir` is a sequence of entries;
  - `os.walk` is a flat sequence of (directory, name) pairs in walk order;
  - `os.rename` replaces one path in the set;
  - `makedirs` is not modelled.
- `subtitle_handler` is imported from a module that does not define it. It is an input:
  its outcome per num, and the paths it writes.
- Scraper.IsHidden: the Windows hidden attribute from `os.stat` is an input flag of each
  entry.
- Paths.Abspath: does not apply `normpath`, which removes `//`, `.` and `..` components
  and trailing slashes. On any other path the two agree.
- FileOutputIsVideoDirectory: requires a normalised absolute folder and a file name other
  than `.` and `..`, because `Abspath` omits `normpath`. For a folder such as `/a/../b`
  Python gives `/b`, which the lemma does not cover.
- Strings.Lower: folds ASCII letters only, where Python's `lower()` folds all of Unicode.
- Strings.IsAsciiDigit: matches ASCII digits only, where Python's `\d` matches every
  Unicode decimal digit.
- Logging, the webhook, `CONFIG`, `argparse` and all printed output are not modelled.
  The two folders of `javstd.py` are parameters of `ProcessLibrary`.
- The single-file branch of `main` calls `process_video_file` directly; only its
  output-folder default (`DefaultOutput`) is modelled.
- The search-and-download part that follows the early exits of `process_video_file` and
  of keyword mode is not modelled: it loops over search results and download pages over
  the network. Its pieces are modelled one by one (`SearchSubtitlecat`,
  `CheckChineseButtons`, `ChooseDownload`).
- The `f"{num}.ass"` operand of the existence check in `javstd.py` is never evaluated,
  because the first operand is a non-empty string. It is not modelled.
