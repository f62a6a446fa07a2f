/** The pure helpers of the command-line front end: argument parsing,
    splitting pasted URLs, recognising the YouTube Music "Liked" playlist,
    the cookie-retry heuristic and the playlist folder name. */
module Cli {
  import opened Wrappers
  import opened Text

  // ---------------------------------------------------------------------
  // is_youtube_music_liked

  /** A YouTube Music URL naming the "Liked" playlist, in any letter case. */
  function IsYoutubeMusicLiked(url: string): (r: bool)
    ensures r ==> Contains(Lower(url), "music.youtube.com")
    ensures !Contains(Lower(url), "list=lm") && !Contains(Lower(url), "liked") ==> !r
  {
    var u := Lower(url);
    Contains(u, "music.youtube.com") && (Contains(u, "list=lm") || Contains(u, "liked"))
  }

  /** The recognition ignores letter case: two URLs that differ only in case
      are recognised alike. */
  lemma LikedIgnoresCase(a: string, b: string)
    requires Lower(a) == Lower(b)
    ensures IsYoutubeMusicLiked(a) <==> IsYoutubeMusicLiked(b)
  {
  }

  /** A recognised URL stays recognised with anything appended, such as a
      tracking parameter. */
  lemma LikedSurvivesAppendedQuery(url: string, more: string)
    requires IsYoutubeMusicLiked(url)
    ensures IsYoutubeMusicLiked(url + more)
  {
    LowerAppend(url, more);
    ContainsExtend(Lower(url), "music.youtube.com", Lower(more));
    if Contains(Lower(url), "list=lm") {
      ContainsExtend(Lower(url), "list=lm", Lower(more));
    } else {
      ContainsExtend(Lower(url), "liked", Lower(more));
    }
  }

  /** "list=LM" on the music host is recognised; the empty URL is not. */
  lemma LikedExamples()
    ensures IsYoutubeMusicLiked("music.youtube.com/playlist?list=LM")
    ensures !IsYoutubeMusicLiked("")
  {
    var u := "music.youtube.com/playlist?list=LM";
    assert Lower(u)[..17] == "music.youtube.com";
    assert OccursAt(Lower(u), "music.youtube.com", 0);
    assert Lower(u)[27..34] == "list=lm";
    assert OccursAt(Lower(u), "list=lm", 27);
  }

  // ---------------------------------------------------------------------
  // should_retry_with_cookies

  /** The error fragments that suggest private or restricted content. */
  const AuthErrorPatterns: seq<string> := ["private", "unavailable", "not available", "requires authentication",
    "sign in", "403", "forbidden", "restricted", "members-only", "this playlist is private"]

  /** The URL mentions "playlist" or "list=", in any letter case. */
  predicate IsPlaylistUrl(url: string) {
    Contains(Lower(url), "playlist") || Contains(Lower(url), "list=")
  }

  /** Retry a failed playlist download with browser cookies: only for a
      playlist URL whose error text names an authentication problem. */
  function ShouldRetryWithCookies(errorMessage: string, url: string): (r: bool)
    ensures r ==> IsPlaylistUrl(url)
    ensures r ==> |errorMessage| >= 3
  {
    IsPlaylistUrl(url) && exists p | p in AuthErrorPatterns :: Contains(Lower(errorMessage), p)
  }

  /** Every error mentioning "private" is retried for a playlist URL, and the
      last pattern adds nothing: any text containing it contains "private". */
  lemma PrivateIsEnough(errorMessage: string, url: string)
    requires IsPlaylistUrl(url)
    ensures Contains(Lower(errorMessage), "this playlist is private") ==> Contains(Lower(errorMessage), "private")
    ensures Contains(Lower(errorMessage), "private") ==> ShouldRetryWithCookies(errorMessage, url)
  {
    assert AuthErrorPatterns[0] == "private";
    if Contains(Lower(errorMessage), "this playlist is private") {
      assert OccursAt("this playlist is private", "private", 17);
      ContainsTransitive(Lower(errorMessage), "this playlist is private", "private");
    }
  }

  /** More context around an error does not change a decision to retry. */
  lemma RetrySurvivesLongerMessage(errorMessage: string, more: string, url: string)
    requires ShouldRetryWithCookies(errorMessage, url)
    ensures ShouldRetryWithCookies(errorMessage + more, url)
  {
    var p :| p in AuthErrorPatterns && Contains(Lower(errorMessage), p);
    LowerAppend(errorMessage, more);
    ContainsExtend(Lower(errorMessage), p, Lower(more));
  }

  // ---------------------------------------------------------------------
  // split_urls

  /** Python's `str.isspace()`, which is also what `str.strip()` removes
      and what `\s` matches in a `str` pattern: the ASCII controls from tab
      to carriage return, the separators U+001C to U+001F, space, NEL,
      no-break space, and the Unicode space and line separators. */
  predicate IsSpace(c: char) {
    || '\t' <= c <= '\r'
    || '\U{1c}' <= c <= ' '
    || c == '\U{85}' || c == '\U{a0}' || c == '\U{1680}'
    || '\U{2000}' <= c <= '\U{200a}'
    || c == '\U{2028}' || c == '\U{2029}' || c == '\U{202f}' || c == '\U{205f}' || c == '\U{3000}'
  }

  predicate NoSpace(w: string) {
    forall i | 0 <= i < |w| :: !IsSpace(w[i])
  }

  /** A word is a URL candidate: non-empty and without whitespace. */
  predicate IsWord(w: string) {
    w != "" && NoSpace(w)
  }

  /** The words of `s`, where `word` is the part of the current word read so
      far: whitespace runs separate, empty pieces are dropped. */
  function WordsFrom(s: string, word: string): (r: seq<string>)
    requires NoSpace(word)
    ensures forall w | w in r :: IsWord(w)
    decreases |s|
  {
    if s == [] then (if word == "" then [] else [word])
    else if IsSpace(s[0]) then (if word == "" then [] else [word]) + WordsFrom(s[1..], "")
    else WordsFrom(s[1..], word + [s[0]])
  }

  /** `split_urls(s)`: the whitespace-separated pieces of `s`. */
  function SplitUrls(s: string): (r: seq<string>)
    ensures forall w | w in r :: IsWord(w)
  {
    WordsFrom(s, "")
  }

  /** The words joined by single spaces. */
  function Unwords(ws: seq<string>): string {
    if ws == [] then "" else if |ws| == 1 then ws[0] else ws[0] + " " + Unwords(ws[1..])
  }

  function Concat(ws: seq<string>): string {
    if ws == [] then "" else ws[0] + Concat(ws[1..])
  }

  /** `s` with every whitespace character removed. */
  function DropSpaces(s: string): string {
    if s == [] then "" else (if IsSpace(s[0]) then "" else [s[0]]) + DropSpaces(s[1..])
  }

  lemma {:induction false} ConcatAppend(a: seq<string>, b: seq<string>)
    ensures Concat(a + b) == Concat(a) + Concat(b)
  {
    if a != [] {
      assert (a + b)[0] == a[0];
      assert (a + b)[1..] == a[1..] + b;
      ConcatAppend(a[1..], b);
    } else {
      assert a + b == b;
    }
  }

  lemma {:induction false} WordsFromKeepsText(s: string, word: string)
    requires NoSpace(word)
    ensures Concat(WordsFrom(s, word)) == word + DropSpaces(s)
    decreases |s|
  {
    if s == [] {
    } else if IsSpace(s[0]) {
      var head: seq<string> := if word == "" then [] else [word];
      WordsFromKeepsText(s[1..], "");
      ConcatAppend(head, WordsFrom(s[1..], ""));
      assert Concat(head) == word;
    } else {
      WordsFromKeepsText(s[1..], word + [s[0]]);
    }
  }

  /** Splitting loses no text: the words, glued together, are the input
      without its whitespace. */
  lemma SplitKeepsText(s: string)
    ensures Concat(SplitUrls(s)) == DropSpaces(s)
  {
    WordsFromKeepsText(s, "");
  }

  lemma {:induction false} WordsFromWord(w: string, rest: string, word: string)
    requires NoSpace(word) && NoSpace(w)
    ensures WordsFrom(w + rest, word) == WordsFrom(rest, word + w)
    decreases |w|
  {
    if w != [] {
      assert (w + rest)[1..] == w[1..] + rest;
      assert word + w == (word + [w[0]]) + w[1..];
      WordsFromWord(w[1..], rest, word + [w[0]]);
    } else {
      assert w + rest == rest;
      assert word + w == word;
    }
  }

  /** Splitting undoes joining with spaces: a list of URLs pasted on one
      line comes back as the same list. */
  lemma {:induction false} SplitUnwords(ws: seq<string>)
    requires forall w | w in ws :: IsWord(w)
    ensures SplitUrls(Unwords(ws)) == ws
  {
    if ws == [] {
    } else if |ws| == 1 {
      assert ws[0] in ws;
      WordsFromWord(ws[0], "", "");
      assert ws[0] + "" == ws[0];
      assert "" + ws[0] == ws[0];
    } else {
      assert ws[0] in ws;
      var rest := " " + Unwords(ws[1..]);
      assert Unwords(ws) == ws[0] + rest;
      WordsFromWord(ws[0], rest, "");
      assert "" + ws[0] == ws[0];
      assert rest[1..] == Unwords(ws[1..]);
      assert WordsFrom(rest, ws[0]) == [ws[0]] + WordsFrom(Unwords(ws[1..]), "");
      SplitUnwords(ws[1..]);
    }
  }

  /** Input made only of whitespace holds no URL. */
  lemma {:induction false} BlankHoldsNoUrl(s: string)
    requires forall i | 0 <= i < |s| :: IsSpace(s[i])
    ensures SplitUrls(s) == []
    decreases |s|
  {
    if s != [] {
      BlankHoldsNoUrl(s[1..]);
    }
  }

  /** A no-break space, as in text pasted from a browser, separates like a
      space. */
  lemma SplitNoBreakSpace()
    ensures SplitUrls("a\U{a0}b") == ["a", "b"]
  {
    WordsFromWord("a", "\U{a0}b", "");
    WordsFromSpace('\U{a0}', "b", "a");
    WordsFromWord("b", "", "");
    assert "a\U{a0}b" == "a" + "\U{a0}b" && "\U{a0}b" == ['\U{a0}'] + "b";
    assert "" + "a" == "a" && "" + "b" == "b" && "b" + "" == "b";
  }

  /** Leading and trailing whitespace of any kind is dropped. */
  lemma SplitTrimsUnicodeSpace()
    ensures SplitUrls("\U{3000}u\U{2028}") == ["u"]
  {
    WordsFromSpace('\U{3000}', "u\U{2028}", "");
    WordsFromWord("u", "\U{2028}", "");
    WordsFromSpace('\U{2028}', "", "u");
    assert "\U{3000}u\U{2028}" == ['\U{3000}'] + "u\U{2028}";
    assert "u\U{2028}" == "u" + "\U{2028}" && "\U{2028}" == ['\U{2028}'] + "";
    assert "" + "u" == "u";
  }

  /** A whitespace character ends the current word. */
  lemma WordsFromSpace(c: char, rest: string, word: string)
    requires IsSpace(c) && NoSpace(word)
    ensures WordsFrom([c] + rest, word) == (if word == "" then [] else [word]) + WordsFrom(rest, "")
  {
    assert ([c] + rest)[1..] == rest;
  }

  // ---------------------------------------------------------------------
  // get_playlist_folder_name

  /** The fields of an extractor's info record that name a playlist. */
  datatype Info = Info(playlistTitle: Option<string>, playlist: Option<string>,
                       uploader: Option<string>, channel: Option<string>)

  /** The folder for a playlist: "Liked Music" for the Liked playlist;
      "Playlist" when there is no info; otherwise the sanitised first
      non-empty of the playlist title, the playlist name, the uploader and
      the channel, falling back to a sanitised "Playlist". */
  function PlaylistFolderName(url: string, info: Option<Info>, norm: Sanitizer): (r: string)
    ensures IsYoutubeMusicLiked(url) ==> r == "Liked Music"
    ensures !IsYoutubeMusicLiked(url) && info.None? ==> r == "Playlist"
    ensures !IsYoutubeMusicLiked(url) && info.Some? ==>
      var i := info.value;
      && (Truthy(i.playlistTitle) ==> r == norm(i.playlistTitle.value))
      && (!Truthy(i.playlistTitle) && Truthy(i.playlist) ==> r == norm(i.playlist.value))
      && (!Truthy(i.playlistTitle) && !Truthy(i.playlist) && Truthy(i.uploader) ==> r == norm(i.uploader.value))
      && (!Truthy(i.playlistTitle) && !Truthy(i.playlist) && !Truthy(i.uploader) && Truthy(i.channel)
          ==> r == norm(i.channel.value))
      && (!Truthy(i.playlistTitle) && !Truthy(i.playlist) && !Truthy(i.uploader) && !Truthy(i.channel)
          ==> r == norm("Playlist"))
  {
    if IsYoutubeMusicLiked(url) then "Liked Music"
    else match info
      case None => "Playlist"
      case Some(i) => norm(OrElse(i.playlistTitle, OrElse(i.playlist, OrElse(i.uploader, OrElse(i.channel, "Playlist")))))
  }

  // ---------------------------------------------------------------------
  // parse_args

  /** The options `parse_args` returns. */
  datatype Args = Args(help: bool, format: Option<string>, fast: bool, nonInteractive: bool,
                       outdir: Option<string>, firefoxCookies: bool, loadDirectory: Option<string>,
                       filePath: Option<string>, showArchive: bool, backup: bool,
                       clear: seq<string>, urls: seq<string>)

  const Defaults := Args(false, None, false, false, None, false, None, None, false, false, [], [])

  /** The end of the arguments of `--clear` that start at `i`: the first
      later token starting with "--", or the end of the list. */
  function ClearEnd(argv: seq<string>, i: nat): (r: nat)
    requires i <= |argv|
    ensures i <= r <= |argv|
    ensures forall j | i <= j < r :: !StartsWith(argv[j], "--")
    ensures r < |argv| ==> StartsWith(argv[r], "--")
    decreases |argv| - i
  {
    if i < |argv| && !StartsWith(argv[i], "--") then ClearEnd(argv, i + 1) else i
  }

  /** What a command-line token is, before looking at what follows it. */
  datatype Token = Help | Format | Fast | NonInteractive | Outdir | FirefoxCookies | Load | File
                 | ShowArchive | Backup | Clear | OtherSwitch | Url

  /** The option a token names; any other token starting with "-" is an
      unknown switch, and exactly the tokens not starting with "-" are URLs. */
  function Classify(tok: string): (t: Token)
    ensures t == Url <==> !StartsWith(tok, "-")
  {
    if tok == "--help" || tok == "-h" then Help
    else if tok == "--format" then Format
    else if tok == "--fast" then Fast
    else if tok == "--non-interactive" then NonInteractive
    else if tok == "--outdir" then Outdir
    else if tok == "--firefox-cookies" then FirefoxCookies
    else if tok == "--load" then Load
    else if tok == "--file" then File
    else if tok == "--show-archive" then ShowArchive
    else if tok == "--backup" then Backup
    else if tok == "--clear" then Clear
    else if StartsWith(tok, "-") then OtherSwitch
    else Url
  }

  /** Where reading resumes, and the options read so far. */
  datatype Cursor = Cursor(next: nat, acc: Args)

  /** One round of the parser's loop at token `argv[i]`. A value option
      with no value left is ignored like an unknown switch. Only a token
      not starting with "-" is added to the URLs. */
  function Step(argv: seq<string>, i: nat, acc: Args): (c: Cursor)
    requires i < |argv|
    ensures i < c.next <= |argv|
    ensures c.acc.urls == acc.urls
      || (c.acc.urls == acc.urls + [argv[i]] && !StartsWith(argv[i], "-") && c.next == i + 1)
  {
    var hasValue := i + 1 < |argv|;
    match Classify(argv[i])
    case Help => Cursor(i + 1, acc.(help := true))
    case Format => if hasValue then Cursor(i + 2, acc.(format := Some(argv[i + 1]))) else Cursor(i + 1, acc)
    case Fast => Cursor(i + 1, acc.(fast := true))
    case NonInteractive => Cursor(i + 1, acc.(nonInteractive := true))
    case Outdir => if hasValue then Cursor(i + 2, acc.(outdir := Some(argv[i + 1]))) else Cursor(i + 1, acc)
    case FirefoxCookies => Cursor(i + 1, acc.(firefoxCookies := true))
    case Load => if hasValue then Cursor(i + 2, acc.(loadDirectory := Some(argv[i + 1]))) else Cursor(i + 1, acc)
    case File => if hasValue then Cursor(i + 2, acc.(filePath := Some(argv[i + 1]))) else Cursor(i + 1, acc)
    case ShowArchive => Cursor(i + 1, acc.(showArchive := true))
    case Backup => Cursor(i + 1, acc.(backup := true))
    case Clear =>
      var j := ClearEnd(argv, i + 1);
      Cursor(j, acc.(clear := argv[i + 1..j]))
    case OtherSwitch => Cursor(i + 1, acc)
    case Url => Cursor(i + 1, acc.(urls := acc.urls + [argv[i]]))
  }

  /** The options after reading `argv[i..]` into `acc`. */
  function ParseFrom(argv: seq<string>, i: nat, acc: Args): Args
    requires i <= |argv|
    decreases |argv| - i
  {
    if i == |argv| then acc
    else
      var c := Step(argv, i, acc);
      ParseFrom(argv, c.next, c.acc)
  }

  function Parse(argv: seq<string>): Args {
    ParseFrom(argv, 0, Defaults)
  }

  /** `parse_args(argv)` */
  method ParseArgs(argv: seq<string>) returns (args: Args)
    ensures args == Parse(argv)
  {
    args := Defaults;
    var i := 0;
    var n := |argv|;
    while i < n
      invariant 0 <= i <= n
      invariant ParseFrom(argv, i, args) == Parse(argv)
      decreases n - i
    {
      var tok := argv[i];
      var hasValue := i + 1 < n;
      ghost var step := Step(argv, i, args);
      assert ParseFrom(argv, i, args) == ParseFrom(argv, step.next, step.acc);
      match Classify(tok) {
      case Help =>
        args := args.(help := true);
        i := i + 1;
      case Format =>
        if hasValue {
          args := args.(format := Some(argv[i + 1]));
          i := i + 2;
        } else {
          i := i + 1;
        }
      case Fast =>
        args := args.(fast := true);
        i := i + 1;
      case NonInteractive =>
        args := args.(nonInteractive := true);
        i := i + 1;
      case Outdir =>
        if hasValue {
          args := args.(outdir := Some(argv[i + 1]));
          i := i + 2;
        } else {
          i := i + 1;
        }
      case FirefoxCookies =>
        args := args.(firefoxCookies := true);
        i := i + 1;
      case Load =>
        if hasValue {
          args := args.(loadDirectory := Some(argv[i + 1]));
          i := i + 2;
        } else {
          i := i + 1;
        }
      case File =>
        if hasValue {
          args := args.(filePath := Some(argv[i + 1]));
          i := i + 2;
        } else {
          i := i + 1;
        }
      case ShowArchive =>
        args := args.(showArchive := true);
        i := i + 1;
      case Backup =>
        args := args.(backup := true);
        i := i + 1;
      case Clear =>
        var clearArgs;
        clearArgs, i := ReadClearArgs(argv, i + 1);
        args := args.(clear := clearArgs);
      case OtherSwitch =>
        i := i + 1;
      case Url =>
        args := args.(urls := args.urls + [tok]);
        i := i + 1;
      }
      assert i == step.next && args == step.acc;
    }
  }

  /** The arguments of `--clear` starting at `i`: the tokens up to the
      next one starting with "--", and where parsing resumes. */
  method ReadClearArgs(argv: seq<string>, i: nat) returns (clearArgs: seq<string>, next: nat)
    requires i <= |argv|
    ensures next == ClearEnd(argv, i) && clearArgs == argv[i..next]
  {
    next := i;
    clearArgs := [];
    while next < |argv| && !StartsWith(argv[next], "--")
      invariant i <= next <= |argv|
      invariant clearArgs == argv[i..next]
      invariant ClearEnd(argv, next) == ClearEnd(argv, i)
      decreases |argv| - next
    {
      clearArgs := clearArgs + [argv[next]];
      next := next + 1;
    }
  }

  // Properties of the parser

  /** Parsing only appends to the URL list, and what it appends is a
      subsequence of the unread tokens, none of them a switch. */
  lemma {:induction false} ParseFromUrls(argv: seq<string>, i: nat, acc: Args)
    requires i <= |argv|
    ensures var r := ParseFrom(argv, i, acc);
      |acc.urls| <= |r.urls| && r.urls[..|acc.urls|] == acc.urls
      && Subsequence(r.urls[|acc.urls|..], argv[i..])
      && (forall j | |acc.urls| <= j < |r.urls| :: !StartsWith(r.urls[j], "-"))
    decreases |argv| - i
  {
    if i < |argv| {
      var c := Step(argv, i, acc);
      assert ParseFrom(argv, i, acc) == ParseFrom(argv, c.next, c.acc);
      ParseFromUrls(argv, c.next, c.acc);
      UrlsStep(argv, i, c.next, acc.urls, c.acc.urls, ParseFrom(argv, c.next, c.acc).urls);
    }
  }

  /** One round of `ParseFromUrls`, on the URL lists alone: `mid` is the
      list after the round at `i`, `r` the final one. */
  lemma UrlsStep(argv: seq<string>, i: nat, next: nat, before: seq<string>, mid: seq<string>, r: seq<string>)
    requires i < next <= |argv|
    requires mid == before || (mid == before + [argv[i]] && !StartsWith(argv[i], "-") && next == i + 1)
    requires |mid| <= |r| && r[..|mid|] == mid && Subsequence(r[|mid|..], argv[next..])
    requires forall j | |mid| <= j < |r| :: !StartsWith(r[j], "-")
    ensures |before| <= |r| && r[..|before|] == before && Subsequence(r[|before|..], argv[i..])
    ensures forall j | |before| <= j < |r| :: !StartsWith(r[j], "-")
  {
    if mid == before {
      assert argv[i..][next - i..] == argv[next..];
      SubsequenceOfSuffix(r[|before|..], argv[i..], next - i);
    } else {
      ExtendedPrefix(before, argv[i], r);
      assert argv[i..][1..] == argv[i + 1..];
    }
  }

  /** Every URL the parser returns is a token of `argv` that does not start
      with "-", and the URLs keep their command-line order. */
  lemma UrlsComeFromArgv(argv: seq<string>)
    ensures Subsequence(Parse(argv).urls, argv)
    ensures forall u | u in Parse(argv).urls :: !StartsWith(u, "-")
  {
    ParseFromUrls(argv, 0, Defaults);
    assert argv[0..] == argv;
  }

  /** A command line without switches is all URLs, in order, and sets no
      option. */
  lemma {:induction false} PlainTokensAreUrls(argv: seq<string>, i: nat, acc: Args)
    requires i <= |argv|
    requires forall j | i <= j < |argv| :: !StartsWith(argv[j], "-")
    ensures ParseFrom(argv, i, acc) == acc.(urls := acc.urls + argv[i..])
    decreases |argv| - i
  {
    if i < |argv| {
      assert StartsWith("--help", "-") && StartsWith("-h", "-");
      assert StartsWith("--clear", "-") && StartsWith("--fast", "-");
      PlainTokensAreUrls(argv, i + 1, acc.(urls := acc.urls + [argv[i]]));
      assert acc.urls + [argv[i]] + argv[i + 1..] == acc.urls + argv[i..];
    }
  }

  /** `--clear` takes every following token up to the next one starting
      with "--", and parsing resumes there. */
  lemma ClearSwallowsUntilDoubleDash(argv: seq<string>, i: nat, j: nat, acc: Args)
    requires i < j <= |argv| && argv[i] == "--clear"
    requires forall k | i < k < j :: !StartsWith(argv[k], "--")
    requires j == |argv| || StartsWith(argv[j], "--")
    ensures ParseFrom(argv, i, acc) == ParseFrom(argv, j, acc.(clear := argv[i + 1..j]))
  {
    ClearEndAt(argv, i + 1, j);
  }

  lemma {:induction false} ClearEndAt(argv: seq<string>, i: nat, j: nat)
    requires i <= j <= |argv|
    requires forall k | i <= k < j :: !StartsWith(argv[k], "--")
    requires j == |argv| || StartsWith(argv[j], "--")
    ensures ClearEnd(argv, i) == j
    decreases j - i
  {
    if i < j {
      ClearEndAt(argv, i + 1, j);
    }
  }

  /** A value option at the very end has no value and is ignored; the last
      of two values wins. */
  lemma OptionExamples()
    ensures Parse(["--format"]) == Defaults
    ensures Parse(["--format", "mp3", "--format", "mkv"]).format == Some("mkv")
    ensures Parse(["--outdir", "/test/path"]).outdir == Some("/test/path")
  {
    assert Step(["--format"], 0, Defaults) == Cursor(1, Defaults);
    var twice := ["--format", "mp3", "--format", "mkv"];
    var first := Defaults.(format := Some("mp3"));
    assert Step(twice, 0, Defaults) == Cursor(2, first);
    assert Step(twice, 2, first) == Cursor(4, first.(format := Some("mkv")));
    assert Step(["--outdir", "/test/path"], 0, Defaults) == Cursor(2, Defaults.(outdir := Some("/test/path")));
  }

  /** The mixed command line of the test suite: two value options, a flag
      and a URL. */
  lemma MixedCommandLine()
    ensures Parse(["--format", "mp3", "--outdir", "/downloads", "--firefox-cookies", "https://youtube.com/watch?v=abc123"])
      == Defaults.(format := Some("mp3"), outdir := Some("/downloads"), firefoxCookies := true,
                   urls := ["https://youtube.com/watch?v=abc123"])
  {
    var argv := ["--format", "mp3", "--outdir", "/downloads", "--firefox-cookies", "https://youtube.com/watch?v=abc123"];
    var url := argv[5];
    assert url[..1] == "h";
    var a2 := Defaults.(format := Some("mp3"));
    var a4 := a2.(outdir := Some("/downloads"));
    var a5 := a4.(firefoxCookies := true);
    assert Step(argv, 0, Defaults) == Cursor(2, a2);
    assert Step(argv, 2, a2) == Cursor(4, a4);
    assert Step(argv, 4, a4) == Cursor(5, a5);
    assert Step(argv, 5, a5) == Cursor(6, a5.(urls := [url]));
  }
}
