/**
 * The naming part of the LAION downloader (scripts/download_laion.py):
 * `cleanup_text`, which turns a caption into a safe file name,
 * `get_file_extension`, which guesses an extension from an image URL, and
 * the output path built by `download_image`.
 */
module DownloadLaion {
  import opened Wrappers
  import opened PyStr
  import opened PyPath

  /** `_MAX_LENGTH`: the longest file name `cleanup_text` returns. */
  const MaxLength: nat := 240

  /** Tab, LF and CR, removed twice by `cleanup_text`. */
  const ControlChars: string := "\t\n\r"

  /** The characters the long `.replace(..., '')` chain deletes. */
  const Forbidden: string := "\"'?:|<>/\\*!@#$%^()"

  /** Every character `cleanup_text` guarantees its result is free of. */
  predicate Banned(c: char) {
    c in ControlChars || c in Forbidden || c == '&' || c == '_'
  }

  predicate AllAscii(s: string) {
    forall i :: 0 <= i < |s| ==> IsAscii(s[i])
  }

  // ---------------------------------------------------------------------------
  // cleanup_text

  /** `re.sub(r'[^\x00-\x7F]+', '', s)`: every non-ASCII character removed. */
  function StripNonAscii(s: string): (r: string)
    ensures AllAscii(r)
    ensures forall x :: x in r ==> x in s
    ensures AllAscii(s) ==> r == s
    decreases |s|
  {
    if s == [] then []
    else if IsAscii(s[0]) then [s[0]] + StripNonAscii(s[1..])
    else StripNonAscii(s[1..])
  }

  lemma {:induction false} StripNonAsciiAppend(a: string, b: string)
    ensures StripNonAscii(a + b) == StripNonAscii(a) + StripNonAscii(b)
    decreases |a|
  {
    if a == [] {
      assert a + b == b;
    } else {
      var rest := StripNonAscii(a[1..] + b);
      StripNonAsciiAppend(a[1..], b);
      assert a + b == [a[0]] + (a[1..] + b);
      StripNonAsciiCons(a[0], a[1..] + b);
      StripNonAsciiCons(a[0], a[1..]);
      assert a == [a[0]] + a[1..];
      if IsAscii(a[0]) {
        ConcatAssoc([a[0]], StripNonAscii(a[1..]), StripNonAscii(b));
      }
    }
  }

  lemma StripNonAsciiCons(c: char, t: string)
    ensures StripNonAscii([c] + t) == if IsAscii(c) then [c] + StripNonAscii(t) else StripNonAscii(t)
  {
    assert ([c] + t)[1..] == t;
  }

  /**
   * Where a greedy `.*` followed by `close` can end inside `t`: the largest
   * `k` with `close` at `t[k..]` and no newline in `t[..k]` (`.` does not
   * match a newline), or -1 when there is none.
   */
  function LastClose(t: string, close: string): (k: int)
    ensures -1 <= k <= |t|
    ensures k >= 0 ==> StartsWith(t[k..], close) && '\n' !in t[..k]
    decreases |t|
  {
    if t != [] && t[0] != '\n' && LastClose(t[1..], close) >= 0 then
      var k := LastClose(t[1..], close);
      assert t[1..][k..] == t[k + 1..];
      assert t[..k + 1] == [t[0]] + t[1..][..k];
      k + 1
    else if StartsWith(t, close) then
      assert t[0..] == t;
      0
    else -1
  }

  /** The match is greedy: no later `close` on the same line. */
  lemma {:induction false} LastCloseGreedy(t: string, close: string, j: int)
    requires LastClose(t, close) < j <= |t| && StartsWith(t[j..], close)
    ensures '\n' in t[..j]
    decreases |t|
  {
    if j > 0 {
      if t[0] == '\n' {
        assert t[..j][0] == '\n';
      } else {
        assert t[1..][j - 1..] == t[j..];
        LastCloseGreedy(t[1..], close, j - 1);
        assert t[1..][..j - 1] == t[..j][1..];
      }
    }
  }

  /**
   * `re.sub(open + ".*" + close, "", s)`: scanning left to right, each
   * `open` that has a `close` later on its line is removed together with
   * everything up to the LAST such `close`; scanning resumes after it.
   */
  function RegexRemove(s: string, open: string, close: string): (r: string)
    requires open != []
    ensures |r| <= |s|
    ensures forall x :: x in r ==> x in s
    ensures open[0] !in s ==> r == s
    decreases |s|
  {
    if s == [] then []
    else if StartsWith(s, open) && LastClose(s[|open|..], close) >= 0 then
      var j := |open| + LastClose(s[|open|..], close) + |close|;
      assert s[|open|..][LastClose(s[|open|..], close)..] == s[|open| + LastClose(s[|open|..], close)..];
      assert s[0] == open[0];
      RegexRemove(s[j..], open, close)
    else
      [s[0]] + RegexRemove(s[1..], open, close)
  }

  /** Lines 115-118: the text left once markup is gone, cut to what follows the last '/'. */
  function Segment(s: string): string {
    var ascii := StripNonAscii(s);
    var noDiv := RegexRemove(ascii, "<div", "</div>");
    var noSpan := RegexRemove(noDiv, "<span", "</span>");
    LastPart(noSpan, '/')
  }

  /** Lines 121-129: the replace chain, in source order. */
  function Scrub(seg: string): string {
    var a := ReplaceAll(ReplaceAll(seg, "/", ""), "&", "and");
    var b := RemoveEach(a, ControlChars);
    var c := RemoveEach(b, Forbidden);
    var d := ReplaceAll(c, "_", " ");
    RemoveEach(d, ControlChars)
  }

  /** Lines 131-133: keep at most the first `n` characters. */
  function Truncate(s: string, n: nat): (r: string)
    ensures |r| <= n && StartsWith(s, r)
    ensures |s| <= n ==> r == s
    ensures |s| > n ==> |r| == n
  {
    if |s| > n then s[..n] else s
  }

  /** `cleanup_text(file_name)`. */
  function Cleanup(s: string): string {
    Truncate(Scrub(Segment(s)), MaxLength)
  }

  /** What `cleanup_text` promises of its result. */
  predicate Clean(t: string) {
    |t| <= MaxLength && forall x :: x in t ==> IsAscii(x) && !Banned(x)
  }

  /** After markup removal and the cut at the last '/': ASCII characters of the input, none of them a '/'. */
  lemma SegmentChars(s: string)
    ensures forall x :: x in Segment(s) ==> x in s && IsAscii(x) && x != '/'
  {
    var ascii := StripNonAscii(s);
    var noDiv := RegexRemove(ascii, "<div", "</div>");
    var noSpan := RegexRemove(noDiv, "<span", "</span>");
    LastPartProps(noSpan, '/');
    forall x | x in Segment(s) ensures x in s && IsAscii(x) && x != '/' {
      assert x in noSpan && x in noDiv && x in ascii;
      var i :| 0 <= i < |ascii| && ascii[i] == x;
    }
  }

  /** Text that is ASCII, free of '<' and free of '/' is its own segment. */
  lemma SegmentFixes(t: string)
    requires AllAscii(t) && '<' !in t && '/' !in t
    ensures Segment(t) == t
  {
    LastPartProps(t, '/');
  }

  /** The first stage deletes each '/' and turns each '&' into "and", character by character. */
  lemma AmpStage(seg: string)
    ensures ReplaceAll(ReplaceAll(seg, "/", ""), "&", "and") == SubstChar(SubstChar(seg, '/', ""), '&', "and")
    ensures forall x :: x in ReplaceAll(ReplaceAll(seg, "/", ""), "&", "and") ==>
              (x in seg || x == 'a' || x == 'n' || x == 'd') && x != '&'
  {
    var a0 := ReplaceAll(seg, "/", "");
    ReplaceAllChars(seg, "/", "");
    ReplaceAllChars(a0, "&", "and");
    ReplaceCharRemoves(a0, '&', "and");
    ReplaceCharIsSubst(seg, '/', "");
    ReplaceCharIsSubst(a0, '&', "and");
  }

  /** The last two stages turn each '_' into a space and then drop tab, LF and CR, character by character. */
  lemma UnderscoreStage(c: string)
    ensures RemoveEach(ReplaceAll(c, "_", " "), ControlChars) == Without(SubstChar(c, '_', " "), ControlChars)
    ensures forall x :: x in RemoveEach(ReplaceAll(c, "_", " "), ControlChars) ==> (x in c || x == ' ') && x != '_' && x !in ControlChars
  {
    var d := ReplaceAll(c, "_", " ");
    ReplaceAllChars(c, "_", " ");
    ReplaceCharRemoves(c, '_', " ");
    RemoveEachProps(d, ControlChars);
    ReplaceCharIsSubst(c, '_', " ");
  }

  /** The space that replaces '_' is itself allowed. */
  lemma SpaceAllowed()
    ensures !Banned(' ') && ' ' in "and "
    ensures forall x :: x in "and " ==> IsAscii(x)
  {
    assert "and "[3] == ' ';
  }

  /** What the replace chain does to one character of the segment. */
  function ScrubChar(x: char): string {
    if x == '&' then "and"
    else if x == '_' then " "
    else if x in ControlChars || x in Forbidden then ""
    else [x]
  }

  /** The replace chain as a map over the characters of the segment. */
  function ScrubEach(seg: string): string
    decreases |seg|
  {
    if seg == [] then [] else ScrubChar(seg[0]) + ScrubEach(seg[1..])
  }

  /** The chain with each one-character `replace` written as a substitution or a filter. */
  function Stages(seg: string): string {
    var a := SubstChar(SubstChar(seg, '/', ""), '&', "and");
    Without(SubstChar(Without(Without(a, ControlChars), Forbidden), '_', " "), ControlChars)
  }

  lemma ScrubStages(seg: string)
    ensures Scrub(seg) == Stages(seg)
  {
    var a := ReplaceAll(ReplaceAll(seg, "/", ""), "&", "and");
    AmpStage(seg);
    var b := RemoveEach(a, ControlChars);
    RemoveEachIsWithout(a, ControlChars);
    var c := RemoveEach(b, Forbidden);
    RemoveEachIsWithout(b, Forbidden);
    UnderscoreStage(c);
  }

  lemma StagesAppend(u: string, v: string)
    ensures Stages(u + v) == Stages(u) + Stages(v)
  {
    SubstAppend(u, v, '/', "");
    var u1, v1 := SubstChar(u, '/', ""), SubstChar(v, '/', "");
    SubstAppend(u1, v1, '&', "and");
    var u2, v2 := SubstChar(u1, '&', "and"), SubstChar(v1, '&', "and");
    WithoutAppend(u2, v2, ControlChars);
    var u3, v3 := Without(u2, ControlChars), Without(v2, ControlChars);
    WithoutAppend(u3, v3, Forbidden);
    var u4, v4 := Without(u3, Forbidden), Without(v3, Forbidden);
    SubstAppend(u4, v4, '_', " ");
    WithoutAppend(SubstChar(u4, '_', " "), SubstChar(v4, '_', " "), ControlChars);
  }

  lemma StagesChar(x: char)
    ensures Stages([x]) == ScrubChar(x)
  {
    if x == '/' {
      SubstOne(x, '/', "");
    } else if x == '&' {
      StagesAmp(x);
    } else if x in ControlChars || x in Forbidden {
      StagesDropped(x);
    } else {
      StagesKept(x);
    }
  }

  lemma StagesAmp(x: char)
    requires x == '&'
    ensures Stages([x]) == "and"
  {
    var a := SubstChar(SubstChar([x], '/', ""), '&', "and");
    assert a == "and" by {
      SubstOne(x, '/', "");
      SubstOne(x, '&', "and");
    }
    assert forall y :: y in a ==> 'a' <= y <= 'z';
    LettersSurvive(a);
    SubstAbsent(a, '_', " ");
  }

  /** Lower-case letters are neither control characters nor forbidden ones. */
  lemma LettersSurvive(s: string)
    requires forall y :: y in s ==> 'a' <= y <= 'z'
    ensures Without(s, ControlChars) == s && Without(s, Forbidden) == s
  {
    WithoutAbsent(s, ControlChars);
    WithoutAbsent(s, Forbidden);
  }

  lemma StagesDropped(x: char)
    requires x != '/' && x != '&' && (x in ControlChars || x in Forbidden)
    ensures Stages([x]) == []
  {
    SubstOne(x, '/', "");
    SubstOne(x, '&', "and");
    WithoutOne(x, ControlChars);
    if x !in ControlChars {
      WithoutOne(x, Forbidden);
    }
  }

  lemma StagesKept(x: char)
    requires x != '/' && x != '&' && x !in ControlChars && x !in Forbidden
    ensures Stages([x]) == if x == '_' then " " else [x]
  {
    SubstOne(x, '/', "");
    SubstOne(x, '&', "and");
    WithoutOne(x, ControlChars);
    WithoutOne(x, Forbidden);
    SubstOne(x, '_', " ");
    if x == '_' {
      WithoutOne(' ', ControlChars);
    } else {
      WithoutOne(x, ControlChars);
    }
  }

  lemma {:induction false} StagesEach(seg: string)
    ensures Stages(seg) == ScrubEach(seg)
    decreases |seg|
  {
    if seg != [] {
      assert seg == [seg[0]] + seg[1..];
      StagesAppend([seg[0]], seg[1..]);
      StagesChar(seg[0]);
      StagesEach(seg[1..]);
    }
  }

  /** Every character `ScrubEach` emits came from the segment or from "and ", and none is banned. */
  lemma {:induction false} ScrubEachChars(seg: string)
    ensures forall x :: x in ScrubEach(seg) ==> (x in seg || x in "and ") && !Banned(x)
    decreases |seg|
  {
    if seg != [] {
      ScrubEachChars(seg[1..]);
      ScrubCharChars(seg[0]);
      assert seg == [seg[0]] + seg[1..];
    }
  }

  lemma ScrubCharChars(c: char)
    ensures forall x :: x in ScrubChar(c) ==> (x == c || x in "and ") && !Banned(x)
  {
    SpaceAllowed();
    assert "and "[..3] == "and";
    PrefixChars("and ", "and");
  }

  /** A character that is not banned is kept by `ScrubEach`. */
  lemma {:induction false} ScrubEachKeeps(seg: string, x: char)
    requires x in seg && !Banned(x)
    ensures x in ScrubEach(seg)
    decreases |seg|
  {
    if seg[0] != x {
      ScrubEachKeeps(seg[1..], x);
    }
  }

  /**
   * The replace chain maps the segment character by character: '&' becomes
   * "and", '_' becomes a space, tab, LF, CR and the forbidden characters
   * vanish, and every other character stays, in order. So every character of
   * the result came from the segment or from "and " and none is banned, and
   * every unbanned character of the segment survives.
   */
  lemma ScrubChars(seg: string)
    ensures Scrub(seg) == ScrubEach(seg)
    ensures forall x :: x in Scrub(seg) ==> (x in seg || x in "and ") && !Banned(x)
    ensures forall x :: x in seg && !Banned(x) ==> x in Scrub(seg)
  {
    ScrubStages(seg);
    StagesEach(seg);
    ScrubEachChars(seg);
    forall x | x in seg && !Banned(x) ensures x in Scrub(seg) {
      ScrubEachKeeps(seg, x);
    }
  }

  /** Text free of banned characters passes the replace chain unchanged. */
  lemma ScrubFixes(t: string)
    requires forall x :: x in t ==> !Banned(x)
    ensures Scrub(t) == t
  {
    assert '/' !in t && '&' !in t && '_' !in t by {
      assert Banned('/') && Banned('&') && Banned('_');
    }
    ReplaceCharAbsent(t, '/', "");
    ReplaceCharAbsent(t, '&', "and");
    RemoveEachAbsent(t, ControlChars);
    RemoveEachAbsent(t, Forbidden);
    ReplaceCharAbsent(t, '_', " ");
  }

  /**
   * `cleanup_text` returns ASCII only, none of the deleted characters (no
   * '&', which became "and", and no '_', which became a space), at most 240
   * characters, and a prefix of the scrubbed text (the whole of it when it
   * fits).
   */
  lemma CleanupProps(s: string)
    ensures Clean(Cleanup(s))
    ensures StartsWith(Scrub(Segment(s)), Cleanup(s))
    ensures |Scrub(Segment(s))| <= MaxLength ==> Cleanup(s) == Scrub(Segment(s))
  {
    var seg := Segment(s);
    var scrubbed := Scrub(seg);
    SegmentChars(s);
    ScrubChars(seg);
    SpaceAllowed();
    var r := Truncate(scrubbed, MaxLength);
    PrefixChars(scrubbed, r);
    assert forall x :: x in r ==> x in scrubbed;
    assert forall x :: x in scrubbed ==> IsAscii(x) && !Banned(x);
  }

  /** A string `cleanup_text` would return passes through it unchanged. */
  lemma CleanupFixes(t: string)
    requires Clean(t)
    ensures Cleanup(t) == t
  {
    assert '<' !in t && '/' !in t by {
      assert Banned('<') && Banned('/');
    }
    SegmentFixes(t);
    ScrubFixes(t);
  }

  /** The fixed points of `cleanup_text` are exactly the clean strings. */
  lemma CleanupFixedPoints(t: string)
    ensures Cleanup(t) == t <==> Clean(t)
  {
    CleanupProps(t);
    if Clean(t) {
      CleanupFixes(t);
    }
  }

  /** `cleanup_text` is idempotent. */
  lemma CleanupIdempotent(s: string)
    ensures Cleanup(Cleanup(s)) == Cleanup(s)
  {
    CleanupProps(s);
    CleanupFixes(Cleanup(s));
  }

  /** Without markup, everything up to the last '/' is discarded. */
  lemma CleanupKeepsLastSegment(p: string, s: string)
    requires '/' !in s && '<' !in p && '<' !in s
    ensures Cleanup(p + "/" + s) == Cleanup(s)
  {
    SegmentKeepsLast(p, s);
  }

  lemma SegmentKeepsLast(p: string, s: string)
    requires '/' !in s && '<' !in p && '<' !in s
    ensures Segment(p + "/" + s) == Segment(s)
  {
    StripNonAsciiAppend(p, "/" + s);
    StripNonAsciiAppend("/", s);
    assert p + "/" + s == p + ("/" + s);
    var ap := StripNonAscii(p);
    var sa := StripNonAscii(s);
    assert StripNonAscii("/") == "/";
    var whole := ap + "/" + sa;
    assert StripNonAscii(p + "/" + s) == whole;
    assert '<' !in whole;
    assert Segment(p + "/" + s) == LastPart(whole, '/');
    LastPartAfterSep(ap, sa, '/');
  }

  // ---------------------------------------------------------------------------
  // get_file_extension

  /** URL tails the source renames to "jpg". */
  const ScriptExtensions: seq<string> := ["asp", "aspx", "ashx", "php", "jpeg"]

  /** The text before the first '?', when there is one. */
  function UrlPath(url: string): string {
    if '?' in url then FirstPart(url, '?') else url
  }

  /** `get_file_extension(image_url)`, as written. */
  function FileExtension(url: string): string {
    var result := LastPart(UrlPath(url), '.');
    if result in ScriptExtensions then "jpg" else result
  }

  /**
   * The extension is read from the URL up to its first '?': the tail is the
   * text after the last '.' of that part, or all of it when it has no '.';
   * a script or "jpeg" tail becomes "jpg" and any other tail is returned
   * as is. So the result is never "jpeg" and holds no '?' or '.'.
   */
  lemma FileExtensionProps(url: string)
    ensures var path := UrlPath(url); var tail := LastPart(path, '.'); var r := FileExtension(url);
            && StartsWith(url, path) && '?' !in path && ('?' in url ==> url[|path|] == '?')
            && '.' !in tail && EndsWith(path, tail)
            && ('.' in path ==> path[|path| - |tail| - 1] == '.')
            && ('.' !in path ==> tail == path)
            && (tail in ScriptExtensions ==> r == "jpg")
            && (tail !in ScriptExtensions ==> r == tail)
            && r != "jpeg" && '?' !in r && '.' !in r
  {
    var path := UrlPath(url);
    var tail := LastPart(path, '.');
    assert StartsWith(url, path) && '?' !in path && ('?' in url ==> url[|path|] == '?') by {
      UrlPathProps(url);
    }
    assert && '.' !in tail && EndsWith(path, tail)
           && ('.' in path ==> path[|path| - |tail| - 1] == '.')
           && ('.' !in path ==> tail == path) by {
      LastPartProps(path, '.');
    }
    assert '?' !in tail by {
      SuffixChars(path, tail);
    }
    assert ScriptExtensions[4] == "jpeg";
    assert "jpg" != "jpeg" by { assert |"jpg"| != |"jpeg"|; }
    assert '.' !in "jpg" && '?' !in "jpg";
  }

  /** The part of a URL before its query is a prefix of it without '?'. */
  lemma UrlPathProps(url: string)
    ensures StartsWith(url, UrlPath(url)) && '?' !in UrlPath(url)
    ensures '?' in url ==> url[|UrlPath(url)|] == '?'
    ensures '?' !in url ==> UrlPath(url) == url
  {
    FirstPartProps(url, '?');
  }

  /**
   * An extensionless URL yields the tail of the dotted host as "extension",
   * which can contain '/': `http://example.com/photo` gives "com/photo".
   */
  lemma ExtensionlessUrl(host: string, path: string)
    requires '?' !in host + "." + path && '.' !in path
    requires path !in ScriptExtensions
    ensures FileExtension(host + "." + path) == path
  {
    var url := host + "." + path;
    assert UrlPath(url) == url;
    LastPartAfterSep(host, path, '.');
    LastPartProps(path, '.');
  }

  /** A tail that cannot be an extension: it holds a '/', so it names a folder too. */
  predicate BadTail(tail: string) {
    '/' in tail
  }

  /**
   * `get_file_extension` as evidently intended: the initial `result = "jpg"`
   * is the default, used when the tail after the last '.' is not a plain
   * name.
   */
  function FileExtensionFixed(url: string): (r: string)
    ensures '/' !in r && r != "jpeg"
    ensures !BadTail(LastPart(UrlPath(url), '.')) ==> r == FileExtension(url)
  {
    var result := LastPart(UrlPath(url), '.');
    if BadTail(result) || result in ScriptExtensions then "jpg" else result
  }

  // ---------------------------------------------------------------------------
  // download_image

  /**
   * Lines 205-208: `outpath[-1]` on an empty `outpath` raises IndexError;
   * otherwise `name` goes after `outpath`, with exactly one '/' ensured
   * between them.
   */
  function Target(outpath: string, name: string): (r: Result<string>)
    ensures r.Err? <==> outpath == []
    ensures r.Err? ==> r.error == IndexError
    ensures r.Ok? ==> && StartsWith(r.value, outpath) && EndsWith(r.value, name)
                      && |r.value| - |name| - 1 >= 0 && r.value[|r.value| - |name| - 1] == '/'
                      && |r.value| == |outpath| + |name| + (if EndsWith(outpath, "/") then 0 else 1)
  {
    if outpath == [] then Err(IndexError)
    else
      var dir := if outpath[|outpath| - 1] != "/"[0] then outpath + "/" else outpath;
      assert (dir + name)[..|outpath|] == outpath;
      assert EndsWith(outpath, "/") <==> outpath[|outpath| - 1] == '/' by {
        assert outpath[|outpath| - 1..] == [outpath[|outpath| - 1]];
      }
      Ok(dir + name)
  }

  /**
   * `out_file_name` in `download_image` (line 210): the cleaned caption, a '.',
   * and the guessed extension. It is only the path probed at line 164 to skip
   * an image downloaded before; `save_img` picks its own name.
   */
  function OutFileName(outpath: string, text: string, url: string): Result<string> {
    Target(outpath, Cleanup(text) + "." + FileExtension(url))
  }

  /** The same target with the corrected extension. */
  function OutFileNameFixed(outpath: string, text: string, url: string): Result<string> {
    Target(outpath, Cleanup(text) + "." + FileExtensionFixed(url))
  }

  /** A name without '/' placed by `Target` is the base name of the target: the path lies directly in `outpath`. */
  lemma TargetBaseName(outpath: string, name: string)
    requires outpath != [] && '/' !in name
    ensures BaseName(Target(outpath, name).value) == name
  {
    var p := Target(outpath, name).value;
    var k := RFind(p, '/');
    assert p[|p| - |name| - 1] == '/';
    assert p[|p| - |name|..] == name;
  }

  /** With the corrected extension, the path probed for an earlier download lies directly in the output folder, named after the cleaned caption. */
  lemma OutFileNameFixedStaysInDir(outpath: string, text: string, url: string)
    requires outpath != []
    ensures var r := OutFileNameFixed(outpath, text, url);
            r.Ok? && BaseName(r.value) == Cleanup(text) + "." + FileExtensionFixed(url)
  {
    var c := Cleanup(text);
    CleanupProps(text);
    assert '/' !in c by { assert Banned('/'); }
    var name := c + "." + FileExtensionFixed(url);
    assert '/' !in name;
    TargetBaseName(outpath, name);
  }

  /** A name holding a '/' is never the base name of its target. */
  lemma SlashNameNotBase(outpath: string, name: string)
    requires outpath != [] && '/' in name
    ensures BaseName(Target(outpath, name).value) != name
  {
    BaseNameProps(Target(outpath, name).value);
  }

  lemma SlashInTail(a: string, b: string)
    requires '/' in b
    ensures '/' in a + "." + b
  {
    var i :| 0 <= i < |b| && b[i] == '/';
    assert (a + "." + b)[|a| + 1 + i] == '/';
  }

  /**
   * As written, an extensionless URL makes `out_file_name`, the path probed
   * for an earlier download, point into a sub-folder of the output folder:
   * its base name is not caption + "." + extension.
   */
  lemma OutFileNameEscapesDir(outpath: string, text: string, host: string, path: string)
    requires outpath != []
    requires '?' !in host + "." + path && '.' !in path && path !in ScriptExtensions
    requires BadTail(path)
    ensures var r := OutFileName(outpath, text, host + "." + path);
            r.Ok? && BaseName(r.value) != Cleanup(text) + "." + FileExtension(host + "." + path)
  {
    ExtensionlessUrl(host, path);
    SlashInTail(Cleanup(text), path);
    SlashNameNotBase(outpath, Cleanup(text) + "." + path);
  }

  // ---------------------------------------------------------------------------
  // save_img

  /** Lines 187-190: the decoded image's format, lower-cased, with "jpeg" shortened to "jpg". */
  function ImageExtension(format: string): string {
    var f := Lower(format);
    if f == "jpeg" then "jpg" else f
  }

  /**
   * Lines 192-195, called from line 218: `save_img` writes the image to the
   * output folder under its cleaned caption, a '.', and the image's own
   * format, not the extension guessed from the URL.
   */
  function SavedName(outpath: string, text: string, format: string): Result<string> {
    Target(outpath, Cleanup(text) + "." + ImageExtension(format))
  }

  lemma LowerKeepsSlashFree(s: string)
    requires '/' !in s
    ensures '/' !in Lower(s)
  {
    forall i | 0 <= i < |s| ensures Lower(s)[i] != '/' {
      assert s[i] != '/';
    }
  }

  /** Two names placed in the same folder give the same path only when they are the same name. */
  lemma TargetInjective(outpath: string, a: string, b: string)
    requires outpath != [] && a != b
    ensures Target(outpath, a).value != Target(outpath, b).value
  {
    var pa, pb := Target(outpath, a).value, Target(outpath, b).value;
    if |a| == |b| {
      assert pa[|pa| - |a|..] == a && pb[|pb| - |b|..] == b;
    }
  }

  /**
   * As written, for an extensionless URL the path probed at line 164 is
   * never the path `save_img` writes, whatever format the image has: the
   * "already exists" skip can never fire for such an image, so every run
   * downloads it again.
   */
  lemma ProbeMissesSavedFile(outpath: string, text: string, host: string, path: string, format: string)
    requires outpath != [] && '/' !in format
    requires '?' !in host + "." + path && '.' !in path && path !in ScriptExtensions
    requires BadTail(path)
    ensures OutFileName(outpath, text, host + "." + path).value != SavedName(outpath, text, format).value
  {
    var c := Cleanup(text);
    ExtensionlessUrl(host, path);
    LowerKeepsSlashFree(format);
    var e := ImageExtension(format);
    assert '/' !in e;
    var i :| 0 <= i < |path| && path[i] == '/';
    if |c + "." + path| == |c + "." + e| {
      assert (c + "." + path)[|c| + 1 + i] == '/';
      assert (c + "." + e)[|c| + 1 + i] == e[i];
    }
    TargetInjective(outpath, c + "." + path, c + "." + e);
  }

  lemma LowerJpeg()
    ensures ImageExtension("JPEG") == "jpg"
  {
    assert Lower("JPEG") == "jpeg";
  }

  /**
   * With the corrected extension, an extensionless URL whose image is a
   * JPEG is probed at exactly the path `save_img` writes, so a second run
   * skips it.
   */
  lemma FixedProbeFindsSavedJpeg(outpath: string, text: string, host: string, path: string)
    requires outpath != []
    requires '?' !in host + "." + path && '.' !in path && path !in ScriptExtensions
    requires BadTail(path)
    ensures OutFileNameFixed(outpath, text, host + "." + path) == SavedName(outpath, text, "JPEG")
  {
    var url := host + "." + path;
    assert UrlPath(url) == url;
    LastPartAfterSep(host, path, '.');
    LastPartProps(path, '.');
    assert FileExtensionFixed(url) == "jpg";
    LowerJpeg();
  }
}
