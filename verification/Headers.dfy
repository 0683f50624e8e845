/** The `_headers` scanner and injection of packages/astro/src/headers.ts. */
module Headers {
  import opened Options
  import opened Text
  import opened Regex
  import opened Fragments
  import opened Glob

  // ----- patterns -----

  predicate IsLetter(c: char) {
    'A' <= c <= 'Z' || 'a' <= c <= 'z'
  }

  predicate IsWord(c: char) {
    IsLetter(c) || '0' <= c <= '9' || c == '_'
  }

  function DropWord(s: string): (r: string)
    ensures |r| <= |s| && s[|s| - |r|..] == r
  {
    if s != "" && IsWord(s[0]) then DropWord(s[1..]) else s
  }

  /** How a URL pattern is read: `*` is anything, `:name` one segment's text, the rest is literal. */
  function PatternTokens(pattern: string): seq<Token>
    decreases |pattern|
  {
    if pattern == "" then []
    else if pattern[0] == '*' then [AnyPath] + PatternTokens(pattern[1..])
    else if pattern[0] == ':' && |pattern| > 1 && IsLetter(pattern[1]) then
      [AnyName] + PatternTokens(DropWord(pattern[1..]))
    else [Lit(pattern[0])] + PatternTokens(pattern[1..])
  }

  predicate PatternAccepts(pattern: string, path: string) {
    Accepts(PatternTokens(pattern), path)
  }

  // ----- what a pattern means, part by part -----

  predicate IsLiteral(text: string) {
    '*' !in text && ':' !in text
  }

  lemma {:induction false} LiteralFirst(text: string, rest: string, path: string)
    requires IsLiteral(text)
    ensures PatternAccepts(text + rest, path) <==> text <= path && PatternAccepts(rest, path[|text|..])
    decreases |text|
  {
    if text == "" {
      assert text + rest == rest && path[0..] == path;
    } else {
      var pattern := text + rest;
      assert pattern[0] == text[0] && pattern[1..] == text[1..] + rest;
      assert text[0] in text;
      assert PatternTokens(pattern)[1..] == PatternTokens(text[1..] + rest);
      if path != "" && path[0] == text[0] {
        LiteralFirst(text[1..], rest, path[1..]);
        if |text| <= |path| {
          assert path[1..][|text| - 1..] == path[|text|..];
        }
        assert text <= path <==> text[1..] <= path[1..] by {
          assert text == [text[0]] + text[1..] && path == [path[0]] + path[1..];
        }
      }
    }
  }

  lemma StretchFirst(token: Token, ts: seq<Token>, path: string)
    requires token == AnyPath || token == AnyName
    ensures Accepts([token] + ts, path) <==> exists k: nat :: k <= |path| && Stretch(token, path[..k], false) && Accepts(ts, path[k..])
  {
    assert ([token] + ts)[1..] == ts;
  }

  /** Behind a literal text comes a stretch that the token stands for, and then the rest. */
  predicate Stands(token: Token, text: string, rest: string, path: string, run: string, after: string) {
    path == text + (run + after) && Stretch(token, run, false) && PatternAccepts(rest, after)
  }

  lemma StandsSomewhere(token: Token, text: string, rest: string, path: string)
    requires (token == AnyPath || token == AnyName) && text <= path
    ensures Accepts([token] + PatternTokens(rest), path[|text|..]) <==> exists run, after :: Stands(token, text, rest, path, run, after)
  {
    var below := path[|text|..];
    StretchFirst(token, PatternTokens(rest), below);
    assert path == text + below;
    if k: nat :| k <= |below| && Stretch(token, below[..k], false) && Accepts(PatternTokens(rest), below[k..]) {
      assert below == below[..k] + below[k..];
      assert Stands(token, text, rest, path, below[..k], below[k..]);
    }
    if run, after :| Stands(token, text, rest, path, run, after) {
      assert below == run + after;
      assert below[..|run|] == run && below[|run|..] == after;
    }
  }

  lemma TokenMeans(token: Token, text: string, pattern: string, rest: string, path: string)
    requires IsLiteral(text) && (token == AnyPath || token == AnyName) && PatternTokens(pattern) == [token] + PatternTokens(rest)
    ensures PatternAccepts(text + pattern, path) <==> exists run, after :: Stands(token, text, rest, path, run, after)
  {
    LiteralFirst(text, pattern, path);
    if text <= path {
      StandsSomewhere(token, text, rest, path);
    } else {
      assert forall run, after :: path != text + (run + after);
    }
  }

  /** A star stands for anything on one line, slashes included. */
  lemma StarMeans(text: string, rest: string, path: string)
    requires IsLiteral(text)
    ensures PatternAccepts(text + ("*" + rest), path)
       <==> exists run, after :: path == text + (run + after) && OneLine(run) && PatternAccepts(rest, after)
  {
    assert ("*" + rest)[1..] == rest;
    TokenMeans(AnyPath, text, "*" + rest, rest, path);
    if run, after :| path == text + (run + after) && OneLine(run) && PatternAccepts(rest, after) {
      assert Stands(AnyPath, text, rest, path, run, after);
    }
  }

  /** A placeholder: a letter, then letters, digits and underscores. */
  predicate IsPlaceholder(name: string) {
    name != "" && IsLetter(name[0]) && forall i :: 0 <= i < |name| ==> IsWord(name[i])
  }

  lemma {:induction false} DropWholeWord(name: string, rest: string)
    requires (forall i :: 0 <= i < |name| ==> IsWord(name[i])) && (rest == "" || !IsWord(rest[0]))
    ensures DropWord(name + rest) == rest
  {
    if name == "" {
      assert name + rest == rest;
    } else {
      assert (name + rest)[1..] == name[1..] + rest;
      DropWholeWord(name[1..], rest);
    }
  }

  lemma PlaceholderTokens(pattern: string, name: string, rest: string)
    requires IsPlaceholder(name) && (rest == "" || !IsWord(rest[0])) && pattern == ":" + (name + rest)
    ensures PatternTokens(pattern) == [AnyName] + PatternTokens(rest)
  {
    DropWholeWord(name, rest);
    assert pattern[1..] == name + rest && pattern[1] == name[0];
    TokensOfNamed(pattern, rest);
  }

  /** A placeholder stands for the text of one segment, whatever it is called. */
  lemma PlaceholderMeans(text: string, name: string, rest: string, path: string)
    requires IsLiteral(text) && IsPlaceholder(name) && (rest == "" || !IsWord(rest[0]))
    ensures PatternAccepts(text + (":" + (name + rest)), path)
       <==> exists run, after :: path == text + (run + after) && run != "" && '/' !in run && PatternAccepts(rest, after)
  {
    PlaceholderTokens(":" + (name + rest), name, rest);
    TokenMeans(AnyName, text, ":" + (name + rest), rest, path);
    if run, after :| path == text + (run + after) && run != "" && '/' !in run && PatternAccepts(rest, after) {
      assert Stands(AnyName, text, rest, path, run, after);
    }
  }

  /** Any other pattern stands for itself. */
  lemma LiteralMeans(text: string, path: string)
    requires IsLiteral(text)
    ensures PatternAccepts(text, path) <==> path == text
  {
    assert text + "" == text;
    LiteralFirst(text, "", path);
    if text <= path && path[|text|..] == "" {
      assert path == text;
    }
  }

  function PatternSource(pattern: string): string {
    Emit(Body(PatternTokens(pattern), false))
  }

  lemma PatternStep(out: string, pattern: string)
    requires pattern != ""
    ensures
      var rest := if pattern[0] == ':' && |pattern| > 1 && IsLetter(pattern[1]) then DropWord(pattern[1..]) else pattern[1..];
      var text := if pattern[0] == '*' then ".*"
                  else if pattern[0] == ':' && |pattern| > 1 && IsLetter(pattern[1]) then "[^/]+"
                  else SourceOf(Literal(pattern[0]));
      out + PatternSource(pattern) == out + text + PatternSource(rest)
  {
    var ts := PatternTokens(pattern);
    assert Body(ts, false)[1..] == Body(ts[1..], false);
  }

  predicate IsSpecial(c: char) {
    || c == '.' || c == '+' || c == '?' || c == '^' || c == '$' || c == '{' || c == '}'
    || c == '(' || c == ')' || c == '|' || c == '[' || c == ']' || c == '\\'
  }

  function Escaped(c: char): (r: string)
    ensures c != '*' ==> r == SourceOf(Literal(c))
  {
    if IsSpecial(c) then ['\\', c] else [c]
  }

  /** The loop of `cfHeadersPatternToRegex`. */
  method PatternToSource(pattern: string) returns (regexStr: string)
    ensures regexStr == PatternSource(pattern)
  {
    regexStr := "";
    var i := 0;
    assert pattern[0..] == pattern;
    while i < |pattern|
      invariant 0 <= i <= |pattern|
      invariant regexStr + PatternSource(pattern[i..]) == PatternSource(pattern)
    {
      PatternStep(regexStr, pattern[i..]);
      assert pattern[i..][1..] == pattern[i + 1..];
      var ch := pattern[i];
      if ch == '*' {
        regexStr := regexStr + ".*";
        i := i + 1;
      } else if ch == ':' && i + 1 < |pattern| && IsLetter(pattern[i + 1]) {
        i := SkipWord(pattern, i + 1);
        regexStr := regexStr + "[^/]+";
      } else {
        regexStr := regexStr + Escaped(ch);
        i := i + 1;
      }
    }
    assert pattern[|pattern|..] == "";
  }

  /** The inner loop: past the characters of a placeholder's name. */
  method SkipWord(pattern: string, start: nat) returns (i: nat)
    requires start <= |pattern|
    ensures start <= i <= |pattern| && pattern[i..] == DropWord(pattern[start..])
  {
    i := start;
    ghost var rest := DropWord(pattern[start..]);
    while i < |pattern| && IsWord(pattern[i])
      invariant start <= i <= |pattern|
      invariant DropWord(pattern[i..]) == rest
    {
      assert pattern[i..][1..] == pattern[i + 1..];
      i := i + 1;
    }
  }

  /** The compiled pattern always exists and accepts what the pattern means. */
  method CfHeadersPatternToRegex(pattern: string) returns (regex: Option<Rx>)
    ensures regex.Some?
    ensures forall path :: Test(regex.value, path) <==> PatternAccepts(pattern, path)
  {
    var regexStr := PatternToSource(pattern);
    AnchoredSource(Body(PatternTokens(pattern), false));
    forall path {
      AnchoredMeaning(PatternTokens(pattern), false, path);
    }
    regex := Parse("^" + regexStr + "$");
  }

  // ----- lines -----

  function DropHost(s: string): string {
    if s != "" && s[0] != '/' then DropHost(s[1..]) else s
  }

  /** A leading `http://host` or `https://host` is dropped. */
  function PathOnly(line: string): string {
    var scheme := if StartsWith(line, "https://") then 8 else if StartsWith(line, "http://") then 7 else 0;
    if scheme > 0 && scheme < |line| && line[scheme] != '/' then DropHost(line[scheme..]) else line
  }

  predicate StartsWithIgnoringCase(s: string, prefix: string) {
    |prefix| <= |s| && forall i :: 0 <= i < |prefix| ==> Lower(s[i]) == prefix[i]
  }

  const CACHE_CONTROL: string := "cache-control"

  /** An indented line that sets `Cache-Control`, or detaches it with `!`. */
  predicate IsCacheControlLine(rawLine: string) {
    var rest := TrimStart(rawLine);
    |rest| < |rawLine| &&
    if rest != "" && rest[0] == '!' then
      var name := TrimStart(rest[1..]);
      |name| < |rest| - 1 && StartsWithIgnoringCase(name, CACHE_CONTROL) && TrimStart(name[|CACHE_CONTROL|..]) == ""
    else
      StartsWithIgnoringCase(rest, CACHE_CONTROL) &&
      var after := TrimStart(rest[|CACHE_CONTROL|..]);
      after != "" && after[0] == ':'
  }

  datatype Line = Skipped | Header(pattern: string) | Indented(cacheControl: bool)

  function Classify(rawLine: string): Line {
    var trimmed := Trim(rawLine);
    if trimmed == "" || trimmed[0] == '#' then Skipped
    else if rawLine != "" && !IsSpace(rawLine[0]) then Header(PathOnly(trimmed))
    else Indented(IsCacheControlLine(rawLine))
  }

  /** White space around a text, and the text itself: a comment, a header where it is not indented, or a setting. */
  lemma LineKinds(indent: string, text: string, tail: string)
    requires IsBlank(indent) && IsBlank(tail) && IsTight(text)
    ensures Classify(indent + (text + tail))
         == if text[0] == '#' then Skipped
            else if indent == "" then Header(PathOnly(text))
            else Indented(IsCacheControlLine(indent + (text + tail)))
  {
    TrimOfPadded(indent, text, tail);
    assert (indent + (text + tail))[0] == if indent == "" then text[0] else indent[0];
  }

  lemma {:induction false} DropHostOf(host: string, path: string)
    requires '/' !in host && (path == "" || path[0] == '/')
    ensures DropHost(host + path) == path
  {
    if host == "" {
      assert host + path == path;
    } else {
      assert (host + path)[1..] == host[1..] + path;
      assert host[0] in host;
      DropHostOf(host[1..], path);
    }
  }

  /** Of a full address only the path counts. */
  lemma HostIsDropped(scheme: string, host: string, path: string)
    requires (scheme == "https://" || scheme == "http://") && host != "" && '/' !in host && (path == "" || path[0] == '/')
    ensures PathOnly(scheme + (host + path)) == path
  {
    var line := scheme + (host + path);
    assert line[..|scheme|] == scheme && line[|scheme|..] == host + path;
    assert host[0] in host;
    assert scheme == "http://" ==> line[4] == ':';
    DropHostOf(host, path);
  }

  /** The indented name of the header, then a colon, and anything. */
  predicate SetsCacheControl(line: string, indent: string, name: string, gap: string, rest: string) {
    && line == indent + (name + (gap + (":" + rest)))
    && indent != "" && IsBlank(indent) && IsName(name) && IsBlank(gap)
  }

  /** An indented `!`, then the name of the header, and nothing else. */
  predicate DetachesCacheControl(line: string, indent: string, space: string, name: string, tail: string) {
    && line == indent + ("!" + (space + (name + tail)))
    && indent != "" && IsBlank(indent) && space != "" && IsBlank(space) && IsName(name) && IsBlank(tail)
  }

  /** The header's name in capital or small letters. */
  predicate IsName(name: string) {
    |name| == 13 && forall i :: 0 <= i < 13 ==> Lower(name[i]) == "cache-control"[i]
  }

  lemma {:induction false} TrimStartSplits(s: string) returns (before: string)
    ensures IsBlank(before) && s == before + TrimStart(s)
  {
    before := "";
    if s != "" && IsSpace(s[0]) {
      var more := TrimStartSplits(s[1..]);
      before := [s[0]] + more;
    }
  }

  lemma {:induction false} BlankIsTrimmed(s: string)
    ensures TrimStart(s) == "" <==> IsBlank(s)
  {
    var before := TrimStartSplits(s);
    if IsBlank(s) {
      TrimStartOfPadded(s, "");
      assert s + "" == s;
    }
  }

  lemma NameIsNoSpace(name: string, after: string)
    requires IsName(name)
    ensures (name + after) != "" && !IsSpace((name + after)[0]) && (name + after)[0] != '!'
    ensures StartsWithIgnoringCase(name + after, CACHE_CONTROL) && (name + after)[|CACHE_CONTROL|..] == after
  {
    assert Lower(name[0]) == 'c';
    assert forall i :: 0 <= i < 13 ==> (name + after)[i] == name[i];
  }

  lemma NameInFront(s: string)
    requires StartsWithIgnoringCase(s, CACHE_CONTROL)
    ensures IsName(s[..13]) && s == s[..13] + s[13..]
  {
  }

  lemma SettingCounts(line: string, indent: string, name: string, gap: string, rest: string)
    requires SetsCacheControl(line, indent, name, gap, rest)
    ensures IsCacheControlLine(line)
  {
    var after := gap + (":" + rest);
    NameIsNoSpace(name, after);
    TrimStartOfPadded(indent, name + after);
    TrimStartOfPadded(gap, ":" + rest);
  }

  lemma DetachingCounts(line: string, indent: string, space: string, name: string, tail: string)
    requires DetachesCacheControl(line, indent, space, name, tail)
    ensures IsCacheControlLine(line)
  {
    var rest := "!" + (space + (name + tail));
    NameIsNoSpace(name, tail);
    TrimStartOfPadded(indent, rest);
    assert rest[1..] == space + (name + tail);
    TrimStartOfPadded(space, name + tail);
    BlankIsTrimmed(tail);
  }

  /** Exactly these lines count. */
  lemma CacheControlLines(line: string)
    ensures IsCacheControlLine(line)
       <==> (exists indent, name, gap, rest :: SetsCacheControl(line, indent, name, gap, rest))
            || (exists indent, space, name, tail :: DetachesCacheControl(line, indent, space, name, tail))
  {
    if indent, name, gap, rest :| SetsCacheControl(line, indent, name, gap, rest) {
      SettingCounts(line, indent, name, gap, rest);
    }
    if indent, space, name, tail :| DetachesCacheControl(line, indent, space, name, tail) {
      DetachingCounts(line, indent, space, name, tail);
    }
    if IsCacheControlLine(line) {
      var rest := TrimStart(line);
      var indent := TrimStartSplits(line);
      if rest != "" && rest[0] == '!' {
        DetachingIsMeant(line, indent, rest);
      } else {
        SettingIsMeant(line, indent, rest);
      }
    }
  }

  lemma SettingIsMeant(line: string, indent: string, rest: string)
    requires line == indent + rest && IsBlank(indent) && indent != "" && StartsWithIgnoringCase(rest, CACHE_CONTROL)
    requires
      var after := TrimStart(rest[|CACHE_CONTROL|..]);
      after != "" && after[0] == ':'
    ensures exists indent, name, gap, rest :: SetsCacheControl(line, indent, name, gap, rest)
  {
    var after := TrimStart(rest[|CACHE_CONTROL|..]);
    var gap := TrimStartSplits(rest[|CACHE_CONTROL|..]);
    NameInFront(rest);
    assert after == ":" + after[1..];
    assert SetsCacheControl(line, indent, rest[..13], gap, after[1..]);
  }

  lemma DetachingIsMeant(line: string, indent: string, rest: string)
    requires line == indent + rest && IsBlank(indent) && indent != "" && rest != "" && rest[0] == '!'
    requires
      var name := TrimStart(rest[1..]);
      |name| < |rest| - 1 && StartsWithIgnoringCase(name, CACHE_CONTROL) && TrimStart(name[|CACHE_CONTROL|..]) == ""
    ensures exists indent, space, name, tail :: DetachesCacheControl(line, indent, space, name, tail)
  {
    var name := TrimStart(rest[1..]);
    var space := TrimStartSplits(rest[1..]);
    NameInFront(name);
    BlankIsTrimmed(name[13..]);
    assert rest == "!" + rest[1..];
    assert DetachesCacheControl(line, indent, space, name[..13], name[13..]);
  }

  predicate IsHeader(rawLine: string) {
    Classify(rawLine).Header?
  }

  /** Line `j` sets or detaches `Cache-Control` in the section that begins before the first line. */
  predicate IsSetAtTop(lines: seq<string>, j: nat) {
    && j < |lines| && Classify(lines[j]) == Indented(true)
    && forall k :: 0 <= k < j ==> !IsHeader(lines[k])
  }

  /** Line `i` is a header that matches the path, and line `j` sets or detaches `Cache-Control` in its section. */
  predicate IsSetBy(lines: seq<string>, path: string, i: nat, j: nat) {
    && i < j < |lines|
    && IsHeader(lines[i]) && PatternAccepts(Classify(lines[i]).pattern, path)
    && Classify(lines[j]) == Indented(true)
    && forall k :: i < k < j ==> !IsHeader(lines[k])
  }

  predicate HasSetting(lines: seq<string>, path: string) {
    exists i: nat, j: nat :: i < |lines| && j < |lines| && IsSetBy(lines, path, i, j)
  }

  predicate HasSettingAtTop(lines: seq<string>) {
    exists j: nat :: j < |lines| && IsSetAtTop(lines, j)
  }

  /** What the rest of the file says, given whether the current section matches. */
  predicate Scan(lines: seq<string>, path: string, matches: bool) {
    lines != [] &&
    match Classify(lines[0])
    case Skipped => Scan(lines[1..], path, matches)
    case Header(pattern) => Scan(lines[1..], path, PatternAccepts(pattern, path))
    case Indented(cacheControl) => (matches && cacheControl) || Scan(lines[1..], path, matches)
  }

  /** The file sets or detaches `Cache-Control` in some section whose header matches the path. */
  predicate Covers(content: string, path: string) {
    HasSetting(Split(content, '\n'), path)
  }

  predicate HasSettingInFirst(lines: seq<string>, path: string) {
    lines != [] && IsHeader(lines[0]) && PatternAccepts(Classify(lines[0]).pattern, path) && HasSettingAtTop(lines[1..])
  }

  /** Going on behind the first line: settings at the top, and settings in later sections. */
  lemma SettingsBehindFirst(lines: seq<string>, path: string)
    requires lines != []
    ensures HasSettingAtTop(lines)
       <==> !IsHeader(lines[0]) && (Classify(lines[0]) == Indented(true) || HasSettingAtTop(lines[1..]))
    ensures HasSetting(lines, path) <==> HasSettingInFirst(lines, path) || HasSetting(lines[1..], path)
  {
    TopBehindFirst(lines);
    var rest := lines[1..];
    if i: nat, j: nat :| i < |rest| && j < |rest| && IsSetBy(rest, path, i, j) {
      assert forall k :: i + 1 < k < j + 1 ==> lines[k] == rest[k - 1];
      assert IsSetBy(lines, path, i + 1, j + 1);
    }
    if HasSettingInFirst(lines, path) {
      var j: nat :| j < |rest| && IsSetAtTop(rest, j);
      assert forall k :: 0 < k < j + 1 ==> lines[k] == rest[k - 1];
      assert IsSetBy(lines, path, 0, j + 1);
    }
    if i: nat, j: nat :| i < |lines| && j < |lines| && IsSetBy(lines, path, i, j) {
      if i > 0 {
        assert IsSetBy(rest, path, i - 1, j - 1);
      } else {
        assert IsSetAtTop(rest, j - 1);
      }
    }
  }

  lemma TopBehindFirst(lines: seq<string>)
    requires lines != []
    ensures HasSettingAtTop(lines)
       <==> !IsHeader(lines[0]) && (Classify(lines[0]) == Indented(true) || HasSettingAtTop(lines[1..]))
  {
    var rest := lines[1..];
    if Classify(lines[0]) == Indented(true) {
      assert IsSetAtTop(lines, 0);
    }
    if j: nat :| j < |rest| && IsSetAtTop(rest, j) {
      if !IsHeader(lines[0]) {
        assert forall k :: 0 < k < j + 1 ==> lines[k] == rest[k - 1];
        assert IsSetAtTop(lines, j + 1);
      }
    }
    if j: nat :| j < |lines| && IsSetAtTop(lines, j) {
      if j > 0 {
        assert IsSetAtTop(rest, j - 1);
      }
    }
  }

  /** The scan finds a setting of the section it is in or of a later one that matches. */
  lemma {:induction false} ScanFindsSettings(lines: seq<string>, path: string, matches: bool)
    ensures Scan(lines, path, matches) <==> (matches && HasSettingAtTop(lines)) || HasSetting(lines, path)
    decreases |lines|
  {
    if lines != [] {
      SettingsBehindFirst(lines, path);
      match Classify(lines[0])
      case Skipped => ScanFindsSettings(lines[1..], path, matches);
      case Header(pattern) => ScanFindsSettings(lines[1..], path, PatternAccepts(pattern, path));
      case Indented(_) => ScanFindsSettings(lines[1..], path, matches);
    }
  }

  lemma CoversIsScan(content: string, path: string)
    ensures Covers(content, path) <==> Scan(Split(content, '\n'), path, false)
  {
    ScanFindsSettings(Split(content, '\n'), path, false);
  }

  method HeadersFileHasCacheControlForPath(content: string, path: string) returns (found: bool)
    ensures found == Covers(content, path)
  {
    var matchesCurrentSection := false;
    var lines := Split(content, '\n');
    ghost var covered := Scan(lines, path, false);
    assert Covers(content, path) == covered by {
      CoversIsScan(content, path);
    }
    for i := 0 to |lines|
      invariant Scan(lines[i..], path, matchesCurrentSection) == covered
    {
      assert lines[i..][1..] == lines[i + 1..];
      var rawLine := lines[i];
      var trimmed := Trim(rawLine);
      if trimmed == "" || StartsWith(trimmed, "#") {
        continue;
      }
      var isSectionHeader := !(rawLine != "" && IsSpace(rawLine[0]));
      if isSectionHeader {
        var regex := CfHeadersPatternToRegex(PathOnly(trimmed));
        matchesCurrentSection := regex.Some? && Test(regex.value, path);
      } else if matchesCurrentSection && IsCacheControlLine(rawLine) {
        return true;
      }
    }
    return false;
  }

  // ----- injection -----

  const CACHE_VALUE: string := ": public, " + "max-age=31536000" + ", immutable"
  const CACHE_LINE: string := "  " + ("Cache-Control" + CACHE_VALUE)

  function AssetsPattern(basePrefix: string, assetsDir: string): string {
    basePrefix + "/" + assetsDir + "/*"
  }

  function ProbePath(basePrefix: string, assetsDir: string): string {
    basePrefix + "/" + assetsDir + "/probe"
  }

  function NormalizedExisting(existing: string): string {
    if existing != "" && !EndsWith(existing, "\n") then existing + "\n" else existing
  }

  function Injected(pattern: string, existing: string): string {
    var cacheBlock := pattern + "\n" + CACHE_LINE + "\n";
    var normalized := NormalizedExisting(existing);
    if normalized != "" then cacheBlock + "\n" + normalized else cacheBlock
  }

  lemma LastLineEnded(existing: string)
    requires existing != ""
    ensures NormalizedExisting(existing) == existing + if existing[|existing| - 1] == '\n' then "" else "\n"
  {
    assert existing[|existing| - 1..] == [existing[|existing| - 1]];
    assert existing + "" == existing;
  }

  /** The rule in front, then, behind an empty line, the old content with its last line ended. */
  lemma InjectedText(pattern: string, existing: string)
    ensures
      var rule := pattern + "\n" + ("  " + ("Cache-Control" + (": public, " + "max-age=31536000" + ", immutable"))) + "\n";
      Injected(pattern, existing)
      == if existing == "" then rule else rule + "\n" + (existing + if existing[|existing| - 1] == '\n' then "" else "\n")
  {
    if existing != "" {
      LastLineEnded(existing);
    }
  }

  /** The new content, or nothing when the existing file already covers the assets. */
  method BuildAssetsHeadersContent(basePrefix: string, assetsDir: string,
          existing: string) returns (content: Option<string>)
    ensures content.None? <==> Covers(existing, ProbePath(basePrefix, assetsDir))
    ensures content.Some? ==> content.value == Injected(AssetsPattern(basePrefix, assetsDir), existing)
  {
    var assetsPattern := basePrefix + "/" + assetsDir + "/*";
    var probePath := basePrefix + "/" + assetsDir + "/probe";
    var covered := HeadersFileHasCacheControlForPath(existing, probePath);
    if covered {
      return None;
    }
    var cacheBlock := assetsPattern + "\n" + CACHE_LINE + "\n";
    var normalizedExisting := if existing != "" && !EndsWith(existing, "\n") then existing + "\n" else existing;
    return Some(if normalizedExisting != "" then cacheBlock + "\n" + normalizedExisting else cacheBlock);
  }

  /** A line of the file that the scanner takes for a section header with exactly this pattern. */
  predicate IsPatternLine(pattern: string) {
    pattern != "" && pattern[0] == '/' && !IsSpace(pattern[|pattern| - 1]) && '\n' !in pattern
  }

  lemma PatternLineIsHeader(pattern: string)
    requires IsPatternLine(pattern)
    ensures Classify(pattern) == Header(pattern)
  {
    assert Trim(pattern) == pattern;
    assert !StartsWith(pattern, "https://") && !StartsWith(pattern, "http://");
  }

  lemma TwoSpaces(line: string, rest: string)
    requires line == "  " + rest && rest != "" && !IsSpace(rest[0])
    ensures TrimStart(line) == rest
  {
    var once := " " + rest;
    assert line[1..] == once && once[1..] == rest;
    assert TrimStart(rest) == rest;
    assert TrimStart(once) == TrimStart(rest);
    assert TrimStart(line) == TrimStart(once);
  }

  lemma NameMatches(rest: string, name: string, after: string)
    requires rest == name + after && name == "Cache-Control"
    ensures StartsWithIgnoringCase(rest, CACHE_CONTROL)
  {
    assert rest[..13] == name;
    assert forall i :: 0 <= i < 13 ==> rest[i] == name[i];
    assert forall i :: 0 <= i < 13 ==> Lower(name[i]) == CACHE_CONTROL[i];
  }

  lemma CacheLineSets(line: string, rest: string, after: string)
    requires line == "  " + rest && rest == "Cache-Control" + after && after != "" && after[0] == ':'
    ensures IsCacheControlLine(line)
  {
    assert rest[0] == 'C';
    TwoSpaces(line, rest);
    NameMatches(rest, "Cache-Control", after);
    assert |CACHE_CONTROL| == 13 && rest[13..] == after;
    assert TrimStart(after) == after;
  }

  lemma CacheLineCounts(line: string, rest: string)
    requires line == "  " + rest && rest != "" && !IsSpace(rest[0]) && rest[0] != '#' && IsCacheControlLine(line)
    ensures Classify(line) == Indented(true)
  {
    TwoSpaces(line, rest);
    TrimEndKeepsFirst(rest);
    assert line[0] == ' ';
  }

  lemma {:induction false} TrimEndKeepsFirst(s: string)
    requires s != "" && !IsSpace(s[0])
    ensures TrimEnd(s) != "" && TrimEnd(s)[0] == s[0]
  {
    if IsSpace(s[|s| - 1]) {
      TrimEndKeepsFirst(s[..|s| - 1]);
    }
  }

  lemma {:induction false} TrailingBlank(lines: seq<string>, path: string, matches: bool)
    ensures Scan(lines + [""], path, matches) == Scan(lines, path, matches)
  {
    if lines == [] {
      assert lines + [""] == [""] && [""][1..] == [];
    } else {
      assert (lines + [""])[1..] == lines[1..] + [""];
      match Classify(lines[0])
      case Skipped => TrailingBlank(lines[1..], path, matches);
      case Header(pattern) => TrailingBlank(lines[1..], path, PatternAccepts(pattern, path));
      case Indented(_) => TrailingBlank(lines[1..], path, matches);
    }
  }

  lemma NormalizedSaysTheSame(existing: string, path: string)
    ensures Covers(NormalizedExisting(existing), path) == Covers(existing, path)
  {
    CoversIsScan(existing, path);
    CoversIsScan(NormalizedExisting(existing), path);
    if existing != "" && !EndsWith(existing, "\n") {
      SplitConcat(existing, '\n', "");
      assert existing + ['\n'] + "" == existing + "\n";
      TrailingBlank(Split(existing, '\n'), path, false);
    }
  }

  lemma LinesOfInjected(pattern: string, existing: string)
    requires '\n' !in pattern
    ensures
      var rest := if existing == "" then [""] else [""] + Split(NormalizedExisting(existing), '\n');
      Split(Injected(pattern, existing), '\n') == [pattern, CACHE_LINE] + rest
  {
    CacheLineIsOneLine();
    LinesOfBlock(pattern, CACHE_LINE, NormalizedExisting(existing));
  }

  lemma FirstLine(line: string, more: string)
    requires '\n' !in line
    ensures Split(line + ("\n" + more), '\n') == [line] + Split(more, '\n')
  {
    SplitNoSeparator(line, '\n');
    SplitConcat(line, '\n', more);
    assert line + ['\n'] + more == line + ("\n" + more);
  }

  lemma LinesOfBlock(pattern: string, cacheLine: string, normalized: string)
    requires '\n' !in pattern && '\n' !in cacheLine
    ensures
      var block := pattern + "\n" + cacheLine + "\n";
      Split(if normalized != "" then block + "\n" + normalized else block, '\n')
      == [pattern, cacheLine] + (if normalized == "" then [""] else [""] + Split(normalized, '\n'))
  {
    var block := pattern + "\n" + cacheLine + "\n";
    if normalized != "" {
      LinesBefore(pattern, cacheLine, "\n" + normalized);
      Appended(block, normalized);
      FirstLine("", normalized);
      assert "" + ("\n" + normalized) == "\n" + normalized;
    } else {
      LinesBefore(pattern, cacheLine, "");
      assert block + "" == block;
    }
  }

  lemma LinesBefore(pattern: string, cacheLine: string, tail: string)
    requires '\n' !in pattern && '\n' !in cacheLine
    ensures Split(pattern + "\n" + cacheLine + "\n" + tail, '\n') == [pattern, cacheLine] + Split(tail, '\n')
  {
    FirstLine(pattern, cacheLine + ("\n" + tail));
    FirstLine(cacheLine, tail);
    Nested(pattern, cacheLine, tail);
  }

  lemma Nested(a: string, b: string, tail: string)
    ensures a + ("\n" + (b + ("\n" + tail))) == a + "\n" + b + "\n" + tail
  {
  }

  lemma Appended(block: string, more: string)
    ensures block + ("\n" + more) == block + "\n" + more
  {
  }

  lemma CacheLineIsOneLine()
    ensures '\n' !in CACHE_LINE
  {
  }

  lemma CacheLineIsIndented()
    ensures Classify(CACHE_LINE) == Indented(true)
  {
    CacheLineSets(CACHE_LINE, "Cache-Control" + CACHE_VALUE, CACHE_VALUE);
    CacheLineCounts(CACHE_LINE, "Cache-Control" + CACHE_VALUE);
  }

  /**
   Injection is a conservative extension: the new file covers a path exactly when the assets pattern
   matches it or the old file covered it.
   */
  lemma InjectionIsConservative(pattern: string, existing: string, path: string)
    requires IsPatternLine(pattern)
    ensures Covers(Injected(pattern, existing), path) <==> PatternAccepts(pattern, path) || Covers(existing, path)
  {
    CoversIsScan(Injected(pattern, existing), path);
    CoversIsScan(NormalizedExisting(existing), path);
    LinesOfInjected(pattern, existing);
    PatternLineIsHeader(pattern);
    CacheLineIsIndented();
    NormalizedSaysTheSame(existing, path);
    ScanAfterBlock(pattern, CACHE_LINE, if existing == "" then [] else Split(NormalizedExisting(existing), '\n'), path);
    assert Split("", '\n') == [""] && [""][1..] == [];
    assert [""] + [] == [""];
  }

  lemma ScanAfterBlock(pattern: string, cacheLine: string, rest: seq<string>, path: string)
    requires Classify(pattern) == Header(pattern) && Classify(cacheLine) == Indented(true)
    ensures Scan([pattern, cacheLine] + ([""] + rest), path, false) <==> PatternAccepts(pattern, path) || Scan(rest, path, false)
  {
    var blank := [""] + rest;
    assert blank[1..] == rest;
    assert forall m :: Scan(blank, path, m) == Scan(rest, path, m);
    var second := [cacheLine] + blank;
    assert second[1..] == blank;
    assert forall m :: Scan(second, path, m) == (m || Scan(rest, path, m));
    var lines := [pattern, cacheLine] + blank;
    assert lines[1..] == second;
  }

  /** A pattern that ends in `*` covers everything below its own literal text. */
  lemma {:induction false} PatternAcceptsItsFiles(prefix: string, name: string)
    requires OneLine(name)
    ensures PatternAccepts(prefix + "/*", prefix + "/" + name)
    decreases |prefix|
  {
    var pattern, path := prefix + "/*", prefix + "/" + name;
    var ts := PatternTokens(pattern);
    if prefix == "" {
      assert pattern == "/*" && pattern[1..] == "*" && "*"[1..] == "";
      assert PatternTokens("*") == [AnyPath] + PatternTokens("");
      assert ts == [Lit('/')] + [AnyPath];
      assert path[1..] == name && name[..|name|] == name && name[|name|..] == "";
      JoinAccepts([AnyPath], name, |name|, false);
    } else {
      assert pattern[0] == path[0] == prefix[0];
      assert pattern[1..] == prefix[1..] + "/*" && path[1..] == prefix[1..] + "/" + name;
      if prefix[0] == '*' {
        PatternAcceptsItsFiles(prefix[1..], name);
        assert path[..1] == "*";
        JoinAccepts(ts, path, 1, false);
      } else if prefix[0] == ':' && |pattern| > 1 && IsLetter(pattern[1]) {
        PlaceholderAcceptsItself(prefix, name);
      } else {
        PatternAcceptsItsFiles(prefix[1..], name);
      }
    }
  }

  lemma {:induction false} PlaceholderAcceptsItself(prefix: string, name: string)
    requires OneLine(name) && |prefix| > 1 && prefix[0] == ':' && IsLetter(prefix[1])
    ensures PatternAccepts(prefix + "/*", prefix + "/" + name)
    decreases |prefix|, 0
  {
    var rest, suffix := DropWord(prefix[1..]), "/" + name;
    PatternAcceptsItsFiles(rest, name);
    assert rest + "/" + name == rest + suffix && prefix + "/" + name == prefix + suffix;
    NamedStands(prefix, "/*", suffix);
  }

  lemma NamedStands(prefix: string, tail: string, suffix: string)
    requires |prefix| > 1 && prefix[0] == ':' && IsLetter(prefix[1]) && tail != "" && !IsWord(tail[0])
    requires PatternAccepts(DropWord(prefix[1..]) + tail, DropWord(prefix[1..]) + suffix)
    ensures PatternAccepts(prefix + tail, prefix + suffix)
  {
    var rest := DropWord(prefix[1..]);
    var k := |prefix| - |rest|;
    var pattern, path := prefix + tail, prefix + suffix;
    NameHasNoSlash(prefix, k);
    CutInside(prefix, suffix, k, path);
    assert PatternTokens(pattern) == [AnyName] + PatternTokens(rest + tail) by {
      WordAfterColon(prefix, tail, pattern);
      TokensOfNamed(pattern, rest + tail);
    }
    NameStands(PatternTokens(rest + tail), path, k);
  }

  lemma CutInside(s: string, tail: string, k: nat, whole: string)
    requires k <= |s| && whole == s + tail
    ensures whole[..k] == s[..k] && whole[k..] == s[k..] + tail
  {
  }

  lemma TokensOfNamed(pattern: string, rest: string)
    requires |pattern| > 1 && pattern[0] == ':' && IsLetter(pattern[1]) && DropWord(pattern[1..]) == rest
    ensures PatternTokens(pattern) == [AnyName] + PatternTokens(rest)
  {
  }

  lemma WordAfterColon(prefix: string, tail: string, pattern: string)
    requires prefix != "" && tail != "" && !IsWord(tail[0]) && pattern == prefix + tail
    ensures DropWord(pattern[1..]) == DropWord(prefix[1..]) + tail
  {
    assert pattern[1..] == prefix[1..] + tail;
    DropWordBeforeSlash(prefix[1..], tail);
  }

  lemma NameStands(ts: seq<Token>, path: string, k: nat)
    requires 0 < k <= |path| && '/' !in path[..k] && Accepts(ts, path[k..])
    ensures Accepts([AnyName] + ts, path)
  {
    assert ([AnyName] + ts)[1..] == ts;
    JoinAccepts([AnyName] + ts, path, k, false);
  }

  lemma NameHasNoSlash(prefix: string, k: nat)
    requires prefix != "" && prefix[0] == ':' && k == |prefix| - |DropWord(prefix[1..])|
    ensures 0 < k <= |prefix| && '/' !in prefix[..k] && prefix[k..] == DropWord(prefix[1..])
  {
    WordIn(prefix[1..], k - 1);
    assert prefix[..k] == [':'] + prefix[1..][..k - 1] && prefix[k..] == prefix[1..][k - 1..];
  }

  lemma {:induction false} WordIn(s: string, k: nat)
    requires k == |s| - |DropWord(s)|
    ensures '/' !in s[..k]
  {
    if k > 0 {
      WordIn(s[1..], k - 1);
      assert s[..k] == [s[0]] + s[1..][..k - 1];
    }
  }

  lemma {:induction false} DropWordBeforeSlash(s: string, tail: string)
    requires tail != "" && !IsWord(tail[0])
    ensures DropWord(s + tail) == DropWord(s) + tail
  {
    if s == "" {
      assert s + tail == tail;
    } else {
      assert (s + tail)[1..] == s[1..] + tail;
      DropWordBeforeSlash(s[1..], tail);
    }
  }

  /** The base is empty or starts with a slash, and nothing in it breaks the line. */
  predicate IsSite(basePrefix: string, assetsDir: string) {
    (basePrefix == "" || basePrefix[0] == '/') && '\n' !in basePrefix && '\n' !in assetsDir
  }

  lemma AssetsPatternIsLine(basePrefix: string, assetsDir: string)
    requires IsSite(basePrefix, assetsDir)
    ensures IsPatternLine(AssetsPattern(basePrefix, assetsDir))
  {
    var pattern := AssetsPattern(basePrefix, assetsDir);
    assert pattern == basePrefix + ("/" + assetsDir + "/*");
    assert pattern[0] == if basePrefix == "" then '/' else basePrefix[0];
    assert pattern[|pattern| - 1] == '*';
  }

  /** After injection every asset is covered; injecting again would find nothing to do. */
  lemma InjectedFileCoversAssets(basePrefix: string, assetsDir: string, existing: string, name: string)
    requires IsSite(basePrefix, assetsDir) && OneLine(name)
    ensures
      var content := Injected(AssetsPattern(basePrefix, assetsDir), existing);
      Covers(content, basePrefix + "/" + assetsDir + "/" + name) && Covers(content, ProbePath(basePrefix, assetsDir))
  {
    var pattern, dir := AssetsPattern(basePrefix, assetsDir), basePrefix + "/" + assetsDir;
    AssetsPatternIsLine(basePrefix, assetsDir);
    assert pattern == dir + "/*" && ProbePath(basePrefix, assetsDir) == dir + "/" + "probe";
    PatternAcceptsItsFiles(dir, name);
    PatternAcceptsItsFiles(dir, "probe");
    InjectionIsConservative(pattern, existing, dir + "/" + name);
    InjectionIsConservative(pattern, existing, dir + "/" + "probe");
  }

  /** Running the injection on its own output returns nothing. */
  method InjectTwice(basePrefix: string, assetsDir: string, existing: string) returns (again: Option<string>)
    requires IsSite(basePrefix, assetsDir)
    ensures again.None?
  {
    var once := BuildAssetsHeadersContent(basePrefix, assetsDir, existing);
    InjectedFileCoversAssets(basePrefix, assetsDir, existing, "");
    again := BuildAssetsHeadersContent(basePrefix, assetsDir, if once.Some? then once.value else existing);
  }
}
