/** Which lines are videos: the shapes of YouTube and Rumble addresses, without searching or splitting. */
module VideoLines {
  import opened Options
  import opened Blocks
  import opened Text
  import opened Markdown
  import opened MarkdownParser
  import opened RoundTrip
  import opened Reparse

  // ----- the shapes

  /** Equal to a text in lower case, but for the case of its letters. */
  predicate SameLetters(s: string, lower: string) {
    && |s| == |lower|
    && forall i :: 0 <= i < |s| ==>
         (s[i] == lower[i] && !('A' <= s[i] <= 'Z')) || ('A' <= s[i] <= 'Z' && lower[i] as int == s[i] as int + 32)
  }

  /** The host itself or one below it. */
  predicate Under(host: string, domain: string) {
    || SameLetters(host, domain)
    || (|domain| < |host| && SameLetters(host[|host| - |domain| - 1..], "." + domain))
  }

  /** The text is this, or goes on with c. */
  predicate Begins(s: string, start: string, c: char) {
    s == start || start + [c] <= s
  }

  predicate Letters(id: string) {
    forall c :: c in id ==> '0' <= c <= '9' || 'a' <= c <= 'z' || 'A' <= c <= 'Z'
  }

  predicate GoodId(id: string) {
    1 <= |id| <= 32
    && forall c :: c in id ==> '0' <= c <= '9' || 'a' <= c <= 'z' || 'A' <= c <= 'Z' || c == '-' || c == '_'
  }

  /** The first parameter v that has a value. */
  ghost predicate FirstV(pairs: seq<string>, id: string) {
    exists i :: 0 <= i < |pairs| && pairs[i] == "v=" + id && forall j :: 0 <= j < i ==> !SetsV(pairs[j])
  }

  predicate SetsV(pair: string) {
    "v=" <= pair && pair != "v="
  }

  /** After "watch" and up to the first question mark anything goes; the query must name the video. */
  ghost predicate WatchPath(path: string, id: string) {
    exists k :: 5 <= k < |path| && "watch" <= path && path[k] == '?' && '?' !in path[5..k]
                && FirstV(Split(path[k + 1..], '&'), id)
  }

  ghost predicate YoutubePath(path: string, id: string) {
    || WatchPath(path, id)
    || Begins(path, "shorts/" + id, '/') || Begins(path, "embed/" + id, '/')
    || Begins(path, "v/" + id, '/') || Begins(path, "live/" + id, '/')
  }

  predicate RumblePath(path: string, id: string) {
    || (id != "" && '0' <= id[0] <= '9' && Begins(path, "v" + id, '-'))
    || Begins(path, "embed/" + id, '/')
  }

  /** The video that a host and a path without trailing slashes name. */
  ghost predicate Names(host: string, path: string, provider: string, id: string) {
    || (provider == "youtube" && GoodId(id)
        && ((SameLetters(host, "youtu.be") && Begins(path, id, '?'))
            || (Under(host, "youtube.com") && YoutubePath(path, id))))
    || (provider == "rumble" && id != "" && Letters(id) && Under(host, "rumble.com") && RumblePath(path, id))
  }

  // ----- hosts

  lemma LowerIs(s: string, lower: string)
    requires forall c :: c in lower ==> !('A' <= c <= 'Z')
    ensures Lower(s) == lower <==> SameLetters(s, lower)
  {
    forall i | 0 <= i < |lower| ensures !('A' <= lower[i] <= 'Z') {
      assert lower[i] in lower;
    }
    if SameLetters(s, lower) {
      assert forall i :: 0 <= i < |s| ==> Lower(s)[i] == lower[i];
    }
    if Lower(s) == lower {
      forall i | 0 <= i < |s|
        ensures (s[i] == lower[i] && !('A' <= s[i] <= 'Z'))
                || ('A' <= s[i] <= 'Z' && lower[i] as int == s[i] as int + 32)
      {
        assert Lower(s)[i] == lower[i];
      }
    }
  }

  lemma LowerEnd(s: string, n: nat)
    requires n <= |s|
    ensures Lower(s)[|s| - n..] == Lower(s[|s| - n..])
  {
  }

  lemma UnderIs(host: string, domain: string)
    requires forall c :: c in domain ==> !('A' <= c <= 'Z')
    ensures Lower(host) == domain || EndsWith(Lower(host), "." + domain) <==> Under(host, domain)
  {
    hide Lower, SameLetters;
    LowerIs(host, domain);
    if |domain| < |host| {
      LowerEnd(host, |domain| + 1);
      LowerIs(host[|host| - |domain| - 1..], "." + domain);
    }
  }

  // ----- paths

  lemma BeforeFirstIs(s: string, c: char, id: string)
    requires c !in id
    ensures BeforeFirst(s, c) == id <==> Begins(s, id, c)
  {
    hide Split;
    var first := Split(s, c)[0];
    FirstPart(s, c);
    if Begins(s, id, c) && s != id {
      assert s == id + [c] + s[|id| + 1..];
      SplitCons(id, s[|id| + 1..], c);
    } else if s == id {
      SplitPlain(s, c);
    }
  }

  lemma {:induction false} FirstPart(s: string, c: char)
    ensures Begins(s, Split(s, c)[0], c)
  {
    if s != "" {
      FirstPart(s[1..], c);
      assert s == [s[0]] + s[1..];
      if s[0] == c { assert "" + [c] <= s; }
    }
  }

  lemma PairValue(pair: string, id: string)
    requires id != ""
    ensures var eq := Find(pair, '=');
            var k := if eq.Some? then pair[..eq.value] else pair;
            var v := if eq.Some? then pair[eq.value + 1..] else "";
            && (k == "v" && v == id <==> pair == "v=" + id)
            && (k == "v" && v != "" <==> SetsV(pair))
  {
    hide Find;
    if "v=" <= pair {
      FindAfter("v", '=', pair[2..]);
      assert "v" + ['='] + pair[2..] == pair;
    } else {
      var eq := Find(pair, '=');
      if eq.Some? { assert pair == pair[..eq.value] + "=" + pair[eq.value + 1..]; }
    }
  }

  lemma FirstVCons(pairs: seq<string>, id: string)
    requires pairs != []
    ensures FirstV(pairs, id) <==> pairs[0] == "v=" + id || (!SetsV(pairs[0]) && FirstV(pairs[1..], id))
  {
    hide SetsV;
    var rest := pairs[1..];
    if FirstV(pairs, id) && pairs[0] != "v=" + id {
      var i :| 0 <= i < |pairs| && pairs[i] == "v=" + id && forall j :: 0 <= j < i ==> !SetsV(pairs[j]);
      assert rest[i - 1] == "v=" + id && forall j :: 0 <= j < i - 1 ==> rest[j] == pairs[j + 1];
    }
    if !SetsV(pairs[0]) && FirstV(rest, id) {
      var i :| 0 <= i < |rest| && rest[i] == "v=" + id && forall j :: 0 <= j < i ==> !SetsV(rest[j]);
      assert pairs[i + 1] == "v=" + id && forall j :: 1 <= j < i + 1 ==> pairs[j] == rest[j - 1];
    }
  }

  lemma {:induction false} QueryIs(pairs: seq<string>, id: string)
    requires id != ""
    ensures QueryParam(pairs, "v") == Some(id) <==> FirstV(pairs, id)
  {
    hide FirstV, SetsV, Find;
    if pairs == [] {
      NoPairs(id);
    } else {
      PairValue(pairs[0], id);
      FirstVCons(pairs, id);
      QueryIs(pairs[1..], id);
    }
  }

  lemma NoPairs(id: string)
    ensures !FirstV([], id)
  {
  }

  lemma WatchMark(path: string, id: string) returns (k: nat)
    requires WatchPath(path, id)
    ensures 5 <= k < |path| && "watch" <= path && Find(path[5..], '?') == Some(k - 5)
    ensures FirstV(Split(path[k + 1..], '&'), id)
  {
    hide FirstV, Split, Find;
    k :| 5 <= k < |path| && "watch" <= path && path[k] == '?' && '?' !in path[5..k]
         && FirstV(Split(path[k + 1..], '&'), id);
    FindAfter(path[5..k], '?', path[k + 1..]);
    assert path[5..] == path[5..k] + ['?'] + path[k + 1..];
  }

  lemma MarkedPath(path: string, id: string, k: nat)
    requires 5 <= k < |path| && "watch" <= path && path[k] == '?' && '?' !in path[5..k]
    requires FirstV(Split(path[k + 1..], '&'), id)
    ensures WatchPath(path, id)
  {
  }

  lemma WatchIs(host: string, path: string, id: string)
    requires host != "youtu.be" && "watch" <= path && id != ""
    ensures YoutubeId(host, path) == Some(id) <==> WatchPath(path, id)
  {
    hide Find, Split, QueryParam, FirstV, WatchPath;
    var rest := path[5..];
    var mark := Find(rest, '?');
    EmptyQuery();
    if WatchPath(path, id) {
      var k := WatchMark(path, id);
      assert rest[k - 5 + 1..] == path[k + 1..];
      QueryIs(Split(path[k + 1..], '&'), id);
    }
    if mark.Some? && YoutubeId(host, path) == Some(id) {
      var k := mark.value + 5;
      assert path[5..k] == rest[..mark.value] && path[k + 1..] == rest[mark.value + 1..];
      QueryIs(Split(path[k + 1..], '&'), id);
      MarkedPath(path, id, k);
    }
  }

  lemma EmptyQuery()
    ensures QueryParam(Split("", '&'), "v") == None
  {
    assert Split("", '&') == [""] && Find("", '=') == None;
    assert [""][1..] == [];
  }

  lemma PrefixIs(path: string, prefix: string, id: string)
    requires '/' !in id
    ensures Begins(path, prefix + id, '/') ==> prefix <= path
    ensures prefix <= path ==> (BeforeFirst(path[|prefix|..], '/') == id <==> Begins(path, prefix + id, '/'))
  {
    hide BeforeFirst;
    if prefix <= path {
      var rest := path[|prefix|..];
      assert path == prefix + rest;
      BeforeFirstIs(rest, '/', id);
      if Begins(path, prefix + id, '/') && path != prefix + id {
        assert rest[..|id| + 1] == id + ['/'];
      }
    }
  }

  lemma YoutubeIs(host: string, path: string, id: string)
    requires host != "youtu.be" && GoodId(id)
    ensures YoutubeId(host, path) == Some(id) <==> YoutubePath(path, id)
  {
    hide BeforeFirst, Begins, WatchPath, GoodId;
    assert id != "" && '/' !in id by { IdHasNoMarks(id); }
    FirstLetters(path, id);
    PrefixIs(path, "shorts/", id);
    PrefixIs(path, "embed/", id);
    PrefixIs(path, "v/", id);
    PrefixIs(path, "live/", id);
    PrefixesTried(path);
    if "watch" <= path { WatchIs(host, path, id); }
  }

  lemma IdHasNoMarks(id: string)
    requires GoodId(id)
    ensures id != "" && '/' !in id && '?' !in id && '&' !in id
  {
  }

  lemma Head(start: string, path: string)
    requires start != "" && start <= path
    ensures path != "" && path[0] == start[0]
  {
  }

  /** At most one of the path's beginnings is there. */
  lemma FirstLetters(path: string, id: string)
    ensures WatchPath(path, id) ==> "watch" <= path
    ensures "watch" <= path ==>
              !("shorts/" <= path) && !("embed/" <= path) && !("v/" <= path) && !("live/" <= path)
    ensures "shorts/" <= path ==> !("embed/" <= path) && !("v/" <= path) && !("live/" <= path)
    ensures "embed/" <= path ==> !("v/" <= path) && !("live/" <= path)
    ensures "v/" <= path ==> !("live/" <= path)
  {
    hide FirstV, Split;
    if "watch" <= path { Head("watch", path); }
    if "shorts/" <= path { Head("shorts/", path); }
    if "embed/" <= path { Head("embed/", path); }
    if "v/" <= path { Head("v/", path); }
    if "live/" <= path { Head("live/", path); }
  }

  lemma PrefixTried(path: string, first: string, rest: seq<string>)
    ensures AfterFirstPrefix(path, [first] + rest)
         == if first <= path then Some(path[|first|..]) else AfterFirstPrefix(path, rest)
  {
    assert ([first] + rest)[1..] == rest;
  }

  lemma PrefixesTried(path: string)
    ensures AfterFirstPrefix(path, ["shorts/", "embed/", "v/", "live/"])
         == if "shorts/" <= path then Some(path[7..])
            else if "embed/" <= path then Some(path[6..])
            else if "v/" <= path then Some(path[2..])
            else if "live/" <= path then Some(path[5..]) else None
  {
    PrefixTried(path, "shorts/", ["embed/", "v/", "live/"]);
    PrefixTried(path, "embed/", ["v/", "live/"]);
    PrefixTried(path, "v/", ["live/"]);
    PrefixTried(path, "live/", []);
    hide AfterFirstPrefix;
    assert ["shorts/"] + ["embed/", "v/", "live/"] == ["shorts/", "embed/", "v/", "live/"];
    assert ["embed/"] + ["v/", "live/"] == ["embed/", "v/", "live/"];
    assert ["v/"] + ["live/"] == ["v/", "live/"];
    assert ["live/"] + [] == ["live/"];
    NoPrefixes(path);
  }

  lemma NoPrefixes(path: string)
    ensures AfterFirstPrefix(path, []) == None
  {
  }

  lemma WatchRumble(path: string, id: string)
    requires "v" <= path && id != "" && '-' !in id
    ensures BeforeFirst(path[1..], '-') == id <==> Begins(path, "v" + id, '-')
    ensures Begins(path, "v" + id, '-') ==> |path| > 1 && path[1] == id[0]
  {
    hide BeforeFirst;
    var rest := path[1..];
    assert path == "v" + rest;
    BeforeFirstIs(rest, '-', id);
    if Begins(path, "v" + id, '-') {
      assert ("v" + id)[1] == id[0];
      if path != "v" + id { assert rest[..|id| + 1] == id + ['-']; }
    }
  }

  lemma RumbleIs(path: string, id: string)
    requires id != "" && Letters(id)
    ensures RumbleId(path) == Some(id) <==> RumblePath(path, id)
  {
    hide BeforeFirst, Begins;
    assert '/' !in id && '-' !in id;
    PrefixIs(path, "embed/", id);
    if "embed/" <= path { Head("embed/", path); }
    if "v" <= path {
      Head("v", path);
      WatchRumble(path, id);
    } else {
      NotV(path, id);
    }
  }

  lemma NotV(path: string, id: string)
    ensures Begins(path, "v" + id, '-') ==> "v" <= path
  {
  }

  lemma ProvidersApart(host: string)
    ensures Under(host, "youtube.com") ==> !Under(host, "rumble.com")
    ensures SameLetters(host, "youtu.be") ==> !Under(host, "youtube.com") && !Under(host, "rumble.com")
  {
    if Under(host, "youtube.com") { YoutubeHost(host); }
    if Under(host, "rumble.com") { RumbleHost(host); }
  }

  lemma YoutubeHost(host: string)
    requires Under(host, "youtube.com")
    ensures |host| >= 11 && (host[|host| - 11] == 'y' || host[|host| - 11] == 'Y')
  {
    if |host| > 11 {
      var t := host[|host| - 12..];
      assert ".youtube.com" == "." + "youtube.com" && ".youtube.com"[1] == 'y';
      if SameLetters(t, ".youtube.com") { assert t[1] == host[|host| - 11]; }
    }
  }

  lemma RumbleHost(host: string)
    requires Under(host, "rumble.com")
    ensures |host| == 10 || (|host| >= 11 && host[|host| - 11] == '.')
  {
    if |host| > 10 {
      var t := host[|host| - 11..];
      assert ".rumble.com" == "." + "rumble.com" && ".rumble.com"[0] == '.';
      if SameLetters(t, ".rumble.com") { assert t[0] == host[|host| - 11]; }
    }
  }

  lemma GoodIdIs(id: string)
    ensures ValidVideoId(id) <==> GoodId(id)
    ensures (forall c :: c in id ==> IsAlphanumeric(c)) <==> Letters(id)
  {
  }

  lemma YoutubeNamed(host: string, path: string, id: string)
    ensures VideoAt(Lower(host), path) == Some(("youtube", id)) <==> Names(host, path, "youtube", id)
  {
    hide Lower, SameLetters, Under, BeforeFirst, YoutubePath, RumblePath, Begins, ValidVideoId, GoodId, EndsWith,
         RumbleId;
    var h := Lower(host);
    assert "." + "youtube.com" == ".youtube.com" && "." + "rumble.com" == ".rumble.com";
    LowerIs(host, "youtu.be");
    UnderIs(host, "youtube.com");
    ProvidersApart(host);
    GoodIdIs(id);
    if GoodId(id) {
      IdHasNoMarks(id);
      BeforeFirstIs(path, '?', id);
      if h != "youtu.be" { YoutubeIs(h, path, id); }
    }
  }

  lemma RumbleNamed(host: string, path: string, id: string)
    ensures VideoAt(Lower(host), path) == Some(("rumble", id)) <==> Names(host, path, "rumble", id)
  {
    hide Lower, SameLetters, Under, BeforeFirst, YoutubePath, RumblePath, Begins, ValidVideoId, GoodId, EndsWith,
         YoutubeId, RumbleId, IsAlphanumeric, Letters;
    var h := Lower(host);
    assert "." + "youtube.com" == ".youtube.com" && "." + "rumble.com" == ".rumble.com";
    LowerIs(host, "youtu.be");
    UnderIs(host, "youtube.com");
    UnderIs(host, "rumble.com");
    ProvidersApart(host);
    GoodIdIs(id);
    if id != "" && Letters(id) { RumbleIs(path, id); }
  }

  /** What the searches find is exactly what the shapes say. */
  lemma VideoAtIs(host: string, path: string, provider: string, id: string)
    ensures VideoAt(Lower(host), path) == Some((provider, id)) <==> Names(host, path, provider, id)
  {
    hide VideoAt, Lower;
    if provider == "youtube" {
      YoutubeNamed(host, path, id);
    } else if provider == "rumble" {
      RumbleNamed(host, path, id);
    }
  }

  // ----- addresses

  /** An address with a path, and the slashes at its end. */
  function Url(secure: bool, host: string, path: string, slashes: nat): string {
    (if secure then "https://" else "http://") + host + "/" + path + Repeat('/', slashes)
  }

  predicate Splits(host: string, path: string) {
    '/' !in host && (path == "" || path[|path| - 1] != '/')
  }

  lemma {:induction false} StripSlashes(path: string, n: nat)
    requires path == "" || path[|path| - 1] != '/'
    ensures StripTrailing(path + Repeat('/', n), '/') == path
  {
    var s := path + Repeat('/', n);
    if n == 0 {
      assert s == path;
    } else {
      StripSlashes(path, n - 1);
      assert s[|s| - 1] == '/';
      assert s[..|s| - 1] == path + Repeat('/', n - 1);
    }
  }

  lemma {:induction false} Unslash(raw: string) returns (path: string, n: nat)
    ensures (path == "" || path[|path| - 1] != '/') && raw == path + Repeat('/', n)
  {
    if raw != "" && raw[|raw| - 1] == '/' {
      path, n := Unslash(raw[..|raw| - 1]);
      n := n + 1;
      assert Repeat('/', n) == Repeat('/', n - 1) + "/";
    } else {
      path, n := raw, 0;
      assert raw + "" == raw;
    }
  }

  lemma UrlIs(secure: bool, host: string, path: string, slashes: nat)
    requires Splits(host, path)
    ensures VideoFromUrl(Url(secure, host, path, slashes)) == VideoAt(Lower(host), path)
  {
    hide VideoAt, Lower, Find, StripTrailing;
    var url := Url(secure, host, path, slashes);
    var raw := path + Repeat('/', slashes);
    var scheme := if secure then "https://" else "http://";
    assert url == scheme + (host + "/" + raw);
    var rest := host + ['/'] + raw;
    assert url[|scheme|..] == rest;
    assert !secure ==> url[4] == ':' && "https://"[4] == 's';
    FindAfter(host, '/', raw);
    assert rest[..|host|] == host && rest[|host| + 1..] == raw;
    StripSlashes(path, slashes);
  }

  lemma HostAlone(secure: bool, host: string)
    requires '/' !in host
    ensures VideoFromUrl((if secure then "https://" else "http://") + host) == None
  {
    hide VideoAt, Lower, Find;
    var scheme := if secure then "https://" else "http://";
    var url := scheme + host;
    assert url[|scheme|..] == host;
    assert !secure ==> url[4] == ':' && "https://"[4] == 's';
    assert StripTrailing("", '/') == "";
    EmptyPath(host);
  }

  lemma EmptyPath(host: string)
    ensures VideoAt(Lower(host), "") == None
  {
    hide VideoAt, Lower, SameLetters, Under;
    var v := VideoAt(Lower(host), "");
    if v.Some? { VideoAtIs(host, "", v.value.0, v.value.1); }
  }

  lemma SlashAfterHost(secure: bool, rest: string)
    requires VideoFromUrl((if secure then "https://" else "http://") + rest).Some?
    ensures Find(rest, '/').Some?
  {
    hide VideoFromUrl, Find;
    if '/' !in rest { HostAlone(secure, rest); }
  }

  /** Taking an address apart. */
  lemma UrlParts(url: string) returns (secure: bool, host: string, path: string, slashes: nat)
    requires VideoFromUrl(url).Some?
    ensures Splits(host, path) && url == Url(secure, host, path, slashes)
  {
    hide VideoAt, Lower, Find, StripTrailing, Repeat, Url;
    secure := "https://" <= url;
    var scheme := if secure then "https://" else "http://";
    var rest := url[|scheme|..];
    assert url == scheme + rest;
    SlashAfterHost(secure, rest);
    FindSplitAt(rest);
    var k := Find(rest, '/').value;
    host := rest[..k];
    path, slashes := Unslash(rest[k + 1..]);
    Assemble(secure, host, rest[k + 1..], path, slashes);
  }

  lemma Assemble(secure: bool, host: string, raw: string, path: string, slashes: nat)
    requires raw == path + Repeat('/', slashes)
    ensures (if secure then "https://" else "http://") + (host + ("/" + raw)) == Url(secure, host, path, slashes)
  {
    hide Repeat;
  }

  lemma FindSplitAt(rest: string)
    ensures var slash := Find(rest, '/');
            slash.Some? ==> rest == rest[..slash.value] + ("/" + rest[slash.value + 1..])
  {
  }

  // ----- lines

  /** A line that holds such an address becomes exactly that video. */
  lemma VideoLineParses(secure: bool, host: string, path: string, slashes: nat, provider: string, id: string,
                        html: Html)
    requires Splits(host, path) && Names(host, path, provider, id)
    requires var url := Url(secure, host, path, slashes); OneLine(url) && Trimmed(url)
    ensures var url := Url(secure, host, path, slashes);
            Parse(url, html) == [ParsedBlock(Video, Clip(provider, id, url, Metadata("", "", "", "")))]
  {
    hide VideoAt, Names, Lower, VideoFromUrl, Step, Lines;
    var url := Url(secure, host, path, slashes);
    UrlIs(secure, host, path, slashes);
    VideoAtIs(host, path, provider, id);
    assert url[0] == 'h';
    OneLineSource(url);
    StepVideo(provider, id, url, [], html);
    assert [url] + [] == [url];
    OneRound(url, html);
  }

  lemma OneRound(line: string, html: Html)
    requires Lines(line) == [line]
    ensures Parse(line, html) == Step([line], html).0
  {
    hide Step;
    var (bs, n) := Step([line], html);
    assert [line][n..] == [] && ParseLines([], html) == [];
    assert bs + [] == bs;
  }

  /** The address that a video line holds. */
  ghost predicate HoldsVideo(line: string) {
    exists secure, host, path, slashes: nat, provider, id ::
      line == Url(secure, host, path, slashes) && Splits(host, path) && Names(host, path, provider, id)
  }

  lemma VideosComeFromLines(lines: seq<string>, b: ParsedBlock)
    requires lines != [] && b in Step(lines, NoHtml()).0 && b.kind.Video?
    ensures ParseVideoLine(Trim(lines[0])).Some?
  {
    hide VideoFromUrl, Trim, IsHorizontalRule, ImageRun, ParseListMarker, StartsImage, Span, Collect, ItemsOf, QuotesOf;
  }

  /** A line without white space around it is a video exactly when it holds the address of one. */
  lemma VideoLineIff(line: string)
    requires OneLine(line) && Trimmed(line) && line != ""
    ensures (exists b :: b in Parse(line, NoHtml()) && b.kind.Video?) <==> HoldsVideo(line)
  {
    hide VideoFromUrl, Names, Lower, Lines, Step, Url, Splits, NoHtml;
    OneLineSource(line);
    if b :| b in Parse(line, NoHtml()) && b.kind.Video? {
      OneRound(line, NoHtml());
      VideosComeFromLines([line], b);
      assert Trim(line) == line;
      var secure, host, path, slashes := UrlParts(line);
      UrlIs(secure, host, path, slashes);
      VideoAtIs(host, path, VideoFromUrl(line).value.0, VideoFromUrl(line).value.1);
    }
    if HoldsVideo(line) {
      var secure, host, path, slashes: nat, provider, id :|
        line == Url(secure, host, path, slashes) && Splits(host, path) && Names(host, path, provider, id);
      VideoLineParses(secure, host, path, slashes, provider, id, NoHtml());
      assert Parse(line, NoHtml())[0].kind.Video?;
    }
  }

  /** The usual form: other parameters may stand before and behind the video's. */
  lemma WatchAddress(before: seq<string>, id: string, after: seq<string>)
    requires GoodId(id)
    requires forall p :: p in before ==> '&' !in p && !SetsV(p)
    requires forall p :: p in after ==> '&' !in p
    ensures WatchPath("watch?" + Join(before + ["v=" + id] + after, "&"), id)
  {
    hide Join, Split, SetsV;
    IdHasNoMarks(id);
    var pairs := before + ["v=" + id] + after;
    var path := "watch?" + Join(pairs, "&");
    SplitOfJoin(pairs, '&');
    assert "&" == ['&'];
    assert path[5] == '?' && path[5..5] == "" && path[6..] == Join(pairs, "&");
    assert pairs[|before|] == "v=" + id && forall j :: 0 <= j < |before| ==> pairs[j] in before;
  }
}
