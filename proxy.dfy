/** `removeDiscordProxy`: a thumbnail URL that points at one of Discord's image proxies
    is rewritten to the address of the original image. The two regular expressions are
    modelled by what they match: the leftmost position where the pattern matches, and
    the text its one capture group takes. */
module Proxy {
  import opened Wrappers
  import Text
  import Numbers
  import Uri

  const MediaHost: string := "media.discordapp.net"
  const ExternalMarker: string := "images-ext-"
  const MediaPrefix: string := "https://" + MediaHost + "/attachments/"
  const CdnPrefix: string := "https://cdn.discordapp.com/attachments/"
  const ExternalPrefix: string := "https://" + ExternalMarker
  const ExternalMiddle: string := ".discordapp.net/external/"

  /** The characters the regular-expression `.` does not match. */
  predicate IsLineTerminator(c: char) {
    c == '\n' || c == '\r' || c == '\U{2028}' || c == '\U{2029}'
  }

  predicate LineFree(s: string) {
    forall i :: 0 <= i < |s| ==> !IsLineTerminator(s[i])
  }

  /** What a greedy `.+` or `.*` takes: the longest prefix without a line terminator. */
  function LineRun(s: string): (r: string)
    ensures |r| <= |s| && r == s[..|r|] && LineFree(r)
    ensures |r| == |s| || IsLineTerminator(s[|r|])
  {
    if s == [] || IsLineTerminator(s[0]) then [] else [s[0]] + LineRun(s[1..])
  }

  /** What a greedy `[^\/]+` takes: the longest prefix without a `/`. */
  function NonSlashRun(s: string): (r: string)
    ensures |r| <= |s| && r == s[..|r|] && '/' !in r
    ensures |r| == |s| || s[|r|] == '/'
  {
    if s == [] || s[0] == '/' then [] else [s[0]] + NonSlashRun(s[1..])
  }

  datatype Pattern =
    | MediaAttachment  // https:\/\/media\.discordapp\.net\/attachments\/(.+)
    | ExternalImage    // https:\/\/images-ext-\d+\.discordapp\.net\/external\/[^\/]+\/(.+)

  /** The final `(.+)`: a non-empty run up to the first line terminator. */
  function Capture(r: string): (c: Option<string>)
    ensures c.Some? ==> c.value != [] && LineFree(c.value)
  {
    var c := LineRun(r);
    if c != [] then Some(c) else None
  }

  function MediaHere(s: string): Option<string> {
    if Text.StartsWith(s, MediaPrefix) then Capture(s[|MediaPrefix|..]) else None
  }

  /** `[^\/]+\/(.+)`. The `[^\/]+` run ends where a `/` must follow, so it is the
      longest one and backtracking never finds another split. */
  function AfterKey(v: string): Option<string> {
    var id := NonSlashRun(v);
    var w := v[|id|..];
    if id != [] && w != [] && w[0] == '/' then Capture(w[1..]) else None
  }

  function AfterMiddle(u: string): Option<string> {
    if Text.StartsWith(u, ExternalMiddle) then AfterKey(u[|ExternalMiddle|..]) else None
  }

  /** `\d+` then the rest; a `.` follows the digits, so the run is the longest one. */
  function AfterServer(t: string): Option<string> {
    var digits := Numbers.DigitPrefix(t, 10);
    if digits != [] then AfterMiddle(t[|digits|..]) else None
  }

  function ExternalHere(s: string): Option<string> {
    if Text.StartsWith(s, ExternalPrefix) then AfterServer(s[|ExternalPrefix|..]) else None
  }

  /** The capture of `p` when it matches at the very start of `s`. */
  function MatchHere(p: Pattern, s: string): Option<string> {
    match p
    case MediaAttachment => MediaHere(s)
    case ExternalImage => ExternalHere(s)
  }

  /** The first index at or after `i` where `m` finds a match. */
  function MatchFrom(m: string -> Option<string>, s: string, i: nat): (r: Option<nat>)
    requires i <= |s|
    decreases |s| - i
    ensures r.Some? ==> i <= r.value <= |s| && m(s[r.value..]).Some?
    ensures r.Some? ==> forall j :: i <= j < r.value ==> m(s[j..]).None?
    ensures r.None? ==> forall j :: i <= j <= |s| ==> m(s[j..]).None?
  {
    if m(s[i..]).Some? then Some(i)
    else if i == |s| then None
    else MatchFrom(m, s, i + 1)
  }

  /** `s.match(p)?.[1]`: the capture at the leftmost position where `p` matches. */
  function FirstCapture(p: Pattern, s: string): (r: Option<string>)
    ensures r.Some? ==> exists k :: 0 <= k <= |s| && MatchHere(p, s[k..]) == r
                          && forall j :: 0 <= j < k ==> MatchHere(p, s[j..]).None?
    ensures r.None? ==> forall j :: 0 <= j <= |s| ==> MatchHere(p, s[j..]).None?
  {
    match MatchFrom(x => MatchHere(p, x), s, 0)
    case None => None
    case Some(k) => MatchHere(p, s[k..])
  }

  /** `p` matches at no position of `s` before `k`. */
  predicate NoMatchBefore(p: Pattern, s: string, k: nat) {
    forall j :: 0 <= j < k && j <= |s| ==> MatchHere(p, s[j..]).None?
  }

  /** The address an external-image capture stands for: `http/` and `https/` (first
      occurrence each) get their second slash back, then the escapes are decoded. */
  function ExternalTarget(cap: string): Option<string> {
    var t := Text.ReplaceFirst(Text.ReplaceFirst(cap, "http/", "http://"), "https/", "https://");
    Uri.Decode(t)
  }

  /** `removeDiscordProxy(url)`. */
  function RemoveDiscordProxy(url: string): string {
    if url == [] then []
    else
      var media := FirstCapture(MediaAttachment, url);
      var external := FirstCapture(ExternalImage, url);
      if Text.Contains(url, MediaHost) && media.Some? then CdnPrefix + media.value
      else if Text.Contains(url, ExternalMarker) && external.Some? then
        match ExternalTarget(external.value)
        case Some(target) => target
        case None => url
      else url
  }

  // ----- lemmas -----

  /** An empty address stays empty. */
  lemma RemoveEmpty()
    ensures RemoveDiscordProxy([]) == []
  {
  }

  /** An address that names neither proxy is returned as it is. */
  lemma NoProxyUnchanged(url: string)
    requires !Text.Contains(url, MediaHost) && !Text.Contains(url, ExternalMarker)
    ensures RemoveDiscordProxy(url) == url
  {
  }

  /** An address that neither pattern matches is returned as it is, whichever host it
      names. */
  lemma NoMatchUnchanged(url: string)
    requires FirstCapture(MediaAttachment, url).None? && FirstCapture(ExternalImage, url).None?
    ensures RemoveDiscordProxy(url) == url
  {
  }

  lemma {:induction false} LineRunAll(s: string)
    requires LineFree(s)
    ensures LineRun(s) == s
    decreases |s|
  {
    if s != [] {
      LineRunAll(s[1..]);
    }
  }

  /** A text that starts with `a + q` contains `q`. */
  lemma StartsWithContains(s: string, a: string, q: string)
    requires Text.StartsWith(s, a + q)
    ensures Text.Contains(s, q)
  {
    assert (a + q)[|a|..] == q;
    assert s[|a|..|a| + |q|] == q;
    assert Text.OccursAt(s, q, |a|);
  }

  lemma StartsWithShorter(s: string, a: string, b: string)
    requires Text.StartsWith(s, a + b)
    ensures Text.StartsWith(s, a)
  {
    assert (a + b)[..|a|] == a;
  }

  /** A media-proxy attachment address is moved to the CDN host with its path kept. */
  lemma MediaRewrite(path: string)
    requires path != [] && LineFree(path)
    ensures RemoveDiscordProxy(MediaPrefix + path) == CdnPrefix + path
  {
    var url := MediaPrefix + path;
    assert Text.StartsWith(url, MediaPrefix);
    StartsWithShorter(url, "https://" + MediaHost, "/attachments/");
    StartsWithContains(url, "https://", MediaHost);
    assert url[|MediaPrefix|..] == path;
    LineRunAll(path);
    assert url[0..] == url;
    assert MatchHere(MediaAttachment, url[0..]) == Some(path);
  }

  /** The media rewrite only drops what precedes the leftmost position where the
      pattern matches and what follows a line break there: the result is the CDN prefix
      followed by text of the address. */
  lemma MediaRewriteShape(url: string)
    requires Text.Contains(url, MediaHost) && FirstCapture(MediaAttachment, url).Some?
    ensures exists k :: 0 <= k && k + |MediaPrefix| <= |url| && Text.StartsWith(url[k..], MediaPrefix)
              && RemoveDiscordProxy(url) == CdnPrefix + LineRun(url[k + |MediaPrefix|..])
              && NoMatchBefore(MediaAttachment, url, k)
  {
    var cap := FirstCapture(MediaAttachment, url);
    var k :| 0 <= k <= |url| && MatchHere(MediaAttachment, url[k..]) == cap
             && forall j :: 0 <= j < k ==> MatchHere(MediaAttachment, url[j..]).None?;
    assert NoMatchBefore(MediaAttachment, url, k);
    assert url[k..][|MediaPrefix|..] == url[k + |MediaPrefix|..];
  }

  predicate Lacks(s: string, c: char) {
    forall i :: 0 <= i < |s| ==> s[i] != c
  }

  lemma LacksNotIn(s: string, c: char)
    requires Lacks(s, c)
    ensures c !in s
  {
  }

  /** No `p` occurs in a text without the first character of `p`. */
  lemma AbsentFirstChar(s: string, p: string)
    requires p != [] && Lacks(s, p[0])
    ensures !Text.Contains(s, p)
  {
    forall j | 0 <= j <= |s|
      ensures !Text.OccursAt(s, p, j)
    {
      if j + |p| <= |s| {
        assert s[j..j + |p|][0] == s[j];
      }
    }
  }

  lemma NoHttpInHttps(x: string)
    requires !Text.Contains(x, "http/")
    ensures !Text.Contains("https/" + x, "http/")
  {
    var s := "https/" + x;
    assert forall k :: 0 <= k < 6 ==> s[k] == "https/"[k];
    forall j | 0 <= j <= |s|
      ensures !Text.OccursAt(s, "http/", j)
    {
      if j + 5 <= |s| {
        var w := s[j..j + 5];
        if j >= 6 {
          assert w == x[j - 6..j - 6 + 5];
          assert !Text.OccursAt(x, "http/", j - 6);
        } else if j == 0 {
          assert w[4] == 's';
        } else {
          assert w[0] == s[j] && s[j] != 'h';
        }
      }
    }
  }

  /** `https/` in front of an escape-free rest becomes `https://`. */
  lemma ExternalTargetHttps(x: string)
    requires !Text.Contains(x, "http/") && forall i :: 0 <= i < |x| ==> x[i] != '%'
    ensures ExternalTarget("https/" + x) == Some("https://" + x)
  {
    var cap := "https/" + x;
    NoHttpInHttps(x);
    assert Text.ReplaceFirst(cap, "http/", "http://") == cap;
    assert Text.OccursAt(cap, "https/", 0);
    Text.ReplaceFirstAt(cap, "https/", "https://", 0);
    assert cap[6..] == x;
    var t := "https://" + x;
    assert Text.ReplaceFirst(cap, "https/", "https://") == t;
    assert forall i :: 0 <= i < |t| ==> t[i] != '%' by {
      assert forall i :: 8 <= i < |t| ==> t[i] == x[i - 8];
    }
    Uri.DecodePlain(t);
  }

  /** A capture with neither scheme marker and no escape is its own target. */
  lemma ExternalTargetPlain(cap: string)
    requires !Text.Contains(cap, "http/") && !Text.Contains(cap, "https/")
    requires forall i :: 0 <= i < |cap| ==> cap[i] != '%'
    ensures ExternalTarget(cap) == Some(cap)
  {
    Uri.DecodePlain(cap);
  }

  /** The external-image proxy address with server `n`, key `id` and target `cap`. */
  function ExternalUrl(n: string, id: string, cap: string): string {
    ExternalPrefix + n + ExternalMiddle + id + "/" + cap
  }

  lemma {:induction false} DigitPrefixStops(d: string, y: string)
    requires Numbers.AllRadixDigits(d, 10) && y != [] && Numbers.DigitValue(y[0], 10).None?
    ensures Numbers.DigitPrefix(d + y, 10) == d
    decreases |d|
  {
    if d == [] {
      assert d + y == y;
    } else {
      assert (d + y)[1..] == d[1..] + y;
      DigitPrefixStops(d[1..], y);
    }
  }

  lemma {:induction false} NonSlashStops(id: string, y: string)
    requires '/' !in id && y != [] && y[0] == '/'
    ensures NonSlashRun(id + y) == id
    decreases |id|
  {
    if id == [] {
      assert id + y == y;
    } else {
      assert (id + y)[1..] == id[1..] + y;
      assert forall c :: c in id[1..] ==> c in id;
      NonSlashStops(id[1..], y);
    }
  }

  lemma AfterKeyOf(id: string, cap: string)
    requires id != [] && '/' !in id && cap != [] && LineFree(cap)
    ensures AfterKey(id + "/" + cap) == Some(cap)
  {
    var v := id + "/" + cap;
    assert v == id + ("/" + cap);
    NonSlashStops(id, "/" + cap);
    assert v[|id|..] == "/" + cap;
    assert ("/" + cap)[1..] == cap;
    LineRunAll(cap);
  }

  lemma ExternalMatch(n: string, id: string, cap: string)
    requires n != [] && Numbers.AllDigits(n) && id != [] && '/' !in id
    requires cap != [] && LineFree(cap)
    ensures MatchHere(ExternalImage, ExternalUrl(n, id, cap)) == Some(cap)
  {
    var u := ExternalMiddle + (id + "/" + cap);
    AfterMiddleOf(id, cap);
    assert u[0] == '.';
    AfterServerOf(n, u);
    ExternalHereOf(n + u);
    ExternalUrlParts(n, id, cap);
  }

  lemma ExternalUrlParts(n: string, id: string, cap: string)
    ensures ExternalUrl(n, id, cap) == ExternalPrefix + (n + (ExternalMiddle + (id + "/" + cap)))
  {
  }

  lemma ExternalHereOf(t: string)
    ensures ExternalHere(ExternalPrefix + t) == AfterServer(t)
  {
    assert (ExternalPrefix + t)[..|ExternalPrefix|] == ExternalPrefix;
    assert (ExternalPrefix + t)[|ExternalPrefix|..] == t;
  }

  lemma AfterMiddleOf(id: string, cap: string)
    requires id != [] && '/' !in id && cap != [] && LineFree(cap)
    ensures AfterMiddle(ExternalMiddle + (id + "/" + cap)) == Some(cap)
  {
    var u := ExternalMiddle + (id + "/" + cap);
    assert u[|ExternalMiddle|..] == id + "/" + cap;
    AfterKeyOf(id, cap);
  }

  lemma AfterServerOf(n: string, u: string)
    requires n != [] && Numbers.AllDigits(n) && u != [] && u[0] == '.'
    ensures AfterServer(n + u) == AfterMiddle(u)
  {
    Numbers.DigitsAreRadixDigits(n);
    DigitPrefixStops(n, u);
    assert (n + u)[|n|..] == u;
  }

  /** There is no media-proxy match in a text whose only `:` is at index 5 and whose
      index 8 is not the `m` of `media`. */
  lemma NoMediaMatch(s: string)
    requires |s| > 8 && s[5] == ':' && s[8] != 'm'
    requires forall i :: 0 <= i < |s| && s[i] == ':' ==> i == 5
    ensures FirstCapture(MediaAttachment, s).None?
  {
    assert MediaPrefix[5] == ':' && MediaPrefix[8] == 'm';
    forall k | 0 <= k <= |s|
      ensures MatchHere(MediaAttachment, s[k..]).None?
    {
      if k + |MediaPrefix| <= |s| {
        if k == 0 {
          assert s[k..][8] != MediaPrefix[8];
        } else {
          assert s[k..][5] != MediaPrefix[5];
        }
      }
    }
  }

  lemma ExternalUrlColon(n: string, id: string, cap: string)
    requires ':' !in n && ':' !in id && ':' !in cap
    ensures var url := ExternalUrl(n, id, cap);
            |url| > 8 && url[5] == ':' && url[8] == 'i'
            && forall i :: 0 <= i < |url| && url[i] == ':' ==> i == 5
  {
    var url := ExternalUrl(n, id, cap);
    var rest := n + ExternalMiddle + id + "/" + cap;
    assert url == ExternalPrefix + rest;
    assert ':' !in ExternalMiddle;
    assert ':' !in rest;
    forall i | 0 <= i < |url|
      ensures url[i] == ':' ==> i == 5
    {
      if i >= |ExternalPrefix| {
        assert url[i] == rest[i - |ExternalPrefix|];
      } else {
        assert url[i] == ExternalPrefix[i];
      }
    }
  }

  /** A pattern that matches at the start is matched there. */
  lemma FirstCaptureAtStart(p: Pattern, s: string)
    requires MatchHere(p, s).Some?
    ensures FirstCapture(p, s) == MatchHere(p, s)
  {
    assert s[0..] == s;
  }

  /** Without a media-proxy match, a matching external-image address goes to the
      decoded target of its capture, or stays as it is when decoding fails. */
  lemma RemoveExternal(url: string, cap: string)
    requires url != [] && FirstCapture(MediaAttachment, url).None?
    requires Text.Contains(url, ExternalMarker) && FirstCapture(ExternalImage, url) == Some(cap)
    ensures RemoveDiscordProxy(url) == ExternalTarget(cap).GetOr(url)
  {
  }

  lemma DigitsNoColon(n: string)
    requires Numbers.AllDigits(n)
    ensures ':' !in n
  {
    assert forall i :: 0 <= i < |n| ==> n[i] != ':';
  }

  /** Where `:` appears only in the scheme, an external-image proxy address has no
      media-proxy match. */
  lemma ExternalNoMedia(n: string, id: string, cap: string)
    requires Numbers.AllDigits(n) && ':' !in id && ':' !in cap
    ensures FirstCapture(MediaAttachment, ExternalUrl(n, id, cap)).None?
  {
    DigitsNoColon(n);
    ExternalUrlColon(n, id, cap);
    NoMediaMatch(ExternalUrl(n, id, cap));
  }

  /** An external-image proxy address with no media-proxy match in it is replaced by
      the target its capture stands for, when that capture decodes. */
  lemma ExternalRewrite(n: string, id: string, cap: string, target: string)
    requires n != [] && Numbers.AllDigits(n) && id != [] && '/' !in id
    requires cap != [] && LineFree(cap)
    requires FirstCapture(MediaAttachment, ExternalUrl(n, id, cap)).None?
    requires ExternalTarget(cap) == Some(target)
    ensures RemoveDiscordProxy(ExternalUrl(n, id, cap)) == target
  {
    var url := ExternalUrl(n, id, cap);
    ExternalMatch(n, id, cap);
    FirstCaptureAtStart(ExternalImage, url);
    assert Text.StartsWith(url, ExternalPrefix);
    StartsWithContains(url, "https://", ExternalMarker);
    RemoveExternal(url, cap);
  }

  /** Text that can stand in a wrapped address without being touched on the way out:
      no line break, no `h` (so no scheme marker), no `:` and no escape. */
  predicate Plain(s: string) {
    LineFree(s) && Lacks(s, 'h') && Lacks(s, ':') && Lacks(s, '%')
  }

  lemma PlainConcat(a: string, b: string)
    requires Plain(a) && Plain(b)
    ensures Plain(a + b)
  {
    assert forall i :: |a| <= i < |a + b| ==> (a + b)[i] == b[i - |a|];
  }

  lemma PlainDigits(n: string)
    requires Numbers.AllDigits(n)
    ensures Plain(n)
  {
  }

  lemma PlainConstants()
    ensures Plain(ExternalMarker) && Plain(ExternalMiddle) && Plain("/")
  {
  }

  lemma SchemeCap(x: string)
    requires Plain(x)
    ensures LineFree("https/" + x) && ':' !in "https/" + x
  {
    var cap := "https/" + x;
    assert forall i :: 6 <= i < |cap| ==> cap[i] == x[i - 6];
    assert Lacks(cap, ':');
  }

  /** The rewrite is not idempotent: an external-image address that wraps another
      external-image address is unwrapped once per application, so a second
      application changes the result of the first. */
  lemma NotIdempotent(n: string, id: string, c: string)
    requires n != [] && Numbers.AllDigits(n)
    requires id != [] && '/' !in id && Plain(id)
    requires c != [] && Plain(c)
    ensures var inner := ExternalUrl(n, id, c);
            var url := ExternalUrl(n, id, "https/" + inner[8..]);
            RemoveDiscordProxy(url) == inner
            && RemoveDiscordProxy(RemoveDiscordProxy(url)) == c != inner
  {
    var inner := ExternalUrl(n, id, c);
    var x := ExternalMarker + n + ExternalMiddle + id + "/" + c;
    assert inner == "https://" + x;
    assert inner[8..] == x;
    PlainConstants();
    PlainDigits(n);
    PlainConcat(ExternalMarker, n);
    PlainConcat(ExternalMarker + n, ExternalMiddle);
    PlainConcat(ExternalMarker + n + ExternalMiddle, id);
    PlainConcat(ExternalMarker + n + ExternalMiddle + id, "/");
    PlainConcat(ExternalMarker + n + ExternalMiddle + id + "/", c);
    AbsentFirstChar(x, "http/");
    ExternalTargetHttps(x);
    var cap := "https/" + x;
    SchemeCap(x);
    LacksNotIn(id, ':');
    LacksNotIn(c, ':');
    ExternalNoMedia(n, id, cap);
    ExternalRewrite(n, id, cap, inner);
    AbsentFirstChar(c, "http/");
    AbsentFirstChar(c, "https/");
    ExternalTargetPlain(c);
    ExternalNoMedia(n, id, c);
    ExternalRewrite(n, id, c, c);
  }
}
