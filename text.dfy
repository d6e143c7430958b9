/** String operations the scraper borrows from JavaScript's `String.prototype`:
    `trim`, the white-space collapse `replace(/\s+/g, ' ')`, `includes`, `replace`
    with a string pattern (first occurrence only), `split(..)[0]`, `split(..).pop()`
    and `toLowerCase` (ASCII letters only). */
module Text {
  import opened Wrappers

  /** The ECMAScript WhiteSpace and LineTerminator code points: exactly the characters
      `trim` removes and the regular-expression class `\s` matches. */
  predicate IsWhite(c: char) {
    var n := c as int;
    n == 0x09 || n == 0x0A || n == 0x0B || n == 0x0C || n == 0x0D || n == 0x20
    || n == 0xA0 || n == 0x1680 || (0x2000 <= n <= 0x200A) || n == 0x2028 || n == 0x2029
    || n == 0x202F || n == 0x205F || n == 0x3000 || n == 0xFEFF
  }

  predicate NoWhite(s: string) {
    forall i :: 0 <= i < |s| ==> !IsWhite(s[i])
  }

  predicate AllWhite(s: string) {
    forall i :: 0 <= i < |s| ==> IsWhite(s[i])
  }

  /** `s` with its leading white space removed. */
  function DropWhite(s: string): (r: string)
    ensures |r| <= |s| && r == s[|s| - |r|..]
    ensures AllWhite(s[..|s| - |r|])
    ensures r == [] || !IsWhite(r[0])
  {
    if s != [] && IsWhite(s[0]) then
      var r := DropWhite(s[1..]);
      DropOneWhite(s, r);
      r
    else s
  }

  /** One more white-space character in front of what `DropWhite(s[1..])` leaves. */
  lemma DropOneWhite(s: string, r: string)
    requires s != [] && IsWhite(s[0])
    requires |r| <= |s| - 1 && r == s[1..][|s| - 1 - |r|..] && AllWhite(s[1..][..|s| - 1 - |r|])
    ensures r == s[|s| - |r|..] && AllWhite(s[..|s| - |r|])
  {
    assert s[..|s| - |r|] == [s[0]] + s[1..][..|s| - 1 - |r|];
  }

  /** `s` with its trailing white space removed. */
  function TrimEnd(s: string): (r: string)
    ensures |r| <= |s| && r == s[..|r|]
    ensures AllWhite(s[|r|..])
    ensures r == [] || !IsWhite(r[|r| - 1])
  {
    if s != [] && IsWhite(s[|s| - 1]) then
      var r := TrimEnd(s[..|s| - 1]);
      assert s[|r|..] == s[..|s| - 1][|r|..] + [s[|s| - 1]];
      r
    else s
  }

  /** `String.prototype.trim`: `s` without its leading and its trailing white space
      (`TrimShape` states what is left). */
  function Trim(s: string): string {
    TrimEnd(DropWhite(s))
  }

  /** What `trim` leaves is the part of `s` between a white prefix and a white suffix,
      and it neither starts nor ends with white space. */
  lemma TrimShape(s: string) returns (k: nat, t: string)
    ensures t == Trim(s)
    ensures k + |t| <= |s| && t == s[k..k + |t|]
    ensures AllWhite(s[..k]) && AllWhite(s[k + |t|..])
    ensures t == [] || (!IsWhite(t[0]) && !IsWhite(t[|t| - 1]))
  {
    var d := DropWhite(s);
    t := TrimEnd(d);
    k := TrimParts(s, d, t);
  }

  /** `r` is a white-free-ended part of `d`, and `d` a white-prefixed suffix of `s`. */
  lemma TrimParts(s: string, d: string, r: string) returns (k: nat)
    requires |d| <= |s| && d == s[|s| - |d|..] && AllWhite(s[..|s| - |d|])
    requires d == [] || !IsWhite(d[0])
    requires |r| <= |d| && r == d[..|r|] && AllWhite(d[|r|..])
    requires r == [] || !IsWhite(r[|r| - 1])
    ensures k + |r| <= |s| && r == s[k..k + |r|]
    ensures AllWhite(s[..k]) && AllWhite(s[k + |r|..])
    ensures r == [] || (!IsWhite(r[0]) && !IsWhite(r[|r| - 1]))
  {
    k := |s| - |d|;
    assert r == s[k..k + |r|];
    assert s[k + |r|..] == d[|r|..];
    assert r != [] ==> r[0] == d[0];
  }


  /** A string with no white space at either end is its own `trim`. */
  lemma TrimClean(s: string)
    requires s == [] || (!IsWhite(s[0]) && !IsWhite(s[|s| - 1]))
    ensures Trim(s) == s
  {
  }

  /** `s.replace(/\s+/g, ' ')`: every maximal run of white space becomes one space. */
  function CollapseRuns(s: string): string
    decreases |s|
  {
    if s == [] then []
    else if IsWhite(s[0]) then " " + CollapseRuns(DropWhite(s))
    else [s[0]] + CollapseRuns(s[1..])
  }

  /** The message-content normalisation `text.trim().replace(/\s+/g, ' ')`. */
  function NormalizeSpaces(s: string): string {
    CollapseRuns(Trim(s))
  }

  /** The longest prefix of `s` without white space. */
  function TakeWord(s: string): (w: string)
    ensures |w| <= |s| && w == s[..|w|] && NoWhite(w)
    ensures |w| == |s| || IsWhite(s[|w|])
  {
    if s == [] || IsWhite(s[0]) then [] else [s[0]] + TakeWord(s[1..])
  }

  /** The white-space separated words of `s`, in order (a reference definition). */
  function Words(s: string): seq<string>
    decreases |s|
  {
    var t := DropWhite(s);
    if t == [] then []
    else
      var w := TakeWord(t);
      assert w != [] by {
        assert w == [t[0]] + TakeWord(t[1..]);
      }
      [w] + Words(t[|w|..])
  }

  /** The words joined with single spaces. */
  function JoinWords(ws: seq<string>): string {
    if ws == [] then ""
    else if |ws| == 1 then ws[0]
    else ws[0] + " " + JoinWords(ws[1..])
  }

  predicate ProperWords(ws: seq<string>) {
    forall i :: 0 <= i < |ws| ==> ws[i] != [] && NoWhite(ws[i])
  }

  /** No white space at either end, and every white-space character is one space
      standing between two characters that are not white space. */
  predicate SingleSpaced(r: string) {
    && (r == [] || (!IsWhite(r[0]) && !IsWhite(r[|r| - 1])))
    && forall i :: 0 <= i < |r| ==>
         (IsWhite(r[i]) ==> r[i] == ' ' && 0 < i < |r| - 1 && !IsWhite(r[i - 1]) && !IsWhite(r[i + 1]))
  }

  /** Every word is non-empty and holds no white space. */
  lemma {:induction false} WordsProper(s: string)
    ensures ProperWords(Words(s))
    decreases |s|
  {
    var t := DropWhite(s);
    if t != [] {
      var w := TakeWord(t);
      assert w != [] by {
        assert w == [t[0]] + TakeWord(t[1..]);
      }
      var rest := Words(t[|w|..]);
      WordsProper(t[|w|..]);
      assert Words(s) == [w] + rest;
      forall i | 0 <= i < |[w] + rest|
        ensures ([w] + rest)[i] != [] && NoWhite(([w] + rest)[i])
      {
        if i > 0 {
          assert ([w] + rest)[i] == rest[i - 1];
        }
      }
    }
  }

  lemma WordsDropWhite(s: string)
    ensures Words(s) == Words(DropWhite(s))
  {
    var t := DropWhite(s);
    assert DropWhite(t) == t;
  }

  lemma {:induction false} DropWhiteAfterWhite(r: string, v: string)
    requires AllWhite(r) && (v == [] || !IsWhite(v[0]))
    ensures DropWhite(r + v) == v
    decreases |r|
  {
    if r == [] {
      assert r + v == v;
    } else {
      assert (r + v)[1..] == r[1..] + v;
      DropWhiteAfterWhite(r[1..], v);
    }
  }

  lemma {:induction false} TrimEndKeep(a: string, b: string)
    requires !AllWhite(b)
    ensures TrimEnd(a + b) == a + TrimEnd(b)
    decreases |b|
  {
    var n := |b|;
    LastParts(a, b);
    if IsWhite(b[n - 1]) {
      var i :| 0 <= i < n && !IsWhite(b[i]);
      assert b[..n - 1][i] == b[i];
      TrimEndKeep(a, b[..n - 1]);
    }
  }

  /** `a + b` ends with the last character of `b`, after `a + b[..|b| - 1]`. */
  lemma LastParts(a: string, b: string)
    requires b != []
    ensures (a + b)[|a + b| - 1] == b[|b| - 1] && (a + b)[..|a + b| - 1] == a + b[..|b| - 1]
  {
  }

  lemma {:induction false} TrimEndWhiteSuffix(a: string, b: string)
    requires AllWhite(b) && (a == [] || !IsWhite(a[|a| - 1]))
    ensures TrimEnd(a + b) == a
    decreases |b|
  {
    if b == [] {
      assert a + b == a;
    } else {
      LastParts(a, b);
      TrimEndWhiteSuffix(a, b[..|b| - 1]);
    }
  }

  lemma {:induction false} CollapseWordPrefix(w: string, x: string)
    requires NoWhite(w)
    ensures CollapseRuns(w + x) == w + CollapseRuns(x)
    decreases |w|
  {
    if w == [] {
      assert w + x == x;
    } else {
      var t := w[1..];
      assert !IsWhite(w[0]);
      ConsParts(w, x);
      CollapseWordPrefix(t, x);
      ConsParts(w, CollapseRuns(x));
    }
  }

  /** `w + x` starts with `w[0]` and goes on with `w[1..] + x`. */
  lemma ConsParts(w: string, x: string)
    requires w != []
    ensures (w + x)[0] == w[0] && (w + x)[1..] == w[1..] + x && [w[0]] + (w[1..] + x) == w + x
  {
    assert w == [w[0]] + w[1..];
  }

  lemma CollapseWhitePrefix(r: string, v: string)
    requires r != [] && AllWhite(r) && (v == [] || !IsWhite(v[0]))
    ensures CollapseRuns(r + v) == " " + CollapseRuns(v)
  {
    assert (r + v)[0] == r[0];
    DropWhiteAfterWhite(r, v);
  }

  lemma WordsFromWord(t: string)
    requires t != [] && !IsWhite(t[0])
    ensures Words(t) == [TakeWord(t)] + Words(t[|TakeWord(t)|..])
  {
    assert DropWhite(t) == t;
  }

  /** A word, a white-space run and more text: trimming the end keeps the word and the run. */
  lemma TrimEndWordRun(t: string, w: string, r: string, u: string)
    requires t == w + (r + u) && u != [] && !IsWhite(u[0])
    ensures TrimEnd(t) == w + r + TrimEnd(u)
    ensures TrimEnd(u) != [] && TrimEnd(u)[0] == u[0]
  {
    assert t == (w + r) + u;
    TrimEndKeep(w + r, u);
  }

  /** A text that starts with a word splits into the word, the white space after it,
      and the rest. */
  lemma SplitAfterWord(t: string) returns (w: string, r: string, u: string)
    requires t != [] && !IsWhite(t[0])
    ensures w == TakeWord(t) && u == DropWhite(t[|w|..])
    ensures t == w + (r + u) && AllWhite(r)
    ensures u != [] ==> r != []
  {
    w := TakeWord(t);
    var rest := t[|w|..];
    assert t == w + rest;
    u := DropWhite(rest);
    r := rest[..|rest| - |u|];
    assert rest == r + u;
    if u != [] {
      assert IsWhite(rest[0]);
    }
  }

  lemma CollapseWordRun(w: string, r: string, v: string)
    requires NoWhite(w) && r != [] && AllWhite(r) && v != [] && !IsWhite(v[0])
    ensures CollapseRuns(w + r + v) == w + " " + CollapseRuns(v)
  {
    var x := r + v;
    assert w + r + v == w + x;
    CollapseWordPrefix(w, x);
    CollapseWhitePrefix(r, v);
    var c := CollapseRuns(v);
    assert w + (" " + c) == w + " " + c;
  }

  lemma JoinWordsCons(w: string, ws: seq<string>)
    requires ws != []
    ensures JoinWords([w] + ws) == w + " " + JoinWords(ws)
  {
    assert ([w] + ws)[1..] == ws;
  }

  lemma {:induction false} CollapseTrimmed(t: string)
    requires t == [] || !IsWhite(t[0])
    ensures CollapseRuns(TrimEnd(t)) == JoinWords(Words(t))
    decreases |t|
  {
    if t != [] {
      var w, r, u := SplitAfterWord(t);
      WordsFromWord(t);
      WordsDropWhite(t[|w|..]);
      if u == [] {
        assert t == w + r by {
          assert r + u == r;
        }
        TrimEndWhiteSuffix(w, r);
        CollapseWordPrefix(w, []);
        assert w + [] == w;
      } else {
        TrimEndWordRun(t, w, r, u);
        CollapseWordRun(w, r, TrimEnd(u));
        CollapseTrimmed(u);
        WordsFromWord(u);
        JoinWordsCons(w, Words(u));
      }
    }
  }

  /** The content normalisation leaves exactly the words of its input, joined by
      single spaces. */
  lemma NormalizeSpacesJoinsWords(s: string)
    ensures NormalizeSpaces(s) == JoinWords(Words(s))
  {
    WordsDropWhite(s);
    CollapseTrimmed(DropWhite(s));
  }

  lemma JoinWordsHead(ws: seq<string>)
    requires ws != [] && ws[0] != []
    ensures JoinWords(ws) != [] && JoinWords(ws)[0] == ws[0][0]
  {
    if |ws| >= 2 {
      assert JoinWords(ws) == ws[0] + (" " + JoinWords(ws[1..]));
    }
  }

  lemma {:induction false} JoinWordsSingleSpaced(ws: seq<string>)
    requires ProperWords(ws)
    ensures SingleSpaced(JoinWords(ws))
  {
    if |ws| == 1 {
      var w := ws[0];
      assert JoinWords(ws) == w;
      assert !IsWhite(w[|w| - 1]);
    } else if |ws| >= 2 {
      JoinWordsSingleSpaced(ws[1..]);
      JoinWordsHead(ws[1..]);
      var w := ws[0];
      var j := JoinWords(ws[1..]);
      var r := w + " " + j;
      assert JoinWords(ws) == r;
      assert !IsWhite(w[0]);
      forall i | 0 <= i < |r|
        ensures IsWhite(r[i]) ==> r[i] == ' ' && 0 < i < |r| - 1 && !IsWhite(r[i - 1]) && !IsWhite(r[i + 1])
      {
        if i < |w| {
          assert r[i] == w[i];
        } else if i == |w| {
          assert r[i - 1] == w[|w| - 1];
          assert r[i + 1] == j[0];
        } else {
          var k := i - |w| - 1;
          assert r[i] == j[k];
          if 0 < k {
            assert r[i - 1] == j[k - 1];
          }
          if k < |j| - 1 {
            assert r[i + 1] == j[k + 1];
          }
        }
      }
      assert r[|r| - 1] == j[|j| - 1];
    }
  }

  lemma {:induction false} TakeWordStops(w: string, x: string)
    requires NoWhite(w) && (x == [] || IsWhite(x[0]))
    ensures TakeWord(w + x) == w
    decreases |w|
  {
    if w == [] {
      assert w + x == x;
    } else {
      assert (w + x)[1..] == w[1..] + x;
      TakeWordStops(w[1..], x);
      assert w == [w[0]] + w[1..];
    }
  }

  lemma WordsOneWord(w: string)
    requires w != [] && NoWhite(w)
    ensures Words(w) == [w]
  {
    TakeWordStops(w, []);
    assert w + [] == w;
    WordsFromWord(w);
    assert w[|w|..] == [];
  }

  lemma WordsAfterSpace(j: string)
    requires j == [] || !IsWhite(j[0])
    ensures Words(" " + j) == Words(j)
  {
    DropWhiteAfterWhite(" ", j);
    WordsDropWhite(" " + j);
  }

  lemma WordsWordThen(w: string, x: string)
    requires w != [] && NoWhite(w) && (x == [] || IsWhite(x[0]))
    ensures Words(w + x) == [w] + Words(x)
  {
    var s := w + x;
    TakeWordStops(w, x);
    WordsFromWord(s);
    assert s[|w|..] == x;
  }

  lemma WordsWordSpace(w: string, j: string)
    requires w != [] && NoWhite(w) && j != [] && !IsWhite(j[0])
    ensures Words(w + " " + j) == [w] + Words(j)
  {
    var x := " " + j;
    assert w + " " + j == w + x;
    WordsWordThen(w, x);
    WordsAfterSpace(j);
  }

  lemma WordsOfJoinStep(ws: seq<string>)
    requires |ws| >= 2 && ProperWords(ws)
    requires Words(JoinWords(ws[1..])) == ws[1..]
    ensures Words(JoinWords(ws)) == ws
  {
    var tail := ws[1..];
    var j := JoinWords(tail);
    JoinWordsHead(tail);
    assert !IsWhite(j[0]) by {
      assert tail[0] == ws[1];
    }
    WordsWordSpace(ws[0], j);
    HeadTail(ws);
    calc {
      Words(JoinWords(ws));
      Words(ws[0] + " " + j);
      [ws[0]] + Words(j);
      [ws[0]] + tail;
      ws;
    }
  }

  lemma HeadTail(ws: seq<string>)
    requires ws != []
    ensures [ws[0]] + ws[1..] == ws
  {
  }

  lemma {:induction false} WordsOfJoin(ws: seq<string>)
    requires ProperWords(ws)
    ensures Words(JoinWords(ws)) == ws
  {
    if |ws| == 1 {
      WordsOneWord(ws[0]);
    } else if |ws| >= 2 {
      WordsOfJoin(ws[1..]);
      WordsOfJoinStep(ws);
    }
  }

  /** Normalised content has no white space at either end and only single spaces
      between words. */
  lemma NormalizeSpacesShape(s: string)
    ensures SingleSpaced(NormalizeSpaces(s))
  {
    NormalizeSpacesJoinsWords(s);
    WordsProper(s);
    JoinWordsSingleSpaced(Words(s));
  }

  /** Normalising already normalised content changes nothing. */
  lemma NormalizeSpacesIdempotent(s: string)
    ensures NormalizeSpaces(NormalizeSpaces(s)) == NormalizeSpaces(s)
  {
    NormalizeSpacesJoinsWords(s);
    NormalizeSpacesJoinsWords(NormalizeSpaces(s));
    WordsProper(s);
    WordsOfJoin(Words(s));
  }

  // ----- searching and replacing -----

  /** `s.startsWith(p)`. */
  predicate StartsWith(s: string, p: string) {
    |p| <= |s| && s[..|p|] == p
  }

  predicate OccursAt(s: string, p: string, i: nat) {
    i + |p| <= |s| && s[i..i + |p|] == p
  }

  /** The first index at or after `i` where `p` occurs in `s`. */
  function FindFrom(s: string, p: string, i: nat): (r: Option<nat>)
    requires i <= |s|
    decreases |s| - i
    ensures r.Some? ==> i <= r.value && OccursAt(s, p, r.value)
    ensures r.Some? ==> forall j :: i <= j < r.value ==> !OccursAt(s, p, j)
    ensures r.None? ==> forall j :: i <= j <= |s| ==> !OccursAt(s, p, j)
  {
    if OccursAt(s, p, i) then Some(i)
    else if i == |s| then None
    else FindFrom(s, p, i + 1)
  }

  /** `s.indexOf(p)`, with None for -1. */
  function IndexOf(s: string, p: string): (r: Option<nat>)
    ensures r.Some? ==> OccursAt(s, p, r.value) && forall j :: 0 <= j < r.value ==> !OccursAt(s, p, j)
    ensures r.None? ==> forall j :: 0 <= j <= |s| ==> !OccursAt(s, p, j)
  {
    FindFrom(s, p, 0)
  }

  /** `s.includes(p)`. */
  predicate Contains(s: string, p: string) {
    IndexOf(s, p).Some?
  }

  /** `s.replace(p, rep)` with a string pattern: only the first occurrence is replaced. */
  function ReplaceFirst(s: string, p: string, rep: string): string {
    match IndexOf(s, p)
    case None => s
    case Some(i) => s[..i] + rep + s[i + |p|..]
  }

  /** Where `p` first occurs at `i`, that one occurrence is replaced. */
  lemma ReplaceFirstAt(s: string, p: string, rep: string, i: nat)
    requires OccursAt(s, p, i) && forall j :: 0 <= j < i ==> !OccursAt(s, p, j)
    ensures ReplaceFirst(s, p, rep) == s[..i] + rep + s[i + |p|..]
  {
  }

  /** Where `p` does not occur, nothing is replaced. */
  lemma ReplaceFirstAbsent(s: string, p: string, rep: string)
    requires forall j :: 0 <= j <= |s| ==> !OccursAt(s, p, j)
    ensures ReplaceFirst(s, p, rep) == s
  {
  }

  // ----- splitting and case -----

  /** `s.split(sep)[0]`: the text before the first `sep`, or all of `s`. */
  function BeforeFirst(s: string, sep: char): (r: string)
    ensures |r| <= |s| && r == s[..|r|] && sep !in r
    ensures |r| == |s| || s[|r|] == sep
  {
    if s == [] || s[0] == sep then [] else [s[0]] + BeforeFirst(s[1..], sep)
  }

  /** `s.split(sep).pop()`: the text after the last `sep`, or all of `s`. */
  function AfterLast(s: string, sep: char): (r: string)
    ensures |r| <= |s| && r == s[|s| - |r|..] && sep !in r
    ensures |r| == |s| || s[|s| - |r| - 1] == sep
  {
    if s == [] || s[|s| - 1] == sep then []
    else
      var r := AfterLast(s[..|s| - 1], sep);
      assert s[..|s| - 1][|s| - 1 - |r|..] + [s[|s| - 1]] == s[|s| - 1 - |r|..];
      r + [s[|s| - 1]]
  }
  /** `split(sep)[0]` of a string whose first `sep` follows `x` is `x`. */
  lemma {:induction false} BeforeFirstOf(x: string, sep: char, y: string)
    requires sep !in x
    ensures BeforeFirst(x + [sep] + y, sep) == x
    decreases |x|
  {
    var t := x + [sep] + y;
    if x == [] {
      assert t[0] == sep;
    } else {
      assert t[0] == x[0] && x[0] in x;
      assert t[1..] == x[1..] + [sep] + y;
      BeforeFirstOf(x[1..], sep, y);
    }
  }

  /** Without `sep`, `split(sep)[0]` is the whole string. */
  lemma {:induction false} BeforeFirstNone(x: string, sep: char)
    requires sep !in x
    ensures BeforeFirst(x, sep) == x
    decreases |x|
  {
    if x != [] {
      assert x[0] in x;
      assert forall c :: c in x[1..] ==> c in x;
      BeforeFirstNone(x[1..], sep);
    }
  }

  /** `split(sep).pop()` of a string whose last `sep` precedes `d` is `d`. */
  lemma {:induction false} AfterLastOf(p: string, sep: char, d: string)
    requires sep !in d
    ensures AfterLast(p + [sep] + d, sep) == d
    decreases |d|
  {
    var t := p + [sep] + d;
    if d == [] {
      assert t[|t| - 1] == sep;
    } else {
      var init := d[..|d| - 1];
      assert t[..|t| - 1] == p + [sep] + init;
      assert t[|t| - 1] == d[|d| - 1] && d[|d| - 1] in d;
      assert forall c :: c in init ==> c in d;
      AfterLastOf(p, sep, init);
      assert init + [d[|d| - 1]] == d;
    }
  }


  function LowerAscii(c: char): char {
    if 'A' <= c <= 'Z' then (c as int + 32) as char else c
  }

  /** `s.toLowerCase()` restricted to the ASCII letters. */
  function ToLowerAscii(s: string): (r: string)
    ensures |r| == |s|
  {
    seq(|s|, i requires 0 <= i < |s| => LowerAscii(s[i]))
  }
}
