/** The statistics `getStats` reports over the scraped records: message counts, the
    per-author tally the `forEach` loop builds in a plain object, and the five authors
    with the most messages. */
module Stats {
  import opened Extract

  /** One `[name, count]` pair of `Object.entries(authors)`. */
  datatype Entry = Entry(name: string, count: nat)

  datatype Report = Report(
    totalMessages: nat,
    botMessages: nat,
    userMessages: nat,
    messagesWithEmbeds: nat,
    messagesWithReactions: nat,
    uniqueAuthors: nat,
    topAuthors: seq<Entry>)

  // ----- counting by a property -----

  function CountBots(ms: seq<Message>): (n: nat)
    ensures n <= |ms|
    decreases |ms|
  {
    if ms == [] then 0 else CountBots(ms[..|ms| - 1]) + (if ms[|ms| - 1].isBot then 1 else 0)
  }

  function CountUsers(ms: seq<Message>): (n: nat)
    ensures n <= |ms|
    decreases |ms|
  {
    if ms == [] then 0 else CountUsers(ms[..|ms| - 1]) + (if ms[|ms| - 1].isBot then 0 else 1)
  }

  function CountEmbeds(ms: seq<Message>): (n: nat)
    ensures n <= |ms|
    decreases |ms|
  {
    if ms == [] then 0 else CountEmbeds(ms[..|ms| - 1]) + (if ms[|ms| - 1].embed.Some? then 1 else 0)
  }

  function CountReacted(ms: seq<Message>): (n: nat)
    ensures n <= |ms|
    decreases |ms|
  {
    if ms == [] then 0 else CountReacted(ms[..|ms| - 1]) + (if |ms[|ms| - 1].reactions| > 0 then 1 else 0)
  }

  function Names(ms: seq<Message>): (r: seq<string>)
    ensures |r| == |ms| && forall i :: 0 <= i < |ms| ==> r[i] == ms[i].authorName
  {
    seq(|ms|, i requires 0 <= i < |ms| => ms[i].authorName)
  }

  // ----- the author tally -----

  /** `authors[name] = (authors[name] || 0) + 1`. */
  function Bump(t: map<string, nat>, n: string): map<string, nat> {
    t[n := (if n in t then t[n] else 0) + 1]
  }

  /** The `authors` object after the loop over `names`. */
  function Tally(names: seq<string>): (t: map<string, nat>)
    ensures forall n :: n in t <==> n in names
    decreases |names|
  {
    if names == [] then map[]
    else Bump(Tally(names[..|names| - 1]), names[|names| - 1])
  }

  /** The keys of `authors` in the order they were created: the distinct names, each at
      its first appearance. */
  function Keys(names: seq<string>): (ks: seq<string>)
    ensures forall n :: n in ks <==> n in names
    decreases |names|
  {
    if names == [] then []
    else
      var ks := Keys(names[..|names| - 1]);
      var n := names[|names| - 1];
      if n in names[..|names| - 1] then ks else ks + [n]
  }

  predicate Distinct(s: seq<string>) {
    forall i, j :: 0 <= i < j < |s| ==> s[i] != s[j]
  }

  /** `Object.entries(authors)`. */
  function Entries(names: seq<string>): (r: seq<Entry>) {
    var ks := Keys(names);
    var t := Tally(names);
    seq(|ks|, i requires 0 <= i < |ks| => Entry(ks[i], t[ks[i]]))
  }

  function SumCounts(es: seq<Entry>): nat
    decreases |es|
  {
    if es == [] then 0 else SumCounts(es[..|es| - 1]) + es[|es| - 1].count
  }

  // ----- the sort by count -----

  /** `e` placed before the first entry whose count it reaches: an insertion step of a
      stable sort by non-increasing count. */
  function Insert(e: Entry, s: seq<Entry>): (r: seq<Entry>)
    ensures |r| == |s| + 1
    decreases |s|
  {
    if s == [] || e.count >= s[0].count then [e] + s
    else [s[0]] + Insert(e, s[1..])
  }

  /** `entries.sort(([, a], [, b]) => b - a)`: a stable sort (as `Array.prototype.sort`
      is required to be), largest count first. */
  function SortByCount(s: seq<Entry>): (r: seq<Entry>)
    ensures |r| == |s|
    decreases |s|
  {
    if s == [] then [] else Insert(s[0], SortByCount(s[1..]))
  }

  predicate NonIncreasing(s: seq<Entry>) {
    forall i, j :: 0 <= i < j < |s| ==> s[i].count >= s[j].count
  }

  /** The entries of `s` with count `k`, in order. */
  function WithCount(s: seq<Entry>, k: nat): seq<Entry>
    decreases |s|
  {
    if s == [] then []
    else (if s[0].count == k then [s[0]] else []) + WithCount(s[1..], k)
  }

  /** `.slice(0, 5)`. */
  function Top5(s: seq<Entry>): (r: seq<Entry>)
    ensures |r| == if |s| <= 5 then |s| else 5
    ensures r == s[..|r|]
  {
    if |s| <= 5 then s else s[..5]
  }

  /** What `getStats` returns for the records `ms`. */
  function ReportOf(ms: seq<Message>): Report {
    var names := Names(ms);
    Report(|ms|, CountBots(ms), |ms| - CountBots(ms), CountEmbeds(ms), CountReacted(ms),
           |Keys(names)|, Top5(SortByCount(Entries(names))))
  }

  /** The loop of `getStats` over the records: the `authors` object it builds and the
      order in which its keys were created. */
  method CountAuthors(ms: seq<Message>) returns (authors: map<string, nat>, keys: seq<string>)
    ensures authors == Tally(Names(ms)) && keys == Keys(Names(ms))
  {
    ghost var names := Names(ms);
    authors, keys := map[], [];
    var i := 0;
    while i < |ms|
      invariant 0 <= i <= |ms|
      invariant authors == Tally(names[..i])
      invariant keys == Keys(names[..i])
    {
      var name := ms[i].authorName;
      assert names[..i + 1] == names[..i] + [name];
      TallySnoc(names[..i], name);
      if name !in authors {
        keys := keys + [name];
      }
      authors := Bump(authors, name);
      i := i + 1;
    }
    assert names[..i] == names;
  }

  // ----- lemmas: counts -----

  /** Every record is either a bot's or a user's. */
  lemma {:induction false} BotsAndUsers(ms: seq<Message>)
    ensures CountBots(ms) + CountUsers(ms) == |ms|
    decreases |ms|
  {
    if ms != [] {
      BotsAndUsers(ms[..|ms| - 1]);
    }
  }

  /** `botMessages` counts the bots' messages: one for a bot's message, none for
      another, summed over any split of the records. */
  lemma {:induction false} CountBotsAppend(a: seq<Message>, b: seq<Message>)
    ensures CountBots(a + b) == CountBots(a) + CountBots(b)
    ensures forall m: Message :: CountBots([m]) == if m.isBot then 1 else 0
    decreases |b|
  {
    if b == [] {
      assert a + b == a;
    } else {
      assert (a + b)[..|a + b| - 1] == a + b[..|b| - 1];
      CountBotsAppend(a, b[..|b| - 1]);
    }
  }

  /** `messagesWithEmbeds` counts the messages with an embed: one for such a message,
      none for another, summed over any split of the records. */
  lemma {:induction false} CountEmbedsAppend(a: seq<Message>, b: seq<Message>)
    ensures CountEmbeds(a + b) == CountEmbeds(a) + CountEmbeds(b)
    ensures forall m :: CountEmbeds([m]) == if m.embed.Some? then 1 else 0
    decreases |b|
  {
    forall m ensures CountEmbeds([m]) == if m.embed.Some? then 1 else 0 {
      assert [m][..0] == [];
    }
    if b == [] {
      assert a + b == a;
    } else {
      assert (a + b)[..|a + b| - 1] == a + b[..|b| - 1];
      CountEmbedsAppend(a, b[..|b| - 1]);
    }
  }

  /** `messagesWithReactions` counts the messages with at least one reaction. */
  lemma {:induction false} CountReactedAppend(a: seq<Message>, b: seq<Message>)
    ensures CountReacted(a + b) == CountReacted(a) + CountReacted(b)
    ensures forall m :: CountReacted([m]) == if |m.reactions| > 0 then 1 else 0
    decreases |b|
  {
    forall m ensures CountReacted([m]) == if |m.reactions| > 0 then 1 else 0 {
      assert [m][..0] == [];
    }
    if b == [] {
      assert a + b == a;
    } else {
      assert (a + b)[..|a + b| - 1] == a + b[..|b| - 1];
      CountReactedAppend(a, b[..|b| - 1]);
    }
  }

  // ----- lemmas: the tally -----

  /** One more record: its name's count goes up by one, and the name is added to the
      keys if it is new. */
  lemma TallySnoc(names: seq<string>, n: string)
    ensures Tally(names + [n]) == Bump(Tally(names), n)
    ensures Keys(names + [n]) == if n in names then Keys(names) else Keys(names) + [n]
  {
    var s := names + [n];
    assert s[..|s| - 1] == names && s[|s| - 1] == n;
  }

  /** The tally has a key for exactly the names seen, the creation order lists each of
      them once, and each count is the number of records with that name. */
  lemma {:induction false} TallyKeys(names: seq<string>)
    ensures Distinct(Keys(names))
    ensures forall n :: n in Tally(names) ==> Tally(names)[n] == multiset(names)[n]
    decreases |names|
  {
    if names != [] {
      var init := names[..|names| - 1];
      var n := names[|names| - 1];
      assert names == init + [n];
      TallyKeys(init);
      assert multiset(names) == multiset(init) + multiset{n};
    }
  }

  /** `uniqueAuthors` is the number of distinct author names. */
  lemma UniqueAuthors(names: seq<string>)
    ensures |Keys(names)| == |set n | n in names|
  {
    TallyKeys(names);
    DistinctCard(Keys(names));
    assert (set n | n in Keys(names)) == (set n | n in names);
  }

  lemma {:induction false} DistinctCard(s: seq<string>)
    requires Distinct(s)
    ensures |set n | n in s| == |s|
    decreases |s|
  {
    if s != [] {
      var init := s[..|s| - 1];
      var x := s[|s| - 1];
      DistinctCard(init);
      assert (set n | n in s) == (set n | n in init) + {x} by {
        assert s == init + [x];
      }
      assert x !in init;
    }
  }

  function SumOver(ks: seq<string>, t: map<string, nat>): nat
    requires forall k :: k in ks ==> k in t
    decreases |ks|
  {
    if ks == [] then 0 else SumOver(ks[..|ks| - 1], t) + t[ks[|ks| - 1]]
  }

  /** Raising one listed key by one raises the sum by one. */
  lemma {:induction false} SumOverBump(ks: seq<string>, t: map<string, nat>, k: string)
    requires Distinct(ks) && k in ks && forall x :: x in ks ==> x in t
    ensures SumOver(ks, t[k := t[k] + 1]) == SumOver(ks, t) + 1
    decreases |ks|
  {
    var init := ks[..|ks| - 1];
    var last := ks[|ks| - 1];
    assert ks == init + [last];
    if last == k {
      assert k !in init;
      SumOverSame(init, t, k, t[k] + 1);
    } else {
      SumOverBump(init, t, k);
    }
  }

  /** Changing a key that is not listed does not change the sum. */
  lemma {:induction false} SumOverSame(ks: seq<string>, t: map<string, nat>, k: string, v: nat)
    requires k !in ks && forall x :: x in ks ==> x in t
    ensures SumOver(ks, t[k := v]) == SumOver(ks, t)
    decreases |ks|
  {
    if ks != [] {
      var init := ks[..|ks| - 1];
      assert ks == init + [ks[|ks| - 1]];
      SumOverSame(init, t, k, v);
    }
  }

  /** The per-author counts add up to the number of records. */
  lemma {:induction false} TallySum(names: seq<string>)
    ensures forall k :: k in Keys(names) ==> k in Tally(names)
    ensures SumOver(Keys(names), Tally(names)) == |names|
    decreases |names|
  {
    TallyKeys(names);
    if names != [] {
      var init := names[..|names| - 1];
      var n := names[|names| - 1];
      var t := Tally(init);
      var ks := Keys(init);
      TallySum(init);
      TallyKeys(init);
      if n in init {
        SumOverBump(ks, t, n);
      } else {
        SumOverSame(ks, t, n, 1);
        assert (ks + [n])[..|ks|] == ks;
      }
    }
  }

  lemma {:induction false} SumCountsOfEntries(ks: seq<string>, t: map<string, nat>)
    requires forall k :: k in ks ==> k in t
    ensures SumCounts(seq(|ks|, i requires 0 <= i < |ks| => Entry(ks[i], t[ks[i]]))) == SumOver(ks, t)
    decreases |ks|
  {
    if ks != [] {
      var init := ks[..|ks| - 1];
      var es := seq(|ks|, i requires 0 <= i < |ks| => Entry(ks[i], t[ks[i]]));
      assert es[..|es| - 1] == seq(|init|, i requires 0 <= i < |init| => Entry(init[i], t[init[i]]));
      SumCountsOfEntries(init, t);
    }
  }

  /** The counts of `Object.entries(authors)` add up to `totalMessages`. */
  lemma EntriesSum(names: seq<string>)
    ensures forall k :: k in Keys(names) ==> k in Tally(names)
    ensures SumCounts(Entries(names)) == |names|
  {
    TallySum(names);
    SumCountsOfEntries(Keys(names), Tally(names));
  }

  // ----- lemmas: the sort -----

  lemma {:induction false} InsertPermutes(e: Entry, s: seq<Entry>)
    ensures multiset(Insert(e, s)) == multiset(s) + multiset{e}
    decreases |s|
  {
    if s != [] && e.count < s[0].count {
      InsertPermutes(e, s[1..]);
      assert s == [s[0]] + s[1..];
    }
  }

  /** A list that starts with an entry no smaller than the rest, followed by a
      non-increasing list, is non-increasing. */
  lemma ConsSorted(x: Entry, r: seq<Entry>)
    requires NonIncreasing(r) && forall j :: 0 <= j < |r| ==> r[j].count <= x.count
    ensures NonIncreasing([x] + r)
  {
    forall i, j | 0 <= i < j < |r| + 1
      ensures ([x] + r)[i].count >= ([x] + r)[j].count
    {
      assert ([x] + r)[j] == r[j - 1];
      if i > 0 {
        assert ([x] + r)[i] == r[i - 1];
      }
    }
  }

  /** Insertion keeps every count within a bound that holds for `e` and for `s`. */
  lemma {:induction false} InsertBound(e: Entry, s: seq<Entry>, b: nat)
    requires e.count <= b && forall k :: 0 <= k < |s| ==> s[k].count <= b
    ensures forall j :: 0 <= j < |Insert(e, s)| ==> Insert(e, s)[j].count <= b
    decreases |s|
  {
    if s != [] && e.count < s[0].count {
      var t := s[1..];
      forall k | 0 <= k < |t|
        ensures t[k].count <= b
      {
        assert t[k] == s[k + 1];
      }
      InsertBound(e, t, b);
      var r := Insert(e, t);
      assert Insert(e, s) == [s[0]] + r;
      forall j | 0 <= j < |r| + 1
        ensures ([s[0]] + r)[j].count <= b
      {
        if j > 0 {
          assert ([s[0]] + r)[j] == r[j - 1];
        }
      }
    } else {
      assert Insert(e, s) == [e] + s;
      forall j | 0 <= j < |s| + 1
        ensures ([e] + s)[j].count <= b
      {
        if j > 0 {
          assert ([e] + s)[j] == s[j - 1];
        }
      }
    }
  }

  /** Insertion keeps a non-increasing list non-increasing, and puts `e` or the old
      head first. */
  lemma {:induction false} InsertSorted(e: Entry, s: seq<Entry>)
    requires NonIncreasing(s)
    ensures NonIncreasing(Insert(e, s))
    ensures Insert(e, s) != [] && (Insert(e, s)[0] == e || (s != [] && Insert(e, s)[0] == s[0]))
    decreases |s|
  {
    if s != [] && e.count < s[0].count {
      var t := s[1..];
      assert NonIncreasing(t) by {
        forall i, j | 0 <= i < j < |t|
          ensures t[i].count >= t[j].count
        {
          assert t[i] == s[i + 1] && t[j] == s[j + 1];
        }
      }
      InsertSorted(e, t);
      forall k | 0 <= k < |t|
        ensures t[k].count <= s[0].count
      {
        assert t[k] == s[k + 1];
      }
      InsertBound(e, t, s[0].count);
      assert Insert(e, s) == [s[0]] + Insert(e, t);
      ConsSorted(s[0], Insert(e, t));
    } else {
      assert Insert(e, s) == [e] + s;
      forall j | 0 <= j < |s|
        ensures s[j].count <= e.count
      {
        assert s[0].count >= s[j].count;
      }
      ConsSorted(e, s);
    }
  }

  /** The sort keeps every entry and orders them by non-increasing count. */
  lemma {:induction false} SortByCountSorts(s: seq<Entry>)
    ensures NonIncreasing(SortByCount(s))
    ensures multiset(SortByCount(s)) == multiset(s)
    decreases |s|
  {
    if s != [] {
      SortByCountSorts(s[1..]);
      InsertSorted(s[0], SortByCount(s[1..]));
      InsertPermutes(s[0], SortByCount(s[1..]));
      assert s == [s[0]] + s[1..];
    }
  }

  lemma {:induction false} WithCountInsert(e: Entry, s: seq<Entry>, k: nat)
    ensures WithCount(Insert(e, s), k) == (if e.count == k then [e] else []) + WithCount(s, k)
    decreases |s|
  {
    if s != [] && e.count < s[0].count {
      var r := Insert(e, s[1..]);
      WithCountInsert(e, s[1..], k);
      WithCountCons(s[0], r, k);
      WithCountCons(s[0], s[1..], k);
      assert s == [s[0]] + s[1..];
    } else {
      WithCountCons(e, s, k);
    }
  }

  lemma WithCountCons(x: Entry, s: seq<Entry>, k: nat)
    ensures WithCount([x] + s, k) == (if x.count == k then [x] else []) + WithCount(s, k)
  {
    assert ([x] + s)[0] == x && ([x] + s)[1..] == s;
  }

  /** The sort is stable: the entries of any one count keep their order, so authors with
      equal counts stay in the order their keys were created. */
  lemma {:induction false} SortByCountStable(s: seq<Entry>, k: nat)
    ensures WithCount(SortByCount(s), k) == WithCount(s, k)
    decreases |s|
  {
    if s != [] {
      SortByCountStable(s[1..], k);
      WithCountInsert(s[0], SortByCount(s[1..]), k);
    }
  }

  // ----- lemmas: the report -----

  /** The first five of a sorted list are a sorted prefix, none below an entry left
      out. */
  lemma Top5OfSorted(s: seq<Entry>)
    requires NonIncreasing(s)
    ensures var top := Top5(s);
            |top| == (if |s| <= 5 then |s| else 5)
            && NonIncreasing(top) && top == s[..|top|]
            && forall i, j :: 0 <= i < |top| <= j < |s| ==> top[i].count >= s[j].count
  {
  }

  /** The counts in the report add up: bot and user messages make the total, the
      per-author counts make the total, and `uniqueAuthors` counts distinct names. */
  lemma ReportCounts(ms: seq<Message>)
    ensures var r := ReportOf(ms);
            r.totalMessages == |ms|
            && r.botMessages + r.userMessages == r.totalMessages
            && r.userMessages == CountUsers(ms)
            && SumCounts(Entries(Names(ms))) == r.totalMessages
            && r.uniqueAuthors == |set n | n in Names(ms)|
  {
    BotsAndUsers(ms);
    EntriesSum(Names(ms));
    UniqueAuthors(Names(ms));
  }

  /** The top authors are at most five entries of the tally, the first ones of all the
      entries sorted by non-increasing count, none below an author left out. */
  lemma ReportTop(ms: seq<Message>)
    ensures var top := ReportOf(ms).topAuthors;
            var sorted := SortByCount(Entries(Names(ms)));
            |top| == (if |Keys(Names(ms))| <= 5 then |Keys(Names(ms))| else 5)
            && multiset(sorted) == multiset(Entries(Names(ms)))
            && NonIncreasing(top) && top == sorted[..|top|]
            && (forall i, j :: 0 <= i < |top| <= j < |sorted| ==> top[i].count >= sorted[j].count)
  {
    var sorted := SortByCount(Entries(Names(ms)));
    SortByCountSorts(Entries(Names(ms)));
    Top5OfSorted(sorted);
  }
}
