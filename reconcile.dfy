/**
 * The manifest of manifest.py on values: its episode list as a sequence of
 * slots, and what update, download_episodes, save_to_json and the loading
 * loops do to that list. The class Manifests.Manifest is proved against the
 * functions here; the lemmas here state what those functions promise.
 */
module Reconcile {
  import opened Wrappers
  import opened Episodes

  /** The manifest's episode list; None is a slot whose stored record from_dict rejected. */
  type Slots = seq<Option<EpisodeState>>

  /** The parts of the environment an episode is built with: the manifest folder, the time, the files on disk. */
  datatype Context = Context(folder: string, now: Time, onDisk: set<string>)

  /** A parsed feed: `feed.title`, `feed.author`, `feed.updated_parsed`, `href` and the entries, newest first. */
  datatype Feed = Feed(title: string, author: string, updatedParsed: Time, href: string, entries: seq<Entry>)

  predicate NoGaps(slots: Slots) {
    forall i :: 0 <= i < |slots| ==> slots[i].Some?
  }

  predicate HasTitle(slots: Slots, t: string) {
    exists i :: 0 <= i < |slots| && slots[i].Some? && slots[i].value.title == t
  }

  /** `entries[::-1]`. */
  function Reverse<T>(s: seq<T>): (r: seq<T>)
    ensures |r| == |s|
    ensures forall i :: 0 <= i < |s| ==> r[i] == s[|s| - 1 - i]
  {
    if s == [] then [] else Reverse(s[1..]) + [s[0]]
  }

  /** Python's `list.insert(i, x)` for i >= 0: x lands at position i, or at the end when i >= len. */
  function Insert<T>(s: seq<T>, i: nat, x: T): (r: seq<T>)
    ensures |r| == |s| + 1
  {
    var k := if i < |s| then i else |s|;
    s[..k] + [x] + s[k..]
  }

  /** Where the element went and what happened to the others. */
  lemma InsertAt<T>(s: seq<T>, i: nat, x: T)
    ensures var k := if i < |s| then i else |s|; var r := Insert(s, i, x);
      && r[k] == x
      && (forall j :: 0 <= j < k ==> r[j] == s[j])
      && (forall j :: k <= j < |s| ==> r[j + 1] == s[j])
  {
  }

  // ---------------------------------------------------------------------
  // get_episode

  /** The outcome of get_episode: the first episode with the title, none, or an AttributeError on a None slot. */
  datatype Lookup = Found(index: nat) | Absent | Fault

  /**
   * get_episode's scan: Found(i) when slot i is the first with this title and
   * every slot before it holds an episode; Absent when every slot holds an
   * episode and none has the title; Fault when a None slot comes first.
   */
  function Find(slots: Slots, t: string): (r: Lookup)
    ensures r.Found? ==> r.index < |slots| && slots[r.index].Some? && slots[r.index].value.title == t
    ensures r.Found? ==> forall j :: 0 <= j < r.index ==> slots[j].Some? && slots[j].value.title != t
    ensures r.Absent? ==> forall j :: 0 <= j < |slots| ==> slots[j].Some? && slots[j].value.title != t
    ensures r.Fault? ==> exists j :: 0 <= j < |slots| && slots[j].None?
                                   && forall k :: 0 <= k < j ==> slots[k].Some? && slots[k].value.title != t
  {
    if slots == [] then Absent
    else if slots[0].None? then Fault
    else if slots[0].value.title == t then Found(0)
    else match Find(slots[1..], t)
      case Found(i) => Found(i + 1)
      case Absent => Absent
      case Fault => Fault
  }

  /** The first slot with the title, preceded only by episodes, is what Find returns: the first copy wins. */
  lemma FindFirst(slots: Slots, t: string, i: nat)
    requires i < |slots| && slots[i].Some? && slots[i].value.title == t
    requires forall j :: 0 <= j < i ==> slots[j].Some? && slots[j].value.title != t
    ensures Find(slots, t) == Found(i)
  {
  }

  /** In a list without None slots, get_episode never faults and finds exactly the titles present. */
  lemma FindNoGaps(slots: Slots, t: string)
    requires NoGaps(slots)
    ensures !Find(slots, t).Fault?
    ensures Find(slots, t).Found? <==> HasTitle(slots, t)
  {
    if HasTitle(slots, t) {
      var i :| 0 <= i < |slots| && slots[i].Some? && slots[i].value.title == t;
      assert !Find(slots, t).Absent?;
    }
  }

  /** Two lists with None slots in the same places and the same titles everywhere. */
  predicate SameShape(a: Slots, b: Slots) {
    && |a| == |b|
    && forall i :: 0 <= i < |a| ==> a[i].Some? == b[i].Some? && (a[i].Some? ==> a[i].value.title == b[i].value.title)
  }

  /** get_episode only looks at the shape. */
  lemma {:induction false} FindSameShape(a: Slots, b: Slots, t: string)
    requires SameShape(a, b)
    ensures Find(a, t) == Find(b, t)
  {
    if a != [] {
      assert SameShape(a[1..], b[1..]) by {
        forall i | 0 <= i < |a| - 1
          ensures a[1..][i].Some? == b[1..][i].Some?
        {
          assert a[1..][i] == a[i + 1] && b[1..][i] == b[i + 1];
        }
      }
      FindSameShape(a[1..], b[1..], t);
    }
  }

  // ---------------------------------------------------------------------
  // update

  datatype Progress = Running(slots: Slots) | Stopped(slots: Slots)

  /**
   * One pass of update's loop: the entry's title is looked up; a new title is
   * inserted as a fresh episode at the entry's number, a known one is
   * refreshed in place, and a None slot met by the lookup stops the loop.
   */
  function Step(slots: Slots, e: Entry, number: nat, ctx: Context): (p: Progress)
    ensures |p.slots| >= |slots|
    ensures p.Stopped? <==> Find(slots, e.title).Fault?
    ensures p.Stopped? ==> p.slots == slots
    ensures |p.slots| == |slots| + (if Find(slots, e.title).Absent? then 1 else 0)
  {
    match Find(slots, e.title)
    case Fault => Stopped(slots)
    case Absent => Running(Insert(slots, number, Some(FeedEpisode(e, ctx.folder, number, ctx.now, ctx.onDisk))))
    case Found(i) => Running(slots[i := Some(Refreshed(slots[i].value, e, number, ctx.now))])
  }

  /** update's loop over the entries `es`, oldest first, the first of them numbered `number`. */
  function Sync(slots: Slots, es: seq<Entry>, number: nat, ctx: Context): (p: Progress)
    ensures |p.slots| >= |slots|
    decreases |es|
  {
    if es == [] then Running(slots)
    else match Step(slots, es[0], number, ctx)
      case Stopped(s) => Stopped(s)
      case Running(s) => Sync(s, es[1..], number + 1, ctx)
  }

  /** How an update call ended. */
  datatype Outcome = UpToDate | TitleMismatch | Updated | Interrupted

  /**
   * update: nothing happens when the stored timestamp equals the feed's and
   * the update is not forced, or when the feed's title is not the manifest's;
   * otherwise the entries are synchronised oldest first.
   */
  function UpdateResult(slots: Slots, storedTitle: string, storedUpdated: Time, feed: Feed, forced: bool, ctx: Context)
    : (r: (Outcome, Slots))
    ensures |r.1| >= |slots|
    ensures r.0 == UpToDate <==> storedUpdated == feed.updatedParsed && !forced
    ensures r.0 == TitleMismatch <==> !(storedUpdated == feed.updatedParsed && !forced) && storedTitle != feed.title
    ensures r.0 in {UpToDate, TitleMismatch} ==> r.1 == slots
  {
    if storedUpdated == feed.updatedParsed && !forced then (UpToDate, slots)
    else if storedTitle != feed.title then (TitleMismatch, slots)
    else match Sync(slots, Reverse(feed.entries), 0, ctx)
      case Running(s) => (Updated, s)
      case Stopped(s) => (Interrupted, s)
  }

  lemma UpdateNoOp(slots: Slots, storedTitle: string, storedUpdated: Time, feed: Feed, forced: bool, ctx: Context)
    requires (storedUpdated == feed.updatedParsed && !forced) || storedTitle != feed.title
    ensures UpdateResult(slots, storedTitle, storedUpdated, feed, forced, ctx).1 == slots
    ensures UpdateResult(slots, storedTitle, storedUpdated, feed, forced, ctx).0 in {UpToDate, TitleMismatch}
  {
  }

  // What update keeps

  /** The slots that an update with feed titles ts does not touch: None slots and episodes titled outside ts, in order. */
  function Untouched(slots: Slots, ts: set<string>): Slots {
    if slots == [] then []
    else (if slots[0].None? || slots[0].value.title !in ts then [slots[0]] else []) + Untouched(slots[1..], ts)
  }

  function FeedTitles(es: seq<Entry>): set<string> {
    set e | e in es :: e.title
  }

  lemma {:induction false} UntouchedConcat(a: Slots, b: Slots, ts: set<string>)
    ensures Untouched(a + b, ts) == Untouched(a, ts) + Untouched(b, ts)
  {
    if a == [] {
      assert a + b == b;
    } else {
      assert (a + b)[0] == a[0];
      assert (a + b)[1..] == a[1..] + b;
      UntouchedConcat(a[1..], b, ts);
    }
  }

  /** a, then x, then b: x drops out of Untouched when its title is in ts. */
  lemma UntouchedAround(a: Slots, x: EpisodeState, b: Slots, ts: set<string>)
    requires x.title in ts
    ensures Untouched(a + [Some(x)] + b, ts) == Untouched(a + b, ts)
  {
    UntouchedConcat(a + [Some(x)], b, ts);
    UntouchedConcat(a, [Some(x)], ts);
    UntouchedConcat(a, b, ts);
    assert [Some(x)][1..] == [];
  }

  lemma StepUntouched(slots: Slots, e: Entry, number: nat, ctx: Context, ts: set<string>)
    requires e.title in ts
    ensures Untouched(Step(slots, e, number, ctx).slots, ts) == Untouched(slots, ts)
  {
    match Find(slots, e.title)
    case Fault =>
    case Absent =>
      var k := if number < |slots| then number else |slots|;
      assert slots == slots[..k] + slots[k..];
      UntouchedAround(slots[..k], FeedEpisode(e, ctx.folder, number, ctx.now, ctx.onDisk), slots[k..], ts);
    case Found(i) =>
      var v := Refreshed(slots[i].value, e, number, ctx.now);
      assert slots[i := Some(v)] == slots[..i] + [Some(v)] + slots[i + 1..];
      assert slots == slots[..i] + [Some(slots[i].value)] + slots[i + 1..];
      UntouchedAround(slots[..i], v, slots[i + 1..], ts);
      UntouchedAround(slots[..i], slots[i].value, slots[i + 1..], ts);
  }

  lemma {:induction false} SyncUntouched(slots: Slots, es: seq<Entry>, number: nat, ctx: Context, ts: set<string>)
    requires forall e :: e in es ==> e.title in ts
    ensures Untouched(Sync(slots, es, number, ctx).slots, ts) == Untouched(slots, ts)
    decreases |es|
  {
    if es != [] {
      StepUntouched(slots, es[0], number, ctx, ts);
      match Step(slots, es[0], number, ctx)
      case Stopped(s) =>
      case Running(s) =>
        assert forall e :: e in es[1..] ==> e in es;
        SyncUntouched(s, es[1..], number + 1, ctx, ts);
    }
  }

  /**
   * update never deletes: the list never gets shorter, and the None slots and
   * the episodes whose titles are not in the feed are all still there, in the
   * same order and with every field as it was.
   */
  lemma UpdateKeepsUnlisted(slots: Slots, storedTitle: string, storedUpdated: Time, feed: Feed, forced: bool, ctx: Context)
    ensures var after := UpdateResult(slots, storedTitle, storedUpdated, feed, forced, ctx).1;
      |after| >= |slots| && Untouched(after, FeedTitles(feed.entries)) == Untouched(slots, FeedTitles(feed.entries))
  {
    var rev := Reverse(feed.entries);
    forall e | e in rev
      ensures e.title in FeedTitles(feed.entries)
    {
      var i :| 0 <= i < |rev| && rev[i] == e;
      assert feed.entries[|rev| - 1 - i] == e;
    }
    SyncUntouched(slots, rev, 0, ctx, FeedTitles(feed.entries));
  }

  // ---------------------------------------------------------------------
  // How many episodes carry each title

  function TitleCount(slots: Slots, t: string): nat {
    if slots == [] then 0
    else (if slots[0].Some? && slots[0].value.title == t then 1 else 0) + TitleCount(slots[1..], t)
  }

  lemma {:induction false} TitleCountConcat(a: Slots, b: Slots, t: string)
    ensures TitleCount(a + b, t) == TitleCount(a, t) + TitleCount(b, t)
  {
    if a == [] {
      assert a + b == b;
    } else {
      assert (a + b)[0] == a[0];
      assert (a + b)[1..] == a[1..] + b;
      TitleCountConcat(a[1..], b, t);
    }
  }

  lemma {:induction false} TitleCountHas(slots: Slots, t: string)
    ensures TitleCount(slots, t) > 0 <==> HasTitle(slots, t)
  {
    if slots != [] {
      TitleCountHas(slots[1..], t);
      if HasTitle(slots, t) && !(slots[0].Some? && slots[0].value.title == t) {
        var i :| 0 <= i < |slots| && slots[i].Some? && slots[i].value.title == t;
        assert slots[1..][i - 1] == slots[i];
      }
      if HasTitle(slots[1..], t) {
        var i :| 0 <= i < |slots| - 1 && slots[1..][i].Some? && slots[1..][i].value.title == t;
        assert slots[i + 1] == slots[1..][i];
      }
    }
  }

  lemma TitleCountAround(a: Slots, x: EpisodeState, b: Slots, t: string)
    ensures TitleCount(a + [Some(x)] + b, t) == TitleCount(a + b, t) + (if x.title == t then 1 else 0)
  {
    TitleCountConcat(a + [Some(x)], b, t);
    TitleCountConcat(a, [Some(x)], t);
    TitleCountConcat(a, b, t);
    assert [Some(x)][1..] == [];
  }

  /** One pass adds a copy of a title only when the title was nowhere in the list. */
  lemma StepCount(slots: Slots, e: Entry, number: nat, ctx: Context, t: string)
    ensures var p := Step(slots, e, number, ctx);
      TitleCount(p.slots, t) == if p.Running? && t == e.title && TitleCount(slots, t) == 0 then 1 else TitleCount(slots, t)
  {
    match Find(slots, e.title)
    case Fault =>
    case Absent =>
      var k := if number < |slots| then number else |slots|;
      assert slots == slots[..k] + slots[k..];
      TitleCountAround(slots[..k], FeedEpisode(e, ctx.folder, number, ctx.now, ctx.onDisk), slots[k..], t);
      if t == e.title {
        TitleCountHas(slots, t);
      }
    case Found(i) =>
      var v := Refreshed(slots[i].value, e, number, ctx.now);
      assert slots[i := Some(v)] == slots[..i] + [Some(v)] + slots[i + 1..];
      assert slots == slots[..i] + [Some(slots[i].value)] + slots[i + 1..];
      TitleCountAround(slots[..i], v, slots[i + 1..], t);
      TitleCountAround(slots[..i], slots[i].value, slots[i + 1..], t);
      TitleCountHas(slots, e.title);
  }

  /**
   * After a complete pass over the entries every entry's title is carried by
   * at least one episode; a title that was missing is carried by exactly one
   * (a title repeated in the feed is inserted once); no title loses a copy.
   */
  lemma {:induction false} SyncCount(slots: Slots, es: seq<Entry>, number: nat, ctx: Context, t: string)
    ensures TitleCount(Sync(slots, es, number, ctx).slots, t) >= TitleCount(slots, t)
    ensures Sync(slots, es, number, ctx).Running? ==>
      TitleCount(Sync(slots, es, number, ctx).slots, t)
        == if t in FeedTitles(es) && TitleCount(slots, t) == 0 then 1 else TitleCount(slots, t)
    decreases |es|
  {
    if es != [] {
      StepCount(slots, es[0], number, ctx, t);
      assert FeedTitles(es) == {es[0].title} + FeedTitles(es[1..]) by {
        assert es == [es[0]] + es[1..];
      }
      match Step(slots, es[0], number, ctx)
      case Stopped(s) =>
      case Running(s) =>
        SyncCount(s, es[1..], number + 1, ctx, t);
    }
  }

  /** The counting facts for an update that ran to the end. */
  lemma UpdateCount(slots: Slots, storedTitle: string, storedUpdated: Time, feed: Feed, forced: bool, ctx: Context, t: string)
    requires UpdateResult(slots, storedTitle, storedUpdated, feed, forced, ctx).0 == Updated
    ensures var after := UpdateResult(slots, storedTitle, storedUpdated, feed, forced, ctx).1;
      TitleCount(after, t) == if t in FeedTitles(feed.entries) && TitleCount(slots, t) == 0 then 1 else TitleCount(slots, t)
  {
    var rev := Reverse(feed.entries);
    FeedTitlesReverse(feed.entries);
    SyncCount(slots, rev, 0, ctx, t);
  }

  /** A pass over a title that is missing inserts the new episode at min(number, len), numbered `number`. */
  lemma StepInserts(slots: Slots, e: Entry, number: nat, ctx: Context)
    requires !HasTitle(slots, e.title) && NoGaps(slots)
    ensures var k := if number < |slots| then number else |slots|; var p := Step(slots, e, number, ctx);
      && p.Running? && |p.slots| == |slots| + 1
      && p.slots[k] == Some(FeedEpisode(e, ctx.folder, number, ctx.now, ctx.onDisk))
      && p.slots[k].value.episodeNumber == number && p.slots[k].value.title == e.title
      && p.slots[..k] == slots[..k] && p.slots[k + 1..] == slots[k..]
  {
    FindNoGaps(slots, e.title);
  }

  /** A pass over a known title refreshes its first copy, and nothing else. */
  lemma StepRefreshesFirst(slots: Slots, e: Entry, number: nat, ctx: Context, i: nat)
    requires i < |slots| && slots[i].Some? && slots[i].value.title == e.title
    requires forall j :: 0 <= j < i ==> slots[j].Some? && slots[j].value.title != e.title
    ensures Step(slots, e, number, ctx) == Running(slots[i := Some(Refreshed(slots[i].value, e, number, ctx.now))])
  {
    FindFirst(slots, e.title, i);
  }

  // ---------------------------------------------------------------------
  // Running update a second time

  lemma FindAfterInsert(slots: Slots, k: nat, x: EpisodeState, t: string)
    requires NoGaps(slots)
    ensures NoGaps(Insert(slots, k, Some(x)))
    ensures Find(Insert(slots, k, Some(x)), t).Found? <==> Find(slots, t).Found? || x.title == t
  {
    var r := Insert(slots, k, Some(x));
    InsertAt(slots, k, Some(x));
    var m := if k < |slots| then k else |slots|;
    FindNoGaps(slots, t);
    FindNoGaps(r, t);
    if HasTitle(slots, t) {
      var i :| 0 <= i < |slots| && slots[i].Some? && slots[i].value.title == t;
      if i < m {
        assert r[i] == slots[i];
      } else {
        assert r[i + 1] == slots[i];
      }
    }
    if HasTitle(r, t) && x.title != t {
      var i :| 0 <= i < |r| && r[i].Some? && r[i].value.title == t;
      if i < m {
        assert r[i] == slots[i];
      } else {
        assert i != m;
        assert r[i] == slots[i - 1];
      }
    }
  }

  /** A title get_episode finds keeps being found, and after its pass the entry's own title is found. */
  lemma StepKeepsFound(slots: Slots, e: Entry, number: nat, ctx: Context, t: string)
    requires Find(slots, t).Found? || t == e.title
    requires Step(slots, e, number, ctx).Running?
    ensures Find(Step(slots, e, number, ctx).slots, t).Found?
  {
    match Find(slots, e.title)
    case Absent =>
      FindAfterInsert(slots, number, FeedEpisode(e, ctx.folder, number, ctx.now, ctx.onDisk), t);
    case Found(i) =>
      var s := slots[i := Some(Refreshed(slots[i].value, e, number, ctx.now))];
      assert SameShape(s, slots);
      FindSameShape(s, slots, t);
      FindSameShape(s, slots, e.title);
  }

  lemma {:induction false} SyncKeepsFound(slots: Slots, es: seq<Entry>, number: nat, ctx: Context, t: string)
    requires Find(slots, t).Found? || t in FeedTitles(es)
    requires Sync(slots, es, number, ctx).Running?
    ensures Find(Sync(slots, es, number, ctx).slots, t).Found?
    decreases |es|
  {
    if es != [] {
      assert FeedTitles(es) == {es[0].title} + FeedTitles(es[1..]) by {
        assert es == [es[0]] + es[1..];
      }
      match Step(slots, es[0], number, ctx)
      case Running(s) =>
        if Find(slots, t).Found? || t == es[0].title {
          StepKeepsFound(slots, es[0], number, ctx, t);
        }
        SyncKeepsFound(s, es[1..], number + 1, ctx, t);
    }
  }

  /** When get_episode finds every entry's title, a pass only refreshes: no slot is added or moved. */
  lemma {:induction false} SyncRefreshesOnly(slots: Slots, es: seq<Entry>, number: nat, ctx: Context)
    requires forall e :: e in es ==> Find(slots, e.title).Found?
    ensures Sync(slots, es, number, ctx).Running?
    ensures SameShape(Sync(slots, es, number, ctx).slots, slots)
    decreases |es|
  {
    if es != [] {
      var e := es[0];
      var i := Find(slots, e.title).index;
      var s := slots[i := Some(Refreshed(slots[i].value, e, number, ctx.now))];
      assert Step(slots, e, number, ctx) == Running(s);
      assert SameShape(s, slots);
      forall e' | e' in es[1..]
        ensures Find(s, e'.title).Found?
      {
        FindSameShape(s, slots, e'.title);
      }
      SyncRefreshesOnly(s, es[1..], number + 1, ctx);
    }
  }

  /** The position of the last entry at or after m with title t, entries numbered by position. */
  function LastFrom(es: seq<Entry>, t: string, m: nat): (r: Option<nat>)
    ensures r.Some? ==> m <= r.value < |es| && es[r.value].title == t
    ensures r.Some? ==> forall k :: r.value < k < |es| ==> es[k].title != t
    ensures r.None? ==> forall k :: m <= k < |es| ==> es[k].title != t
    decreases |es| - m
  {
    if m >= |es| then None
    else match LastFrom(es, t, m + 1)
      case Some(j) => Some(j)
      case None => if es[m].title == t then Some(m) else None
  }

  /** Every entry at or after m titled t offers the audio URL u. */
  predicate UrlsAgree(es: seq<Entry>, t: string, m: nat, u: Option<string>) {
    forall k :: m <= k < |es| && es[k].title == t ==> LastAudio(es[k].links) == u
  }

  /** An episode refreshed, in order, by every entry at or after m that carries its title. */
  function RefreshFrom(s: EpisodeState, es: seq<Entry>, m: nat, now: Time): EpisodeState
    decreases |es| - m
  {
    if m >= |es| then s
    else RefreshFrom(if es[m].title == s.title then Refreshed(s, es[m], m, now) else s, es, m + 1, now)
  }

  /**
   * The refreshes for one title in closed form: the last such entry decides
   * number, URL, summary and published time, and `downloaded` survives only
   * when every such entry offers the URL the episode already had.
   */
  lemma {:induction false} RefreshFromLast(s: EpisodeState, es: seq<Entry>, m: nat, now: Time)
    ensures RefreshFrom(s, es, m, now) == match LastFrom(es, s.title, m)
      case None => s
      case Some(j) => s.(lastUpdated := now, episodeNumber := j, url := LastAudio(es[j].links),
                         downloaded := s.downloaded && UrlsAgree(es, s.title, m, s.url),
                         summary := es[j].summary, published := es[j].publishedParsed)
    decreases |es| - m
  {
    if m < |es| {
      var s' := if es[m].title == s.title then Refreshed(s, es[m], m, now) else s;
      RefreshFromLast(s', es, m + 1, now);
      if es[m].title == s.title {
        assert UrlsAgree(es, s.title, m, s.url) <==> LastAudio(es[m].links) == s.url && UrlsAgree(es, s.title, m + 1, LastAudio(es[m].links));
      } else {
        assert UrlsAgree(es, s.title, m, s.url) <==> UrlsAgree(es, s.title, m + 1, s.url);
      }
    }
  }

  /** An episode in the state the entries es leave it in, refreshed at `now`: a fixed point of those refreshes. */
  predicate Settled(s: EpisodeState, es: seq<Entry>, now: Time) {
    match LastFrom(es, s.title, 0)
    case None => true
    case Some(j) =>
      && s.lastUpdated == now && s.episodeNumber == j && s.url == LastAudio(es[j].links)
      && s.summary == es[j].summary && s.published == es[j].publishedParsed
      && (s.downloaded ==> UrlsAgree(es, s.title, 0, s.url))
  }

  /** Every title among es is found, and its first copy is settled with respect to es. */
  predicate SettledFor(slots: Slots, es: seq<Entry>, now: Time) {
    forall t :: t in FeedTitles(es) ==> Find(slots, t).Found? && Settled(slots[Find(slots, t).index].value, es, now)
  }

  lemma LastFromAppend(es: seq<Entry>, e: Entry, t: string)
    ensures LastFrom(es + [e], t, 0) == if e.title == t then Some(|es|) else LastFrom(es, t, 0)
  {
    var a := LastFrom(es + [e], t, 0);
    var b := LastFrom(es, t, 0);
    if e.title != t {
      if a.Some? {
        assert (es + [e])[a.value] == es[a.value];
      }
      if b.Some? {
        assert (es + [e])[b.value] == es[b.value];
      }
    } else {
      assert (es + [e])[|es|].title == t;
    }
  }

  /** Settledness with one more entry: the new entry decides for its own title and changes nothing for others. */
  lemma SettledAppend(x: EpisodeState, es: seq<Entry>, e: Entry, now: Time)
    requires x.title != e.title ==> Settled(x, es, now)
    requires x.title == e.title ==>
      (&& x.lastUpdated == now && x.episodeNumber == |es| && x.url == LastAudio(e.links)
       && x.summary == e.summary && x.published == e.publishedParsed
       && (x.downloaded ==> UrlsAgree(es, x.title, 0, x.url)))
    ensures Settled(x, es + [e], now)
  {
    LastFromAppend(es, e, x.title);
    var es' := es + [e];
    forall k | 0 <= k < |es| ensures es'[k] == es[k] { }
    if x.title != e.title {
      assert UrlsAgree(es', x.title, 0, x.url) <==> UrlsAgree(es, x.title, 0, x.url);
    } else {
      assert es'[|es|] == e;
    }
  }

  /** After an insertion of another title, a title found before is found at its shifted position. */
  lemma FindInsertOther(slots: Slots, k: nat, x: EpisodeState, t: string)
    requires Find(slots, t).Found? && x.title != t
    ensures var i := Find(slots, t).index; var m := if k < |slots| then k else |slots|;
      Find(Insert(slots, k, Some(x)), t) == Found(if m <= i then i + 1 else i)
  {
    var i := Find(slots, t).index;
    var m := if k < |slots| then k else |slots|;
    var r := Insert(slots, k, Some(x));
    InsertAt(slots, k, Some(x));
    if m <= i {
      assert r[i + 1] == slots[i];
      forall j | 0 <= j < i + 1 ensures r[j].Some? && r[j].value.title != t {
        if j > m { assert r[j] == slots[j - 1]; }
      }
      FindFirst(r, t, i + 1);
    } else {
      assert r[i] == slots[i];
      forall j | 0 <= j < i ensures r[j].Some? && r[j].value.title != t {
        assert r[j] == slots[j];
      }
      FindFirst(r, t, i);
    }
  }

  /** One pass of the first update keeps every seen title's first copy settled. */
  lemma StepSettles(slots: Slots, all: seq<Entry>, n: nat, ctx: Context)
    requires n < |all| && SettledFor(slots, all[..n], ctx.now)
    requires Step(slots, all[n], n, ctx).Running?
    ensures SettledFor(Step(slots, all[n], n, ctx).slots, all[..n + 1], ctx.now)
  {
    var p, e := all[..n], all[n];
    assert all[..n + 1] == p + [e];
    var after := Step(slots, e, n, ctx).slots;
    forall t | t in FeedTitles(p + [e])
      ensures Find(after, t).Found? && Settled(after[Find(after, t).index].value, p + [e], ctx.now)
    {
      var seen := t in FeedTitles(p);
      if !seen {
        assert t == e.title;
        forall k | 0 <= k < |p| ensures p[k].title != t {
          assert p[k] in p;
        }
      }
      match Find(slots, e.title)
      case Absent =>
        var x := FeedEpisode(e, ctx.folder, n, ctx.now, ctx.onDisk);
        var m := if n < |slots| then n else |slots|;
        InsertAt(slots, n, Some(x));
        if t == e.title {
          forall j | 0 <= j < m ensures after[j].Some? && after[j].value.title != t {
            assert after[j] == slots[j];
          }
          FindFirst(after, t, m);
          SettledAppend(x, p, e, ctx.now);
        } else {
          FindInsertOther(slots, n, x, t);
          var i := Find(slots, t).index;
          assert after[if m <= i then i + 1 else i] == slots[i];
          SettledAppend(slots[i].value, p, e, ctx.now);
        }
      case Found(i) =>
        var x := Refreshed(slots[i].value, e, n, ctx.now);
        assert SameShape(after, slots);
        FindSameShape(after, slots, t);
        if t == e.title {
          SettledAppend(x, p, e, ctx.now);
        } else {
          var j := Find(slots, t).index;
          assert after[j] == slots[j];
          SettledAppend(slots[j].value, p, e, ctx.now);
        }
    }
  }

  /** The first update leaves the first copy of every feed title settled with respect to the whole feed. */
  lemma {:induction false} SyncSettles(slots: Slots, all: seq<Entry>, n: nat, ctx: Context)
    requires n <= |all| && SettledFor(slots, all[..n], ctx.now)
    requires Sync(slots, all[n..], n, ctx).Running?
    ensures SettledFor(Sync(slots, all[n..], n, ctx).slots, all, ctx.now)
    decreases |all| - n
  {
    if n == |all| {
      assert all[..n] == all;
    } else {
      assert all[n..][0] == all[n] && all[n..][1..] == all[n + 1..];
      match Step(slots, all[n], n, ctx)
      case Running(s) =>
        StepSettles(slots, all, n, ctx);
        SyncSettles(s, all, n + 1, ctx);
    }
  }

  /** The slots with the first copy of every title refreshed by the entries at or after m that carry it. */
  function RefreshedFirsts(slots: Slots, es: seq<Entry>, m: nat, now: Time): (r: Slots)
    ensures |r| == |slots|
  {
    seq(|slots|, i requires 0 <= i < |slots| =>
      if slots[i].Some? && Find(slots, slots[i].value.title) == Found(i)
      then Some(RefreshFrom(slots[i].value, es, m, now)) else slots[i])
  }

  /** When every remaining title is found, the loop only refreshes each title's first copy, entry by entry. */
  lemma {:induction false} SyncRefreshesFirsts(slots: Slots, all: seq<Entry>, m: nat, ctx: Context)
    requires m <= |all|
    requires forall k :: m <= k < |all| ==> Find(slots, all[k].title).Found?
    ensures Sync(slots, all[m..], m, ctx) == Running(RefreshedFirsts(slots, all, m, ctx.now))
    decreases |all| - m
  {
    if m == |all| {
      assert RefreshedFirsts(slots, all, m, ctx.now) == slots;
    } else {
      var e := all[m];
      var i := Find(slots, e.title).index;
      var s := slots[i := Some(Refreshed(slots[i].value, e, m, ctx.now))];
      assert all[m..][0] == e && all[m..][1..] == all[m + 1..];
      assert Step(slots, e, m, ctx) == Running(s);
      assert SameShape(s, slots);
      forall k | m + 1 <= k < |all|
        ensures Find(s, all[k].title).Found?
      {
        FindSameShape(s, slots, all[k].title);
      }
      SyncRefreshesFirsts(s, all, m + 1, ctx);
      RefreshedFirstsStep(slots, all, m, ctx.now);
    }
  }

  /** Refreshing the first copy of the entry's title, then the rest, is refreshing every first copy from m on. */
  lemma RefreshedFirstsStep(slots: Slots, all: seq<Entry>, m: nat, now: Time)
    requires m < |all| && Find(slots, all[m].title).Found?
    ensures var i := Find(slots, all[m].title).index;
      RefreshedFirsts(slots[i := Some(Refreshed(slots[i].value, all[m], m, now))], all, m + 1, now)
        == RefreshedFirsts(slots, all, m, now)
  {
    var i := Find(slots, all[m].title).index;
    var s := slots[i := Some(Refreshed(slots[i].value, all[m], m, now))];
    assert SameShape(s, slots);
    forall j | 0 <= j < |slots|
      ensures RefreshedFirsts(s, all, m + 1, now)[j] == RefreshedFirsts(slots, all, m, now)[j]
    {
      if slots[j].Some? {
        FindSameShape(s, slots, slots[j].value.title);
      }
    }
  }

  lemma FeedTitlesReverse(es: seq<Entry>)
    ensures FeedTitles(Reverse(es)) == FeedTitles(es)
  {
    var rev := Reverse(es);
    forall e | e in rev ensures e in es {
      var i :| 0 <= i < |rev| && rev[i] == e;
      assert es[|rev| - 1 - i] == e;
    }
    forall e | e in es ensures e in rev {
      var i :| 0 <= i < |rev| && es[i] == e;
      assert rev[|rev| - 1 - i] == e;
    }
  }

  /** Refreshing settled first copies again changes only their refresh time. */
  lemma SettledRefreshedFirsts(once: Slots, es: seq<Entry>, now: Time, now2: Time)
    requires SettledFor(once, es, now)
    ensures var twice := RefreshedFirsts(once, es, 0, now2);
      && (forall i :: 0 <= i < |once| ==>
            twice[i] == (if once[i].Some? && once[i].value.title in FeedTitles(es) && Find(once, once[i].value.title) == Found(i)
                         then Some(once[i].value.(lastUpdated := now2)) else once[i]))
      && (now2 == now ==> twice == once)
  {
    var twice := RefreshedFirsts(once, es, 0, now2);
    forall i | 0 <= i < |once| && once[i].Some? && Find(once, once[i].value.title) == Found(i)
      ensures twice[i] == if once[i].value.title in FeedTitles(es) then Some(once[i].value.(lastUpdated := now2)) else once[i]
    {
      var x := once[i].value;
      RefreshFromLast(x, es, 0, now2);
      if x.title in FeedTitles(es) {
        var e :| e in es && e.title == x.title;
        assert Settled(x, es, now);
      }
    }
  }

  /**
   * update is idempotent: a second update with the same feed (which the
   * unchanged stored timestamp lets through again) inserts nothing and
   * changes nothing but the refresh time of each feed title's first copy;
   * numbers, URLs, `downloaded` flags, summaries and published times stay as
   * the first update left them. The second run may see another time and
   * other files on disk (`ctx2`); at the same time, the list is identical.
   */
  lemma UpdateTwiceInsertsNothing(slots: Slots, storedTitle: string, storedUpdated: Time, feed: Feed, forced: bool,
                                  ctx: Context, ctx2: Context)
    requires UpdateResult(slots, storedTitle, storedUpdated, feed, forced, ctx).0 == Updated
    ensures var once := UpdateResult(slots, storedTitle, storedUpdated, feed, forced, ctx).1;
      var twice := UpdateResult(once, storedTitle, storedUpdated, feed, forced, ctx2);
      && twice.0 == Updated && SameShape(twice.1, once) && |twice.1| == |once|
      && (forall i :: 0 <= i < |once| ==>
            twice.1[i] == (if once[i].Some? && once[i].value.title in FeedTitles(feed.entries) && Find(once, once[i].value.title) == Found(i)
                           then Some(once[i].value.(lastUpdated := ctx2.now)) else once[i]))
      && (ctx2.now == ctx.now ==> twice.1 == once)
  {
    var rev := Reverse(feed.entries);
    var once := Sync(slots, rev, 0, ctx).slots;
    forall e | e in rev
      ensures Find(once, e.title).Found?
    {
      SyncKeepsFound(slots, rev, 0, ctx, e.title);
    }
    SyncRefreshesOnly(once, rev, 0, ctx2);
    assert rev[0..] == rev && rev[..0] == [];
    SyncSettles(slots, rev, 0, ctx);
    forall k | 0 <= k < |rev| ensures Find(once, rev[k].title).Found? {
      assert rev[k] in rev;
    }
    SyncRefreshesFirsts(once, rev, 0, ctx2);
    FeedTitlesReverse(feed.entries);
    SettledRefreshedFirsts(once, rev, ctx.now, ctx2.now);
  }

  // ---------------------------------------------------------------------
  // Manifest.from_fp

  /** The episodes from_fp builds from the oldest-first entries: entry i becomes episode number i. */
  function Bootstrap(es: seq<Entry>, ctx: Context): (r: Slots)
    ensures |r| == |es| && NoGaps(r)
  {
    seq(|es|, i requires 0 <= i < |es| => Some(FeedEpisode(es[i], ctx.folder, i, ctx.now, ctx.onDisk)))
  }

  /** A first manifest numbers its episodes 0..n-1 by position, oldest entry first. */
  lemma BootstrapNumbering(entries: seq<Entry>, ctx: Context)
    ensures var r := Bootstrap(Reverse(entries), ctx);
      && |r| == |entries| && NoGaps(r)
      && forall i :: 0 <= i < |r| ==> r[i].value.episodeNumber == i && r[i].value.title == entries[|entries| - 1 - i].title
  {
  }

  predicate DistinctTitles(es: seq<Entry>) {
    forall i, j :: 0 <= i < j < |es| ==> es[i].title != es[j].title
  }

  lemma {:induction false} SyncExtends(all: seq<Entry>, n: nat, ctx: Context)
    requires n <= |all| && DistinctTitles(all)
    ensures Sync(Bootstrap(all[..n], ctx), all[n..], n, ctx) == Running(Bootstrap(all, ctx))
    decreases |all| - n
  {
    var p := Bootstrap(all[..n], ctx);
    if n == |all| {
      assert all[..n] == all;
    } else {
      var e := all[n];
      assert !HasTitle(p, e.title) by {
        forall i | 0 <= i < |p| ensures p[i].value.title != e.title {
          assert p[i].value.title == all[i].title;
        }
      }
      FindNoGaps(p, e.title);
      var x := FeedEpisode(e, ctx.folder, n, ctx.now, ctx.onDisk);
      assert Insert(p, n, Some(x)) == p + [Some(x)];
      assert p + [Some(x)] == Bootstrap(all[..n + 1], ctx);
      assert Find(p, e.title) == Absent;
      assert Step(p, e, n, ctx) == Running(Bootstrap(all[..n + 1], ctx));
      assert all[n..][0] == e && all[n..][1..] == all[n + 1..];
      SyncExtends(all, n + 1, ctx);
    }
  }

  /** With distinct titles, updating an empty manifest gives exactly what from_fp builds. */
  lemma BootstrapAgreesWithUpdate(feed: Feed, ctx: Context)
    requires DistinctTitles(feed.entries)
    ensures Sync([], Reverse(feed.entries), 0, ctx) == Running(Bootstrap(Reverse(feed.entries), ctx))
  {
    var rev := Reverse(feed.entries);
    assert DistinctTitles(rev) by {
      forall i, j | 0 <= i < j < |rev| ensures rev[i].title != rev[j].title {
        assert rev[i] == feed.entries[|rev| - 1 - i] && rev[j] == feed.entries[|rev| - 1 - j];
      }
    }
    assert rev[..0] == [] && rev[0..] == rev;
    assert Bootstrap([], ctx) == [];
    SyncExtends(rev, 0, ctx);
  }

  /**
   * One might expect episodes[i].episode_number == i after every update, the
   * numbering from_fp gives; it does not hold: an episode gone from the feed
   * keeps its old number while an insertion before it shifts its position.
   */
  lemma NumberingCanDrift(old_: EpisodeState, e: Entry, ctx: Context)
    requires old_.episodeNumber == 0 && old_.title != e.title
    ensures Sync([Some(old_)], [e], 0, ctx) == Running([Some(FeedEpisode(e, ctx.folder, 0, ctx.now, ctx.onDisk)), Some(old_)])
    ensures Sync([Some(old_)], [e], 0, ctx).slots[1].value.episodeNumber != 1
  {
    assert Find([Some(old_)], e.title) == Absent;
  }

  // ---------------------------------------------------------------------
  // save_to_json and Manifest.from_json

  /** The episode records save_to_json writes, or None when a None slot makes `episode.to_json()` raise. */
  function Saved(slots: Slots): (r: Option<seq<EpisodeDict>>)
    ensures r.Some? <==> NoGaps(slots)
    ensures r.Some? ==> |r.value| == |slots| && forall i :: 0 <= i < |slots| ==> r.value[i] == ToJson(slots[i].value)
  {
    if slots == [] then Some([])
    else match slots[0]
      case None => None
      case Some(s) =>
        match Saved(slots[1..])
        case None => None
        case Some(rest) => Some([ToJson(s)] + rest)
  }

  /** from_json's loop: one slot per stored record, numbered by position; a rejected record leaves a None slot. */
  function Loaded(records: seq<EpisodeDict>, ctx: Context): (r: Slots)
    ensures |r| == |records|
    ensures forall i :: 0 <= i < |records| ==> (r[i].None? <==> Decoded(records[i], ctx.folder, i, ctx.now, ctx.onDisk).Failure?)
    ensures forall i :: 0 <= i < |records| ==> r[i].Some? ==> r[i].value.episodeNumber == i
  {
    seq(|records|, i requires 0 <= i < |records| => Decoded(records[i], ctx.folder, i, ctx.now, ctx.onDisk).ToOption())
  }

  /** Episodes kept in the manifest's folder, each with a url. */
  predicate Storable(slots: Slots, folder: string) {
    && NoGaps(slots)
    && PathsIn(slots, folder)
    && forall i :: 0 <= i < |slots| ==> slots[i].value.url.Some?
  }

  /** Every episode's file_path is the one derived from its title in this folder. */
  predicate PathsIn(slots: Slots, folder: string) {
    forall i :: 0 <= i < |slots| && slots[i].Some? ==> slots[i].value.filePath == FilePathFor(folder, slots[i].value.title)
  }

  /** from_fp derives every file path in the manifest's folder. */
  lemma BootstrapPathsIn(es: seq<Entry>, ctx: Context)
    ensures PathsIn(Bootstrap(es, ctx), ctx.folder)
  {
  }

  /** from_json derives every file path in the folder it loads from. */
  lemma LoadedPathsIn(records: seq<EpisodeDict>, ctx: Context)
    ensures PathsIn(Loaded(records, ctx), ctx.folder)
  {
  }

  lemma StepKeepsPaths(slots: Slots, e: Entry, number: nat, ctx: Context)
    requires PathsIn(slots, ctx.folder)
    ensures PathsIn(Step(slots, e, number, ctx).slots, ctx.folder)
  {
    match Find(slots, e.title)
    case Fault =>
    case Absent =>
      InsertAt(slots, number, Some(FeedEpisode(e, ctx.folder, number, ctx.now, ctx.onDisk)));
      var r := Step(slots, e, number, ctx).slots;
      var k := if number < |slots| then number else |slots|;
      forall i | 0 <= i < |r| && r[i].Some? ensures r[i].value.filePath == FilePathFor(ctx.folder, r[i].value.title) {
        if i < k { assert r[i] == slots[i]; } else if i > k { assert r[i] == slots[i - 1]; }
      }
    case Found(i) =>
  }

  lemma {:induction false} SyncKeepsPaths(slots: Slots, es: seq<Entry>, number: nat, ctx: Context)
    requires PathsIn(slots, ctx.folder)
    ensures PathsIn(Sync(slots, es, number, ctx).slots, ctx.folder)
    decreases |es|
  {
    if es != [] {
      StepKeepsPaths(slots, es[0], number, ctx);
      match Step(slots, es[0], number, ctx)
      case Stopped(s) =>
      case Running(s) =>
        SyncKeepsPaths(s, es[1..], number + 1, ctx);
    }
  }

  /** update keeps every file path derived in the manifest's folder: inserted episodes get theirs there, refreshed ones keep theirs. */
  lemma UpdateKeepsPaths(slots: Slots, storedTitle: string, storedUpdated: Time, feed: Feed, forced: bool, ctx: Context)
    requires PathsIn(slots, ctx.folder)
    ensures PathsIn(UpdateResult(slots, storedTitle, storedUpdated, feed, forced, ctx).1, ctx.folder)
  {
    SyncKeepsPaths(slots, Reverse(feed.entries), 0, ctx);
  }

  /**
   * Saving and loading a manifest gives the same episodes in the same order,
   * with title, url, published, summary, tags and file_path kept and every
   * episode renumbered by its position.
   */
  lemma LoadAfterSave(slots: Slots, ctx: Context)
    requires Storable(slots, ctx.folder)
    ensures Saved(slots).Some?
    ensures var r := Loaded(Saved(slots).value, ctx);
      && |r| == |slots| && NoGaps(r)
      && forall i :: 0 <= i < |r| ==>
           var a, b := slots[i].value, r[i].value;
           b.title == a.title && b.url == a.url && b.published == a.published && b.summary == a.summary
           && b.tags == a.tags && b.filePath == a.filePath && b.episodeNumber == i
  {
    var recs := Saved(slots).value;
    forall i | 0 <= i < |slots|
      ensures Decoded(recs[i], ctx.folder, i, ctx.now, ctx.onDisk).Success?
    {
      RoundTrip(slots[i].value, ctx.folder, i, ctx.now, ctx.onDisk);
    }
  }

  // ---------------------------------------------------------------------
  // download_episodes

  /** The episodes after a batch of downloads, the number of download_file calls, and whether a None slot raised. */
  datatype Batch = Batch(slots: Slots, fetches: nat, fault: bool)

  /** download_episodes with no selection, from slot `from` on: each episode in list order; a None slot raises. */
  function DownloadFrom(slots: Slots, from: nat, verbosity: int, force: bool): (b: Batch)
    ensures |b.slots| == |slots|
    decreases |slots| - from
  {
    if from >= |slots| then Batch(slots, 0, false)
    else match slots[from]
      case None => Batch(slots, 0, true)
      case Some(s) =>
        var rest := DownloadFrom(slots[from := Some(AfterDownload(s, verbosity, force))], from + 1, verbosity, force);
        Batch(rest.slots, DownloadEffect(s.downloaded, verbosity, force).fetches + rest.fetches, rest.fault)
  }

  /** The batch raises exactly when a None slot comes at or after `from`. */
  lemma {:induction false} DownloadFromFault(slots: Slots, from: nat, verbosity: int, force: bool)
    requires from <= |slots|
    ensures DownloadFrom(slots, from, verbosity, force).fault <==> exists j :: from <= j < |slots| && slots[j].None?
    decreases |slots| - from
  {
    if from < |slots| && slots[from].Some? {
      var s' := slots[from := Some(AfterDownload(slots[from].value, verbosity, force))];
      DownloadFromFault(s', from + 1, verbosity, force);
      if exists j :: from <= j < |slots| && slots[j].None? {
        var j :| from <= j < |slots| && slots[j].None?;
        assert s'[j].None?;
      }
    }
  }

  /** With no None slot from `from` on, every episode from there on is downloaded, and those before are left alone. */
  lemma {:induction false} DownloadFromEach(slots: Slots, from: nat, verbosity: int, force: bool)
    requires from <= |slots|
    requires forall j :: from <= j < |slots| ==> slots[j].Some?
    ensures var b := DownloadFrom(slots, from, verbosity, force);
      forall i :: 0 <= i < |slots| ==>
        b.slots[i] == if from <= i then Some(AfterDownload(slots[i].value, verbosity, force)) else slots[i]
    decreases |slots| - from
  {
    if from < |slots| {
      var s' := slots[from := Some(AfterDownload(slots[from].value, verbosity, force))];
      DownloadFromEach(s', from + 1, verbosity, force);
    }
  }

  /** download_episodes() downloads every episode of a manifest without None slots. */
  lemma DownloadAllEach(slots: Slots, verbosity: int, force: bool)
    requires NoGaps(slots)
    ensures var b := DownloadFrom(slots, 0, verbosity, force);
      !b.fault && forall i :: 0 <= i < |slots| ==> b.slots[i] == Some(AfterDownload(slots[i].value, verbosity, force))
  {
    DownloadFromFault(slots, 0, verbosity, force);
    DownloadFromEach(slots, 0, verbosity, force);
  }

  /** The calls of download a selector resolves to: the episode at an index, nothing, or an exception. */
  datatype Target = At(index: nat) | Skip | Raise

  /** An element of download_episodes' `episodes` list: an int, a str, or an object of another type. */
  datatype Selector = Position(index: int) | Text(text: string) | Other

  /** str.isnumeric() for ASCII digits. */
  predicate IsNumeric(s: string) {
    |s| > 0 && forall i :: 0 <= i < |s| ==> '0' <= s[i] <= '9'
  }

  /** int(s) for a string of ASCII digits. */
  function DecimalValue(s: string): nat
    requires forall i :: 0 <= i < |s| ==> '0' <= s[i] <= '9'
  {
    if s == [] then 0 else 10 * DecimalValue(s[..|s| - 1]) + (s[|s| - 1] as int - '0' as int)
  }

  /** int() ignores leading zeros: "007" selects episode 7. */
  lemma {:induction false} DecimalLeadingZero(s: string)
    requires forall i :: 0 <= i < |s| ==> '0' <= s[i] <= '9'
    ensures DecimalValue(['0'] + s) == DecimalValue(s)
    decreases |s|
  {
    if s != [] {
      var t := ['0'] + s;
      assert t[..|t| - 1] == ['0'] + s[..|s| - 1];
      DecimalLeadingZero(s[..|s| - 1]);
    }
  }

  /**
   * Which episode a selector names: an int indexes the list as Python does
   * (a negative one from the end; out of range raises IndexError), a numeric
   * string indexes it too, any other string goes through get_episode (where
   * a miss makes `None.download` raise), and any other object is skipped.
   */
  function Resolve(slots: Slots, sel: Selector): (t: Target)
    ensures t.At? ==> t.index < |slots|
  {
    match sel
    case Position(i) =>
      if 0 <= i < |slots| then At(i) else if -|slots| <= i < 0 then At(i + |slots|) else Raise
    case Text(s) =>
      if IsNumeric(s) then (if DecimalValue(s) < |slots| then At(DecimalValue(s)) else Raise)
      else (match Find(slots, s) case Found(i) => At(i) case _ => Raise)
    case Other => Skip
  }

  /** download_episodes with a selection: each selector in turn; the first exception ends the batch. */
  function DownloadSelected(slots: Slots, sels: seq<Selector>, verbosity: int, force: bool): (b: Batch)
    ensures |b.slots| == |slots|
    decreases |sels|
  {
    if sels == [] then Batch(slots, 0, false)
    else match Resolve(slots, sels[0])
      case Skip => DownloadSelected(slots, sels[1..], verbosity, force)
      case Raise => Batch(slots, 0, true)
      case At(i) =>
        match slots[i]
        case None => Batch(slots, 0, true)
        case Some(s) =>
          var rest := DownloadSelected(slots[i := Some(AfterDownload(s, verbosity, force))], sels[1..], verbosity, force);
          Batch(rest.slots, DownloadEffect(s.downloaded, verbosity, force).fetches + rest.fetches, rest.fault)
  }

  /** download_episodes(verbosity, force, episodes). */
  function DownloadEpisodesResult(slots: Slots, verbosity: int, force: bool, selection: Option<seq<Selector>>): (b: Batch)
    ensures |b.slots| == |slots|
    ensures selection.None? && NoGaps(slots) ==> !b.fault
  {
    match selection
    case None => DownloadFromFault(slots, 0, verbosity, force); DownloadFrom(slots, 0, verbosity, force)
    case Some(sels) => DownloadSelected(slots, sels, verbosity, force)
  }

  /** b differs from a at most in the `downloaded` flags. */
  predicate OnlyDownloadedDiffers(a: Slots, b: Slots) {
    && |a| == |b|
    && forall i :: 0 <= i < |a| ==> a[i].Some? == b[i].Some? && (a[i].Some? ==> b[i].value == a[i].value.(downloaded := b[i].value.downloaded))
  }

  /** The selectors 0, 1, ..., n-1 from `from` on, as ints. */
  function Positions(from: nat, n: nat): (r: seq<Selector>)
    decreases n - from
  {
    if from >= n then [] else [Position(from)] + Positions(from + 1, n)
  }

  /** Selecting every index in order is the same as selecting nothing: both download the whole list. */
  lemma {:induction false} SelectingEveryIndex(slots: Slots, from: nat, verbosity: int, force: bool)
    requires from <= |slots|
    ensures DownloadSelected(slots, Positions(from, |slots|), verbosity, force) == DownloadFrom(slots, from, verbosity, force)
    decreases |slots| - from
  {
    if from < |slots| {
      var sels := Positions(from, |slots|);
      assert sels[0] == Position(from) && sels[1..] == Positions(from + 1, |slots|);
      if slots[from].Some? {
        var s' := slots[from := Some(AfterDownload(slots[from].value, verbosity, force))];
        SelectingEveryIndex(s', from + 1, verbosity, force);
      }
    }
  }

  /** Downloads touch nothing but `downloaded`, and never the shape of the list. */
  lemma {:induction false} DownloadSelectedOnlyFlags(slots: Slots, sels: seq<Selector>, verbosity: int, force: bool)
    ensures OnlyDownloadedDiffers(slots, DownloadSelected(slots, sels, verbosity, force).slots)
    decreases |sels|
  {
    if sels != [] {
      match Resolve(slots, sels[0])
      case Skip =>
        DownloadSelectedOnlyFlags(slots, sels[1..], verbosity, force);
      case Raise =>
      case At(i) =>
        if slots[i].Some? {
          var s' := slots[i := Some(AfterDownload(slots[i].value, verbosity, force))];
          DownloadSelectedOnlyFlags(s', sels[1..], verbosity, force);
        }
    }
  }

  predicate AllDownloaded(slots: Slots) {
    forall i :: 0 <= i < |slots| ==> slots[i].Some? ==> slots[i].value.downloaded
  }

  /** Nothing is fetched and nothing changes when every episode is already downloaded and force is off. */
  lemma {:induction false} SkipWhenPresent(slots: Slots, sels: seq<Selector>, verbosity: int)
    requires AllDownloaded(slots)
    ensures DownloadSelected(slots, sels, verbosity, false).fetches == 0
    ensures DownloadSelected(slots, sels, verbosity, false).slots == slots
    decreases |sels|
  {
    if sels != [] {
      match Resolve(slots, sels[0])
      case Skip =>
        SkipWhenPresent(slots, sels[1..], verbosity);
      case Raise =>
      case At(i) =>
        if slots[i].Some? {
          assert AfterDownload(slots[i].value, verbosity, false) == slots[i].value;
          assert slots[i := Some(slots[i].value)] == slots;
          SkipWhenPresent(slots, sels[1..], verbosity);
        }
    }
  }
}
