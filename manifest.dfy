/**
 * The Manifest object of manifest.py: one subscribed feed's metadata and its
 * ordered list of Episode objects. Each method is proved against the
 * functions of module Reconcile applied to the list's contents.
 */
module Manifests {
  import opened Wrappers
  import opened FileUtils
  import opened Episodes
  import opened Reconcile

  /** A stored manifest: the record save_to_json writes and from_json reads. */
  datatype ManifestData = ManifestData(title: string, author: string, lastUpdated: Time, url: string, episodes: seq<EpisodeDict>)

  /** The values held by a list of episode objects; a null element is a None slot. */
  function SlotsOf(es: seq<Episode?>): (r: Slots)
    reads es
    ensures |r| == |es|
    ensures forall i :: 0 <= i < |es| ==> r[i] == if es[i] == null then None else Some(es[i].Snapshot())
  {
    seq(|es|, i requires 0 <= i < |es| reads es => if es[i] == null then None else Some(es[i].Snapshot()))
  }

  lemma SlotsOfAppend(es: seq<Episode?>, e: Episode?)
    ensures SlotsOf(es + [e]) == SlotsOf(es) + [if e == null then None else Some(e.Snapshot())]
  {
    var r := SlotsOf(es + [e]);
    assert forall i :: 0 <= i < |es| ==> (es + [e])[i] == es[i];
  }

  lemma LoadedAppend(records: seq<EpisodeDict>, n: nat, ctx: Context)
    requires n < |records|
    ensures Loaded(records[..n + 1], ctx)
         == Loaded(records[..n], ctx) + [Decoded(records[n], ctx.folder, n, ctx.now, ctx.onDisk).ToOption()]
  {
    assert forall i :: 0 <= i < n ==> records[..n + 1][i] == records[..n][i];
  }

  lemma BootstrapAppend(es: seq<Entry>, n: nat, ctx: Context)
    requires n < |es|
    ensures Bootstrap(es[..n + 1], ctx) == Bootstrap(es[..n], ctx) + [Some(FeedEpisode(es[n], ctx.folder, n, ctx.now, ctx.onDisk))]
  {
    assert forall i :: 0 <= i < n ==> es[..n + 1][i] == es[..n][i];
  }

  /** No episode object occurs twice in the list. */
  predicate Distinct(es: seq<Episode?>) {
    forall i, j :: 0 <= i < j < |es| && es[i] != null ==> es[i] != es[j]
  }

  /** The folder from_fp derives from a feed title: "../", the sanitized title with spaces as underscores, "/". */
  function FeedFolder(title: string): string {
    "../" + Sanitized(Replaced(title, ' ', '_')) + "/"
  }

  /** One entry of update's loop, in terms of the rest of the fold. */
  lemma SyncAdvance(slots: Slots, es: seq<Entry>, number: nat, ctx: Context, stopped: bool, next: Slots)
    requires number < |es|
    requires Step(slots, es[number], number, ctx) == if stopped then Stopped(next) else Running(next)
    ensures stopped ==> Sync(slots, es[number..], number, ctx) == Stopped(next)
    ensures !stopped ==> Sync(slots, es[number..], number, ctx) == Sync(next, es[number + 1..], number + 1, ctx)
  {
    assert es[number..][0] == es[number] && es[number..][1..] == es[number + 1..];
  }

  lemma SlotsOfConcat(a: seq<Episode?>, b: seq<Episode?>)
    ensures SlotsOf(a + b) == SlotsOf(a) + SlotsOf(b)
  {
    assert forall i :: 0 <= i < |a| ==> (a + b)[i] == a[i];
    assert forall i :: |a| <= i < |a + b| ==> (a + b)[i] == b[i - |a|];
  }

  lemma SlotsOfSlices(es: seq<Episode?>, m: nat)
    requires m <= |es|
    ensures SlotsOf(es[..m]) == SlotsOf(es)[..m] && SlotsOf(es[m..]) == SlotsOf(es)[m..]
  {
  }

  lemma SlotsOfInsert(es: seq<Episode?>, k: nat, e: Episode)
    ensures SlotsOf(Insert(es, k, e)) == Insert(SlotsOf(es), k, Some(e.Snapshot()))
  {
    var m := if k < |es| then k else |es|;
    SlotsOfConcat(es[..m] + [e], es[m..]);
    SlotsOfConcat(es[..m], [e]);
    SlotsOfSlices(es, m);
  }

  lemma InsertFrom(es: seq<Episode?>, k: nat, e: Episode)
    ensures forall j :: 0 <= j < |Insert(es, k, e)| ==> Insert(es, k, e)[j] == e || Insert(es, k, e)[j] in es
  {
    InsertAt(es, k, e);
    var m := if k < |es| then k else |es|;
    forall j | 0 <= j < |Insert(es, k, e)| ensures Insert(es, k, e)[j] == e || Insert(es, k, e)[j] in es {
      if j > m {
        assert Insert(es, k, e)[(j - 1) + 1] == es[j - 1];
      }
    }
  }

  lemma DistinctInsert(es: seq<Episode?>, k: nat, e: Episode)
    requires Distinct(es) && e !in es
    ensures Distinct(Insert(es, k, e))
  {
    InsertAt(es, k, e);
    var r := Insert(es, k, e);
    var m := if k < |es| then k else |es|;
    forall i, j | 0 <= i < j < |r| && r[i] != null ensures r[i] != r[j] {
      var i' := if i < m then i else i - 1;
      var j' := if j <= m then j else j - 1;
      if i != m && j != m {
        assert r[i] == es[i'] && r[j] == es[j'];
      } else if i == m {
        assert r[j] == es[j'];
      } else {
        assert r[i] == es[i'];
      }
    }
  }

  /** Objects carrying their own positions as episode numbers are distinct. */
  lemma NumberedDistinct(es: seq<Episode?>)
    requires forall i :: 0 <= i < |es| && es[i] != null ==> es[i].Snapshot().episodeNumber == i
    ensures Distinct(es)
  {
  }

  /** from_fp's folder computation, through clean_path. */
  method FolderOf(title: string) returns (dir: string)
    ensures dir == FeedFolder(title)
  {
    var name := CleanPath(Replaced(title, ' ', '_'));
    dir := "../" + name + "/";
  }

  /** A space in a feed title survives as an underscore; the other characters are sanitized. */
  lemma FeedFolderKeepsSpaces(a: string, b: string)
    ensures FeedFolder(a + " " + b) == "../" + Sanitized(Replaced(a, ' ', '_')) + "_" + Sanitized(Replaced(b, ' ', '_')) + "/"
  {
    ReplacedAround(a, b, ' ', '_');
    SanitizedConcat(Replaced(a, ' ', '_') + "_", Replaced(b, ' ', '_'));
    SanitizedConcat(Replaced(a, ' ', '_'), "_");
    SanitizedChar('_');
  }

  class Manifest {
    var title: string
    var author: string
    var folder: string
    var url: string
    var lastUpdated: Time
    var episodes: seq<Episode?>

    ghost predicate Valid()
      reads this
    {
      Distinct(episodes)
    }

    /** The episode list as values. */
    function Contents(): Slots
      reads this, episodes
    {
      SlotsOf(episodes)
    }

    /** The environment new episodes of this manifest are built in. */
    function Env(now: Time, onDisk: set<string>): Context
      reads this
    {
      Context(folder, now, onDisk)
    }

    /** Manifest(): every field empty. */
    constructor ()
      ensures Valid()
      ensures title == "" && author == "" && folder == "" && url == "" && lastUpdated == [] && episodes == []
    {
      title, author, folder, url := "", "", "", "";
      lastUpdated := [];
      episodes := [];
    }

    /**
     * from_json, given the stored record `data` that read_manifest returned
     * for `path`: one episode per stored record, numbered by position, and a
     * null where from_dict rejected the record.
     */
    constructor FromJson(path: string, data: ManifestData, now: Time, onDisk: set<string>)
      ensures Valid()
      ensures title == data.title && author == data.author && lastUpdated == data.lastUpdated
      ensures folder == path && url == data.url
      ensures Contents() == Loaded(data.episodes, Context(path, now, onDisk))
    {
      var ctx := Context(path, now, onDisk);
      var eps: seq<Episode?> := [];
      for number := 0 to |data.episodes|
        invariant |eps| == number
        invariant SlotsOf(eps) == Loaded(data.episodes[..number], ctx)
      {
        var e := Episode.FromDict(data.episodes[number], path, number, now, onDisk);
        SlotsOfAppend(eps, e);
        LoadedAppend(data.episodes, number, ctx);
        eps := eps + [e];
      }
      assert data.episodes[..|data.episodes|] == data.episodes;
      NumberedDistinct(eps);
      title := data.title;
      author := data.author;
      lastUpdated := data.lastUpdated;
      folder := path;
      url := data.url;
      episodes := eps;
    }

    /** Manifest.from_fp: the first manifest of a feed, its entries oldest first and numbered 0..n-1. */
    constructor FromFp(feed: Feed, now: Time, onDisk: set<string>)
      ensures Valid()
      ensures title == feed.title && author == feed.author && url == feed.href && lastUpdated == feed.updatedParsed
      ensures folder == FeedFolder(feed.title)
      ensures Contents() == Bootstrap(Reverse(feed.entries), Context(folder, now, onDisk))
    {
      var dir := FolderOf(feed.title);
      var ctx := Context(dir, now, onDisk);
      var entries := Reverse(feed.entries);
      var eps: seq<Episode?> := [];
      for number := 0 to |entries|
        invariant |eps| == number
        invariant SlotsOf(eps) == Bootstrap(entries[..number], ctx)
      {
        var e := Episode.FromFp(entries[number], dir, number, now, onDisk);
        SlotsOfAppend(eps, e);
        BootstrapAppend(entries, number, ctx);
        eps := eps + [e];
      }
      assert SlotsOf(eps) == Bootstrap(Reverse(feed.entries), ctx) by {
        assert entries[..|entries|] == entries;
      }
      NumberedDistinct(eps);
      title := feed.title;
      author := feed.author;
      folder := dir;
      url := feed.href;
      lastUpdated := feed.updatedParsed;
      episodes := eps;
    }

    /** save_to_json's record; None when a None slot makes it raise. The write itself is file I/O. */
    function SaveToJson(): (r: Option<ManifestData>)
      reads this, episodes
      ensures r.Some? <==> NoGaps(Contents())
      ensures r.Some? ==>
        && r.value.title == title && r.value.author == author && r.value.url == url
        && r.value.lastUpdated == lastUpdated && |r.value.episodes| == |episodes|
        && forall i :: 0 <= i < |episodes| ==> r.value.episodes[i] == ToJson(episodes[i].Snapshot())
    {
      match Saved(Contents())
      case None => None
      case Some(records) => Some(ManifestData(title, author, lastUpdated, url, records))
    }

    /**
     * update, given the feed fp.parse returned: nothing when the feed's
     * timestamp matches and the call is not forced, nothing when the titles
     * differ, otherwise each entry, oldest first, refreshes the first episode
     * with its title or is inserted at its position; an AttributeError from
     * get_episode on a None slot ends the loop with the changes made so far.
     */
    method Update(feed: Feed, forced: bool, now: Time, onDisk: set<string>) returns (outcome: Outcome)
      requires Valid()
      modifies this, episodes
      ensures Valid()
      ensures title == old(title) && author == old(author) && folder == old(folder)
      ensures url == old(url) && lastUpdated == old(lastUpdated)
      ensures (outcome, Contents()) == UpdateResult(old(Contents()), title, lastUpdated, feed, forced, Env(now, onDisk))
    {
      if lastUpdated == feed.updatedParsed && !forced {
        // "Manifest up to date.."
        return UpToDate;
      }
      if title != feed.title {
        // the loop is skipped, though "Manifest updated" is still reported
        return TitleMismatch;
      }
      var entries := Reverse(feed.entries);
      ghost var ctx := Env(now, onDisk);
      ghost var goal := Sync(Contents(), entries, 0, ctx);
      ghost var current := Contents();
      var number := 0;
      while number < |entries|
        invariant 0 <= number <= |entries|
        invariant Valid()
        invariant title == old(title) && author == old(author) && folder == old(folder)
        invariant url == old(url) && lastUpdated == old(lastUpdated)
        invariant forall k :: 0 <= k < |episodes| && episodes[k] != null ==> episodes[k] in old(episodes) || fresh(episodes[k])
        invariant current == Contents()
        invariant goal == Sync(current, entries[number..], number, ctx)
      {
        ghost var previous := current;
        var stopped := Absorb(entries[number], number, now, onDisk);
        current := Contents();
        SyncAdvance(previous, entries, number, ctx, stopped, current);
        if stopped {
          return Interrupted;
        }
        number := number + 1;
      }
      return Updated;
    }

    /** One pass of update's loop: get_episode, then update_fp on the episode found or an insertion at `number`. */
    method Absorb(entry: Entry, number: nat, now: Time, onDisk: set<string>) returns (stopped: bool)
      requires Valid()
      modifies this, episodes
      ensures Valid()
      ensures title == old(title) && author == old(author) && folder == old(folder)
      ensures url == old(url) && lastUpdated == old(lastUpdated)
      ensures forall k :: 0 <= k < |episodes| && episodes[k] != null ==> episodes[k] in old(episodes) || fresh(episodes[k])
      ensures Step(old(Contents()), entry, number, Env(now, onDisk)) == if stopped then Stopped(Contents()) else Running(Contents())
    {
      ghost var before := Contents();
      var found, fault := GetEpisode(entry.title);
      if fault {
        return true;
      }
      if found == null {
        InsertNew(entry, number, now, onDisk);
      } else {
        RefreshAt(found, Find(before, entry.title).index, entry, number, now);
      }
      return false;
    }

    /** The `insert(number, Episode.from_fp(...))` arm of update's loop. */
    method InsertNew(entry: Entry, number: nat, now: Time, onDisk: set<string>)
      requires Valid()
      modifies this
      ensures Valid()
      ensures title == old(title) && author == old(author) && folder == old(folder)
      ensures url == old(url) && lastUpdated == old(lastUpdated)
      ensures forall k :: 0 <= k < |episodes| && episodes[k] != null ==> episodes[k] in old(episodes) || fresh(episodes[k])
      ensures Contents() == Insert(old(Contents()), number, Some(FeedEpisode(entry, folder, number, now, onDisk)))
    {
      var e := Episode.FromFp(entry, folder, number, now, onDisk);
      SlotsOfInsert(episodes, number, e);
      DistinctInsert(episodes, number, e);
      InsertFrom(episodes, number, e);
      episodes := Insert(episodes, number, e);
    }

    /** The `update_fp` arm of update's loop, on the episode at index i. */
    method RefreshAt(found: Episode, ghost i: nat, entry: Entry, number: int, now: Time)
      requires Valid() && i < |episodes| && episodes[i] == found
      modifies found
      ensures Contents() == old(Contents())[i := Some(Refreshed(old(found.Snapshot()), entry, number, now))]
    {
      ghost var before := Contents();
      label L:
      found.UpdateFp(entry, number, now);
      forall j | 0 <= j < |episodes| ensures Contents()[j] == before[i := Some(found.Snapshot())][j] {
        if j != i && episodes[j] != null {
          assert episodes[j] != found;
          assert episodes[j].Snapshot() == old@L(episodes[j].Snapshot());
        }
      }
    }

    /**
     * download_episodes: with no selection every episode in list order,
     * otherwise each selector in turn; an exception (a None slot, an index
     * out of range, a title get_episode does not find) ends the batch, and
     * save_to_json runs only when none was raised. `written` is the record
     * save_to_json writes, None when the batch or the save raised.
     */
    method DownloadEpisodes(verbosity: int, force: bool, selection: Option<seq<Selector>>)
      returns (fetches: nat, fault: bool, written: Option<ManifestData>)
      requires Valid()
      modifies episodes
      ensures Batch(Contents(), fetches, fault) == DownloadEpisodesResult(old(Contents()), verbosity, force, selection)
      ensures written == if fault then None else SaveToJson()
    {
      if selection.None? {
        fetches, fault := DownloadAll(verbosity, force);
      } else {
        fetches, fault := DownloadList(selection.value, verbosity, force);
      }
      written := if fault then None else SaveToJson();
    }

    /** download_episodes' first loop: `for episode in self.episodes`. */
    method DownloadAll(verbosity: int, force: bool) returns (fetches: nat, fault: bool)
      requires Valid()
      modifies episodes
      ensures Batch(Contents(), fetches, fault) == DownloadFrom(old(Contents()), 0, verbosity, force)
    {
      fetches, fault := 0, false;
      ghost var goal := DownloadFrom(Contents(), 0, verbosity, force);
      var k := 0;
      while k < |episodes|
        invariant 0 <= k <= |episodes|
        invariant var rest := DownloadFrom(Contents(), k, verbosity, force);
          goal == Batch(rest.slots, fetches + rest.fetches, rest.fault)
      {
        var e := episodes[k];
        if e == null {
          // `None.download` raises AttributeError
          return fetches, true;
        }
        var n := DownloadAt(e, k, verbosity, force);
        fetches := fetches + n;
        k := k + 1;
      }
    }

    /** download_episodes' second loop: `for episode in episodes`. */
    method DownloadList(sels: seq<Selector>, verbosity: int, force: bool) returns (fetches: nat, fault: bool)
      requires Valid()
      modifies episodes
      ensures Batch(Contents(), fetches, fault) == DownloadSelected(old(Contents()), sels, verbosity, force)
    {
      fetches, fault := 0, false;
      ghost var goal := DownloadSelected(Contents(), sels, verbosity, force);
      var k := 0;
      while k < |sels|
        invariant 0 <= k <= |sels|
        invariant var rest := DownloadSelected(Contents(), sels[k..], verbosity, force);
          goal == Batch(rest.slots, fetches + rest.fetches, rest.fault)
      {
        assert sels[k..][0] == sels[k] && sels[k..][1..] == sels[k + 1..];
        var t := Locate(sels[k]);
        match t {
          case Raise =>
            return fetches, true;
          case Skip =>
          case At(i) =>
            var e := episodes[i];
            if e == null {
              // `None.download` raises AttributeError
              return fetches, true;
            }
            var n := DownloadAt(e, i, verbosity, force);
            fetches := fetches + n;
        }
        k := k + 1;
      }
    }

    /** The episode a selector names, as download_episodes finds it. */
    method Locate(sel: Selector) returns (t: Target)
      ensures t == Resolve(Contents(), sel)
    {
      match sel
      case Position(i) =>
        // self.episodes[i], negative indices counting from the end
        if 0 <= i < |episodes| {
          t := At(i);
        } else if -|episodes| <= i < 0 {
          t := At(i + |episodes|);
        } else {
          t := Raise;
        }
      case Text(s) =>
        if IsNumeric(s) {
          var n := DecimalValue(s);
          t := if n < |episodes| then At(n) else Raise;
        } else {
          var found, fault := GetEpisode(s);
          t := if found == null then Raise else At(Find(Contents(), s).index);
        }
      case Other =>
        t := Skip;
    }

    /** `episode.download(verbosity, force)` on the episode at index i. */
    method DownloadAt(e: Episode, ghost i: nat, verbosity: int, force: bool) returns (fetches: nat)
      requires Valid() && i < |episodes| && episodes[i] == e
      modifies e
      ensures fetches == DownloadEffect(old(e.downloaded), verbosity, force).fetches
      ensures Contents() == old(Contents())[i := Some(AfterDownload(old(e.Snapshot()), verbosity, force))]
    {
      ghost var before := Contents();
      label L:
      fetches := e.Download(verbosity, force);
      forall j | 0 <= j < |episodes| ensures Contents()[j] == before[i := Some(e.Snapshot())][j] {
        if j != i && episodes[j] != null {
          assert episodes[j] != e;
          assert episodes[j].Snapshot() == old@L(episodes[j].Snapshot());
        }
      }
    }

    /** get_episode: the first episode with this title; `fault` when a None slot is met first. */
    method GetEpisode(t: string) returns (found: Episode?, fault: bool)
      ensures fault <==> Find(Contents(), t).Fault?
      ensures found != null <==> Find(Contents(), t).Found?
      ensures Find(Contents(), t).Found? ==> found == episodes[Find(Contents(), t).index]
    {
      var i := 0;
      while i < |episodes|
        invariant 0 <= i <= |episodes|
        invariant forall j :: 0 <= j < i ==> episodes[j] != null && episodes[j].title != t
      {
        var e := episodes[i];
        if e == null {
          // `episode.title` on None raises AttributeError
          return null, true;
        }
        if e.title == t {
          FindFirst(Contents(), t, i);
          return e, false;
        }
        i := i + 1;
      }
      return null, false;
    }
  }
}
