/**
 * The Episode entity of episode.py: one feed item's metadata plus its local
 * download state. The pure part (how an episode is derived from its
 * constructor arguments, a stored record or a feed entry, and what a refresh
 * or a download does to it) is stated on the value EpisodeState; the class
 * Episode carries the same attributes and its methods update them in place.
 */
module Episodes {
  import opened Wrappers
  import opened FileUtils

  /** A time.struct_time, or the list of its fields as it is stored in JSON. */
  type Time = seq<int>

  /** One element of a feed entry's `links`: its `type` and its `href`. */
  datatype Link = Link(kind: string, href: string)

  /** A parsed feed entry, as the feed parser hands it over (its `published_parsed` as `publishedParsed`). */
  datatype Entry = Entry(title: string, links: seq<Link>, summary: string, publishedParsed: Time)

  /** The attributes of an Episode object. */
  datatype EpisodeState = EpisodeState(
    title: string,
    filePath: string,
    url: Option<string>,
    downloaded: bool,
    episodeNumber: int,
    published: Time,
    summary: string,
    lastUpdated: Time,
    tags: seq<string>)

  /** A stored episode record, key by key; None stands for a missing key or a null value. */
  datatype EpisodeDict = EpisodeDict(
    title: Option<string>,
    filePath: Option<string>,
    url: Option<string>,
    downloaded: Option<bool>,
    episodeNumber: Option<int>,
    published: Option<Time>,
    summary: Option<string>,
    lastUpdated: Option<Time>,
    tags: Option<seq<string>>)

  /** The keys from_dict requires, each named in the message it reports when the key is missing. */
  datatype Key = TitleKey | UrlKey | PublishedKey | SummaryKey | TagsKey

  // ---------------------------------------------------------------------
  // File names

  /** str.lower() on one character (ASCII letters only). */
  function LowerChar(c: char): (r: char)
    ensures !('A' <= r <= 'Z')
    ensures 'A' <= c <= 'Z' ==> r as int - c as int == 'a' as int - 'A' as int
    ensures !('A' <= c <= 'Z') ==> r == c
  {
    if 'A' <= c <= 'Z' then (c as int + 32) as char else c
  }

  /** str.lower(): the same length, no upper-case letter left, every other character kept. */
  function Lower(s: string): (r: string)
    ensures |r| == |s|
    ensures forall i :: 0 <= i < |s| ==> r[i] == LowerChar(s[i]) && !('A' <= r[i] <= 'Z')
  {
    seq(|s|, i requires 0 <= i < |s| => LowerChar(s[i]))
  }

  /** `s.replace(a, b)` for single characters: every a becomes b, nothing else changes. */
  function Replaced(s: string, a: char, b: char): (r: string)
    ensures |r| == |s|
  {
    seq(|s|, i requires 0 <= i < |s| => if s[i] == a then b else s[i])
  }

  /** Replacing works piecewise around an occurrence of the replaced character. */
  lemma ReplacedAround(x: string, y: string, a: char, b: char)
    ensures Replaced(x + [a] + y, a, b) == Replaced(x, a, b) + [b] + Replaced(y, a, b)
  {
  }

  /** The file name an episode title gets: lower-cased, slashes turned into dashes, then sanitized. */
  function FileName(title: string): (name: string)
    ensures forall i :: 0 <= i < |name| ==> !Denied(name[i]) && name[i] != '/'
  {
    Sanitized(Replaced(Lower(title), '/', '-'))
  }

  /** The `file_path` of an episode with this title kept in this folder. */
  function FilePathFor(folder: string, title: string): string {
    folder + FileName(title) + ".mp3"
  }

  /** The path is the folder, then one component free of denylisted characters, then ".mp3". */
  lemma FilePathShape(folder: string, title: string)
    ensures var p := FilePathFor(folder, title);
      && |p| == |folder| + |FileName(title)| + 4
      && p[..|folder|] == folder
      && p[|p| - 4..] == ".mp3"
      && forall i :: |folder| <= i < |p| - 4 ==> p[i] != '/' && !Denied(p[i])
  {
    var p := FilePathFor(folder, title);
    forall i | |folder| <= i < |p| - 4
      ensures p[i] != '/' && !Denied(p[i])
    {
      assert p[i] == FileName(title)[i - |folder|];
    }
  }

  /** A '/' in a title becomes a '-' of the file name; it is not deleted. */
  lemma SlashBecomesDash(a: string, b: string)
    ensures FileName(a + "/" + b) == FileName(a) + "-" + FileName(b)
  {
    assert Lower(a + "/" + b) == Lower(a) + "/" + Lower(b);
    ReplacedAround(Lower(a), Lower(b), '/', '-');
    SanitizedConcat(Replaced(Lower(a), '/', '-') + "-", Replaced(Lower(b), '/', '-'));
    SanitizedConcat(Replaced(Lower(a), '/', '-'), "-");
    SanitizedChar('-');
  }

  // ---------------------------------------------------------------------
  // Construction

  /** What Episode.__init__ derives from its arguments; `onDisk` stands for os.path.exists, `now` for time.localtime(). */
  function Constructed(title: string, folder: string, url: Option<string>, number: int, published: Time,
                       summary: string, tags: seq<string>, now: Time, onDisk: set<string>): EpisodeState
  {
    var path := FilePathFor(folder, title);
    EpisodeState(title, path, url, path in onDisk, number, published, summary, now, tags)
  }

  /** Python's `sub in s` on strings. */
  predicate Contains(s: string, sub: string)
    decreases |s|
  {
    sub <= s || (s != [] && Contains(s[1..], sub))
  }

  /** `sub` occurs in `s` starting at position i. */
  predicate OccursAt(s: string, sub: string, i: nat) {
    i + |sub| <= |s| && s[i..i + |sub|] == sub
  }

  /** The scan Contains finds `sub` exactly when it occurs at some position of `s`. */
  lemma {:induction false} ContainsOccurs(s: string, sub: string)
    ensures Contains(s, sub) <==> exists i: nat :: OccursAt(s, sub, i)
    decreases |s|
  {
    if sub <= s {
      assert OccursAt(s, sub, 0);
    }
    if s != [] {
      ContainsOccurs(s[1..], sub);
      if exists i: nat :: OccursAt(s[1..], sub, i) {
        var i: nat :| OccursAt(s[1..], sub, i);
        assert s[1..][i..i + |sub|] == s[i + 1..i + 1 + |sub|];
        assert OccursAt(s, sub, i + 1);
      }
    }
    if exists i: nat :: OccursAt(s, sub, i) {
      var i: nat :| OccursAt(s, sub, i);
      if i == 0 {
        assert sub <= s;
      } else {
        assert s[1..][i - 1..i - 1 + |sub|] == s[i..i + |sub|];
        assert OccursAt(s[1..], sub, i - 1);
      }
    }
  }

  /** `'audio' in link['type']`. */
  predicate IsAudio(link: Link) {
    Contains(link.kind, "audio")
  }

  /** The href of the last link whose type contains "audio", or None when there is none. */
  function LastAudio(links: seq<Link>): (url: Option<string>)
    ensures url.None? <==> forall i :: 0 <= i < |links| ==> !IsAudio(links[i])
    ensures url.Some? ==> exists i :: 0 <= i < |links| && IsAudio(links[i]) && links[i].href == url.value
                                   && forall j :: i < j < |links| ==> !IsAudio(links[j])
  {
    if links == [] then None
    else if IsAudio(links[|links| - 1]) then Some(links[|links| - 1].href)
    else LastAudio(links[..|links| - 1])
  }

  /** The link scan of update_fp and from_fp: `url` is overwritten by every audio link's href. */
  method ScanAudioLinks(links: seq<Link>) returns (url: Option<string>)
    ensures url == LastAudio(links)
  {
    url := None;
    for i := 0 to |links|
      invariant url == LastAudio(links[..i])
    {
      assert links[..i + 1][..i] == links[..i];
      if IsAudio(links[i]) {
        url := Some(links[i].href);
      }
    }
    assert links[..|links|] == links;
  }

  /** What from_fp builds from a feed entry: no tags, and the URL of the entry's last audio link. */
  function FeedEpisode(e: Entry, folder: string, number: int, now: Time, onDisk: set<string>): (s: EpisodeState)
    ensures s.title == e.title && s.filePath == FilePathFor(folder, e.title)
    ensures s.url == LastAudio(e.links) && s.tags == []
    ensures s.episodeNumber == number && s.summary == e.summary && s.published == e.publishedParsed
  {
    Constructed(e.title, folder, LastAudio(e.links), number, e.publishedParsed, e.summary, [], now, onDisk)
  }

  /**
   * What from_dict makes of a stored record: the first of title, url,
   * published, summary, tags (in that order) that is missing or null is
   * reported and no episode is built; otherwise the episode is constructed
   * from those five values, in this folder and with this number.
   */
  function Decoded(d: EpisodeDict, folder: string, number: int, now: Time, onDisk: set<string>): (r: Result<EpisodeState, Key>)
    ensures r.Failure? <==> d.title.None? || d.url.None? || d.published.None? || d.summary.None? || d.tags.None?
    ensures r == Failure(TitleKey) <==> d.title.None?
    ensures r == Failure(UrlKey) <==> d.title.Some? && d.url.None?
    ensures r == Failure(PublishedKey) <==> d.title.Some? && d.url.Some? && d.published.None?
    ensures r == Failure(SummaryKey) <==> d.title.Some? && d.url.Some? && d.published.Some? && d.summary.None?
    ensures r == Failure(TagsKey) <==> d.title.Some? && d.url.Some? && d.published.Some? && d.summary.Some? && d.tags.None?
    ensures r.Success? ==> var s := r.value;
      && s.title == d.title.value && s.url == d.url && s.published == d.published.value
      && s.summary == d.summary.value && s.tags == d.tags.value && s.episodeNumber == number
      && s.filePath == FilePathFor(folder, s.title) && s.lastUpdated == now
  {
    if d.title.None? then Failure(TitleKey)
    else if d.url.None? then Failure(UrlKey)
    else if d.published.None? then Failure(PublishedKey)
    else if d.summary.None? then Failure(SummaryKey)
    else if d.tags.None? then Failure(TagsKey)
    else Success(Constructed(d.title.value, folder, d.url, number, d.published.value, d.summary.value,
                             d.tags.value, now, onDisk))
  }

  /** to_json: every attribute under its own key; a None url is stored as null. */
  function ToJson(s: EpisodeState): EpisodeDict {
    EpisodeDict(Some(s.title), Some(s.filePath), s.url, Some(s.downloaded), Some(s.episodeNumber),
                Some(s.published), Some(s.summary), Some(s.lastUpdated), Some(s.tags))
  }

  /**
   * Saving and loading an episode keeps its title, url, published, summary,
   * tags and file_path, as long as it has a url and is loaded into the folder
   * its file_path was derived from. The number is the one given on loading;
   * `downloaded` is probed afresh.
   */
  lemma RoundTrip(s: EpisodeState, folder: string, number: int, now: Time, onDisk: set<string>)
    requires s.url.Some? && s.filePath == FilePathFor(folder, s.title)
    ensures Decoded(ToJson(s), folder, number, now, onDisk).Success?
    ensures var t := Decoded(ToJson(s), folder, number, now, onDisk).value;
      && t.title == s.title && t.url == s.url && t.published == s.published && t.summary == s.summary
      && t.tags == s.tags && t.filePath == s.filePath && t.episodeNumber == number
      && t.downloaded == (s.filePath in onDisk)
  {
  }

  /** An episode without a url does not survive being saved and loaded: its record lacks 'url'. */
  lemma RoundTripWithoutUrl(s: EpisodeState, folder: string, number: int, now: Time, onDisk: set<string>)
    requires s.url.None?
    ensures Decoded(ToJson(s), folder, number, now, onDisk) == Failure(UrlKey)
  {
  }

  // ---------------------------------------------------------------------
  // Refresh and download

  /** What update_fp makes of an episode, given a feed entry, its chronological number and the time. */
  function Refreshed(s: EpisodeState, e: Entry, number: int, now: Time): (r: EpisodeState)
  {
    var url := LastAudio(e.links);
    s.(lastUpdated := now, episodeNumber := number, url := url,
       downloaded := if url != s.url then false else s.downloaded,
       summary := e.summary, published := e.publishedParsed)
  }

  /**
   * A refresh renumbers the episode and takes over the entry's audio URL,
   * summary and published time; title, file_path and tags stay; `downloaded`
   * survives exactly when the URL is the same as before, and is never set.
   */
  lemma RefreshKeepsLocalState(s: EpisodeState, e: Entry, number: int, now: Time)
    ensures var r := Refreshed(s, e, number, now);
      && r.episodeNumber == number && r.lastUpdated == now
      && r.title == s.title && r.filePath == s.filePath && r.tags == s.tags
      && r.url == LastAudio(e.links) && r.summary == e.summary && r.published == e.publishedParsed
      && (r.downloaded <==> s.downloaded && r.url == s.url)
  {
  }

  /** Refreshing twice from the same entry is refreshing once. */
  lemma RefreshIdempotent(s: EpisodeState, e: Entry, number: int, now: Time)
    ensures Refreshed(Refreshed(s, e, number, now), e, number, now) == Refreshed(s, e, number, now)
  {
  }

  /** How many times download calls download_file, and the `downloaded` flag afterwards. */
  datatype DownloadStep = DownloadStep(fetches: nat, downloaded: bool)

  /**
   * download's decision: nothing happens when the file is present and the
   * download is not forced; otherwise verbosity 0 fetches silently without
   * recording it, a positive verbosity fetches and records it, and a
   * negative one does nothing.
   */
  function DownloadEffect(downloaded: bool, verbosity: int, force: bool): (r: DownloadStep)
    ensures r.fetches <= 1
    ensures r.fetches == 0 ==> r.downloaded == downloaded
    ensures r.downloaded != downloaded ==> r.fetches == 1 && r.downloaded
    ensures downloaded && !force ==> r == DownloadStep(0, downloaded)
    ensures (force || !downloaded) && verbosity > 0 ==> r == DownloadStep(1, true)
    ensures (force || !downloaded) && verbosity == 0 ==> r == DownloadStep(1, downloaded)
    ensures (force || !downloaded) && verbosity < 0 ==> r == DownloadStep(0, downloaded)
  {
    if force || !downloaded then
      if verbosity == 0 then DownloadStep(1, downloaded)
      else if verbosity > 0 then DownloadStep(1, true)
      else DownloadStep(0, downloaded)
    else DownloadStep(0, downloaded)
  }

  /** The episode after download: only `downloaded` can change. */
  function AfterDownload(s: EpisodeState, verbosity: int, force: bool): EpisodeState {
    s.(downloaded := DownloadEffect(s.downloaded, verbosity, force).downloaded)
  }

  // ---------------------------------------------------------------------
  // The object

  /**
   * An episode object. No operation of the core reassigns its title,
   * file_path or tags, so they are constants here: the file path stays the
   * one derived when the object was built.
   */
  class Episode {
    const title: string
    const filePath: string
    var url: Option<string>
    var downloaded: bool
    var episodeNumber: int
    var published: Time
    var summary: string
    var lastUpdated: Time
    const tags: seq<string>

    /** The object's attributes as a value (its `__dict__`). */
    function Snapshot(): EpisodeState
      reads this
    {
      EpisodeState(title, filePath, url, downloaded, episodeNumber, published, summary, lastUpdated, tags)
    }

    /** Episode.__init__: file_path derived from folder and title, `downloaded` probed on disk. */
    constructor (title: string, folder: string, url: Option<string>, number: int, published: Time,
                 summary: string, tags: seq<string>, now: Time, onDisk: set<string>)
      ensures Snapshot() == Constructed(title, folder, url, number, published, summary, tags, now, onDisk)
    {
      var name := CleanPath(Replaced(Lower(title), '/', '-'));
      var path := folder + name + ".mp3";
      this.title := title;
      this.filePath := path;
      this.url := url;
      this.downloaded := path in onDisk;
      this.episodeNumber := number;
      this.published := published;
      this.summary := summary;
      this.lastUpdated := now;
      this.tags := tags;
    }

    /** from_dict: null when a required key is missing (the key is reported on the console). */
    static method FromDict(d: EpisodeDict, folder: string, number: int, now: Time, onDisk: set<string>)
      returns (e: Episode?)
      ensures e == null <==> Decoded(d, folder, number, now, onDisk).Failure?
      ensures e != null ==> fresh(e) && e.Snapshot() == Decoded(d, folder, number, now, onDisk).value
    {
      if d.title.None? {
        return null;
      }
      if d.url.None? {
        return null;
      }
      if d.published.None? {
        return null;
      }
      if d.summary.None? {
        return null;
      }
      if d.tags.None? {
        return null;
      }
      e := new Episode(d.title.value, folder, d.url, number, d.published.value, d.summary.value,
                       d.tags.value, now, onDisk);
    }

    /** from_fp: an episode built from a feed entry, with no tags. */
    static method FromFp(entry: Entry, folder: string, number: int, now: Time, onDisk: set<string>)
      returns (e: Episode)
      ensures fresh(e) && e.Snapshot() == FeedEpisode(entry, folder, number, now, onDisk)
    {
      var url := ScanAudioLinks(entry.links);
      // with no audio link, "No valid audio file" is reported and url stays None
      e := new Episode(entry.title, folder, url, number, entry.publishedParsed, entry.summary, [], now, onDisk);
    }

    /** update_fp: a field-level refresh from a feed entry. */
    method UpdateFp(entry: Entry, number: int, now: Time)
      modifies this
      ensures Snapshot() == Refreshed(old(Snapshot()), entry, number, now)
      ensures episodeNumber == number && (downloaded <==> old(downloaded) && url == old(url))
    {
      lastUpdated := now;
      episodeNumber := number;
      var newUrl := ScanAudioLinks(entry.links);
      var newSummary := entry.summary;
      var newPublished := entry.publishedParsed;
      if newUrl != url {
        url := newUrl;
        downloaded := false;
      }
      if newSummary != summary {
        summary := newSummary;
      }
      if newPublished != published {
        published := newPublished;
      }
    }

    /**
     * download: `fetches` counts the calls of download_file (0 or 1); only
     * `downloaded` may change, and only as DownloadEffect says.
     */
    method Download(verbosity: int, force: bool) returns (fetches: nat)
      modifies this
      ensures fetches == DownloadEffect(old(downloaded), verbosity, force).fetches
      ensures Snapshot() == AfterDownload(old(Snapshot()), verbosity, force)
    {
      fetches := 0;
      if force || !downloaded {
        if verbosity == 0 {
          fetches := 1;
        } else if verbosity > 0 {
          fetches := 1;
          downloaded := true;
        }
      }
    }
  }
}
