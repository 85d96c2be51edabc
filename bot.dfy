/**
 * The parts of `src/main.rs` that decide what the bot posts: start-up loading of
 * the blacklist, and in `pr0_fetch` the blacklist filter, the sort by score, the
 * random choice, the blacklist push with the cache-file save, and the posted URL.
 * The HTTP request, the chat client and the random generator stay outside: the
 * fetched candidates, the previous cache-file text and the random draw are inputs.
 */
module Bot {
  import opened Prelude
  import opened Cache
  import CacheFile

  /** `CACHE_SIZE`: how much room is reserved in the blacklist after loading. */
  const CacheSize: nat := 128
  const VideoHost: string := "https://vid.pr0gramm.com/"
  const ImageHost: string := "https://img.pr0gramm.com/"
  const NoImageFound: string := "no image found"

  /** The fields of a gallery item that the command uses (`thumb` and `created` are not read). */
  datatype Image = Image(id: u64, image: string, up: int, down: int)

  /** What a successful command posts: the chosen item and its URL. */
  datatype Posted = Posted(image: Image, url: string)

  predicate EndsWith(s: string, suffix: string)
  {
    |suffix| <= |s| && s[|s| - |suffix|..] == suffix
  }

  /** A string ends with `suffix` exactly when it is some stem followed by `suffix`. */
  lemma EndsWithIff(s: string, suffix: string)
    ensures EndsWith(s, suffix) <==> exists stem :: s == stem + suffix
  {
    if EndsWith(s, suffix) {
      assert s == s[..|s| - |suffix|] + suffix;
    }
    forall stem | s == stem + suffix ensures EndsWith(s, suffix) {
      assert s[|s| - |suffix|..] == suffix;
    }
  }

  /** `file_is_video`: the name is some stem followed by `.webm` or by `.mp4`. */
  function FileIsVideo(f: string): (r: bool)
    ensures r <==> (exists stem :: f == stem + ".webm") || (exists stem :: f == stem + ".mp4")
  {
    EndsWithIff(f, ".webm");
    EndsWithIff(f, ".mp4");
    EndsWith(f, ".webm") || EndsWith(f, ".mp4")
  }

  /**
   * The URL the bot posts for an item's `image` path: the video host for videos, the
   * image host otherwise, followed by the path itself.
   */
  function PostUrl(image: string): (url: string)
    ensures |url| == |VideoHost| + |image| && url[|VideoHost|..] == image
    ensures url[..|VideoHost|] == VideoHost <==> FileIsVideo(image)
    ensures url[..|ImageHost|] == ImageHost <==> !FileIsVideo(image)
  {
    assert VideoHost[8] != ImageHost[8];
    if FileIsVideo(image) then VideoHost + image else ImageHost + image
  }

  /** Distinct paths give distinct URLs: the posted URL names the chosen item's file. */
  lemma PostUrlInjective(a: string, b: string)
    requires PostUrl(a) == PostUrl(b)
    ensures a == b
  {
  }

  /**
   * Candidates whose id the blacklist's set does not contain, in their original
   * order: each one was fetched and none is blacklisted.
   */
  function Unlisted(images: seq<Image>, lookup: set<u64>): (r: seq<Image>)
    ensures forall x :: x in r ==> x in images && x.id !in lookup
    decreases |images|
  {
    if images == [] then []
    else
      var last := images[|images| - 1];
      var kept := Unlisted(images[..|images| - 1], lookup);
      if last.id in lookup then kept else kept + [last]
  }

  /**
   * The filter keeps every candidate whose id is not blacklisted, as often as it
   * occurs, and drops every other one.
   */
  lemma {:induction false} UnlistedCounts(images: seq<Image>, lookup: set<u64>)
    ensures forall x :: multiset(Unlisted(images, lookup))[x] ==
                        if x.id in lookup then 0 else multiset(images)[x]
    decreases |images|
  {
    if images != [] {
      var init := images[..|images| - 1];
      var last := images[|images| - 1];
      UnlistedCounts(init, lookup);
      assert images == init + [last];
    }
  }

  /** `f` maps each position of `r` to a position of `s` holding the same item, increasingly. */
  ghost predicate EmbedsBy(r: seq<Image>, s: seq<Image>, f: seq<nat>)
  {
    && |f| == |r|
    && (forall i :: 0 <= i < |f| ==> f[i] < |s| && r[i] == s[f[i]])
    && (forall i, j :: 0 <= i < j < |f| ==> f[i] < f[j])
  }

  lemma {:induction false} UnlistedEmbedding(images: seq<Image>, lookup: set<u64>) returns (f: seq<nat>)
    ensures EmbedsBy(Unlisted(images, lookup), images, f)
    decreases |images|
  {
    if images == [] {
      f := [];
    } else {
      var n := |images| - 1;
      var init := images[..n];
      var kept := Unlisted(init, lookup);
      var g := UnlistedEmbedding(init, lookup);
      assert forall i :: 0 <= i < |g| ==> g[i] < n && kept[i] == images[g[i]];
      if images[n].id in lookup {
        f := g;
      } else {
        f := g + [n];
        assert Unlisted(images, lookup) == kept + [images[n]];
        forall i | 0 <= i < |f| ensures f[i] < |images| && (kept + [images[n]])[i] == images[f[i]] {
          if i < |g| {
            assert f[i] == g[i];
          }
        }
      }
    }
  }

  /** The filter keeps the relative order of the candidates it keeps. */
  lemma UnlistedKeepsOrder(images: seq<Image>, lookup: set<u64>)
    ensures exists f :: EmbedsBy(Unlisted(images, lookup), images, f)
  {
    var f := UnlistedEmbedding(images, lookup);
  }

  /** `images.retain(|img| !blacklist.contains(&img.id))` */
  method Retain(images: seq<Image>, blacklist: Queue<u64>) returns (kept: seq<Image>)
    ensures kept == Unlisted(images, blacklist.lookup)
  {
    kept := [];
    var i := 0;
    while i < |images|
      invariant 0 <= i <= |images|
      invariant kept == Unlisted(images[..i], blacklist.lookup)
    {
      assert images[..i + 1][..i] == images[..i];
      if !blacklist.Contains(images[i].id) {
        kept := kept + [images[i]];
      }
      i := i + 1;
    }
    assert images[..i] == images;
  }

  /** `up - down`, the order key of the sort. */
  function Score(img: Image): int
  {
    img.up - img.down
  }

  predicate SortedByScore(s: seq<Image>)
  {
    forall i, j :: 0 <= i < j < |s| ==> Score(s[i]) <= Score(s[j])
  }

  /** Rearranging items that all score at least `lo` keeps them all at least `lo`. */
  lemma ScoresAtLeast(rest: seq<Image>, t: seq<Image>, img: Image, lo: int)
    requires multiset(rest) == multiset(t) + multiset{img}
    requires Score(img) >= lo && forall k :: 0 <= k < |t| ==> Score(t[k]) >= lo
    ensures forall k :: 0 <= k < |rest| ==> Score(rest[k]) >= lo
  {
    forall k | 0 <= k < |rest| ensures Score(rest[k]) >= lo {
      assert rest[k] in multiset(rest);
      if rest[k] != img {
        assert rest[k] in multiset(t);
        var j :| 0 <= j < |t| && t[j] == rest[k];
      }
    }
  }

  lemma PrependSorted(x: Image, rest: seq<Image>)
    requires SortedByScore(rest) && forall k :: 0 <= k < |rest| ==> Score(x) <= Score(rest[k])
    ensures SortedByScore([x] + rest)
  {
  }

  function InsertByScore(img: Image, s: seq<Image>): (r: seq<Image>)
    requires SortedByScore(s)
    ensures SortedByScore(r) && multiset(r) == multiset(s) + multiset{img}
    decreases |s|
  {
    if s == [] || Score(img) <= Score(s[0]) then
      PrependSorted(img, s);
      [img] + s
    else
      var tail := s[1..];
      var rest := InsertByScore(img, tail);
      assert s == [s[0]] + tail;
      assert multiset(s) == multiset{s[0]} + multiset(tail);
      ScoresAtLeast(rest, tail, img, Score(s[0]));
      PrependSorted(s[0], rest);
      assert multiset([s[0]] + rest) == multiset{s[0]} + multiset(rest);
      [s[0]] + rest
  }

  /**
   * `images.sort_unstable_by(|a, b| (a.up - a.down).cmp(&(b.up - b.down)))`: the
   * candidates in non-decreasing score order, the same items as before.
   */
  function SortByScore(s: seq<Image>): (r: seq<Image>)
    ensures SortedByScore(r) && multiset(r) == multiset(s)
    decreases |s|
  {
    if s == [] then []
    else
      assert s == [s[0]] + s[1..];
      InsertByScore(s[0], SortByScore(s[1..]))
  }

  /**
   * `rand::thread_rng().choose(&images).ok_or("no image found")`: the draw `roll`
   * stands for the random index; every candidate can be drawn.
   */
  function Choose(candidates: seq<Image>, roll: nat): (r: Result<Image, string>)
    ensures r.Failure? <==> candidates == []
    ensures r.Failure? ==> r.error == NoImageFound
    ensures r.Success? ==> r.value in candidates
    ensures roll < |candidates| ==> r == Success(candidates[roll])
  {
    if candidates == [] then Failure(NoImageFound) else Success(candidates[roll % |candidates|])
  }

  /**
   * The body of `pr0_fetch` after the fetch: filter, sort, choose, push the chosen id
   * onto the blacklist and save it, and build the URL to post. `file` is the cache
   * file's text before the command; `fileAfter` is its text afterwards.
   */
  method Pr0Fetch(images: seq<Image>, blacklist: Queue<u64>, roll: nat, file: string)
    returns (r: Result<Posted, string>, fileAfter: string)
    requires blacklist.Valid() && blacklist.cap > 0
    modifies blacklist
    ensures blacklist.Valid()
    ensures r.Failure? <==> Unlisted(images, old(blacklist.lookup)) == []
    ensures r.Failure? ==>
              && r.error == NoImageFound
              && blacklist.State() == old(blacklist.State())
              && fileAfter == file
    ensures r.Success? ==>
              && r.value.image in images
              && r.value.image.id !in old(blacklist.lookup)
              && r.value.url == PostUrl(r.value.image.image)
              && blacklist.State() == Pushed(old(blacklist.State()), r.value.image.id).0
              && blacklist.Contains(r.value.image.id)
              && CacheFile.Decode(fileAfter) == Some(Persisted(blacklist.State()))
    ensures old(blacklist.State().Consistent()) ==> blacklist.State().Consistent()
  {
    var kept := Retain(images, blacklist);
    var sorted := SortByScore(kept);
    var chosen := Choose(sorted, roll);
    if chosen.Failure? {
      return Failure(chosen.error), file;
    }
    var img := chosen.value;
    assert img in multiset(sorted);
    var dropped := blacklist.Push(img.id);
    fileAfter := CacheFile.Saved(blacklist.queue);
    r := Success(Posted(img, PostUrl(img.image)));
  }

  /**
   * The deque read from the cache file: its contents, or empty when it is missing
   * or unreadable. A file holding the encoding of a deque loads back as that deque.
   */
  function LoadedQueue(file: Option<string>): (q: seq<u64>)
    ensures file.Some? && CacheFile.Decode(file.value).Some? ==> q == CacheFile.Decode(file.value).value
    ensures file.None? || CacheFile.Decode(file.value).None? ==> q == []
    ensures forall ids :: file == Some(CacheFile.Encode(ids)) ==> q == ids
  {
    CacheFile.DecodeEncodeEvery();
    if file.Some? && CacheFile.Decode(file.value).Some? then CacheFile.Decode(file.value).value else []
  }

  /**
   * Start-up: load the blacklist from the cache file, or start empty; reserve
   * `CACHE_SIZE` more slots; rebuild the set when anything was loaded. `file` is
   * the file's text, or `None` when it cannot be opened.
   */
  method Startup(file: Option<string>) returns (blacklist: Queue<u64>)
    ensures fresh(blacklist) && blacklist.Valid()
    ensures blacklist.queue == LoadedQueue(file)
    ensures blacklist.State().Mirrored()
    ensures blacklist.cap >= blacklist.Len() + CacheSize
  {
    var loaded := if file.Some? then CacheFile.Decode(file.value) else None;
    if loaded.Some? {
      blacklist := new Queue.FromSaved(loaded.value);
    } else {
      blacklist := new Queue();
    }
    blacklist.Reserve(CacheSize);
    if blacklist.Len() > 0 {
      blacklist.Optimize();
    }
  }

  /**
   * A full blacklist that evicts an id with more digits than the one it takes in
   * writes a shorter file; written in place, the file then no longer loads.
   */
  lemma EvictionCorruptsCacheFile()
    ensures var before: QueueState<u64> := QueueState([10, 11], {10, 11}, 2);
            var after := Pushed(before, 9).0;
            && after.queue == [11, 9]
            && CacheFile.Decode(CacheFile.Encode(before.queue)) == Some([10, 11])
            && CacheFile.Decode(CacheFile.WriteInPlace(CacheFile.Encode(before.queue), CacheFile.Encode(after.queue))) == None
  {
    var before: QueueState<u64> := QueueState([10, 11], {10, 11}, 2);
    var after := Pushed(before, 9).0;
    assert after.queue == [11, 9];
    CacheFile.DecodeEncode(before.queue);
    assert CacheFile.Decimal(10) == "10";
    assert CacheFile.Decimal(11) == "11";
    assert CacheFile.Decimal(9) == "9";
    assert CacheFile.JoinIds([11, 9]) == "11,9";
    assert CacheFile.JoinIds([10, 11]) == "10,11";
    CacheFile.ShorterWriteUnreadable(before.queue, after.queue);
  }
}
