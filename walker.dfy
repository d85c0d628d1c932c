/**
 * `fetchAndParseSitemap`: a recursive descent over sitemap documents that
 * pushes the surviving page URLs onto the work channel. The channel is the
 * sequence `emitted` (the order of the sends); the documents the crawl can
 * reach are an inductive tree, each node holding the location it is reached
 * by, the answers the server gives to fetching it, and what its body decodes
 * to. `url.Parse` is the parameter `hostOf` (`None` when parsing fails, else
 * the parsed host).
 */
module SitemapWalk {
  import opened Wrappers
  import opened Strings
  import opened UrlFilter
  import opened Fetch

  /** The outcome of one `xml.Unmarshal` call: an error, or the entries it found. */
  datatype Decoded<T> = DecodeError | Decoded(items: seq<T>)

  /**
   * What `xml.Unmarshal` makes of a body: the `<sitemap>` entries when it is
   * decoded as a sitemap index (each child with its own subtree), and the
   * `<url>` locations when it is decoded as a URL set.
   */
  datatype Body = Body(index: Decoded<Sitemap>, urlSet: Decoded<string>)

  /** A sitemap reference; `body` is `None` when reading the response body fails. */
  datatype Sitemap = Sitemap(loc: string, respond: nat -> Attempt, body: Option<Body>)

  datatype WalkError =
    | ParseError              // url.Parse rejected the sitemap location
    | FetchError(failure: Failure)
    | ReadError               // ioutil.ReadAll failed
    | UnknownType             // neither decode gave at least one entry

  /** What one call returns, what it sent on the channel, and which sitemaps it fetched. */
  datatype Walked = Walked(err: Option<WalkError>, emitted: seq<string>, fetched: seq<string>)

  // ---------------------------------------------------------------------------
  // The URL-set loop
  // ---------------------------------------------------------------------------

  /**
   * The sends of the URL-set loop from entry `i` on. After a send from entry
   * `i` the loop stops when `maxDocs > 0 && i + 1 >= maxDocs`: the test is on
   * the entry's position, so skipped entries count towards the cap.
   */
  function Scan(locs: seq<string>, i: nat, maxDocs: int, hostOf: string -> Option<string>, pattern: Pattern): seq<string>
    requires i <= |locs|
    decreases |locs| - i
  {
    if i == |locs| then []
    else
      var u := Upgrade(locs[i]);
      if !Admits(hostOf, pattern, u) then Scan(locs, i + 1, maxDocs, hostOf, pattern)
      else if maxDocs > 0 && i + 1 >= maxDocs then [u]
      else [u] + Scan(locs, i + 1, maxDocs, hostOf, pattern)
  }

  /** Reference definition: the upgraded entries that pass both tests, in document order, uncapped. */
  function Admitted(locs: seq<string>, hostOf: string -> Option<string>, pattern: Pattern): (r: seq<string>)
    ensures |r| <= |locs|
  {
    if locs == [] then []
    else
      var u := Upgrade(locs[0]);
      (if Admits(hostOf, pattern, u) then [u] else []) + Admitted(locs[1..], hostOf, pattern)
  }

  /** The first element of `s`, if any. */
  function Take1(s: seq<string>): (r: seq<string>)
    ensures |r| == if s == [] then 0 else 1
  {
    if s == [] then [] else [s[0]]
  }

  lemma {:induction false} AdmittedAppend(a: seq<string>, b: seq<string>, hostOf: string -> Option<string>, pattern: Pattern)
    ensures Admitted(a + b, hostOf, pattern) == Admitted(a, hostOf, pattern) + Admitted(b, hostOf, pattern)
  {
    if a == [] {
      assert a + b == b;
    } else {
      assert (a + b)[0] == a[0];
      assert (a + b)[1..] == a[1..] + b;
      AdmittedAppend(a[1..], b, hostOf, pattern);
    }
  }

  /** Each admitted URL is the upgrade of an entry and passes the host and exclusion tests. */
  lemma {:induction false} AdmittedSound(locs: seq<string>, hostOf: string -> Option<string>, pattern: Pattern)
    ensures forall u :: u in Admitted(locs, hostOf, pattern) ==>
              Admits(hostOf, pattern, u) && exists l :: l in locs && u == Upgrade(l)
  {
    if locs != [] {
      AdmittedSound(locs[1..], hostOf, pattern);
      forall u | u in Admitted(locs, hostOf, pattern)
        ensures Admits(hostOf, pattern, u) && exists l :: l in locs && u == Upgrade(l)
      {
        if u !in Admitted(locs[1..], hostOf, pattern) {
          assert u == Upgrade(locs[0]);
        } else {
          var l :| l in locs[1..] && u == Upgrade(l);
          assert l in locs;
        }
      }
    }
  }

  /** Without a cap in reach, the scan from `i` sends every admitted entry from `i` on. */
  lemma {:induction false} ScanUncappedFrom(locs: seq<string>, i: nat, maxDocs: int, hostOf: string -> Option<string>, pattern: Pattern)
    requires i <= |locs|
    requires maxDocs <= 0 || |locs| < maxDocs
    ensures Scan(locs, i, maxDocs, hostOf, pattern) == Admitted(locs[i..], hostOf, pattern)
    decreases |locs| - i
  {
    if i == |locs| {
      assert locs[i..] == [];
    } else {
      ScanUncappedFrom(locs, i + 1, maxDocs, hostOf, pattern);
      assert locs[i..][0] == locs[i];
      assert locs[i..][1..] == locs[i + 1..];
    }
  }

  /** At or past position `maxDocs - 1`, the scan sends the first admitted entry and stops. */
  lemma {:induction false} ScanPastCut(locs: seq<string>, i: nat, maxDocs: int, hostOf: string -> Option<string>, pattern: Pattern)
    requires i <= |locs|
    requires 0 < maxDocs && maxDocs - 1 <= i
    ensures Scan(locs, i, maxDocs, hostOf, pattern) == Take1(Admitted(locs[i..], hostOf, pattern))
    decreases |locs| - i
  {
    if i == |locs| {
      assert locs[i..] == [];
    } else {
      ScanPastCut(locs, i + 1, maxDocs, hostOf, pattern);
      assert locs[i..][0] == locs[i];
      assert locs[i..][1..] == locs[i + 1..];
    }
  }

  /** Before position `maxDocs - 1`, every admitted entry is sent, then the scan goes on past the cut. */
  lemma {:induction false} ScanBeforeCut(locs: seq<string>, i: nat, maxDocs: int, hostOf: string -> Option<string>, pattern: Pattern)
    requires 0 < maxDocs <= |locs| && i <= maxDocs - 1
    ensures Scan(locs, i, maxDocs, hostOf, pattern) ==
            Admitted(locs[i..maxDocs - 1], hostOf, pattern) + Take1(Admitted(locs[maxDocs - 1..], hostOf, pattern))
    decreases maxDocs - 1 - i
  {
    var c := maxDocs - 1;
    if i == c {
      ScanPastCut(locs, i, maxDocs, hostOf, pattern);
      assert locs[i..c] == [];
    } else {
      ScanBeforeCut(locs, i + 1, maxDocs, hostOf, pattern);
      assert locs[i..c][0] == locs[i];
      assert locs[i..c][1..] == locs[i + 1..c];
    }
  }

  /**
   * The scan against the reference: without a cap it sends every admitted
   * entry; with a cap `maxDocs > 0` it sends the admitted entries before
   * position `maxDocs - 1`, then at most one more, the first admitted entry at
   * or after that position.
   */
  lemma ScanMeaning(locs: seq<string>, maxDocs: int, hostOf: string -> Option<string>, pattern: Pattern)
    ensures maxDocs <= 0 || |locs| < maxDocs ==>
              Scan(locs, 0, maxDocs, hostOf, pattern) == Admitted(locs, hostOf, pattern)
    ensures 0 < maxDocs <= |locs| ==>
              Scan(locs, 0, maxDocs, hostOf, pattern) ==
              Admitted(locs[..maxDocs - 1], hostOf, pattern) + Take1(Admitted(locs[maxDocs - 1..], hostOf, pattern))
  {
    assert locs[0..] == locs;
    if maxDocs <= 0 || |locs| < maxDocs {
      ScanUncappedFrom(locs, 0, maxDocs, hostOf, pattern);
    } else {
      ScanBeforeCut(locs, 0, maxDocs, hostOf, pattern);
      assert locs[0..maxDocs - 1] == locs[..maxDocs - 1];
    }
  }

  /** Whatever the cap, the sends are a prefix of the admitted entries: same URLs, same order. */
  lemma ScanIsPrefixOfAdmitted(locs: seq<string>, maxDocs: int, hostOf: string -> Option<string>, pattern: Pattern)
    ensures var sent, all := Scan(locs, 0, maxDocs, hostOf, pattern), Admitted(locs, hostOf, pattern);
      |sent| <= |all| && sent == all[..|sent|]
  {
    ScanMeaning(locs, maxDocs, hostOf, pattern);
    if 0 < maxDocs <= |locs| {
      var c := maxDocs - 1;
      assert locs == locs[..c] + locs[c..];
      AdmittedAppend(locs[..c], locs[c..], hostOf, pattern);
    }
  }

  /** With a positive cap, at most `maxDocs` URLs are sent from one document. */
  lemma ScanCapped(locs: seq<string>, maxDocs: int, hostOf: string -> Option<string>, pattern: Pattern)
    requires maxDocs > 0
    ensures |Scan(locs, 0, maxDocs, hostOf, pattern)| <= maxDocs
  {
    ScanMeaning(locs, maxDocs, hostOf, pattern);
    if maxDocs <= |locs| {
      assert |Admitted(locs[..maxDocs - 1], hostOf, pattern)| <= maxDocs - 1;
    }
  }

  /** With no positive cap, every admitted entry is sent. */
  lemma ScanUncapped(locs: seq<string>, maxDocs: int, hostOf: string -> Option<string>, pattern: Pattern)
    requires maxDocs <= 0
    ensures Scan(locs, 0, maxDocs, hostOf, pattern) == Admitted(locs, hostOf, pattern)
  {
    ScanMeaning(locs, maxDocs, hostOf, pattern);
  }

  /**
   * Skipped entries count towards the cap: when none of the first
   * `maxDocs - 1` entries passes, at most one URL is sent, however many later
   * entries would pass.
   */
  lemma ScanCapCountsSkipped(locs: seq<string>, maxDocs: int, hostOf: string -> Option<string>, pattern: Pattern)
    requires 0 < maxDocs <= |locs|
    requires forall j :: 0 <= j < maxDocs - 1 ==> !Admits(hostOf, pattern, Upgrade(locs[j]))
    ensures |Scan(locs, 0, maxDocs, hostOf, pattern)| <= 1
  {
    ScanMeaning(locs, maxDocs, hostOf, pattern);
    NoneAdmitted(locs[..maxDocs - 1], hostOf, pattern);
  }

  lemma {:induction false} NoneAdmitted(locs: seq<string>, hostOf: string -> Option<string>, pattern: Pattern)
    requires forall j :: 0 <= j < |locs| ==> !Admits(hostOf, pattern, Upgrade(locs[j]))
    ensures Admitted(locs, hostOf, pattern) == []
  {
    if locs != [] {
      NoneAdmitted(locs[1..], hostOf, pattern);
    }
  }

  lemma {:induction false} AllAdmitted(locs: seq<string>, hostOf: string -> Option<string>, pattern: Pattern)
    requires forall j :: 0 <= j < |locs| ==> Admits(hostOf, pattern, Upgrade(locs[j]))
    ensures |Admitted(locs, hostOf, pattern)| == |locs|
  {
    if locs != [] {
      AllAdmitted(locs[1..], hostOf, pattern);
    }
  }

  /** When every entry passes, a positive cap sends exactly `min(maxDocs, |locs|)` URLs. */
  lemma ScanAllPass(locs: seq<string>, maxDocs: int, hostOf: string -> Option<string>, pattern: Pattern)
    requires maxDocs > 0
    requires forall j :: 0 <= j < |locs| ==> Admits(hostOf, pattern, Upgrade(locs[j]))
    ensures |Scan(locs, 0, maxDocs, hostOf, pattern)| == if maxDocs < |locs| then maxDocs else |locs|
  {
    ScanMeaning(locs, maxDocs, hostOf, pattern);
    if maxDocs <= |locs| {
      var c := maxDocs - 1;
      AllAdmitted(locs[..c], hostOf, pattern);
      AllAdmitted(locs[c..], hostOf, pattern);
    } else {
      AllAdmitted(locs, hostOf, pattern);
    }
  }

  // ---------------------------------------------------------------------------
  // The recursive walk
  // ---------------------------------------------------------------------------

  /**
   * One call of `fetchAndParseSitemap` on `sm`, with the same `maxDocs` handed
   * to every child: the page URLs it sends and the sitemaps it fetches, in order.
   */
  function Walk(sm: Sitemap, maxDocs: int, hostOf: string -> Option<string>, pattern: Pattern): Walked
    decreases sm, 1
  {
    var u := Upgrade(sm.loc);
    match hostOf(u)
    case None => Walked(Some(ParseError), [], [])
    case Some(host) =>
      if host != DocsHost || MatchString(pattern, u) then Walked(None, [], [])
      else
        var fetch := Retry(sm.respond, 0);
        if fetch.result.Fail? then Walked(Some(FetchError(fetch.result.failure)), [], [u])
        else
          match sm.body
          case None => Walked(Some(ReadError), [], [u])
          case Some(body) =>
            if body.index.Decoded? && |body.index.items| > 0 then
              var children := Concat(ChildWalks(sm, maxDocs, hostOf, pattern));
              Walked(None, children.emitted, [u] + children.fetched)
            else if body.urlSet.Decoded? && |body.urlSet.items| > 0 then
              Walked(None, Scan(body.urlSet.items, 0, maxDocs, hostOf, pattern), [u])
            else Walked(Some(UnknownType), [], [u])
  }

  /** The recursive calls of the index loop, one per `<sitemap>` entry, in document order. */
  function ChildWalks(sm: Sitemap, maxDocs: int, hostOf: string -> Option<string>, pattern: Pattern): (rs: seq<Walked>)
    requires sm.body.Some? && sm.body.value.index.Decoded?
    ensures |rs| == |sm.body.value.index.items|
    decreases sm, 0
  {
    var children := sm.body.value.index.items;
    seq(|children|, i requires 0 <= i < |children| => Walk(children[i], maxDocs, hostOf, pattern))
  }

  /**
   * What the index loop adds up: the sends and the fetches of the calls in
   * order. The calls' errors are logged and dropped, so the sum has none.
   */
  function Concat(rs: seq<Walked>): (r: Walked)
    ensures r.err == None
  {
    if rs == [] then Walked(None, [], [])
    else
      var init, last := Concat(rs[..|rs| - 1]), rs[|rs| - 1];
      Walked(None, init.emitted + last.emitted, init.fetched + last.fetched)
  }

  /** The sum over `xs + ys` is the sum over `xs` followed by the sum over `ys`. */
  lemma {:induction false} ConcatAppend(xs: seq<Walked>, ys: seq<Walked>)
    ensures Concat(xs + ys).emitted == Concat(xs).emitted + Concat(ys).emitted
    ensures Concat(xs + ys).fetched == Concat(xs).fetched + Concat(ys).fetched
    decreases |ys|
  {
    if ys == [] {
      assert xs + ys == xs;
    } else {
      var n := |ys| - 1;
      assert (xs + ys)[..|xs + ys| - 1] == xs + ys[..n];
      assert (xs + ys)[|xs + ys| - 1] == ys[n];
      ConcatAppend(xs, ys[..n]);
    }
  }

  /** Whatever the sum sends was sent by one of the calls. */
  lemma {:induction false} ConcatFrom(rs: seq<Walked>, u: string)
    ensures u in Concat(rs).emitted ==> exists i :: 0 <= i < |rs| && u in rs[i].emitted
    ensures u in Concat(rs).fetched ==> exists i :: 0 <= i < |rs| && u in rs[i].fetched
  {
    if rs != [] {
      var n := |rs| - 1;
      ConcatFrom(rs[..n], u);
      if u in Concat(rs[..n]).emitted {
        var i :| 0 <= i < n && u in rs[..n][i].emitted;
        assert rs[..n][i] == rs[i];
      }
      if u in Concat(rs[..n]).fetched {
        var i :| 0 <= i < n && u in rs[..n][i].fetched;
        assert rs[..n][i] == rs[i];
      }
    }
  }

  /** A call that fails sends nothing, and it fetched at most its own document. */
  lemma WalkErrorSendsNothing(sm: Sitemap, maxDocs: int, hostOf: string -> Option<string>, pattern: Pattern)
    ensures Walk(sm, maxDocs, hostOf, pattern).err.Some? ==>
              Walk(sm, maxDocs, hostOf, pattern).emitted == [] && |Walk(sm, maxDocs, hostOf, pattern).fetched| <= 1
  {
  }

  /**
   * Error isolation: in an index document that was fetched and read, a child
   * whose walk fails contributes nothing; the children before and after it are
   * walked as usual, and the index itself reports no error.
   */
  lemma ChildErrorIsolated(sm: Sitemap, i: nat, maxDocs: int, hostOf: string -> Option<string>, pattern: Pattern)
    requires Admits(hostOf, pattern, Upgrade(sm.loc)) && Retry(sm.respond, 0).result == Ok
    requires sm.body.Some? && sm.body.value.index.Decoded? && i < |sm.body.value.index.items|
    requires Walk(sm.body.value.index.items[i], maxDocs, hostOf, pattern).err.Some?
    ensures var rs := ChildWalks(sm, maxDocs, hostOf, pattern);
      && Walk(sm, maxDocs, hostOf, pattern).err == None
      && Walk(sm, maxDocs, hostOf, pattern).emitted == Concat(rs[..i]).emitted + Concat(rs[i + 1..]).emitted
  {
    var rs := ChildWalks(sm, maxDocs, hostOf, pattern);
    WalkErrorSendsNothing(sm.body.value.index.items[i], maxDocs, hostOf, pattern);
    ConcatSkip(rs, i);
  }

  /** A call that sends nothing can be left out of the sum of sends. */
  lemma ConcatSkip(rs: seq<Walked>, i: nat)
    requires i < |rs| && rs[i].emitted == []
    ensures Concat(rs).emitted == Concat(rs[..i]).emitted + Concat(rs[i + 1..]).emitted
  {
    ConcatSilent(rs, i);
    assert rs == rs[..i + 1] + rs[i + 1..];
    ConcatAppend(rs[..i + 1], rs[i + 1..]);
  }

  /** A walk that emits nothing adds nothing to the concatenated emissions. */
  lemma ConcatSilent(rs: seq<Walked>, i: nat)
    requires i < |rs| && rs[i].emitted == []
    ensures Concat(rs[..i + 1]).emitted == Concat(rs[..i]).emitted
  {
    assert rs[..i + 1][..i] == rs[..i];
  }

  /** Every URL sent by the URL-set loop passes the host and exclusion tests. */
  lemma ScanSound(locs: seq<string>, maxDocs: int, hostOf: string -> Option<string>, pattern: Pattern)
    ensures forall u :: u in Scan(locs, 0, maxDocs, hostOf, pattern) ==> Admits(hostOf, pattern, u)
  {
    ScanIsPrefixOfAdmitted(locs, maxDocs, hostOf, pattern);
    AdmittedSound(locs, hostOf, pattern);
    var sent, all := Scan(locs, 0, maxDocs, hostOf, pattern), Admitted(locs, hostOf, pattern);
    forall u | u in sent ensures u in all {
      var k :| 0 <= k < |sent| && sent[k] == u;
      assert all[k] == u;
    }
  }

  /**
   * Soundness of the whole walk: every page URL sent on the channel, and every
   * sitemap fetched, anywhere in the tree, is on the documentation host and
   * does not match the exclusion pattern.
   */
  lemma {:induction false} WalkSound(sm: Sitemap, maxDocs: int, hostOf: string -> Option<string>, pattern: Pattern)
    ensures forall u :: u in Walk(sm, maxDocs, hostOf, pattern).emitted ==> Admits(hostOf, pattern, u)
    ensures forall u :: u in Walk(sm, maxDocs, hostOf, pattern).fetched ==> Admits(hostOf, pattern, u)
    decreases sm
  {
    var u := Upgrade(sm.loc);
    if Admits(hostOf, pattern, u) && Retry(sm.respond, 0).result.Ok? && sm.body.Some? {
      var body := sm.body.value;
      if body.index.Decoded? && |body.index.items| > 0 {
        var rs := ChildWalks(sm, maxDocs, hostOf, pattern);
        forall v | v in Concat(rs).emitted || v in Concat(rs).fetched
          ensures Admits(hostOf, pattern, v)
        {
          ConcatFrom(rs, v);
          var i :| 0 <= i < |rs| && (v in rs[i].emitted || v in rs[i].fetched);
          WalkSound(body.index.items[i], maxDocs, hostOf, pattern);
        }
      } else if body.urlSet.Decoded? && |body.urlSet.items| > 0 {
        ScanSound(body.urlSet.items, maxDocs, hostOf, pattern);
      }
    }
  }

  /**
   * With the crawler's own exclusion pattern: nothing sent and nothing fetched
   * is off the documentation host or inside an excluded documentation tree.
   */
  lemma WalkNeverLeavesDocs(sm: Sitemap, maxDocs: int, hostOf: string -> Option<string>)
    ensures forall u :: u in Walk(sm, maxDocs, hostOf, ExcludePattern()).emitted ==>
              hostOf(u) == Some(DocsHost) && !Excluded(u)
    ensures forall u :: u in Walk(sm, maxDocs, hostOf, ExcludePattern()).fetched ==>
              hostOf(u) == Some(DocsHost) && !Excluded(u)
  {
    WalkSound(sm, maxDocs, hostOf, ExcludePattern());
    var w := Walk(sm, maxDocs, hostOf, ExcludePattern());
    forall u | u in w.emitted || u in w.fetched
      ensures !Excluded(u)
    {
      ExcludePatternExact(u);
    }
  }

  /**
   * Disambiguation: a body that decodes as a non-empty sitemap index is walked
   * as an index, whatever the URL-set decode makes of it.
   */
  lemma IndexTakesPrecedence(sm: Sitemap, urlSet: Decoded<string>, maxDocs: int, hostOf: string -> Option<string>, pattern: Pattern)
    requires sm.body.Some? && sm.body.value.index.Decoded? && |sm.body.value.index.items| > 0
    ensures Walk(sm.(body := Some(sm.body.value.(urlSet := urlSet))), maxDocs, hostOf, pattern) == Walk(sm, maxDocs, hostOf, pattern)
  {
    var other := sm.(body := Some(sm.body.value.(urlSet := urlSet)));
    assert ChildWalks(other, maxDocs, hostOf, pattern) == ChildWalks(sm, maxDocs, hostOf, pattern);
  }

  /**
   * A fetched body whose index decode fails or finds no entry falls through to
   * the URL-set decode: when that finds entries, they are scanned.
   */
  lemma UrlSetFallback(sm: Sitemap, maxDocs: int, hostOf: string -> Option<string>, pattern: Pattern)
    requires Admits(hostOf, pattern, Upgrade(sm.loc)) && Retry(sm.respond, 0).result == Ok
    requires sm.body.Some? && !(sm.body.value.index.Decoded? && |sm.body.value.index.items| > 0)
    requires sm.body.value.urlSet.Decoded? && |sm.body.value.urlSet.items| > 0
    ensures Walk(sm, maxDocs, hostOf, pattern) ==
              Walked(None, Scan(sm.body.value.urlSet.items, 0, maxDocs, hostOf, pattern), [Upgrade(sm.loc)])
  {
  }

  /**
   * A sitemap whose location fails to parse, names another host, or matches
   * the exclusion pattern is not fetched and sends nothing; only the parse
   * failure is an error.
   */
  lemma FilteredSitemap(sm: Sitemap, maxDocs: int, hostOf: string -> Option<string>, pattern: Pattern)
    requires !Admits(hostOf, pattern, Upgrade(sm.loc))
    ensures Walk(sm, maxDocs, hostOf, pattern) ==
              Walked(if hostOf(Upgrade(sm.loc)).None? then Some(ParseError) else None, [], [])
  {
  }

  /**
   * The error a walk reports, for each way it can fail: the location does not
   * parse; the fetch fails; the body cannot be read; the body is neither a
   * non-empty index nor a non-empty URL set. A filtered-out sitemap is no error.
   */
  lemma WalkErrors(sm: Sitemap, maxDocs: int, hostOf: string -> Option<string>, pattern: Pattern)
    ensures var u, e := Upgrade(sm.loc), Walk(sm, maxDocs, hostOf, pattern).err;
      && (e == Some(ParseError) <==> hostOf(u).None?)
      && (forall f :: e == Some(FetchError(f)) <==> Admits(hostOf, pattern, u) && Retry(sm.respond, 0).result == Fail(f))
      && (e == Some(ReadError) <==> Admits(hostOf, pattern, u) && Retry(sm.respond, 0).result == Ok && sm.body.None?)
      && (e == Some(UnknownType) <==>
            Admits(hostOf, pattern, u) && Retry(sm.respond, 0).result == Ok && sm.body.Some? &&
            !(sm.body.value.index.Decoded? && |sm.body.value.index.items| > 0) &&
            !(sm.body.value.urlSet.Decoded? && |sm.body.value.urlSet.items| > 0))
  {
  }

  /**
   * `fetchAndParseSitemap`. Returns the error the Go function returns, the URLs
   * it sends on the channel in order, and the sitemaps it fetches in order.
   */
  method FetchAndParseSitemap(sm: Sitemap, maxDocs: int, hostOf: string -> Option<string>, pattern: Pattern)
    returns (err: Option<WalkError>, emitted: seq<string>, fetched: seq<string>)
    ensures Walked(err, emitted, fetched) == Walk(sm, maxDocs, hostOf, pattern)
    decreases sm, 1
  {
    var u := Upgrade(sm.loc);
    var parsed := hostOf(u);
    if parsed.None? {
      return Some(ParseError), [], [];
    }
    if parsed.value != DocsHost {
      return None, [], [];
    }
    if MatchString(pattern, u) {
      return None, [], [];
    }
    var result, attempts;
    ghost var slept;
    result, attempts, slept := FetchWithRateLimitHandling(sm.respond);
    fetched := [u];
    if result.Fail? {
      return Some(FetchError(result.failure)), [], fetched;
    }
    if sm.body.None? {
      return Some(ReadError), [], fetched;
    }
    var body := sm.body.value;
    emitted := [];
    if body.index.Decoded? && |body.index.items| > 0 {
      var childFetched;
      emitted, childFetched := WalkChildren(sm, maxDocs, hostOf, pattern);
      return None, emitted, fetched + childFetched;
    }
    if body.urlSet.Decoded? && |body.urlSet.items| > 0 {
      emitted := SendUrlSet(body.urlSet.items, maxDocs, hostOf, pattern);
      return None, emitted, fetched;
    }
    return Some(UnknownType), [], fetched;
  }

  /**
   * The index loop of `fetchAndParseSitemap`: every child in document order,
   * whatever the earlier children returned; their errors are dropped.
   */
  method WalkChildren(sm: Sitemap, maxDocs: int, hostOf: string -> Option<string>, pattern: Pattern)
    returns (emitted: seq<string>, fetched: seq<string>)
    requires sm.body.Some? && sm.body.value.index.Decoded?
    ensures emitted == Concat(ChildWalks(sm, maxDocs, hostOf, pattern)).emitted
    ensures fetched == Concat(ChildWalks(sm, maxDocs, hostOf, pattern)).fetched
    decreases sm, 0
  {
    var children := sm.body.value.index.items;
    ghost var rs := ChildWalks(sm, maxDocs, hostOf, pattern);
    emitted, fetched := [], [];
    for i := 0 to |children|
      invariant emitted == Concat(rs[..i]).emitted
      invariant fetched == Concat(rs[..i]).fetched
    {
      var childErr, childEmitted, childFetched := FetchAndParseSitemap(children[i], maxDocs, hostOf, pattern);
      assert rs[..i + 1][..i] == rs[..i];
      emitted := emitted + childEmitted;
      fetched := fetched + childFetched;
    }
    assert rs[..|children|] == rs;
  }

  /** The URL-set loop of `fetchAndParseSitemap`: the URLs it sends, in order. */
  method SendUrlSet(locs: seq<string>, maxDocs: int, hostOf: string -> Option<string>, pattern: Pattern)
    returns (emitted: seq<string>)
    ensures emitted == Scan(locs, 0, maxDocs, hostOf, pattern)
  {
    emitted := [];
    var i := 0;
    while i < |locs|
      invariant 0 <= i <= |locs|
      invariant emitted + Scan(locs, i, maxDocs, hostOf, pattern) == Scan(locs, 0, maxDocs, hostOf, pattern)
    {
      var entry := Upgrade(locs[i]);
      var entryHost := hostOf(entry);
      if entryHost.None? || entryHost.value != DocsHost || MatchString(pattern, entry) {
        i := i + 1;
        continue;
      }
      emitted := emitted + [entry];
      if maxDocs > 0 && i + 1 >= maxDocs {
        break;
      }
      i := i + 1;
    }
  }
}
