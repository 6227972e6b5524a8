/**
  The scraping loop: each round builds one URL per domain with the round's code, claims
  each URL in the ledger (skipping the ones already tested), fetches the claimed ones, and
  reports the images found. The fetch is an oracle from URL to response.
 */
module Scraper {
  import opened Wrappers
  import opened Text
  import opened LogFile
  import opened Probe
  import opened Ledger

  /** An image found at a URL: what the scraper posts to its channel. */
  datatype Found = Found(url: string, image: seq<bv8>)

  /** The URLs a sequence of visits claims, in visit order, when `seen` holds the URLs
      already tested: a URL is claimed, and then counts as tested, unless it was tested. */
  function Claims(urls: seq<string>, seen: set<string>): (c: seq<string>)
    ensures |c| <= |urls|
  {
    if urls == [] then []
    else if urls[0] in seen then Claims(urls[1..], seen)
    else [urls[0]] + Claims(urls[1..], seen + {urls[0]})
  }

  /** The claimed URLs are distinct, each of them visited and not tested before, and every
      visited URL not tested before is claimed. */
  lemma {:induction false} ClaimsSpec(urls: seq<string>, seen: set<string>)
    ensures Distinct(Claims(urls, seen))
    ensures forall i :: 0 <= i < |Claims(urls, seen)| ==>
      Claims(urls, seen)[i] in urls && Claims(urls, seen)[i] !in seen
    ensures forall u :: u in urls && u !in seen ==> u in Claims(urls, seen)
  {
    if urls != [] {
      var c, rest := Claims(urls, seen), urls[1..];
      var seen' := if urls[0] in seen then seen else seen + {urls[0]};
      var t := Claims(rest, seen');
      ClaimsSpec(rest, seen');
      if urls[0] !in seen {
        assert c == [urls[0]] + t;
        forall i | 0 <= i < |c| ensures c[i] in urls && c[i] !in seen {
          if i > 0 { assert c[i] == t[i - 1]; }
        }
        forall i, j | 0 <= i < j < |c| ensures c[i] != c[j] {
          assert c[j] == t[j - 1];
          if i > 0 { assert c[i] == t[i - 1]; }
        }
      }
      forall u | u in urls && u !in seen ensures u in c {
        if u != urls[0] { assert u in rest; }
      }
    }
  }

  /** Visiting one more URL claims it when it is neither tested nor visited before. */
  lemma {:induction false} ClaimsSnoc(urls: seq<string>, u: string, seen: set<string>)
    ensures Claims(urls + [u], seen) ==
      Claims(urls, seen) + if u in seen || u in urls then [] else [u]
  {
    if urls == [] {
      assert urls + [u] == [u];
    } else {
      assert (urls + [u])[1..] == urls[1..] + [u];
      if urls[0] in seen {
        ClaimsSnoc(urls[1..], u, seen);
      } else {
        ClaimsSnoc(urls[1..], u, seen + {urls[0]});
      }
      assert u in urls <==> u == urls[0] || u in urls[1..];
    }
  }

  /** The visited URLs that were not tested before: a reference for Claims. */
  function Untested(urls: seq<string>, seen: set<string>): seq<string> {
    if urls == [] then []
    else if urls[0] in seen then Untested(urls[1..], seen)
    else [urls[0]] + Untested(urls[1..], seen)
  }

  /** With distinct URLs (distinct domains in one round), the claimed URLs are exactly the
      untested ones, in order: every untested URL is fetched once. */
  lemma {:induction false} ClaimsOfDistinct(urls: seq<string>, seen: set<string>)
    requires Distinct(urls)
    ensures Claims(urls, seen) == Untested(urls, seen)
  {
    if urls != [] {
      var rest := urls[1..];
      assert Distinct(rest);
      assert urls[0] !in rest;
      ClaimsOfDistinct(rest, seen);
      if urls[0] !in seen {
        ClaimsIgnoresUnvisited(rest, seen, urls[0]);
      }
    }
  }

  /** Marking as seen a URL the visits never reach changes nothing. */
  lemma {:induction false} ClaimsIgnoresUnvisited(urls: seq<string>, seen: set<string>, v: string)
    requires v !in urls
    ensures Claims(urls, seen + {v}) == Claims(urls, seen)
  {
    if urls != [] {
      assert v != urls[0];
      if urls[0] in seen {
        ClaimsIgnoresUnvisited(urls[1..], seen, v);
      } else {
        assert seen + {v} + {urls[0]} == seen + {urls[0]} + {v};
        ClaimsIgnoresUnvisited(urls[1..], seen + {urls[0]}, v);
      }
    }
  }

  /** Visiting `a` then `b` claims what `a` claims, then what `b` claims once `a` is tested. */
  lemma {:induction false} ClaimsAppend(a: seq<string>, b: seq<string>, seen: set<string>)
    ensures Claims(a + b, seen) == Claims(a, seen) + Claims(b, seen + Elems(a))
  {
    if a == [] {
      assert a + b == b;
      assert seen + (Elems(a)) == seen;
    } else {
      assert (a + b)[0] == a[0];
      assert (a + b)[1..] == a[1..] + b;
      var seen' := if a[0] in seen then seen else seen + {a[0]};
      ClaimsAppend(a[1..], b, seen');
      assert seen' + Elems(a[1..]) == seen + Elems(a);
    }
  }

  /** The images found among the probed URLs, in probe order. */
  function Hits(probed: seq<string>, fetch: string -> Response): (found: seq<Found>)
    ensures |found| <= |probed|
  {
    if probed == [] then []
    else
      var rest := Hits(probed[1..], fetch);
      match FetchImage(fetch(probed[0]))
      case Some(image) => [Found(probed[0], image)] + rest
      case None => rest
  }

  /** Every hit is a probed URL together with the image its response gave. */
  lemma {:induction false} HitsSound(probed: seq<string>, fetch: string -> Response)
    ensures forall i :: 0 <= i < |Hits(probed, fetch)| ==>
      Hits(probed, fetch)[i].url in probed &&
      FetchImage(fetch(Hits(probed, fetch)[i].url)) == Some(Hits(probed, fetch)[i].image)
  {
    if probed != [] {
      var found, rest := Hits(probed, fetch), Hits(probed[1..], fetch);
      HitsSound(probed[1..], fetch);
      forall i | 0 <= i < |found|
        ensures found[i].url in probed && FetchImage(fetch(found[i].url)) == Some(found[i].image)
      {
        var k := |found| - |rest|;
        if i >= k { assert found[i] == rest[i - k]; }
      }
    }
  }

  /** Every probed URL whose response is an image is among the hits. */
  lemma {:induction false} HitsComplete(probed: seq<string>, fetch: string -> Response, u: string)
    requires u in probed && FetchImage(fetch(u)).Some?
    ensures exists i :: 0 <= i < |Hits(probed, fetch)| && Hits(probed, fetch)[i].url == u
  {
    var found := Hits(probed, fetch);
    if u == probed[0] {
      assert found[0].url == u;
    } else {
      var rest := Hits(probed[1..], fetch);
      HitsComplete(probed[1..], fetch, u);
      var j :| 0 <= j < |rest| && rest[j].url == u;
      var k := |found| - |rest|;
      assert found[k + j] == rest[j];
    }
  }

  lemma {:induction false} HitsAppend(a: seq<string>, b: seq<string>, fetch: string -> Response)
    ensures Hits(a + b, fetch) == Hits(a, fetch) + Hits(b, fetch)
  {
    if a == [] {
      assert a + b == b;
    } else {
      assert (a + b)[0] == a[0];
      assert (a + b)[1..] == a[1..] + b;
      HitsAppend(a[1..], b, fetch);
    }
  }

  lemma {:induction false} RecordsAppend(a: seq<string>, b: seq<string>)
    ensures Records(a + b) == Records(a) + Records(b)
  {
    if a == [] {
      assert a + b == b;
    } else {
      assert (a + b)[1..] == a[1..] + b;
      RecordsAppend(a[1..], b);
    }
  }

  /** Visiting the next URL of a round: the tested set before and after the claim, and
      the claims so far. */
  lemma RoundStep(urls: seq<string>, i: nat, url: string, seen: set<string>,
                  before: set<string>, after: set<string>)
    requires i < |urls| && urls[i] == url
    requires before == seen + Elems(urls[..i]) && after == before + {url}
    ensures after == seen + Elems(urls[..i + 1])
    ensures url in before <==> url in seen || url in urls[..i]
    ensures Claims(urls[..i + 1], seen) ==
      Claims(urls[..i], seen) + if url in seen || url in urls[..i] then [] else [url]
  {
    assert urls[..i + 1] == urls[..i] + [url];
    ClaimsSnoc(urls[..i], url, seen);
  }

  /** Probing one more claimed URL appends its record and, when it is an image, one hit. */
  lemma ProbeStep(probed: seq<string>, url: string, fetch: string -> Response, f: string)
    ensures f + Records(probed + [url]) == (f + Records(probed)) + Record(url)
    ensures Hits(probed + [url], fetch) == Hits(probed, fetch) +
      match FetchImage(fetch(url))
      case Some(image) => [Found(url, image)]
      case None => []
  {
    RecordsSnoc(probed, url);
    HitsAppend(probed, [url], fetch);
    assert [url][1..] == [];
  }

  /** One round of the scraping loop with the round's code: the URLs of the round are all
      tested afterwards, the previously untested ones were claimed and fetched in domain
      order (and stay claimed whatever the fetch gave), and the images among them are
      returned. */
  method Round(ledger: Ledger, domains: seq<string>, code: string, fetch: string -> Response)
    returns (probed: seq<string>, found: seq<Found>)
    requires ledger.Valid()
    requires forall i :: 0 <= i < |domains| ==> Clean(MakeUrl(domains[i], code))
    modifies ledger
    ensures ledger.Valid()
    ensures probed == Claims(RoundUrls(domains, code), old(ledger.tested))
    ensures ledger.tested == old(ledger.tested) + Elems(RoundUrls(domains, code))
    ensures ledger.file == old(ledger.file) + Records(probed)
    ensures found == Hits(probed, fetch)
  {
    ghost var urls := RoundUrls(domains, code);
    probed, found := [], [];
    for i := 0 to |domains|
      invariant ledger.Valid()
      invariant probed == Claims(urls[..i], old(ledger.tested))
      invariant ledger.tested == old(ledger.tested) + Elems(urls[..i])
      invariant ledger.file == old(ledger.file) + Records(probed)
      invariant found == Hits(probed, fetch)
    {
      var url := MakeUrl(domains[i], code);
      ghost var before := ledger.tested;
      var claimed := ledger.TryClaim(url);
      RoundStep(urls, i, url, old(ledger.tested), before, ledger.tested);
      if claimed {
        var image := FetchImage(fetch(url));
        ProbeStep(probed, url, fetch, old(ledger.file));
        probed := probed + [url];
        if image.Some? {
          found := found + [Found(url, image.value)];
        }
      }
    }
    assert urls[..|domains|] == urls;
  }

  /** The URLs of successive rounds, one round per code. */
  function AllUrls(domains: seq<string>, codes: seq<string>): seq<string> {
    if codes == [] then [] else RoundUrls(domains, codes[0]) + AllUrls(domains, codes[1..])
  }

  lemma {:induction false} AllUrlsSnoc(domains: seq<string>, codes: seq<string>, code: string)
    ensures AllUrls(domains, codes + [code]) == AllUrls(domains, codes) + RoundUrls(domains, code)
  {
    if codes == [] {
      assert codes + [code] == [code];
      assert AllUrls(domains, [code]) == RoundUrls(domains, code) + AllUrls(domains, []);
    } else {
      assert (codes + [code])[1..] == codes[1..] + [code];
      AllUrlsSnoc(domains, codes[1..], code);
    }
  }

  /** Joining the results of one more round onto those of the earlier rounds. */
  lemma RunStep(all: seq<string>, round: seq<string>, seen: set<string>,
                probed: seq<string>, roundProbed: seq<string>, fetch: string -> Response, f: string)
    requires probed == Claims(all, seen) && roundProbed == Claims(round, seen + Elems(all))
    ensures Claims(all + round, seen) == probed + roundProbed
    ensures seen + Elems(all + round) == (seen + Elems(all)) + Elems(round)
    ensures f + Records(probed + roundProbed) == (f + Records(probed)) + Records(roundProbed)
    ensures Hits(probed + roundProbed, fetch) == Hits(probed, fetch) + Hits(roundProbed, fetch)
  {
    ClaimsAppend(all, round, seen);
    RecordsAppend(probed, roundProbed);
    HitsAppend(probed, roundProbed, fetch);
    ElemsAppend(all, round);
  }

  /** A run of several rounds, one per code: over the whole run every URL is claimed,
      appended to the log and fetched at most once, and never when an earlier run had
      already tested it. */
  method Run(ledger: Ledger, domains: seq<string>, codes: seq<string>, fetch: string -> Response)
    returns (probed: seq<string>, found: seq<Found>)
    requires ledger.Valid()
    requires forall r, i :: 0 <= r < |codes| && 0 <= i < |domains| ==>
      Clean(MakeUrl(domains[i], codes[r]))
    modifies ledger
    ensures ledger.Valid()
    ensures probed == Claims(AllUrls(domains, codes), old(ledger.tested))
    ensures ledger.tested == old(ledger.tested) + Elems(AllUrls(domains, codes))
    ensures ledger.file == old(ledger.file) + Records(probed)
    ensures found == Hits(probed, fetch)
  {
    probed, found := [], [];
    for r := 0 to |codes|
      invariant ledger.Valid()
      invariant probed == Claims(AllUrls(domains, codes[..r]), old(ledger.tested))
      invariant ledger.tested == old(ledger.tested) + Elems(AllUrls(domains, codes[..r]))
      invariant ledger.file == old(ledger.file) + Records(probed)
      invariant found == Hits(probed, fetch)
    {
      ghost var all := AllUrls(domains, codes[..r]);
      ghost var round := RoundUrls(domains, codes[r]);
      assert codes[..r + 1] == codes[..r] + [codes[r]];
      AllUrlsSnoc(domains, codes[..r], codes[r]);
      var roundProbed, roundFound := Round(ledger, domains, codes[r], fetch);
      RunStep(all, round, old(ledger.tested), probed, roundProbed, fetch, old(ledger.file));
      probed, found := probed + roundProbed, found + roundFound;
    }
    assert codes[..|codes|] == codes;
  }

  /** Restart safety: after a run that started from log `log`, with startup's correction
      (`Terminate`) applied first, a restarted process that rebuilds its set from the
      resulting log never claims again a URL the run claimed. */
  lemma RestartNeverReprobes(log: string, first: seq<string>, second: seq<string>)
    requires forall i :: 0 <= i < |first| ==> Clean(first[i])
    ensures var claimed := Claims(first, Loaded(log));
      var after := Terminate(log) + Records(claimed);
      Loaded(after) == Loaded(log) + Elems(first) &&
      forall u :: u in Claims(second, Loaded(after)) ==> u !in claimed
  {
    var loaded := Loaded(log);
    var claimed := Claims(first, loaded);
    ClaimsCover(first, loaded);
    TerminateKeepsLoaded(log);
    RecordsReload(Terminate(log), claimed);
    var after := Terminate(log) + Records(claimed);
    NoReclaim(second, Loaded(after), claimed);
  }

  /** The claims are clean URLs of the visits, and together with the URLs already tested
      they cover every visited URL. */
  lemma ClaimsCover(urls: seq<string>, seen: set<string>)
    requires forall i :: 0 <= i < |urls| ==> Clean(urls[i])
    ensures forall i :: 0 <= i < |Claims(urls, seen)| ==> Clean(Claims(urls, seen)[i])
    ensures seen + Elems(Claims(urls, seen)) == seen + Elems(urls)
  {
    var c := Claims(urls, seen);
    ClaimsSpec(urls, seen);
    forall i | 0 <= i < |c| ensures Clean(c[i]) {
      var j :| 0 <= j < |urls| && urls[j] == c[i];
    }
  }

  /** URLs already tested are never claimed. */
  lemma NoReclaim(urls: seq<string>, tested: set<string>, claimed: seq<string>)
    requires Elems(claimed) <= tested
    ensures forall u :: u in Claims(urls, tested) ==> u !in claimed
  {
    ClaimsSpec(urls, tested);
    forall u | u in Claims(urls, tested) ensures u !in claimed {
      var c := Claims(urls, tested);
      var i :| 0 <= i < |c| && c[i] == u;
    }
  }

  /** The configured domains are distinct, so a round of the real configuration fetches
      exactly the URLs of the round not tested before, in domain order. */
  lemma ConfiguredRoundClaimsUntested(code: string, seen: set<string>)
    ensures Claims(RoundUrls(Domains, code), seen) == Untested(RoundUrls(Domains, code), seen)
  {
    DomainsDistinct();
    RoundUrlsDistinct(Domains, code);
    ClaimsOfDistinct(RoundUrls(Domains, code), seen);
  }

  /** With emoji keys free of whitespace, every URL of a round of the real configuration
      fits on one log line, as Round requires. */
  lemma ConfiguredUrlsClean(keys: seq<string>, picks: seq<nat>)
    requires forall i :: 0 <= i < |picks| ==> picks[i] < |keys|
    requires forall j :: 0 <= j < |keys| ==> NoSpace(keys[j])
    ensures forall i :: 0 <= i < |Domains| ==> Clean(MakeUrl(Domains[i], Code(keys, picks)))
  {
    DomainsOneLine();
    CodeNoSpace(keys, picks);
    forall i | 0 <= i < |Domains| ensures Clean(MakeUrl(Domains[i], Code(keys, picks))) {
      UrlClean(Domains[i], Code(keys, picks));
    }
  }
}
