/**
  The pure pieces of one probe: the configured domains, the random emoji code, the URL
  built from a domain and a code, and the rule that decides whether a response is an image.
 */
module Probe {
  import opened Wrappers
  import opened Text
  import opened LogFile

  /** The image hosts probed, in the order every round visits them. */
  const Domains: seq<string> := [
    "adult.army", "arabs-for.sale", "astronaut.ink", "bashscript.lol", "crinchy.charity",
    "fakecri.me", "fakecrime.bio", "fakecrime.lol", "fakecrime.pics", "fakecrime.tools",
    "fraud.money", "grabify.live", "grablify.ink", "grablify.org", "hot-tube.live",
    "ip-finder.wiki", "milf.charity", "neverlose.wiki", "sharex.rocks", "shellscript.lol",
    "tailwindcss.lol"
  ]

  /** The number of emojis per code when the configuration does not set `num_emojis`. */
  const DefaultNumEmojis: int := 5

  /** `int(config.get("num_emojis", 5))`, the configuration value given as an integer. */
  function NumEmojis(configured: Option<int>): (n: int)
    ensures configured.None? ==> n == DefaultNumEmojis
    ensures configured.Some? ==> n == configured.value
  {
    configured.GetOr(DefaultNumEmojis)
  }

  /** How many draws `range(n)` makes: none when `n` is zero or negative. */
  function Draws(n: int): (draws: nat)
    ensures draws == 0 <==> n <= 0
    ensures n > 0 ==> draws == n
  {
    if n < 0 then 0 else n
  }

  /** The code joined from the emoji keys at the drawn indices, in draw order; `picks` stands
      for the results of `random.choice`, which always picks an index of the list. */
  function Code(keys: seq<string>, picks: seq<nat>): (code: string)
    requires forall i :: 0 <= i < |picks| ==> picks[i] < |keys|
    ensures forall k :: 0 <= k < |code| ==>
      exists i :: 0 <= i < |picks| && code[k] in keys[picks[i]]
  {
    if picks == [] then []
    else
      var head, tail := keys[picks[0]], Code(keys, picks[1..]);
      assert forall k :: |head| <= k < |head + tail| ==> (head + tail)[k] == tail[k - |head|];
      head + tail
  }

  /** The sequence of keys one round draws. */
  function Drawn(keys: seq<string>, picks: seq<nat>): (parts: seq<string>)
    requires forall i :: 0 <= i < |picks| ==> picks[i] < |keys|
    ensures |parts| == |picks|
    ensures forall i :: 0 <= i < |parts| ==> parts[i] in keys
  {
    seq(|picks|, i requires 0 <= i < |picks| => keys[picks[i]])
  }

  /** A code is the concatenation of exactly `Draws(numEmojis)` keys of the emoji list. */
  lemma {:induction false} CodeIsDrawn(keys: seq<string>, numEmojis: int, picks: seq<nat>)
    requires |picks| == Draws(numEmojis)
    requires forall i :: 0 <= i < |picks| ==> picks[i] < |keys|
    ensures |Drawn(keys, picks)| == Draws(numEmojis)
    ensures Flatten(Drawn(keys, picks)) == Code(keys, picks)
    decreases |picks|
  {
    if picks != [] {
      var rest := picks[1..];
      CodeIsDrawn(keys, |rest|, rest);
      assert Drawn(keys, picks)[1..] == Drawn(keys, rest);
    }
  }

  /** With the default configuration a code joins five keys. */
  lemma DefaultCodeLength(keys: seq<string>, picks: seq<nat>)
    requires |picks| == Draws(NumEmojis(None))
    requires forall i :: 0 <= i < |picks| ==> picks[i] < |keys|
    ensures |Drawn(keys, picks)| == 5
  {
  }

  /** Keys without whitespace give a code without whitespace. */
  lemma CodeNoSpace(keys: seq<string>, picks: seq<nat>)
    requires forall i :: 0 <= i < |picks| ==> picks[i] < |keys|
    requires forall j :: 0 <= j < |keys| ==> NoSpace(keys[j])
    ensures NoSpace(Code(keys, picks))
  {
    var code := Code(keys, picks);
    forall k | 0 <= k < |code| ensures !IsSpace(code[k]) {
      var i :| 0 <= i < |picks| && code[k] in keys[picks[i]];
      var e := keys[picks[i]];
      var m :| 0 <= m < |e| && e[m] == code[k];
      assert NoSpace(e);
    }
  }

  /** The URL probed for one domain and code: `https://i.<domain>/<code>`. */
  function MakeUrl(domain: string, code: string): (url: string)
    ensures |url| == 11 + |domain| + |code|
    ensures url[..10] == "https://i." && url[10 + |domain|] == '/'
    ensures url[10..10 + |domain|] == domain && url[11 + |domain|..] == code
  {
    "https://i." + domain + "/" + code
  }

  /** Within one round (one code), different domains give different URLs. */
  lemma SameCodeDistinctDomains(d1: string, d2: string, code: string)
    requires MakeUrl(d1, code) == MakeUrl(d2, code)
    ensures d1 == d2
  {
    var u := MakeUrl(d1, code);
    assert d1 == u[10..10 + |d1|];
  }

  /** For one domain, different codes give different URLs. */
  lemma SameDomainDistinctCodes(domain: string, c1: string, c2: string)
    requires MakeUrl(domain, c1) == MakeUrl(domain, c2)
    ensures c1 == c2
  {
    var u := MakeUrl(domain, c1);
    assert c1 == u[11 + |domain|..];
  }

  /** A domain without newlines and a code without whitespace give a URL that fits on one
      log line and survives `strip()`. */
  lemma UrlClean(domain: string, code: string)
    requires '\n' !in domain && NoSpace(code)
    ensures Clean(MakeUrl(domain, code))
  {
    var u := MakeUrl(domain, code);
    assert u[0] == 'h';
    assert !IsSpace(u[|u| - 1]) by {
      if code == [] { assert u[|u| - 1] == '/'; } else { assert u[|u| - 1] == code[|code| - 1]; }
    }
    forall j | 0 <= j < |u| ensures u[j] != '\n' {
      if j < 10 {
        assert u[j] == "https://i."[j];
      } else if j < 10 + |domain| {
        assert u[j] == domain[j - 10];
      } else if j > 10 + |domain| {
        assert u[j] == code[j - 11 - |domain|];
      }
    }
  }

  /** True when no element of `s` occurs twice. */
  predicate Distinct(s: seq<string>) {
    forall i, j :: 0 <= i < j < |s| ==> s[i] != s[j]
  }

  /** The configured domains are pairwise different. */
  lemma DomainsDistinct()
    ensures Distinct(Domains)
  {
    assert forall i, j :: 0 <= i < j < |Domains| ==> Domains[i] != Domains[j];
  }

  /** No configured domain holds a newline. */
  lemma DomainsOneLine()
    ensures forall i :: 0 <= i < |Domains| ==> '\n' !in Domains[i]
  {
    // Checked seven domains at a time: the solver scans every character of each literal,
    // and one query over all 21 domains costs several times the sum of the three parts.
    DomainsOneLineFrom0();
    DomainsOneLineFrom7();
    DomainsOneLineFrom14();
  }

  lemma DomainsOneLineFrom0()
    ensures forall i :: 0 <= i < 7 ==> '\n' !in Domains[i]
  {
  }

  lemma DomainsOneLineFrom7()
    ensures forall i :: 7 <= i < 14 ==> '\n' !in Domains[i]
  {
  }

  lemma DomainsOneLineFrom14()
    ensures forall i :: 14 <= i < 21 ==> '\n' !in Domains[i]
  {
  }

  /** The URLs of one round, one per domain, in domain order, all with the same code. */
  function RoundUrls(domains: seq<string>, code: string): (urls: seq<string>)
    ensures |urls| == |domains|
    ensures forall i :: 0 <= i < |urls| ==> urls[i] == MakeUrl(domains[i], code)
  {
    seq(|domains|, i requires 0 <= i < |domains| => MakeUrl(domains[i], code))
  }

  /** Distinct domains give a round of distinct URLs. */
  lemma RoundUrlsDistinct(domains: seq<string>, code: string)
    requires Distinct(domains)
    ensures Distinct(RoundUrls(domains, code))
  {
    var urls := RoundUrls(domains, code);
    forall i, j | 0 <= i < j < |domains| ensures urls[i] != urls[j] {
      if urls[i] == urls[j] {
        SameCodeDistinctDomains(domains[i], domains[j], code);
      }
    }
  }

  /** What the HTTP GET of one URL gives: a status, a `Content-Type` header that may be
      absent, and a body whose read may raise (None); or the request itself raised. */
  datatype Response =
    | Fetched(status: int, contentType: Option<string>, body: Option<seq<bv8>>)
    | Raised

  /** A response is an image when its status is 200 and its `Content-Type` starts with
      "image" (a plain, case-sensitive prefix test). */
  predicate Accept(status: int, contentType: string)
    ensures Accept(status, contentType) <==>
      status == 200 && |contentType| >= 5 && contentType[..5] == "image"
  {
    status == 200 && "image" <= contentType
  }

  /** The image a probe keeps, or None; every exception is caught and gives None. */
  function FetchImage(r: Response): (image: Option<seq<bv8>>)
    ensures image.Some? <==>
      r.Fetched? && Accept(r.status, r.contentType.GetOr("")) && r.body.Some?
    ensures image.Some? ==> image.value == r.body.value
  {
    match r
    case Fetched(status, contentType, body) =>
      if Accept(status, contentType.GetOr("")) then body else None
    case Raised => None
  }

  /** The edge cases of the acceptance rule. */
  lemma AcceptCases()
    ensures Accept(200, "image/png") && Accept(200, "image")
    ensures Accept(200, "imagefoo")
    ensures !Accept(200, "Image/png") && !Accept(200, "text/html") && !Accept(200, "")
    ensures !Accept(404, "image/png") && !Accept(301, "image/png")
  {
    assert "Image/png"[0] != "image"[0];
    assert "text/html"[0] != "image"[0];
  }

  /** A response without a Content-Type header is never an image. */
  lemma MissingContentType(status: int, body: Option<seq<bv8>>)
    ensures FetchImage(Fetched(status, None, body)) == None
  {
  }
}
