# Cloud-Scraper probe ledger, in Dafny

Cloud-Scraper is a Discord bot. It guesses URLs on a fixed list of image hosts. Each URL is
`https://i.<domain>/<code>`, where the code is a string of random emojis. The bot fetches each
guess and posts any image it finds to a channel.

Its one piece of non-trivial logic is the **probe-deduplication ledger**. An in-memory set of
tested URLs is mirrored by an append-only text log, `tested_urls.txt`, one URL per line.
- At startup the set is rebuilt from the log's stripped, non-blank lines.
- Every round draws one code and builds one URL per domain.
- A URL already in the set is skipped.
- Any other URL is added to the set and appended to the log before it is fetched. It stays
  claimed whatever the fetch gives.

The model has six modules:
- `Wrappers`: an `Option` type standing for Python's `None`.
- `Text`: Python's `str.strip()`, with the whitespace set of `str.isspace()`.
- `LogFile`: the log as text, split into lines the way Python's file iteration does; what
  startup loads from it; and the round trip between the `url + "\n"` write and the
  `line.strip()` read.
- `Probe`: the configured domains, the emoji code, the URL layout, and the rule for accepting
  a fetch as an image.
- `Ledger`: the startup load loop (`LoadTested`) and a class holding the tested set and the
  log text, built from the log by its constructor. `TryClaim` is the check, insert and append of one URL.
- `Scraper`: the loop over the domains of one round (`Round`) and over several rounds
  (`Run`). Both are proved against the specification functions `Claims` and `Hits`, and `RestartNeverReprobes`
  proves the restart-safety property.

The class invariant `Ledger.Valid()` says that the set and the log are in step: restarting on
the log rebuilds exactly the set. Every method keeps it.

## Model

| member | source | states |
|---|---|---|
| Text.Strip | bot.py:62 | the stripped line neither starts nor ends with whitespace and is no longer than the line; `Text.StripSlice` says which characters it keeps |
| Text.StripSlice | bot.py:62 | what `strip()` keeps is the slice of the line that starts after all of its leading whitespace and has only whitespace after it; with `Strip`'s contract this fixes the result |
| Text.StripIdempotent | bot.py:62 | stripping an already stripped entry changes nothing |
| Text.StripEmpty | bot.py:62 | a line strips to the empty string exactly when it is whitespace only, so it is skipped by the `if line.strip()` filter |
| Text.StripIgnoresTrailing | bot.py:62 | trailing whitespace, the line's newline included, does not change what the line loads as |
| LogFile.Lines | bot.py:61-62 | the lines `for line in f` yields, in file order; `LinesFlatten` and `LinesShape` state what they are |
| LogFile.LineLength | bot.py:61-62 | a line read from the file ends with a newline, or runs to the end of the file |
| LogFile.LineLengthClear | bot.py:61-62 | a line read from the file holds no newline before its end, so it stops at the first newline |
| LogFile.LinesFlatten | bot.py:61-62 | the lines the file iteration yields, put back together, are the file's whole text: nothing is lost or duplicated |
| LogFile.LinesShape | bot.py:61-62 | every yielded line is non-empty with a newline at most at its end, and every line but the last ends with a newline |
| LogFile.LinesAppend | bot.py:61-62 | after a log that ends with a newline, appended text yields the old lines followed by its own |
| LogFile.LoadLine | bot.py:62 | what one line adds to the set: its stripped text, or nothing when that is empty; `LoadLineBlank` and `LoadLineTerminated` state its properties |
| LogFile.LoadLines | bot.py:62 | what a sequence of lines adds to the set; `LoadLinesMembers` states exactly which entries |
| LogFile.Loaded | bot.py:59-62 | the set startup rebuilds from the log's text; `LoadLinesMembers`, `AppendReload` and `TerminateKeepsLoaded` state its properties |
| LogFile.LoadLinesMembers | bot.py:59-62 | an entry is loaded exactly when it is non-empty and is the strip of some line of the log (both directions) |
| LogFile.LoadLinesAppend | bot.py:59-62 | loading two runs of lines loads the union of what each loads |
| LogFile.LoadLineBlank | bot.py:62 | a whitespace-only line loads nothing; any other line loads its stripped text |
| LogFile.Record | bot.py:94 | the record written for a claimed URL is one character longer than the URL and ends with a newline; `RecordLoads` shows it reads back as the URL |
| LogFile.RecordLoads | bot.py:94 | the record of a clean URL, read back, loads as exactly that URL |
| LogFile.AppendReload | bot.py:93-94 | appending `url + "\n"` for a clean URL to a log ending in a newline makes the next startup load exactly the old entries plus that URL, and the log still ends in a newline |
| LogFile.RecordsReload | bot.py:93-94 | the same round trip for a whole sequence of appended URLs |
| LogFile.LoadLineTerminated | bot.py:62 | a newline at the end of a line changes nothing the line loads |
| LogFile.Terminate | bot.py:59-62 | the startup correction: the log extended by at most one character so that it ends with a newline, and left as it is when it already does |
| LogFile.TerminateKeepsLoaded | bot.py:59-62 | closing an unterminated last line with a newline loads the same entries |
| LogFile.TerminatedLogKeepsClaim | bot.py:93-94 | once startup has closed an unterminated last line, a later claim is reloaded by the next startup along with everything loaded before |
| LogFile.UnterminatedLogLosesClaim | bot.py:93-94 | as written: a claim appended after a last line without a newline is glued onto that line, and the next startup loads neither URL |
| LogFile.UnterminatedLogExample | bot.py:93-94 | the loss on two real URLs of the configured hosts |
| Probe.NumEmojis | bot.py:47 | the configured `num_emojis`, or 5 when the configuration does not set it |
| Probe.Draws | bot.py:87 | `range(NUM_EMOJIS)` draws `NUM_EMOJIS` times when it is positive and never otherwise |
| Probe.Code | bot.py:87 | every character of the code comes from one of the drawn emoji keys |
| Probe.Drawn | bot.py:87 | one round draws as many keys as there are draws, each a key of the emoji list |
| Probe.CodeIsDrawn | bot.py:84-87 | the code is the concatenation of exactly `Draws(NUM_EMOJIS)` keys of the emoji list, and none when `NUM_EMOJIS` is not positive |
| Probe.DefaultCodeLength | bot.py:47 | with `num_emojis` unset, the code joins five keys |
| Probe.CodeNoSpace | bot.py:87 | keys without whitespace give a code without whitespace |
| Probe.MakeUrl | bot.py:89 | the URL is `https://i.`, then the domain, then `/`, then the code, each at its position |
| Probe.SameCodeDistinctDomains | bot.py:88-89 | within one round, different domains never give the same URL |
| Probe.SameDomainDistinctCodes | bot.py:89 | for one domain, different codes never give the same URL |
| Probe.UrlClean | bot.py:89 | a domain without newlines and a code without whitespace give a URL that fits on one log line and survives `strip()` |
| Probe.DomainsDistinct | bot.py:15-37 | the 21 configured domains are pairwise different |
| Probe.DomainsOneLine | bot.py:15-37 | no configured domain holds a newline |
| Probe.RoundUrls | bot.py:87-89 | a round has one URL per domain, in domain order, all with the same code |
| Probe.RoundUrlsDistinct | bot.py:88-89 | distinct domains give a round of distinct URLs |
| Probe.FetchImage | bot.py:65-72 | the probe yields data exactly when no exception was raised, the status is 200, `Content-Type` (default `""`) starts with `image`, and the body was read; the data is that body |
| Probe.Accept | bot.py:68 | a response is an image exactly when its status is 200 and its first five `Content-Type` characters are `image` |
| Probe.AcceptCases | bot.py:68 | the prefix test is case-sensitive: `image/png` and `imagefoo` pass, `Image/png`, `text/html`, an empty type and any status but 200 fail |
| Probe.MissingContentType | bot.py:68 | a response without a `Content-Type` header is never an image |
| Ledger.LoadTested | bot.py:59-62 | the startup loop adds to the set exactly the stripped, non-blank lines of the log |
| Ledger.Ledger.constructor | bot.py:59-62 | startup leaves the set equal to the stripped, non-blank lines of the log, and closes an unterminated last line of the log with a newline (the correction of the finding below; the source leaves the log as it is), so that the set and the log are in step |
| Ledger.Ledger.TryClaim | bot.py:90-94 | a tested URL is skipped and nothing changes; an untested one is reported as claimed, added to the set and appended to the log as `url + "\n"`; the set and the log stay in step |
| Scraper.Claims | bot.py:90-92 | the skip-or-claim walk over the visited URLs claims at most one URL per visit; `ClaimsSpec` states which ones |
| Scraper.ClaimsSpec | bot.py:88-92 | the claimed URLs are distinct, each visited and not tested before, and every visited untested URL is claimed |
| Scraper.ClaimsSnoc | bot.py:90-92 | visiting one more URL claims it exactly when it is neither tested nor visited earlier |
| Scraper.ClaimsOfDistinct | bot.py:88-92 | with distinct URLs the claims are exactly the untested URLs, in order |
| Scraper.ClaimsAppend | bot.py:86-92 | visiting `a` then `b` claims what `a` claims, then what `b` claims once `a` is tested |
| Scraper.Hits | bot.py:96-98 | the images found among the probed URLs, at most one per URL; `HitsSound` and `HitsComplete` state which |
| Scraper.HitsSound | bot.py:96-100 | every reported image is the accepted response of a probed URL |
| Scraper.HitsComplete | bot.py:96-100 | every probed URL whose response is accepted is reported |
| Scraper.Round | bot.py:86-98 | after a round every URL of the round is tested, the set only grew by them, exactly the previously untested URLs were claimed and fetched in domain order, the log gained exactly their records, and the images among them are returned; a failed fetch leaves its URL claimed |
| Scraper.Run | bot.py:86-108 | over several rounds each URL is claimed, appended and fetched at most once, and never when it was tested before the run |
| Scraper.RestartNeverReprobes | bot.py:90-94 | after a run that followed the corrected startup (an unterminated last line closed first, see Findings), a process restarted on the resulting log loads the old entries plus every URL the run visited, and never claims again a URL the run claimed |
| Scraper.ConfiguredRoundClaimsUntested | bot.py:88-92 | with the configured domains, one round claims exactly its untested URLs |
| Scraper.ConfiguredUrlsClean | bot.py:87-89 | with emoji keys free of whitespace, every URL of a round of the configured domains satisfies `Round`'s precondition |

## Left out

- The Discord client: `on_ready`, the channel lookup and the posting of the image (bot.py:55-56, 76-80, 101-107). `Round` returns the images found instead of posting them.
- An exception raised while posting a found image (`channel.send`, bot.py:107) escapes `scrape_loop` and ends the scraping task in the middle of a round. In the model `Round` always visits all its domains and `Run` always runs every round.
- The HTTP session and GET (bot.py:65-72, 85). The response of each URL comes from an oracle `fetch`. A raised exception is the `Raised` response, and a failed body read is a missing body.
- The configuration file, its JSON parsing and the `RuntimeError`s for a missing file or token (bot.py:41-49, 111-114). `num_emojis` is a parameter of `NumEmojis`.
- `random.choice` and the contents of `emoji.EMOJI_DATA` (bot.py:84, 87). The drawn indices are a parameter. An empty emoji list, which makes `random.choice` raise, is not modelled.
- `asyncio.sleep`, the endless `while True` and logging (bot.py:86, 100, 108). `Run` covers any finite number of rounds.
- File I/O failures. The model does not cover an append that raises after the URL is already in the set, a log that is not valid UTF-8, or a missing log file; the last is the same as an empty one.
- Python's universal-newline translation of `\r` and `\r\n` when reading the log. The model splits lines at `\n` only.
- Ledger.Ledger.constructor: the source opens the log read-only at startup and leaves an unterminated last line as it is. The constructor closes that line with a newline, so on such a log the class, and `TryClaim`, `Round`, `Run` and `Scraper.RestartNeverReprobes`, which rely on its invariant or restart from `Terminate(log)`, model the corrected program rather than the source (see Findings).
- Ledger.Ledger.TryClaim: requires the URL to be clean (no newline, no whitespace at either end). The source applies no such check, but without it a write and the next startup's read disagree. `Probe.UrlClean`, `Probe.DomainsOneLine` and `Scraper.ConfiguredUrlsClean` show that every URL the bot builds is clean when the emoji keys hold no whitespace.
- Scraper.Round: requires every URL of the round to be clean, for the same reason; its exact post-state also assumes a single scraping task (see the line on concurrent tasks).
- Scraper.Run: requires every URL of every round to be clean, for the same reason; its exact post-state also assumes a single scraping task (see the line on concurrent tasks).
- Concurrent scraping tasks. Every `on_ready` event starts another `scrape_loop` task (bot.py:77-80), and the event can fire again after a reconnect, so two tasks may share the tested set and the log and interleave at their awaits (`fetch_image`, `channel.send`, `asyncio.sleep`; bot.py:96, 107, 108). The model covers a single scraping task. The claim itself has no await (bot.py:90-94), so `TryClaim`'s check, insert and append stay atomic and at-most-once claiming and the set-and-log invariant hold with several tasks; only the exact post-state of `Round` and `Run` (the set grown by exactly the round's URLs, the log grown by exactly its records) assumes that no other task claims in the meantime.
- A partial last line, such as one left by an interrupted write, is loaded as a full entry (bot.py:62); the model does the same.

## Findings

| source | as written | input that shows it | evidently intended | confidence | as-written member | corrected member |
|---|---|---|---|---|---|---|
| bot.py:93-94 | each claim appends `url + "\n"` in append mode, whatever the log's last character is | a log holding `https://i.adult.army/a` without a final newline (an interrupted write or a hand-edited file), then a claim of `https://i.fraud.money/b`: the file's last line becomes `https://i.adult.army/ahttps://i.fraud.money/b`, and the next startup loads neither URL, so either may be probed again | every claimed URL is reloaded at the next startup | not executed | LogFile.UnterminatedLogLosesClaim | LogFile.TerminatedLogKeepsClaim, Ledger.Ledger.constructor |

In the model the correction is made at startup. `Ledger.Ledger.constructor` closes an unterminated last line, and the class invariant then requires the log to end in a newline. From there, every append made by `TryClaim`, `Round` and `Run` is exactly the source's `url + "\n"`.
