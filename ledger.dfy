/**
  The probe-deduplication ledger: the in-memory set of tested URLs and the log file that
  mirrors it. The set is rebuilt from the log at startup; claiming a URL adds it to the set
  and appends its record to the log, and nothing ever removes a URL.
 */
module Ledger {
  import opened Text
  import opened LogFile

  /** The startup loop: every line of the log, stripped, is added to the set unless it is
      blank. */
  method LoadTested(log: string) returns (loaded: set<string>)
    ensures loaded == Loaded(log)
  {
    var lines := Lines(log);
    loaded := {};
    for i := 0 to |lines|
      invariant loaded == LoadLines(lines[..i])
    {
      LoadPrefixStep(lines, i);
      var entry := Strip(lines[i]);
      if entry != "" {
        loaded := loaded + {entry};
      }
    }
    assert lines[..|lines|] == lines;
  }

  class Ledger {
    /** The URLs already probed, in this run or a previous one. */
    var tested: set<string>
    /** The text of the log file of tested URLs (a missing file is the empty text). */
    var file: string

    /** The set and the log are in step: restarting on this log rebuilds exactly this set,
        and the next record appended starts a line of its own. */
    ghost predicate Valid()
      reads this
    {
      Terminated(file) && tested == Loaded(file)
    }

    /** Startup: the set is rebuilt from the stripped, non-blank lines of the log. A last
        line without a newline is closed, so that the next record does not join it. */
    constructor (log: string)
      ensures Valid()
      ensures tested == Loaded(log)
      ensures file == Terminate(log)
    {
      var loaded := LoadTested(log);
      tested, file := loaded, Terminate(log);
      TerminateKeepsLoaded(log);
    }

    /** The membership check, insertion and append of one URL, with no suspension point
        between them: a URL already tested is skipped and changes nothing; any other is
        added to the set and its record appended to the log, before it is fetched. */
    method TryClaim(url: string) returns (claimed: bool)
      requires Valid() && Clean(url)
      modifies this
      ensures Valid()
      ensures claimed == (url !in old(tested))
      ensures tested == old(tested) + {url}
      ensures file == if claimed then old(file) + Record(url) else old(file)
    {
      if url in tested {
        return false;
      }
      AppendReload(file, url);
      tested := tested + {url};
      file := file + Record(url);
      claimed := true;
    }
  }
}
