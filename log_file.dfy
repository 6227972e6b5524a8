/**
  The text log of tested URLs (`tested_urls.txt`) and how the scraper reads it back.

  The log is modelled as its whole text. Reading it at startup iterates over the file's
  lines, as Python does (each line keeps its terminating '\n'; a last line without one is
  still a line), strips each line and keeps the non-blank results. Claiming a URL appends
  the record `url + "\n"`.
 */
module LogFile {
  import opened Text

  /** The length of the first line of `text`: up to and including the first '\n',
      or all of `text` when it has none. */
  function LineLength(text: string): (k: nat)
    requires text != []
    ensures 0 < k <= |text|
    ensures text[k - 1] == '\n' || k == |text|
  {
    if text[0] == '\n' || |text| == 1 then 1 else 1 + LineLength(text[1..])
  }

  /** The first line holds no newline before its end. */
  lemma {:induction false} LineLengthClear(text: string)
    requires text != []
    ensures IsLine(text[..LineLength(text)])
    decreases |text|
  {
    if !(text[0] == '\n' || |text| == 1) {
      var l, r := text[..LineLength(text)], text[1..][..LineLength(text[1..])];
      LineLengthClear(text[1..]);
      assert l == [text[0]] + r;
      forall j | 0 <= j < |l| - 1 ensures l[j] != '\n' {
        if j > 0 { assert l[j] == r[j - 1]; }
      }
    }
  }

  /** A line ends at the first newline, so these two facts fix its length. */
  lemma {:induction false} LineLengthAt(text: string, k: nat)
    requires 0 < k <= |text| && text[k - 1] == '\n' && IsLine(text[..k])
    ensures LineLength(text) == k
    decreases k
  {
    if k > 1 {
      var l, r := text[..k], text[1..][..k - 1];
      assert text[0] == l[0] && r == l[1..];
      forall j | 0 <= j < |r| - 1 ensures r[j] != '\n' { assert r[j] == l[j + 1]; }
      LineLengthAt(text[1..], k - 1);
    }
  }

  /** The concatenation of a sequence of lines. */
  function Flatten(ls: seq<string>): string {
    if ls == [] then [] else ls[0] + Flatten(ls[1..])
  }

  /** True when the text is empty or ends with a newline: appending to it starts a new line. */
  predicate Terminated(text: string) {
    text == [] || text[|text| - 1] == '\n'
  }

  /** One line as Python's file iteration yields it: not empty, and a newline can only be
      its last character. */
  predicate IsLine(l: string) {
    l != [] && forall j :: 0 <= j < |l| - 1 ==> l[j] != '\n'
  }

  /** The lines Python yields when iterating over a file whose contents are `text`. */
  function Lines(text: string): seq<string>
    decreases |text|
  {
    if text == [] then [] else [text[..LineLength(text)]] + Lines(text[LineLength(text)..])
  }

  /** Put back together, the lines give the file's text. */
  lemma {:induction false} LinesFlatten(text: string)
    ensures Flatten(Lines(text)) == text
    decreases |text|
  {
    if text != [] {
      var k := LineLength(text);
      var head, rest := text[..k], text[k..];
      LinesFlatten(rest);
      assert Lines(text) == [head] + Lines(rest);
      assert ([head] + Lines(rest))[1..] == Lines(rest);
      assert head + rest == text;
    }
  }

  /** Every line is non-empty with a newline at most at its end, and every line but the
      last ends with a newline. */
  lemma {:induction false} LinesShape(text: string)
    ensures forall i :: 0 <= i < |Lines(text)| ==> IsLine(Lines(text)[i])
    ensures forall i :: 0 <= i < |Lines(text)| - 1 ==> Terminated(Lines(text)[i])
    decreases |text|
  {
    if text != [] {
      var k := LineLength(text);
      LinesShape(text[k..]);
      var ls := Lines(text);
      assert ls == [text[..k]] + Lines(text[k..]);
      LineLengthClear(text);
      forall i | 1 <= i < |ls| ensures ls[i] == Lines(text[k..])[i - 1] { }
    }
  }

  /** Iterating over two files one after the other, when the first ends with a newline,
      yields the lines of the first and then those of the second. */
  lemma {:induction false} LinesAppend(a: string, b: string)
    requires Terminated(a)
    ensures Lines(a + b) == Lines(a) + Lines(b)
    decreases |a|
  {
    if a == [] {
      assert a + b == b;
    } else {
      var k, ab := LineLength(a), a + b;
      LineLengthClear(a);
      assert ab[..k] == a[..k];
      LineLengthAt(ab, k);
      assert ab[k..] == a[k..] + b;
      LinesAppend(a[k..], b);
      assert Lines(ab) == [a[..k]] + Lines(a[k..] + b);
    }
  }

  /** A string without newlines followed by one newline is one line. */
  lemma OneLine(u: string)
    requires '\n' !in u
    ensures Lines(u + "\n") == [u + "\n"]
  {
    LinesOfLine(u + "\n");
  }

  /** Text with no newline before its last character is a single line. */
  lemma LinesOfLine(t: string)
    requires IsLine(t)
    ensures Lines(t) == [t]
  {
    var k := LineLength(t);
    assert k == |t|;
    assert t[k..] == [];
    assert t[..k] == t;
  }

  /** Adding a newline to text whose last line is unterminated only terminates that line. */
  lemma {:induction false} LinesTerminate(f: string)
    requires !Terminated(f)
    ensures var ls := Lines(f);
      ls != [] && Lines(f + "\n") == ls[..|ls| - 1] + [ls[|ls| - 1] + "\n"]
    decreases |f|
  {
    var k := LineLength(f);
    var g := f + "\n";
    LineLengthClear(f);
    if k == |f| {
      assert f[..k] == f;
      assert IsLine(g) by { assert forall j :: 0 <= j < |f| ==> g[j] == f[j]; }
      LinesOfLine(f);
      LinesOfLine(g);
    } else {
      var head, rest := f[..k], f[k..];
      assert g[..k] == head;
      LineLengthAt(g, k);
      assert g[k..] == rest + "\n";
      LinesTerminate(rest);
      var ls, tail := Lines(f), Lines(rest);
      var n := |tail| - 1;
      assert ls == [head] + tail;
      assert Lines(g) == [head] + Lines(rest + "\n");
      assert ls[..|ls| - 1] == [head] + tail[..n] && ls[|ls| - 1] == tail[n];
    }
  }

  /** What one line contributes at startup: its stripped text, or nothing when that is empty. */
  function LoadLine(l: string): set<string> {
    var e := Strip(l);
    if e == [] then {} else {e}
  }

  /** The entries startup loads from a sequence of lines, in file order. */
  function LoadLines(lines: seq<string>): set<string> {
    if lines == [] then {} else LoadLine(lines[0]) + LoadLines(lines[1..])
  }

  /** Startup loads exactly the non-empty stripped lines; whitespace-only lines contribute nothing. */
  lemma {:induction false} LoadLinesMembers(lines: seq<string>, u: string)
    ensures u in LoadLines(lines) <==> u != [] && exists i :: 0 <= i < |lines| && Strip(lines[i]) == u
  {
    if lines != [] {
      var rest := lines[1..];
      LoadLinesMembers(rest, u);
      if u in LoadLines(rest) {
        var i :| 0 <= i < |rest| && Strip(rest[i]) == u;
        assert lines[i + 1] == rest[i];
      }
      if exists i :: 0 <= i < |lines| && Strip(lines[i]) == u {
        var i :| 0 <= i < |lines| && Strip(lines[i]) == u;
        if i > 0 { assert rest[i - 1] == lines[i]; }
      }
    }
  }

  /** Loading two runs of lines loads the union of what each loads. */
  lemma {:induction false} LoadLinesAppend(a: seq<string>, b: seq<string>)
    ensures LoadLines(a + b) == LoadLines(a) + LoadLines(b)
  {
    if a == [] {
      assert a + b == b;
    } else {
      assert (a + b)[0] == a[0];
      assert (a + b)[1..] == a[1..] + b;
      LoadLinesAppend(a[1..], b);
    }
  }

  /** A line that is whitespace only loads nothing; any other loads its stripped text. */
  lemma LoadLineBlank(l: string)
    ensures LoadLine(l) == if AllSpace(l) then {} else {Strip(l)}
  {
    StripEmpty(l);
  }

  /** The set of tested URLs that startup rebuilds from the log's text. */
  function Loaded(text: string): set<string> {
    LoadLines(Lines(text))
  }

  /** A URL that fits on one log line and survives `strip()` unchanged. */
  predicate Clean(u: string) {
    u != [] && '\n' !in u && !IsSpace(u[0]) && !IsSpace(u[|u| - 1])
  }

  /** The record written for one claimed URL. */
  function Record(u: string): (r: string)
    ensures |r| == |u| + 1 && Terminated(r)
  {
    u + "\n"
  }

  /** The text appended to the log for a sequence of claimed URLs, in claim order. */
  function Records(urls: seq<string>): string {
    if urls == [] then [] else Record(urls[0]) + Records(urls[1..])
  }

  /** Claiming one more URL appends its record after the earlier ones. */
  lemma {:induction false} RecordsSnoc(urls: seq<string>, u: string)
    ensures Records(urls + [u]) == Records(urls) + Record(u)
  {
    if urls == [] {
      assert urls + [u] == [u];
    } else {
      assert (urls + [u])[1..] == urls[1..] + [u];
      RecordsSnoc(urls[1..], u);
    }
  }

  /** Appending the record of a clean URL to a terminated log adds exactly that URL to what
      the next startup loads, and leaves the log terminated. */
  lemma AppendReload(f: string, u: string)
    requires Terminated(f) && Clean(u)
    ensures Loaded(f + Record(u)) == Loaded(f) + {u}
    ensures Terminated(f + Record(u))
  {
    var r := Record(u);
    RecordAfter(f, u);
    LoadLinesAppend(Lines(f), [r]);
    RecordLoads(u);
  }

  /** The record of a clean URL is one more line after a terminated log. */
  lemma RecordAfter(f: string, u: string)
    requires Terminated(f) && Clean(u)
    ensures Lines(f + Record(u)) == Lines(f) + [Record(u)]
  {
    LinesAppend(f, Record(u));
    OneLine(u);
  }

  /** The record of a clean URL loads as that URL. */
  lemma RecordLoads(u: string)
    requires Clean(u)
    ensures LoadLines([Record(u)]) == {u}
  {
    var r := Record(u);
    StripRecord(u);
    assert LoadLines([r]) == LoadLine(r);
  }

  /** The elements of a sequence, as a set. */
  function Elems(s: seq<string>): set<string> {
    set u | u in s
  }

  lemma ElemsAppend(a: seq<string>, b: seq<string>)
    ensures Elems(a + b) == Elems(a) + Elems(b)
  {
    forall u ensures u in Elems(a + b) <==> u in Elems(a) + Elems(b) {
      assert u in a + b <==> u in a || u in b;
    }
  }

  /** The lines of the records of a sequence of URLs, one line per URL. */
  function RecordLines(urls: seq<string>): seq<string> {
    if urls == [] then [] else [Record(urls[0])] + RecordLines(urls[1..])
  }

  /** Reading the records back splits them into one line per URL. */
  lemma {:induction false} LinesOfRecords(urls: seq<string>)
    requires forall i :: 0 <= i < |urls| ==> Clean(urls[i])
    ensures Lines(Records(urls)) == RecordLines(urls)
    ensures Terminated(Records(urls))
  {
    if urls != [] {
      var r := Record(urls[0]);
      LinesOfRecords(urls[1..]);
      LinesAppend(r, Records(urls[1..]));
      OneLine(urls[0]);
    }
  }

  /** The record lines of clean URLs load as exactly those URLs. */
  lemma {:induction false} LoadRecordLines(urls: seq<string>)
    requires forall i :: 0 <= i < |urls| ==> Clean(urls[i])
    ensures LoadLines(RecordLines(urls)) == Elems(urls)
  {
    if urls != [] {
      LoadRecordLines(urls[1..]);
      RecordLoads(urls[0]);
      assert LoadLines([Record(urls[0])]) == LoadLine(Record(urls[0]));
      var ls := RecordLines(urls);
      assert ls[0] == Record(urls[0]) && ls[1..] == RecordLines(urls[1..]);
      assert Elems(urls) == {urls[0]} + Elems(urls[1..]);
    }
  }

  /** Writing records then reading the log back: a terminated log followed by the records
      of clean URLs loads as the old entries plus exactly those URLs. */
  lemma RecordsReload(f: string, urls: seq<string>)
    requires Terminated(f)
    requires forall i :: 0 <= i < |urls| ==> Clean(urls[i])
    ensures Loaded(f + Records(urls)) == Loaded(f) + Elems(urls)
    ensures Terminated(f + Records(urls))
  {
    var r := Records(urls);
    LinesOfRecords(urls);
    LinesAppend(f, r);
    LoadLinesAppend(Lines(f), RecordLines(urls));
    LoadRecordLines(urls);
    assert Loaded(f + r) == LoadLines(Lines(f) + RecordLines(urls));
    assert Terminated(f + r) by {
      if r == [] { assert f + r == f; } else { assert (f + r)[|f + r| - 1] == r[|r| - 1]; }
    }
  }

  /** The log with an unterminated last line closed by a newline. */
  function Terminate(f: string): (g: string)
    ensures Terminated(g)
    ensures f <= g && |g| <= |f| + 1
    ensures Terminated(f) ==> g == f
  {
    if Terminated(f) then f else f + "\n"
  }

  /** Loading one more line of a file, as the startup loop does. */
  lemma LoadPrefixStep(lines: seq<string>, i: nat)
    requires i < |lines|
    ensures LoadLines(lines[..i + 1]) == LoadLines(lines[..i]) + LoadLine(lines[i])
  {
    assert lines[..i + 1] == lines[..i] + [lines[i]];
    LoadLinesSnoc(lines[..i], lines[i]);
  }

  /** Closing an unterminated last line loads the same entries. */
  lemma TerminateKeepsLoaded(f: string)
    ensures Loaded(Terminate(f)) == Loaded(f)
  {
    if !Terminated(f) {
      var ls := Lines(f);
      var n := |ls| - 1;
      LinesTerminate(f);
      assert ls == ls[..n] + [ls[n]];
      LoadLinesSnoc(ls[..n], ls[n]);
      LoadLinesSnoc(ls[..n], ls[n] + "\n");
      LoadLineTerminated(ls[n]);
    }
  }

  /** A newline at the end of a line changes nothing it loads. */
  lemma LoadLineTerminated(l: string)
    ensures LoadLine(l + "\n") == LoadLine(l)
  {
    StripIgnoresTrailing(l, "\n");
  }

  lemma LoadLinesSnoc(ls: seq<string>, l: string)
    ensures LoadLines(ls + [l]) == LoadLines(ls) + LoadLine(l)
  {
    LoadLinesAppend(ls, [l]);
    assert LoadLines([l]) == LoadLine(l) + LoadLines([]);
  }

  /** As written, a claim appended to a log whose last line `p` has no newline is glued to
      that line: the next startup loads the joined line only, and neither `p` nor the
      claimed URL. */
  lemma UnterminatedLogLosesClaim(p: string, u: string)
    requires Clean(p) && Clean(u)
    ensures Loaded(p) == {p}
    ensures Loaded(p + Record(u)) == {p + u}
    ensures u !in Loaded(p + Record(u)) && p !in Loaded(p + Record(u))
  {
    assert Loaded(p) == {p} by {
      StripFixed(p);
      OneLineLoads(p, p);
    }
    assert Loaded(p + Record(u)) == {p + u} by {
      JoinedLine(p, u);
      OneLineLoads(p + Record(u), p + u);
    }
    assert |p + u| > |u| && |p + u| > |p|;
  }

  /** The record of `u` written after the unterminated line `p` is one line holding both. */
  lemma JoinedLine(p: string, u: string)
    requires Clean(p) && Clean(u)
    ensures IsLine(p + Record(u)) && Strip(p + Record(u)) == p + u
  {
    var t := p + Record(u);
    assert t == (p + u) + "\n";
    assert '\n' !in p + u by {
      forall j | 0 <= j < |p + u| ensures (p + u)[j] != '\n' {
        if j < |p| { assert (p + u)[j] == p[j]; } else { assert (p + u)[j] == u[j - |p|]; }
      }
    }
    assert IsLine(t) by { assert forall j :: 0 <= j < |p + u| ==> t[j] == (p + u)[j]; }
    StripRecord(p + u);
  }

  /** A clean string followed by a newline strips back to itself. */
  lemma StripRecord(u: string)
    requires u != [] && !IsSpace(u[0]) && !IsSpace(u[|u| - 1])
    ensures Strip(Record(u)) == u
  {
    StripIgnoresTrailing(u, "\n");
    StripFixed(u);
  }

  /** Text that is a single line loads as its stripped content. */
  lemma OneLineLoads(t: string, e: string)
    requires IsLine(t) && Strip(t) == e && e != []
    ensures Loaded(t) == {e}
  {
    LinesOfLine(t);
    assert LoadLines([t]) == LoadLine(t) + LoadLines([]);
  }

  /** Once startup has closed an unterminated last line, a claim appended afterwards is
      reloaded by the next startup together with every entry loaded before. */
  lemma TerminatedLogKeepsClaim(log: string, u: string)
    requires Clean(u)
    ensures Loaded(Terminate(log) + Record(u)) == Loaded(log) + {u}
  {
    TerminateKeepsLoaded(log);
    AppendReload(Terminate(log), u);
  }

  /** The loss on two real URLs: a log holding only `https://i.adult.army/a`, without a final
      newline, and the claim of `https://i.fraud.money/b`. */
  lemma UnterminatedLogExample()
    ensures "https://i.fraud.money/b" !in Loaded("https://i.adult.army/a" + Record("https://i.fraud.money/b"))
  {
    var p, u := "https://i.adult.army/a", "https://i.fraud.money/b";
    assert p[0] == 'h' && p[|p| - 1] == 'a' && u[0] == 'h' && u[|u| - 1] == 'b';
    UnterminatedLogLosesClaim(p, u);
  }
}
