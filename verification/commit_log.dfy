/** `getCommitsInRange` after the `git log --oneline` call: the log text is
    trimmed, split into lines, each line cut at its first space, and empty
    pieces dropped. The git call itself is not modelled: its output is an input. */
module CommitLog {
  import opened Text

  /** `line.split(' ')[0]`: the text before the first space. */
  function FirstToken(line: string): (t: string)
    ensures t <= line
    ensures ' ' !in t
    ensures t == line || line[|t|] == ' '
  {
    SplitFirst(line, ' ');
    Split(line, ' ')[0]
  }

  /** The `.map(...).filter(hash => hash)` stage over the lines. */
  function Hashes(lines: seq<string>): (hs: seq<string>)
    ensures |hs| <= |lines|
    ensures forall k :: 0 <= k < |hs| ==> hs[k] != [] && ' ' !in hs[k]
    ensures (forall j :: 0 <= j < |lines| ==> '\n' !in lines[j]) ==> forall k :: 0 <= k < |hs| ==> '\n' !in hs[k]
    decreases lines
  {
    if lines == [] then []
    else
      var h := FirstToken(lines[0]);
      var rest := Hashes(lines[1..]);
      assert forall j :: 0 <= j < |lines| - 1 ==> lines[1..][j] == lines[j + 1];
      if h == [] then rest else [h] + rest
  }

  /** The commit ids of a `git log --oneline` output. */
  function ParseLog(output: string): (commits: seq<string>)
    ensures forall k :: 0 <= k < |commits| ==> commits[k] != [] && ' ' !in commits[k] && '\n' !in commits[k]
    ensures |commits| <= |Split(Trim(output), '\n')|
  {
    var lines := Split(Trim(output), '\n');
    Hashes(lines)
  }

  /** When no line is empty or starts with a space, there is one commit per
      line: the text before that line's first space. */
  lemma {:induction false} HashesAllLines(lines: seq<string>)
    requires forall j :: 0 <= j < |lines| ==> FirstToken(lines[j]) != []
    ensures |Hashes(lines)| == |lines|
    ensures forall k :: 0 <= k < |lines| ==> Hashes(lines)[k] == FirstToken(lines[k])
    decreases lines
  {
    if lines != [] {
      assert forall j :: 0 <= j < |lines| - 1 ==> lines[1..][j] == lines[j + 1];
      HashesAllLines(lines[1..]);
    }
  }

  /** The commits are exactly the non-empty first tokens of the lines. */
  lemma {:induction false} HashesMembers(lines: seq<string>, h: string)
    ensures h in Hashes(lines) <==> h != [] && exists j :: 0 <= j < |lines| && FirstToken(lines[j]) == h
    decreases lines
  {
    if lines != [] {
      HashesMembers(lines[1..], h);
      if exists j :: 0 <= j < |lines| && FirstToken(lines[j]) == h {
        var j :| 0 <= j < |lines| && FirstToken(lines[j]) == h;
        if j > 0 {
          assert lines[1..][j - 1] == lines[j];
        }
      }
      if exists j :: 0 <= j < |lines[1..]| && FirstToken(lines[1..][j]) == h {
        var j :| 0 <= j < |lines[1..]| && FirstToken(lines[1..][j]) == h;
        assert lines[j + 1] == lines[1..][j];
      }
    }
  }

  // ---------------------------------------------------------------------------
  // The log text git prints, and reading it back

  /** One commit as `git log --oneline` shows it. */
  datatype LogEntry = LogEntry(hash: string, subject: string)

  /** A hash has no white space and a subject is one line. */
  predicate WellFormed(e: LogEntry) {
    e.hash != [] && NoSpace(e.hash) && '\n' !in e.subject
  }

  function LogLine(e: LogEntry): string {
    e.hash + [' '] + e.subject
  }

  function LogLines(es: seq<LogEntry>): (lines: seq<string>)
    ensures |lines| == |es|
    ensures forall i :: 0 <= i < |es| ==> lines[i] == LogLine(es[i])
    decreases es
  {
    if es == [] then [] else [LogLine(es[0])] + LogLines(es[1..])
  }

  /** The output of `git log --oneline`: one line per commit, each ended by a newline. */
  function LogText(es: seq<LogEntry>): string {
    if es == [] then [] else Join(LogLines(es), '\n') + "\n"
  }

  function HashesOf(es: seq<LogEntry>): (hs: seq<string>)
    ensures |hs| == |es|
    ensures forall i :: 0 <= i < |es| ==> hs[i] == es[i].hash
    decreases es
  {
    if es == [] then [] else [es[0].hash] + HashesOf(es[1..])
  }

  /** The first token of `hash + rest` is the hash when `rest` is empty or
      starts with a space. */
  lemma FirstTokenOfHash(h: string, rest: string)
    requires ' ' !in h
    requires rest == [] || rest[0] == ' '
    ensures FirstToken(h + rest) == h
  {
    if rest == [] {
      assert h + rest == h;
      SplitNoSep(h, ' ');
    } else {
      assert h + rest == h + [' '] + rest[1..];
      SplitAtSep(h, ' ', rest[1..]);
    }
  }

  lemma {:induction false} HashesAppend(a: seq<string>, b: seq<string>)
    ensures Hashes(a + b) == Hashes(a) + Hashes(b)
    decreases a
  {
    if a == [] {
      assert a + b == b;
    } else {
      assert (a + b)[1..] == a[1..] + b;
      HashesAppend(a[1..], b);
    }
  }

  lemma {:induction false} HashesOfLogLines(es: seq<LogEntry>)
    requires forall i :: 0 <= i < |es| ==> WellFormed(es[i])
    ensures Hashes(LogLines(es)) == HashesOf(es)
    decreases es
  {
    if es != [] {
      HashesOfLogLines(es[1..]);
      assert LogLines(es)[1..] == LogLines(es[1..]);
      assert ' ' !in es[0].hash && '\n' !in es[0].hash;
      FirstTokenOfHash(es[0].hash, [' '] + es[0].subject);
      assert LogLine(es[0]) == es[0].hash + ([' '] + es[0].subject);
      assert HashesOf(es) == [es[0].hash] + HashesOf(es[1..]);
    }
  }

  /** Trimming the end of a last log line `hash + " " + subject + "\n"` keeps
      the hash and a possibly shortened remainder of the subject. */
  lemma TrimLastLine(e: LogEntry)
    requires WellFormed(e)
    ensures TrimEnd(LogLine(e) + "\n") == e.hash + TrimEnd([' '] + e.subject + "\n")
    ensures TrimEnd([' '] + e.subject + "\n") <= [' '] + e.subject
  {
    var h := e.hash;
    var body := [' '] + e.subject;
    var tail := body + "\n";
    assert LogLine(e) + "\n" == h + tail;
    TrimEndDropsSpace(body, '\n');
    TrimEndAfterWord(h, tail);
  }

  /** The log text is everything before its last line, then the last line. */
  function LogFront(es: seq<LogEntry>): string
    requires es != []
  {
    if |es| == 1 then [] else Join(LogLines(es[..|es| - 1]), '\n') + "\n"
  }

  lemma LogTextSplit(es: seq<LogEntry>)
    requires es != []
    ensures LogText(es) == LogFront(es) + (LogLine(es[|es| - 1]) + "\n")
  {
    var n := |es|;
    var last := LogLine(es[n - 1]);
    if n > 1 {
      var front := LogLines(es[..n - 1]);
      assert LogLines(es) == front + [last];
      JoinSnoc(front, last, '\n');
      assert Join(front, '\n') + ['\n'] + last + "\n" == (Join(front, '\n') + "\n") + (last + "\n");
    } else {
      assert [] + (last + "\n") == last + "\n";
    }
  }

  /** Trimming the log text touches its last line only. */
  lemma TrimLog(es: seq<LogEntry>)
    requires es != [] && WellFormed(es[0]) && WellFormed(es[|es| - 1])
    ensures Trim(LogText(es)) == LogFront(es) + TrimEnd(LogLine(es[|es| - 1]) + "\n")
  {
    var log := LogText(es);
    var lines := LogLines(es);
    JoinFirst(lines, '\n');
    assert lines[0] == es[0].hash + [' '] + es[0].subject;
    assert log[0] == es[0].hash[0];
    assert TrimStart(log) == log;
    assert Trim(log) == TrimEnd(TrimStart(log));
    LogTextSplit(es);
    TrimEndKeepsPrefix(LogFront(es), LogLine(es[|es| - 1]) + "\n", 0);
  }

  /** Splitting the trimmed log gives the lines back, the last one shortened. */
  lemma SplitTrimmedLog(es: seq<LogEntry>, q: string)
    requires es != [] && forall i :: 0 <= i < |es| ==> WellFormed(es[i])
    requires q <= [' '] + es[|es| - 1].subject
    ensures Split(LogFront(es) + (es[|es| - 1].hash + q), '\n') == LogLines(es[..|es| - 1]) + [es[|es| - 1].hash + q]
  {
    var n := |es|;
    var last := es[n - 1];
    var shortened := last.hash + q;
    var newLines := LogLines(es[..n - 1]) + [shortened];
    forall k | 0 <= k < |newLines| ensures '\n' !in newLines[k] {
      assert ' ' !in es[k].hash && '\n' !in es[k].hash;
      if k == n - 1 {
        assert '\n' !in q;
      } else {
        assert newLines[k] == es[k].hash + [' '] + es[k].subject;
      }
    }
    if n == 1 {
      assert LogFront(es) + shortened == shortened;
      assert LogLines(es[..n - 1]) == [];
      SplitNoSep(shortened, '\n');
    } else {
      JoinSnoc(LogLines(es[..n - 1]), shortened, '\n');
      SplitJoin(newLines, '\n');
    }
  }

  lemma {:induction false} HashesOfSnoc(es: seq<LogEntry>, e: LogEntry)
    ensures HashesOf(es + [e]) == HashesOf(es) + [e.hash]
    decreases es
  {
    if es != [] {
      assert (es + [e])[1..] == es[1..] + [e];
      HashesOfSnoc(es[1..], e);
    }
  }

  /** The lines `ParseLog` sees in the log text: all lines but the last as
      printed, and the last one trimmed at its end. */
  lemma LinesOfLog(es: seq<LogEntry>)
    requires es != [] && forall i :: 0 <= i < |es| ==> WellFormed(es[i])
    ensures var last := es[|es| - 1];
            Split(Trim(LogText(es)), '\n') == LogLines(es[..|es| - 1]) + [last.hash + TrimEnd([' '] + last.subject + "\n")]
  {
    var last := es[|es| - 1];
    TrimLastLine(last);
    TrimLog(es);
    SplitTrimmedLog(es, TrimEnd([' '] + last.subject + "\n"));
  }

  /** Reading back the log git prints gives the hashes of its commits, in order. */
  lemma ParseLogRoundTrip(es: seq<LogEntry>)
    requires forall i :: 0 <= i < |es| ==> WellFormed(es[i])
    ensures ParseLog(LogText(es)) == HashesOf(es)
  {
    if es == [] {
      ParseBlankLog([]);
    } else {
      ParseLogOfEntries(es);
    }
  }

  lemma ParseLogOfEntries(es: seq<LogEntry>)
    requires es != [] && forall i :: 0 <= i < |es| ==> WellFormed(es[i])
    ensures ParseLog(LogText(es)) == HashesOf(es)
  {
    var n := |es|;
    var last := es[n - 1];
    var init := es[..n - 1];
    var q := TrimEnd([' '] + last.subject + "\n");
    ReadLogLines(es);
    ParseLogLines(es, q);
    HashesOfSnoc(init, last);
    InitLast(es);
  }

  /** `ParseLog` reads the lines of the log text as `LinesOfLog` gives them. */
  lemma ReadLogLines(es: seq<LogEntry>)
    requires es != [] && forall i :: 0 <= i < |es| ==> WellFormed(es[i])
    ensures var last := es[|es| - 1];
            ParseLog(LogText(es)) == Hashes(LogLines(es[..|es| - 1]) + [last.hash + TrimEnd([' '] + last.subject + "\n")])
  {
    LinesOfLog(es);
  }

  lemma ParseLogLines(es: seq<LogEntry>, q: string)
    requires es != [] && forall i :: 0 <= i < |es| - 1 ==> WellFormed(es[i])
    requires WellFormed(es[|es| - 1]) && q == TrimEnd([' '] + es[|es| - 1].subject + "\n")
    ensures Hashes(LogLines(es[..|es| - 1]) + [es[|es| - 1].hash + q]) == HashesOf(es[..|es| - 1]) + [es[|es| - 1].hash]
  {
    var init := es[..|es| - 1];
    var last := es[|es| - 1];
    HashesAppend(LogLines(init), [last.hash + q]);
    LastHash(last);
    HashesOfLogLines(init);
  }

  lemma InitLast(es: seq<LogEntry>)
    requires es != []
    ensures es[..|es| - 1] + [es[|es| - 1]] == es
  {
  }

  lemma LastHash(last: LogEntry)
    requires WellFormed(last)
    ensures Hashes([last.hash + TrimEnd([' '] + last.subject + "\n")]) == [last.hash]
  {
    var q := TrimEnd([' '] + last.subject + "\n");
    TrimLastLine(last);
    assert ' ' !in last.hash && '\n' !in last.hash;
    FirstTokenOfHash(last.hash, q);
  }

  /** A log of nothing but white space, the empty log included, lists no commits. */
  lemma ParseBlankLog(output: string)
    requires AllSpace(output)
    ensures ParseLog(output) == []
  {
    var t := TrimStart(output);
    assert t == [];
    assert TrimEnd(t) == [];
    assert Split([], '\n') == [[]];
    assert FirstToken([]) == [];
  }
}
