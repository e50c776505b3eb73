/** `extractTaskIdsFromPRs`: every match of `/Ticket number:\s*([A-Za-z0-9\-_]+)/gi`
    in every PR body, trimmed, gathered into a `Set`. The regular expression is
    written out as a left-to-right scanner. */
module Tickets {
  import opened Wrappers
  import opened Text
  import Collections
  import PullRequests

  /** The literal the pattern starts with, lower-cased; it is matched without
      regard to case. */
  const Label: string := "ticket number:"

  /** Under the `i` flag without the `u` flag, JavaScript compares upper-cased
      characters, but never folds a non-ASCII character to an ASCII one. The
      label and the id class are all ASCII, so only ASCII letters match them
      without regard to case, and lower-casing ASCII letters alone is exact. */
  function Lower(c: char): (l: char)
    ensures ('A' <= c <= 'Z') ==> l as int == c as int + 32
    ensures !('A' <= c <= 'Z') ==> l == c
  {
    if 'A' <= c <= 'Z' then (c as int + 32) as char else c
  }

  /** The class `[A-Za-z0-9\-_]`; with the `i` flag it admits no other character. */
  predicate IsIdChar(c: char) {
    || 'A' <= c <= 'Z' || 'a' <= c <= 'z' || '0' <= c <= '9' || c == '-' || c == '_'
  }

  /** What one capture can be: a non-empty run of class characters. */
  predicate IsTaskId(id: string) {
    id != [] && forall k :: 0 <= k < |id| ==> IsIdChar(id[k])
  }

  /** No character is both white space and an id character. */
  lemma IdCharIsNotSpace(c: char)
    requires IsIdChar(c)
    ensures !IsSpace(c)
  {
  }

  /** `t` starts with the label, in any case, from its `k`-th character on:
      `LabelFrom(t, 0)` says that `t` starts with the whole label. */
  predicate LabelFrom(t: string, k: nat) {
    |Label| <= |t| && forall j :: k <= j < |Label| ==> Lower(t[j]) == Label[j]
  }

  /** A text that is the label `ticket number:` in some case. */
  predicate IsLabel(t: string) {
    |t| == |Label| && LabelFrom(t, 0)
  }

  // ---------------------------------------------------------------------------
  // The scanner

  datatype CharClass = Spaces | IdChars

  predicate InClass(c: char, cls: CharClass) {
    match cls
    case Spaces => IsSpace(c)
    case IdChars => IsIdChar(c)
  }

  /** The end of the longest run of `cls` characters starting at `i`: the
      greedy `\s*` and `[...]+` of the pattern. */
  function Skip(s: string, i: nat, cls: CharClass): (j: nat)
    requires i <= |s|
    ensures i <= j <= |s|
    ensures forall k :: i <= k < j ==> InClass(s[k], cls)
    ensures j == |s| || !InClass(s[j], cls)
    decreases |s| - i
  {
    if i < |s| && InClass(s[i], cls) then Skip(s, i + 1, cls) else i
  }

  /** A run of `cls` characters from `i` that ends at a non-member or at the end
      of the text is the run `Skip` finds. */
  lemma {:induction false} SkipUnique(s: string, i: nat, j: nat, cls: CharClass)
    requires i <= j <= |s|
    requires forall k :: i <= k < j ==> InClass(s[k], cls)
    requires j == |s| || !InClass(s[j], cls)
    ensures Skip(s, i, cls) == j
    decreases |s| - i
  {
    if i < j {
      SkipUnique(s, i + 1, j, cls);
    }
  }

  /** One match: the captured id and the position after it, counted from
      where the match starts. */
  datatype Hit = Hit(id: string, end: nat)

  /** The pattern tried at the start of `t`. */
  function MatchFront(t: string): (r: Option<Hit>)
    ensures r.Some? ==> 0 < r.value.end <= |t| && IsTaskId(r.value.id)
  {
    MatchFrom(t, 0)
  }

  /** The pattern tried at the start of `t` once its first `k` label
      characters have matched: the rest of the label, one character at a
      time, then what follows the label. */
  function MatchFrom(t: string, k: nat): (r: Option<Hit>)
    requires k <= |Label| && k <= |t|
    ensures r.Some? ==> 0 < r.value.end <= |t| && IsTaskId(r.value.id)
    decreases |Label| - k
  {
    if k == |Label| then AfterLabel(t)
    else if k < |t| && Lower(t[k]) == Label[k] then MatchFrom(t, k + 1)
    else None
  }

  /** What follows the label: white space, then the longest run of id
      characters, which must not be empty. */
  function AfterLabel(t: string): (r: Option<Hit>)
    requires |Label| <= |t|
    ensures r.Some? ==> 0 < r.value.end <= |t| && IsTaskId(r.value.id)
  {
    var a := Skip(t, |Label|, Spaces);
    var b := Skip(t, a, IdChars);
    if a == b then None else Some(Hit(t[a..b], b))
  }

  /** The ids captured in `t`: `[...t.matchAll(regex)].map(m => m[1])`. `matchAll` tries the pattern at
      the search position, then at the next one, and after a match resumes
      where the match ended. The pattern is neither anchored nor looks behind,
      so what it matches at a position depends only on the text from there on:
      the scan can drop the text it has passed. */
  function Captures(t: string): (ids: seq<string>)
    ensures forall k :: 0 <= k < |ids| ==> IsTaskId(ids[k])
    decreases |t|
  {
    if t == [] then []
    else match MatchFront(t)
      case None => Captures(t[1..])
      case Some(h) => [h.id] + Captures(t[h.end..])
  }

  // ---------------------------------------------------------------------------
  // The scanner against the pattern's meaning

  /** The pattern matches at the start of `t` with its id starting at `a`: the
      label, only white space up to `a`, then `id`, which no further id
      character extends. */
  ghost predicate CaptureFront(t: string, a: nat, id: string) {
    && LabelFrom(t, 0)
    && |Label| <= a && a + |id| <= |t|
    && AllSpace(t[|Label|..a])
    && IsTaskId(id) && t[a..a + |id|] == id
    && (a + |id| == |t| || !IsIdChar(t[a + |id|]))
  }

  /** The run `Skip` finds consists of `cls` characters and is not followed
      by one. */
  lemma {:induction false} SkipRun(s: string, i: nat, cls: CharClass)
    requires i <= |s|
    ensures forall k :: i <= k < Skip(s, i, cls) ==> InClass(s[k], cls)
    ensures Skip(s, i, cls) == |s| || !InClass(s[Skip(s, i, cls)], cls)
    decreases |s| - i
  {
    if i < |s| && InClass(s[i], cls) {
      SkipRun(s, i + 1, cls);
    }
  }

  lemma {:induction false} MatchFromLabel(t: string, k: nat)
    requires k <= |Label| && k <= |t|
    ensures MatchFrom(t, k) == if LabelFrom(t, k) then AfterLabel(t) else None
    decreases |Label| - k
  {
    if k == |Label| {
    } else if k < |t| && Lower(t[k]) == Label[k] {
      MatchFromLabel(t, k + 1);
      assert LabelFrom(t, k) <==> LabelFrom(t, k + 1);
    } else {
      assert !LabelFrom(t, k);
    }
  }

  /** The pattern at the start of `t`: the whole label, then what follows it. */
  lemma MatchFrontDef(t: string)
    ensures MatchFront(t) == if LabelFrom(t, 0) then AfterLabel(t) else None
  {
    MatchFromLabel(t, 0);
  }

  /** Every match the scanner reports is a match of the pattern. */
  lemma MatchFrontSound(t: string)
    requires MatchFront(t).Some?
    ensures |MatchFront(t).value.id| <= MatchFront(t).value.end
    ensures CaptureFront(t, MatchFront(t).value.end - |MatchFront(t).value.id|, MatchFront(t).value.id)
  {
    MatchFrontDef(t);
    var a := Skip(t, |Label|, Spaces);
    SkipRun(t, |Label|, Spaces);
    SkipRun(t, a, IdChars);
  }

  /** Every match of the pattern at the start of `t` is the one the scanner
      reports. */
  lemma MatchFrontComplete(t: string, a: nat, id: string)
    requires CaptureFront(t, a, id)
    ensures MatchFront(t) == Some(Hit(id, a + |id|))
  {
    MatchFrontDef(t);
    SpaceRunEnds(t, a, id);
    IdRunEnds(t, a, id);
  }

  /** In a match, the white space after the label ends where the id starts. */
  lemma SpaceRunEnds(t: string, a: nat, id: string)
    requires CaptureFront(t, a, id)
    ensures Skip(t, |Label|, Spaces) == a
  {
    forall k | |Label| <= k < a ensures IsSpace(t[k]) {
      assert t[k] == t[|Label|..a][k - |Label|];
    }
    assert t[a] == t[a..a + |id|][0];
    IdCharIsNotSpace(id[0]);
    SkipUnique(t, |Label|, a, Spaces);
  }

  /** In a match, the run of id characters is the id. */
  lemma IdRunEnds(t: string, a: nat, id: string)
    requires CaptureFront(t, a, id)
    ensures Skip(t, a, IdChars) == a + |id|
  {
    forall k | a <= k < a + |id| ensures IsIdChar(t[k]) {
      assert t[k] == t[a..a + |id|][k - a];
    }
    SkipUnique(t, a, a + |id|, IdChars);
  }

  /** A text that does not start with the label holds no match at its start:
      it is too short, or its `k`-th character is not the label's. */
  lemma NoLabelHere(t: string, k: nat)
    requires |t| < |Label| || (k < |Label| && k < |t| && Lower(t[k]) != Label[k])
    ensures MatchFront(t).None?
  {
    MatchFrontDef(t);
  }

  /** Where no match starts, the scan moves one character on. */
  lemma ScanMisses(t: string)
    requires t != [] && MatchFront(t).None?
    ensures Captures(t) == Captures(t[1..])
  {
  }

  /** Where a match starts, the scan reports it and resumes after it. */
  lemma ScanHits(t: string, h: Hit)
    requires MatchFront(t) == Some(h)
    ensures Captures(t) == [h.id] + Captures(t[h.end..])
  {
  }

  /** The scanner finds nothing exactly when the pattern matches nowhere. */
  lemma {:induction false} ScanEmptyIff(t: string)
    ensures Captures(t) == [] <==> forall p :: 0 <= p < |t| ==> MatchFront(t[p..]).None?
    decreases |t|
  {
    if t != [] {
      assert t[0..] == t;
      if MatchFront(t).None? {
        ScanMisses(t);
        ScanEmptyIff(t[1..]);
        forall p | 1 <= p < |t| ensures t[1..][p - 1..] == t[p..] { }
        forall p | 0 <= p < |t| - 1 ensures t[1..][p..] == t[p + 1..] { }
      } else {
        ScanHits(t, MatchFront(t).value);
      }
    }
  }

  /** A match of the pattern starts at position `p` of `t` and captures `id`. */
  ghost predicate FoundAt(t: string, p: nat, id: string) {
    p < |t| && MatchFront(t[p..]).Some? && MatchFront(t[p..]).value.id == id
  }

  /** Where in `t` the scan found its `k`-th id. */
  lemma {:induction false} MatchPos(t: string, k: nat) returns (p: nat)
    requires k < |Captures(t)|
    ensures FoundAt(t, p, Captures(t)[k])
    decreases |t|, 1
  {
    match MatchFront(t)
    case None =>
      p := MatchPosAfterMiss(t, k);
    case Some(h) =>
      if k == 0 {
        HereStep(t, h);
        p := 0;
      } else {
        var u := HitIndex(t, k);
        p := MatchPosAfterHit(t, k, u);
      }
  }

  /** `MatchPos` where no match starts: search `t[1..]`. */
  lemma {:induction false} MatchPosAfterMiss(t: string, k: nat) returns (p: nat)
    requires k < |Captures(t)| && MatchFront(t).None?
    ensures FoundAt(t, p, Captures(t)[k])
    decreases |t|, 0
  {
    MissIndex(t, k);
    var q := MatchPos(t[1..], k);
    p := MissStep(t, k, q);
  }

  /** `MatchPos` past the first id where a match `h` starts: search after it. */
  lemma {:induction false} MatchPosAfterHit(t: string, k: nat, u: string) returns (p: nat)
    requires k < |Captures(t)| && MatchFront(t).Some? && 0 < k
    requires MatchFront(t).value.end <= |t| && u == t[MatchFront(t).value.end..]
    requires |u| < |t| && k - 1 < |Captures(u)|
    ensures FoundAt(t, p, Captures(t)[k])
    decreases |t|, 0
  {
    var q := MatchPos(u, k - 1);
    p := HitStep(t, k, u, q);
  }

  /** Where no match starts, the scan's ids are those of `t[1..]`. */
  lemma MissIndex(t: string, k: nat)
    requires k < |Captures(t)| && MatchFront(t).None?
    ensures t != [] && k < |Captures(t[1..])|
  {
  }

  /** Where a match `h` starts, the ids after the first are those of the
      rest `u` of the text. */
  lemma HitIndex(t: string, k: nat) returns (u: string)
    requires k < |Captures(t)| && MatchFront(t).Some? && 0 < k
    ensures MatchFront(t).value.end <= |t| && u == t[MatchFront(t).value.end..]
    ensures |u| < |t| && k - 1 < |Captures(u)|
  {
    u := t[MatchFront(t).value.end..];
    ScanHits(t, MatchFront(t).value);
  }

  /** A match at the start of `t` gives the first id. */
  lemma HereStep(t: string, h: Hit)
    requires MatchFront(t) == Some(h)
    ensures 0 < |Captures(t)| && FoundAt(t, 0, Captures(t)[0])
  {
    ScanHits(t, h);
    assert t[0..] == t;
  }

  /** Where no match starts, the `k`-th id found in `t[1..]` is the `k`-th of `t`. */
  lemma MissStep(t: string, k: nat, q: nat) returns (p: nat)
    requires t != [] && MatchFront(t).None?
    requires k < |Captures(t[1..])| && FoundAt(t[1..], q, Captures(t[1..])[k])
    ensures k < |Captures(t)| && FoundAt(t, p, Captures(t)[k])
  {
    ScanMisses(t);
    p := 1 + q;
    assert t[1..][q..] == t[p..];
  }

  /** Where a match `h` starts, the `k - 1`-th id found after it is the `k`-th of `t`. */
  lemma HitStep(t: string, k: nat, u: string, q: nat) returns (p: nat)
    requires MatchFront(t).Some? && 0 < k
    requires MatchFront(t).value.end <= |t| && u == t[MatchFront(t).value.end..]
    requires k - 1 < |Captures(u)| && FoundAt(u, q, Captures(u)[k - 1])
    ensures k < |Captures(t)| && FoundAt(t, p, Captures(t)[k])
  {
    var e := MatchFront(t).value.end;
    ScanHits(t, MatchFront(t).value);
    p := e + q;
    assert u[q..] == t[p..];
  }

  /** Every id the scanner reports is captured by a match of the pattern
      somewhere in the text. */
  lemma ScanSound(t: string, k: nat)
    requires k < |Captures(t)|
    ensures exists p, a :: 0 <= p < |t| && CaptureFront(t[p..], a, Captures(t)[k])
  {
    var p := MatchPos(t, k);
    CaptureWitness(t[p..], Captures(t)[k]);
  }

  lemma CaptureWitness(u: string, id: string)
    requires MatchFront(u).Some? && MatchFront(u).value.id == id
    ensures |id| <= MatchFront(u).value.end
    ensures CaptureFront(u, MatchFront(u).value.end - |id|, id)
  {
    MatchFrontSound(u);
  }

  /** A label in any case at the front of a text. */
  lemma LabelInFront(tag: string, u: string)
    requires IsLabel(tag)
    ensures LabelFrom(tag + u, 0)
  {
    forall k | 0 <= k < |Label| ensures Lower((tag + u)[k]) == Label[k] {
      assert (tag + u)[k] == tag[k];
    }
  }

  /** The pattern matches at the front of a ticket line, with the id right
      after the white space. */
  lemma CaptureInFront(tag: string, space: string, id: string, rest: string)
    requires IsLabel(tag) && AllSpace(space) && IsTaskId(id)
    requires rest == [] || !IsIdChar(rest[0])
    ensures CaptureFront(tag + space + id + rest, |tag| + |space|, id)
  {
    var t := tag + space + id + rest;
    var a := |tag| + |space|;
    LabelInFront(tag, space + id + rest);
    assert t == tag + (space + id + rest);
    assert t[|Label|..a] == space;
    assert t[a..a + |id|] == id;
    assert a + |id| == |t| || t[a + |id|] == rest[0];
  }

  lemma MatchInFront(tag: string, space: string, id: string, rest: string)
    requires IsLabel(tag) && AllSpace(space) && IsTaskId(id)
    requires rest == [] || !IsIdChar(rest[0])
    ensures MatchFront(tag + space + id + rest) == Some(Hit(id, |tag + space + id|))
  {
    CaptureInFront(tag, space, id, rest);
    MatchFrontComplete(tag + space + id + rest, |tag| + |space|, id);
  }

  /** A ticket line: a label in any case, white space, an id, and then text
      that does not continue the id. It yields the id, and scanning resumes
      right after it, on the rest alone. */
  lemma TicketLine(tag: string, space: string, id: string, rest: string)
    requires IsLabel(tag) && AllSpace(space) && IsTaskId(id)
    requires rest == [] || !IsIdChar(rest[0])
    ensures Captures(tag + space + id + rest) == [id] + Captures(rest)
  {
    var t := tag + space + id + rest;
    MatchInFront(tag, space, id, rest);
    ScanHits(t, Hit(id, |tag + space + id|));
    assert t[|tag + space + id|..] == rest;
  }

  /** A character that cannot start the label is stepped over. */
  lemma NoLabelInFront(c: char, t: string)
    requires Lower(c) != 't'
    ensures Captures([c] + t) == Captures(t)
  {
    var u := [c] + t;
    assert u[0] == c;
    ScanMisses(u);
    assert u[1..] == t;
  }

  // ---------------------------------------------------------------------------
  // Worked cases of the pattern

  /** Case does not matter. */
  lemma LabelInCapitals()
    ensures Captures("TICKET NUMBER:" + " " + "ABC-1") == ["ABC-1"]
  {
    NothingInEmpty();
    TicketLine("TICKET NUMBER:", " ", "ABC-1", "");
    assert "TICKET NUMBER:" + " " + "ABC-1" + "" == "TICKET NUMBER:" + " " + "ABC-1";
  }

  /** White space after the colon is optional. */
  lemma NoSpaceAfterLabel()
    ensures Captures("ticket number:" + "ABC-1") == ["ABC-1"]
  {
    NothingInEmpty();
    TicketLine("ticket number:", "", "ABC-1", "");
    assert "ticket number:" + "" + "ABC-1" + "" == "ticket number:" + "ABC-1";
  }

  /** The white space after the colon may span lines. */
  lemma NewlineAfterLabel()
    ensures Captures("Ticket number:" + "\n  " + "ABC-1") == ["ABC-1"]
  {
    NothingInEmpty();
    TicketLine("Ticket number:", "\n  ", "ABC-1", "");
    assert "Ticket number:" + "\n  " + "ABC-1" + "" == "Ticket number:" + "\n  " + "ABC-1";
  }

  lemma NothingInEmpty()
    ensures Captures("") == []
  {
  }

  /** Text shorter than the label holds no match. */
  lemma NothingInShortText(s: string)
    requires |s| < |Label|
    ensures Captures(s) == []
  {
    forall p | 0 <= p < |s| ensures MatchFront(s[p..]).None? {
      NoLabelHere(s[p..], 0);
    }
    ScanEmptyIff(s);
  }

  /** The label as pull-request templates usually spell it. */
  lemma UsualLabel()
    ensures IsLabel("Ticket number:")
  {
  }

  /** Two ticket lines in one body yield both ids, in order. */
  lemma TwoTicketLines()
    ensures Captures("Ticket number:" + " " + "A-1" + ("\n" + ("Ticket number:" + " " + "B_2"))) == ["A-1", "B_2"]
  {
    UsualLabel();
    var second := "Ticket number:" + " " + "B_2";
    NothingInEmpty();
    TicketLine("Ticket number:", " ", "B_2", "");
    assert second + "" == second;
    NoLabelInFront('\n', second);
    TicketLine("Ticket number:", " ", "A-1", "\n" + second);
  }

  /** Matches do not overlap: the id run of one match may swallow the start of
      another label, which is then not matched. */
  lemma MatchesDoNotOverlap()
    ensures Captures("Ticket number:" + " " + "ticket" + " number: X") == ["ticket"]
  {
    UsualLabel();
    LastTicketLine("Ticket number:", " ", "ticket", " number: X");
  }

  /** A ticket line followed by text too short to hold another match. */
  lemma LastTicketLine(tag: string, space: string, id: string, rest: string)
    requires IsLabel(tag) && AllSpace(space) && IsTaskId(id)
    requires rest == [] || !IsIdChar(rest[0])
    requires |rest| < |Label|
    ensures Captures(tag + space + id + rest) == [id]
  {
    NothingInShortText(rest);
    TicketLine(tag, space, id, rest);
  }

  /** The label needs exactly one space between its words. */
  lemma TwoSpacesInLabel()
    ensures Captures("Ticket  number: X") == []
  {
    var s := "Ticket  number: X";
    forall p | 0 <= p < |s| ensures MatchFront(s[p..]).None? {
      if p == 0 {
        assert s[0..][7] == ' ';
        NoLabelHere(s[0..], 7);
      } else if p < 4 {
        assert s[p..][0] == s[p];
        NoLabelHere(s[p..], 0);
      } else {
        NoLabelHere(s[p..], 0);
      }
    }
    ScanEmptyIff(s);
  }

  // ---------------------------------------------------------------------------
  // Over all pull requests

  /** `pr.body || ''`. */
  function BodyText(pr: PullRequests.PullRequest): string {
    pr.body.GetOr("")
  }

  /** The inner loop: each capture, trimmed, is added to the set when it is
      not empty. */
  function AddMatches(acc: seq<string>, ms: seq<string>): seq<string>
    decreases ms
  {
    if ms == [] then acc
    else
      var t := Trim(ms[0]);
      AddMatches(if t != [] then Collections.Add(acc, t) else acc, ms[1..])
  }

  function CollectIds(acc: seq<string>, prs: seq<PullRequests.PullRequest>): seq<string>
    decreases prs
  {
    if prs == [] then acc else CollectIds(AddMatches(acc, Captures(BodyText(prs[0]))), prs[1..])
  }

  /** All captures of all bodies, in order. */
  function AllCaptures(prs: seq<PullRequests.PullRequest>): (ms: seq<string>)
    ensures forall k :: 0 <= k < |ms| ==> IsTaskId(ms[k])
    decreases prs
  {
    if prs == [] then [] else Captures(BodyText(prs[0])) + AllCaptures(prs[1..])
  }

  /** Trimming a capture changes nothing and never empties it. */
  lemma {:induction false} AddMatchesIsAddAll(acc: seq<string>, ms: seq<string>)
    requires forall k :: 0 <= k < |ms| ==> IsTaskId(ms[k])
    ensures AddMatches(acc, ms) == Collections.AddAll(acc, ms)
    decreases ms
  {
    if ms != [] {
      forall i | 0 <= i < |ms[0]| ensures !IsSpace(ms[0][i]) {
        IdCharIsNotSpace(ms[0][i]);
      }
      assert Trim(ms[0]) == ms[0];
      AddMatchesIsAddAll(Collections.Add(acc, ms[0]), ms[1..]);
    }
  }

  lemma {:induction false} CollectIdsIsAddAll(acc: seq<string>, prs: seq<PullRequests.PullRequest>)
    ensures CollectIds(acc, prs) == Collections.AddAll(acc, AllCaptures(prs))
    decreases prs
  {
    if prs != [] {
      var ms := Captures(BodyText(prs[0]));
      AddMatchesIsAddAll(acc, ms);
      CollectIdsIsAddAll(Collections.AddAll(acc, ms), prs[1..]);
      Collections.AddAllAppend(acc, ms, AllCaptures(prs[1..]));
    }
  }

  lemma {:induction false} AllCapturesHas(prs: seq<PullRequests.PullRequest>, id: string)
    ensures id in AllCaptures(prs) <==> exists j :: 0 <= j < |prs| && id in Captures(BodyText(prs[j]))
    decreases prs
  {
    if prs != [] {
      AllCapturesHas(prs[1..], id);
      if exists j :: 0 <= j < |prs| && id in Captures(BodyText(prs[j])) {
        var j :| 0 <= j < |prs| && id in Captures(BodyText(prs[j]));
        if j > 0 {
          assert prs[1..][j - 1] == prs[j];
        }
      }
      if exists j :: 0 <= j < |prs[1..]| && id in Captures(BodyText(prs[1..][j])) {
        var j :| 0 <= j < |prs[1..]| && id in Captures(BodyText(prs[1..][j]));
        assert prs[j + 1] == prs[1..][j];
      }
    }
  }

  /** `extractTaskIdsFromPRs`: the distinct ids captured in the bodies, in
      order of first occurrence. */
  function ExtractTaskIds(prs: seq<PullRequests.PullRequest>): (ids: seq<string>)
    ensures Collections.NoDup(ids)
    ensures forall k :: 0 <= k < |ids| ==> IsTaskId(ids[k])
    ensures forall id :: id in ids <==> exists j :: 0 <= j < |prs| && id in Captures(BodyText(prs[j]))
    ensures ids == Collections.Dedup(AllCaptures(prs))
  {
    CollectIdsIsAddAll([], prs);
    var ids := CollectIds([], prs);
    forall k | 0 <= k < |ids| ensures IsTaskId(ids[k]) {
      var m := AllCaptures(prs);
      assert ids[k] in m;
      var j :| 0 <= j < |m| && m[j] == ids[k];
    }
    forall id ensures id in ids <==> exists j :: 0 <= j < |prs| && id in Captures(BodyText(prs[j])) {
      AllCapturesHas(prs, id);
    }
    ids
  }

  /** The ids keep the order in which they first appear across the bodies. */
  lemma ExtractTaskIdsOrder(prs: seq<PullRequests.PullRequest>)
    ensures var ids := ExtractTaskIds(prs);
            forall i, j :: 0 <= i < j < |ids| ==> Collections.IndexOf(AllCaptures(prs), ids[i]) < Collections.IndexOf(AllCaptures(prs), ids[j])
  {
    Collections.DedupOrder(AllCaptures(prs));
  }

  /** A pull request without a body contributes nothing, wherever it stands. */
  lemma AbsentBodyAddsNothing(a: seq<PullRequests.PullRequest>, pr: PullRequests.PullRequest, b: seq<PullRequests.PullRequest>)
    requires pr.body.None?
    ensures ExtractTaskIds(a + [pr] + b) == ExtractTaskIds(a + b)
  {
    AllCapturesAppend(a + [pr], b);
    AllCapturesAppend(a, [pr]);
    AllCapturesAppend(a, b);
    NothingInEmpty();
    assert AllCaptures([pr]) == [];
    assert AllCaptures(a) + [] == AllCaptures(a);
  }

  lemma {:induction false} AllCapturesAppend(a: seq<PullRequests.PullRequest>, b: seq<PullRequests.PullRequest>)
    ensures AllCaptures(a + b) == AllCaptures(a) + AllCaptures(b)
    decreases a
  {
    if a == [] {
      assert a + b == b;
    } else {
      assert (a + b)[1..] == a[1..] + b;
      AllCapturesAppend(a[1..], b);
    }
  }
}
