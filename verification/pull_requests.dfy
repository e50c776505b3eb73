/** `findPullRequestsForCommits` and `findPRsFallbackMethod`: the pull requests
    of a list of commits, gathered into a `Map` keyed by PR number. The GitHub
    calls are inputs: for each commit, what the "associated pull requests" call
    and the first page of `pulls.list` answer, and what each `pulls.get` made on
    the way answers. */
module PullRequests {
  import opened Wrappers
  import opened InsertionMap
  import Collections

  /** A pull request as `pulls.get` returns it, reduced to the fields the action reads. */
  datatype PullRequest = PullRequest(
    number: int,
    title: string,
    body: Option<string>,
    headSha: string,
    mergeCommitSha: Option<string>)

  /** The `pullRequests` map: PR number to the full pull request. */
  type Store = seq<Entry<int, PullRequest>>

  /** One `pulls.get` call for PR `number`: the full pull request, or `None`
      when the call throws. */
  datatype Fetch = Fetch(number: int, detail: Option<PullRequest>)

  /** The answer to `listPullRequestsAssociatedWithCommit`, with the `pulls.get`
      outcome of every PR it lists, in listing order. */
  datatype Associated = AssociatedThrows | Associated(fetches: seq<Fetch>)

  /** One entry of the `pulls.list` page the fallback scans: the fields it
      compares, and what `pulls.get` answers if the entry is fetched. */
  datatype Candidate = Candidate(
    number: int,
    headSha: string,
    mergeCommitSha: Option<string>,
    detail: Option<PullRequest>)

  datatype Listing = ListingThrows | Listing(candidates: seq<Candidate>)

  /** Everything GitHub answers while one commit is processed. */
  datatype CommitReplies = CommitReplies(associated: Associated, listing: Listing)

  /** The fallback's test: the commit is the PR's merge commit or its head.
      `merge_commit_sha` may be null, which equals no commit. */
  predicate Matches(commit: string, c: Candidate) {
    c.mergeCommitSha == Some(commit) || c.headSha == commit
  }

  // ---------------------------------------------------------------------------
  // The code's loops, threading the map

  /** The primary loop for one commit: stores each fetched PR under its number
      until a `pulls.get` throws; the flag says whether one threw. */
  function StorePrimary(m: Store, fs: seq<Fetch>): (r: (Store, bool))
    decreases fs
  {
    if fs == [] then (m, false)
    else match fs[0].detail
      case None => (m, true)
      case Some(pr) => StorePrimary(Set(m, fs[0].number, pr), fs[1..])
  }

  /** `findPRsFallbackMethod`: stores every listed PR that matches the commit;
      a `pulls.get` that throws ends the scan, keeping what was stored. */
  function StoreFallback(m: Store, commit: string, cs: seq<Candidate>): Store
    decreases cs
  {
    if cs == [] then m
    else if !Matches(commit, cs[0]) then StoreFallback(m, commit, cs[1..])
    else match cs[0].detail
      case None => m
      case Some(pr) => StoreFallback(Set(m, cs[0].number, pr), commit, cs[1..])
  }

  /** The `catch` of one commit: the fallback, whose own failure is swallowed. */
  function StoreAfterThrow(m: Store, commit: string, listing: Listing): Store
  {
    match listing
    case ListingThrows => m
    case Listing(cs) => StoreFallback(m, commit, cs)
  }

  /** One iteration of the commit loop: the primary path, and the fallback
      only if the primary path threw. */
  function StoreCommit(m: Store, commit: string, replies: CommitReplies): Store
  {
    match replies.associated
    case AssociatedThrows => StoreAfterThrow(m, commit, replies.listing)
    case Associated(fs) =>
      var (m1, threw) := StorePrimary(m, fs);
      if threw then StoreAfterThrow(m1, commit, replies.listing) else m1
  }

  function StoreCommits(m: Store, commits: seq<string>, github: string -> CommitReplies): Store
    decreases commits
  {
    if commits == [] then m
    else StoreCommits(StoreCommit(m, commits[0], github(commits[0])), commits[1..], github)
  }

  /** `findPullRequestsForCommits`: the values of the map, in insertion order. */
  function FindPullRequests(commits: seq<string>, github: string -> CommitReplies): seq<PullRequest>
  {
    Values(StoreCommits([], commits, github))
  }

  // ---------------------------------------------------------------------------
  // Which `set` calls are made, independently of the map

  /** The primary path throws when the listing call throws or one of its fetches does. */
  predicate PrimaryThrows(a: Associated) {
    a.AssociatedThrows? || exists i :: 0 <= i < |a.fetches| && a.fetches[i].detail.None?
  }

  /** The `set` calls of the primary path: the longest run of successful
      fetches at the front of the listing. */
  function PrimaryEntries(fs: seq<Fetch>): (es: Store)
    ensures |es| <= |fs|
    ensures forall i :: 0 <= i < |es| ==> fs[i].detail.Some? && es[i] == Entry(fs[i].number, fs[i].detail.value)
    ensures |es| < |fs| ==> fs[|es|].detail.None?
    decreases fs
  {
    if fs == [] || fs[0].detail.None? then []
    else [Entry(fs[0].number, fs[0].detail.value)] + PrimaryEntries(fs[1..])
  }

  /** The `set` calls of the fallback: the matching candidates, in listing
      order, up to the first matching one whose fetch throws. */
  function FallbackEntries(commit: string, cs: seq<Candidate>): (es: Store)
    ensures forall k :: 0 <= k < |es| ==>
      exists i :: 0 <= i < |cs| && Matches(commit, cs[i]) && cs[i].detail == Some(es[k].value) && cs[i].number == es[k].key
    ensures (forall i :: 0 <= i < |cs| && Matches(commit, cs[i]) ==> cs[i].detail.Some?) ==>
      forall i :: 0 <= i < |cs| && Matches(commit, cs[i]) ==> Entry(cs[i].number, cs[i].detail.value) in es
    decreases cs
  {
    if cs == [] then []
    else
      var rest := FallbackEntries(commit, cs[1..]);
      assert forall i :: 0 <= i < |cs| - 1 ==> cs[1..][i] == cs[i + 1];
      if !Matches(commit, cs[0]) then rest
      else if cs[0].detail.None? then []
      else [Entry(cs[0].number, cs[0].detail.value)] + rest
  }

  /** The `set` calls made for one commit. */
  function CommitEntries(commit: string, replies: CommitReplies): Store
  {
    var primary := if replies.associated.AssociatedThrows? then [] else PrimaryEntries(replies.associated.fetches);
    if !PrimaryThrows(replies.associated) then primary
    else match replies.listing
      case ListingThrows => primary
      case Listing(cs) => primary + FallbackEntries(commit, cs)
  }

  /** The `set` calls made for all commits, in order. */
  function AllEntries(commits: seq<string>, github: string -> CommitReplies): Store
    decreases commits
  {
    if commits == [] then [] else CommitEntries(commits[0], github(commits[0])) + AllEntries(commits[1..], github)
  }

  // ---------------------------------------------------------------------------
  // The loops perform exactly those `set` calls

  lemma {:induction false} SetAllAppend(m: Store, a: Store, b: Store)
    ensures SetAll(m, a + b) == SetAll(SetAll(m, a), b)
    decreases a
  {
    if a == [] {
      assert a + b == b;
    } else {
      assert (a + b)[1..] == a[1..] + b;
      SetAllAppend(Set(m, a[0].key, a[0].value), a[1..], b);
    }
  }

  lemma {:induction false} StorePrimaryIsSetAll(m: Store, fs: seq<Fetch>)
    ensures StorePrimary(m, fs).0 == SetAll(m, PrimaryEntries(fs))
    ensures StorePrimary(m, fs).1 <==> PrimaryThrows(Associated(fs))
    decreases fs
  {
    if fs != [] && fs[0].detail.Some? {
      StorePrimaryIsSetAll(Set(m, fs[0].number, fs[0].detail.value), fs[1..]);
      var e := Entry(fs[0].number, fs[0].detail.value);
      assert ([e] + PrimaryEntries(fs[1..]))[1..] == PrimaryEntries(fs[1..]);
      PrimaryThrowsCons(fs);
    }
  }

  lemma PrimaryThrowsCons(fs: seq<Fetch>)
    requires fs != []
    ensures PrimaryThrows(Associated(fs)) <==> fs[0].detail.None? || PrimaryThrows(Associated(fs[1..]))
  {
    if PrimaryThrows(Associated(fs[1..])) {
      var i :| 0 <= i < |fs[1..]| && fs[1..][i].detail.None?;
      assert fs[i + 1] == fs[1..][i];
    }
    if PrimaryThrows(Associated(fs)) && fs[0].detail.Some? {
      var i :| 0 <= i < |fs| && fs[i].detail.None?;
      assert i != 0;
      assert fs[1..][i - 1] == fs[i];
    }
  }

  lemma {:induction false} StoreFallbackIsSetAll(m: Store, commit: string, cs: seq<Candidate>)
    ensures StoreFallback(m, commit, cs) == SetAll(m, FallbackEntries(commit, cs))
    decreases cs
  {
    if cs != [] {
      if !Matches(commit, cs[0]) {
        StoreFallbackIsSetAll(m, commit, cs[1..]);
      } else if cs[0].detail.Some? {
        var e := Entry(cs[0].number, cs[0].detail.value);
        StoreFallbackIsSetAll(Set(m, e.key, e.value), commit, cs[1..]);
        assert ([e] + FallbackEntries(commit, cs[1..]))[1..] == FallbackEntries(commit, cs[1..]);
      }
    }
  }

  lemma StoreAfterThrowIsSetAll(m: Store, primary: Store, commit: string, listing: Listing)
    ensures StoreAfterThrow(SetAll(m, primary), commit, listing)
         == SetAll(m, primary + (if listing.Listing? then FallbackEntries(commit, listing.candidates) else []))
  {
    if listing.Listing? {
      StoreFallbackIsSetAll(SetAll(m, primary), commit, listing.candidates);
      SetAllAppend(m, primary, FallbackEntries(commit, listing.candidates));
    } else {
      assert primary + [] == primary;
    }
  }

  /** One commit's processing is the run of `set` calls `CommitEntries` lists. */
  lemma StoreCommitIsSetAll(m: Store, commit: string, replies: CommitReplies)
    ensures StoreCommit(m, commit, replies) == SetAll(m, CommitEntries(commit, replies))
  {
    match replies.associated
    case AssociatedThrows =>
      StoreAfterThrowIsSetAll(m, [], commit, replies.listing);
    case Associated(fs) =>
      StorePrimaryIsSetAll(m, fs);
      StoreAfterThrowIsSetAll(m, PrimaryEntries(fs), commit, replies.listing);
  }

  lemma {:induction false} StoreCommitsIsSetAll(m: Store, commits: seq<string>, github: string -> CommitReplies)
    ensures StoreCommits(m, commits, github) == SetAll(m, AllEntries(commits, github))
    decreases commits
  {
    if commits != [] {
      var es := CommitEntries(commits[0], github(commits[0]));
      StoreCommitIsSetAll(m, commits[0], github(commits[0]));
      StoreCommitsIsSetAll(SetAll(m, es), commits[1..], github);
      SetAllAppend(m, es, AllEntries(commits[1..], github));
    }
  }

  // ---------------------------------------------------------------------------
  // Properties

  /** The pull requests found hold each PR number once, in the order the number
      was first stored, each with the detail fetched last for it. */
  lemma FindPullRequestsCorrect(commits: seq<string>, github: string -> CommitReplies)
    ensures var store := StoreCommits([], commits, github);
            var es := AllEntries(commits, github);
            && FindPullRequests(commits, github) == Values(store)
            && Valid(store)
            && Keys(store) == Collections.Dedup(Keys(es))
            && forall k :: k in Keys(es) ==> Get(store, k) == Some(LastValue(es, k))
  {
    var es := AllEntries(commits, github);
    StoreCommitsIsSetAll([], commits, github);
    SetAllFromEmpty(es);
    forall k | k in Keys(es)
      ensures Get(SetAll([], es), k) == Some(LastValue(es, k))
    {
      SetAllGet([], es, k);
    }
  }

  /** Processing a commit never removes or reorders what earlier commits stored. */
  lemma StoreCommitKeepsEarlier(m: Store, commit: string, replies: CommitReplies)
    ensures Keys(m) <= Keys(StoreCommit(m, commit, replies))
  {
    StoreCommitIsSetAll(m, commit, replies);
  }

  /** The fallback is consulted only when the primary path throws: otherwise
      the outcome does not depend on the listing, and every PR the primary
      path fetched is stored. */
  lemma FallbackOnlyWhenPrimaryThrows(m: Store, commit: string, fs: seq<Fetch>, listing: Listing, other: Listing)
    requires !PrimaryThrows(Associated(fs))
    ensures StoreCommit(m, commit, CommitReplies(Associated(fs), listing))
         == StoreCommit(m, commit, CommitReplies(Associated(fs), other))
    ensures StoreCommit(m, commit, CommitReplies(Associated(fs), listing)) == SetAll(m, PrimaryEntries(fs))
    ensures |PrimaryEntries(fs)| == |fs|
  {
    StorePrimaryIsSetAll(m, fs);
  }

  /** Some candidate on the page matches the commit and has number `k`. */
  predicate MatchListed(commit: string, cs: seq<Candidate>, k: int) {
    exists i :: 0 <= i < |cs| && Matches(commit, cs[i]) && cs[i].number == k
  }

  lemma MatchListedCons(commit: string, cs: seq<Candidate>, k: int)
    requires cs != []
    ensures MatchListed(commit, cs, k) <==>
      (Matches(commit, cs[0]) && cs[0].number == k) || MatchListed(commit, cs[1..], k)
  {
    if MatchListed(commit, cs[1..], k) {
      var i :| 0 <= i < |cs[1..]| && Matches(commit, cs[1..][i]) && cs[1..][i].number == k;
      assert cs[i + 1] == cs[1..][i];
    }
    if MatchListed(commit, cs, k) && !(Matches(commit, cs[0]) && cs[0].number == k) {
      var i :| 0 <= i < |cs| && Matches(commit, cs[i]) && cs[i].number == k;
      assert i != 0;
      assert cs[1..][i - 1] == cs[i];
    }
  }

  /** A candidate that matches the commit but whose `pulls.get` throws: the
      exception leaves the loop and is caught by the commit's `catch`. */
  predicate FetchFails(commit: string, c: Candidate) {
    Matches(commit, c) && c.detail.None?
  }

  /** One candidate alone: a match with a successful fetch is stored, anything
      else stores nothing. */
  lemma FallbackUnit(commit: string, c: Candidate)
    ensures FallbackEntries(commit, [c])
         == if Matches(commit, c) && c.detail.Some? then [Entry(c.number, c.detail.value)] else []
  {
  }

  /** Past a run of candidates none of which fails, the scan goes on: the
      fallback stores the entries of the run, in order, then those of the rest. */
  lemma {:induction false} FallbackAppend(commit: string, a: seq<Candidate>, b: seq<Candidate>)
    requires forall j :: 0 <= j < |a| ==> !FetchFails(commit, a[j])
    ensures FallbackEntries(commit, a + b) == FallbackEntries(commit, a) + FallbackEntries(commit, b)
    decreases a
  {
    if a == [] {
      assert a + b == b;
    } else {
      assert (a + b)[1..] == a[1..] + b;
      assert (a + b)[0] == a[0];
      assert !FetchFails(commit, a[0]);
      FallbackAppend(commit, a[1..], b);
    }
  }

  /** The first matching candidate whose fetch throws ends the scan: the
      fallback stores what the candidates before it store, and nothing after. */
  lemma FallbackStopsAtThrow(commit: string, cs: seq<Candidate>, i: nat)
    requires i < |cs| && FetchFails(commit, cs[i])
    requires forall j :: 0 <= j < i ==> !FetchFails(commit, cs[j])
    ensures FallbackEntries(commit, cs) == FallbackEntries(commit, cs[..i])
  {
    assert cs == cs[..i] + cs[i..];
    FallbackAppend(commit, cs[..i], cs[i..]);
    assert cs[i..][0] == cs[i];
    assert FallbackEntries(commit, cs[i..]) == [];
  }

  /** With no failing fetch, the fallback's `set` calls are for exactly the
      numbers of the matching candidates. */
  lemma {:induction false} FallbackKeys(commit: string, cs: seq<Candidate>, k: int)
    requires forall i :: 0 <= i < |cs| && Matches(commit, cs[i]) ==> cs[i].detail.Some?
    ensures k in Keys(FallbackEntries(commit, cs)) <==> MatchListed(commit, cs, k)
    decreases cs
  {
    if cs != [] {
      FallbackKeys(commit, cs[1..], k);
      MatchListedCons(commit, cs, k);
      var rest := FallbackEntries(commit, cs[1..]);
      if Matches(commit, cs[0]) {
        assert Keys([Entry(cs[0].number, cs[0].detail.value)] + rest) == [cs[0].number] + Keys(rest);
      }
    }
  }

  /** When the primary path throws and the listing succeeds with no failing
      fetch, the fallback adds exactly the listed PRs whose merge commit or
      head is the commit, keeping what the primary path stored before it threw. */
  lemma FallbackStoresMatches(m: Store, commit: string, a: Associated, cs: seq<Candidate>, k: int)
    requires PrimaryThrows(a)
    requires forall i :: 0 <= i < |cs| && Matches(commit, cs[i]) ==> cs[i].detail.Some?
    ensures var r := StoreCommit(m, commit, CommitReplies(a, Listing(cs)));
            var before := SetAll(m, if a.AssociatedThrows? then [] else PrimaryEntries(a.fetches));
            && Keys(before) <= Keys(r)
            && (k in Keys(r) <==> k in Keys(before) || MatchListed(commit, cs, k))
  {
    var primary := if a.AssociatedThrows? then [] else PrimaryEntries(a.fetches);
    StoreCommitIsSetAll(m, commit, CommitReplies(a, Listing(cs)));
    SetAllAppend(m, primary, FallbackEntries(commit, cs));
    FallbackKeys(commit, cs, k);
  }

  /** A commit id that is shorter or longer than every SHA on the page never
      matches, so the fallback stores nothing for it. This is the case for the
      abbreviated ids `git log --oneline` prints when the listing carries full
      40-character SHAs. */
  lemma FallbackIgnoresOtherLengths(m: Store, commit: string, cs: seq<Candidate>)
    requires forall i :: 0 <= i < |cs| ==> |cs[i].headSha| != |commit|
    requires forall i :: 0 <= i < |cs| && cs[i].mergeCommitSha.Some? ==> |cs[i].mergeCommitSha.value| != |commit|
    ensures StoreFallback(m, commit, cs) == m
  {
    StoreFallbackIsSetAll(m, commit, cs);
    assert forall i :: 0 <= i < |cs| ==> !Matches(commit, cs[i]);
  }
}
