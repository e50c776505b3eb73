/** `updateMondayTasks`: find the board from the first task's item, then for
    every task look its item up by name, set the status column to
    `environment + version` and post a comment. Monday.com is an input: a
    function from the request the action sends to the reply it gets. */
module Monday {
  import opened Wrappers
  import opened Text

  /** An item in a Monday.com reply, reduced to what the action reads: its id
      and the id of its board (`None` when `board` or its id is null). */
  datatype Item = Item(id: string, board: Option<string>)

  /** What a request to the Monday.com API yields: the HTTP call throws, the
      GraphQL reply carries `errors`, or it carries data with a list of items
      (empty when the list is missing). Mutation replies carry no items the
      action reads. */
  datatype Reply = Throws | Errors | Data(items: seq<Item>)

  /** The requests the action sends, as the GraphQL text would spell them out. */
  datatype Call =
    | ItemById(taskId: string)
    | ItemsByColumn(board: string, column: string, value: string)
    | ChangeColumn(item: string, column: string, value: string)
    | CreateUpdate(item: string, body: string)

  /** The action inputs that shape the requests. */
  datatype Settings = Settings(column: string, version: string, environment: string, description: string)

  /** The two board columns a task id is looked up in. */
  const NameColumn: string := "name"
  const TitleColumn: string := "title"

  // ---------------------------------------------------------------------------
  // Finding the board

  /** The board id read from the first task's item: a thrown call, an `errors`
      reply, no items, a null board (reading its id throws and the error is
      caught) and an empty id all leave it unset. */
  function BoardFrom(r: Reply): (board: Option<string>)
    ensures board.Some? <==>
      r.Data? && r.items != [] && r.items[0].board.Some? && r.items[0].board.value != []
    ensures board.Some? ==> board.value == r.items[0].board.value
  {
    match r
    case Throws => None
    case Errors => None
    case Data(items) =>
      if items == [] then None
      else match items[0].board
        case None => None
        case Some(b) => if b == [] then None else Some(b)
  }

  /** The board lookup: one request about the first task id, none without ids.
      A board is only ever found in the reply to a request actually sent. */
  function FindBoard(monday: Call -> Reply, taskIds: seq<string>): (r: (seq<Call>, Option<string>))
    ensures |r.0| <= 1 && (r.0 == [] <==> taskIds == [])
    ensures r.1.Some? ==> r.0 != [] && r.1 == BoardFrom(monday(r.0[0]))
  {
    if taskIds == [] then ([], None)
    else
      var call := ItemById(taskIds[0]);
      ([call], BoardFrom(monday(call)))
  }

  // ---------------------------------------------------------------------------
  // One task

  /** How the processing of one task ends. */
  datatype Outcome =
    | LookupRejected   // the item lookup replied with `errors`
    | NotFound         // the item lookup found no item
    | ColumnRejected   // the column mutation replied with `errors`
    | CommentRejected  // the column was set, the comment mutation replied with `errors`
    | Updated          // column set and comment posted
    | Crashed          // a request threw; the error is logged and the next task follows

  /** The requests made for one task, in order, and how it ended. */
  datatype Trace = Trace(taskId: string, calls: seq<Call>, outcome: Outcome)

  /** The value written to the column: `${environment}${version}`. */
  function ColumnValue(s: Settings): (v: string)
    ensures |v| == |s.environment| + |s.version|
    ensures v[..|s.environment|] == s.environment && v[|s.environment|..] == s.version
  {
    s.environment + s.version
  }

  /** The comment posted on the item. */
  function Comment(s: Settings): string {
    "Version: " + s.version + "\nEnvironment: " + s.environment + "\nDescription: " + s.description
  }

  /** The item lookup: by the `name` column, and by the `title` column only if
      the first request throws. Returns the requests made and the reply used. */
  function Lookup(monday: Call -> Reply, board: string, taskId: string): (r: (seq<Call>, Reply))
    ensures |r.0| == 1 || |r.0| == 2
    ensures r.0[0] == ItemsByColumn(board, NameColumn, taskId)
    ensures monday(ItemsByColumn(board, NameColumn, taskId)).Throws? <==> |r.0| == 2
    ensures |r.0| == 1 || r.0[1] == ItemsByColumn(board, TitleColumn, taskId)
    ensures r.1 == monday(r.0[|r.0| - 1])
  {
    var first := ItemsByColumn(board, NameColumn, taskId);
    if monday(first).Throws? then
      var second := ItemsByColumn(board, TitleColumn, taskId);
      ([first, second], monday(second))
    else ([first], monday(first))
  }

  /** One iteration of the task loop. */
  function ProcessTask(monday: Call -> Reply, board: string, s: Settings, taskId: string): (t: Trace)
    ensures t.taskId == taskId
    ensures Lookup(monday, board, taskId).0 <= t.calls
  {
    var (lookup, reply) := Lookup(monday, board, taskId);
    match reply
    case Throws => Trace(taskId, lookup, Crashed)
    case Errors => Trace(taskId, lookup, LookupRejected)
    case Data(items) =>
      if items == [] then Trace(taskId, lookup, NotFound)
      else
        var item := items[0].id;
        var change := ChangeColumn(item, s.column, ColumnValue(s));
        match monday(change)
        case Throws => Trace(taskId, lookup + [change], Crashed)
        case Errors => Trace(taskId, lookup + [change], ColumnRejected)
        case Data(_) =>
          var comment := CreateUpdate(item, Comment(s));
          var calls := lookup + [change, comment];
          match monday(comment)
          case Throws => Trace(taskId, calls, Crashed)
          case Errors => Trace(taskId, calls, CommentRejected)
          case Data(_) => Trace(taskId, calls, Updated)
  }

  /** The loop over all tasks: each is processed on its own, whatever happened
      to the ones before. */
  function ProcessAll(monday: Call -> Reply, board: string, s: Settings, taskIds: seq<string>): (ts: seq<Trace>)
    ensures |ts| == |taskIds|
    ensures forall k :: 0 <= k < |ts| ==> ts[k] == ProcessTask(monday, board, s, taskIds[k])
    decreases taskIds
  {
    if taskIds == [] then []
    else [ProcessTask(monday, board, s, taskIds[0])] + ProcessAll(monday, board, s, taskIds[1..])
  }

  /** What `updateMondayTasks` did: the board lookup, the board found, and one
      trace per task (none when no board was found). */
  datatype Report = Report(lookup: seq<Call>, board: Option<string>, tasks: seq<Trace>)

  function UpdateTasks(monday: Call -> Reply, s: Settings, taskIds: seq<string>): (r: Report)
    ensures r.board.None? ==> r.tasks == []
    ensures r.board.Some? ==> |r.tasks| == |taskIds|
  {
    var (lookup, board) := FindBoard(monday, taskIds);
    match board
    case None => Report(lookup, None, [])
    case Some(b) => Report(lookup, board, ProcessAll(monday, b, s, taskIds))
  }

  /** Every request of a report, in the order they are sent. */
  function AllCalls(r: Report): seq<Call> {
    r.lookup + TraceCalls(r.tasks)
  }

  function TraceCalls(ts: seq<Trace>): seq<Call>
    decreases ts
  {
    if ts == [] then [] else ts[0].calls + TraceCalls(ts[1..])
  }

  // ---------------------------------------------------------------------------
  // Properties of one task

  predicate IsMutation(c: Call) {
    c.ChangeColumn? || c.CreateUpdate?
  }

  /** The lookup found an item to update: the reply used has data with items. */
  predicate Found(monday: Call -> Reply, board: string, taskId: string) {
    var reply := Lookup(monday, board, taskId).1;
    reply.Data? && reply.items != []
  }

  /** The `title` query is sent exactly when the `name` query throws. */
  lemma TitleQueryOnlyAfterThrow(monday: Call -> Reply, board: string, s: Settings, taskId: string)
    ensures var t := ProcessTask(monday, board, s, taskId);
            ItemsByColumn(board, TitleColumn, taskId) in t.calls <==> monday(ItemsByColumn(board, NameColumn, taskId)).Throws?
  {
    var t := ProcessTask(monday, board, s, taskId);
    var lookup := Lookup(monday, board, taskId).0;
    assert t.calls[..|lookup|] == lookup;
    forall i | |lookup| <= i < |t.calls| ensures !t.calls[i].ItemsByColumn? {
    }
    if ItemsByColumn(board, TitleColumn, taskId) in t.calls {
      var i :| 0 <= i < |t.calls| && t.calls[i] == ItemsByColumn(board, TitleColumn, taskId);
      assert i < |lookup|;
      assert i != 0;
    }
    if |lookup| == 2 {
      assert t.calls[1] == lookup[1];
    }
  }

  /** A task whose lookup replies with `errors`, finds no item or throws gets
      no mutation, and its outcome says which. */
  lemma NoMutationWithoutItem(monday: Call -> Reply, board: string, s: Settings, taskId: string)
    ensures var t := ProcessTask(monday, board, s, taskId);
            var reply := Lookup(monday, board, taskId).1;
            && (!Found(monday, board, taskId) <==> t.calls == Lookup(monday, board, taskId).0)
            && (!Found(monday, board, taskId) ==> forall i :: 0 <= i < |t.calls| ==> !IsMutation(t.calls[i]))
            && (reply.Errors? <==> t.outcome == LookupRejected)
            && (reply == Data([]) <==> t.outcome == NotFound)
  {
    var lookup := Lookup(monday, board, taskId).0;
    assert forall i :: 0 <= i < |lookup| ==> lookup[i].ItemsByColumn?;
  }

  /** For a found item the column of the first item is set to
      `environment + version`, and that is the first mutation. */
  lemma ColumnSetOnFoundItem(monday: Call -> Reply, board: string, s: Settings, taskId: string)
    requires Found(monday, board, taskId)
    ensures var t := ProcessTask(monday, board, s, taskId);
            var (lookup, reply) := Lookup(monday, board, taskId);
            && |t.calls| > |lookup|
            && t.calls[|lookup|] == ChangeColumn(reply.items[0].id, s.column, s.environment + s.version)
  {
  }

  /** The comment is sent exactly when the item was found and the column
      mutation succeeded; then it is the last request and carries the
      fixed template. */
  lemma CommentOnlyAfterColumnSet(monday: Call -> Reply, board: string, s: Settings, taskId: string)
    ensures var t := ProcessTask(monday, board, s, taskId);
            var reply := Lookup(monday, board, taskId).1;
            && ((exists i :: 0 <= i < |t.calls| && t.calls[i].CreateUpdate?) <==>
                 Found(monday, board, taskId) && monday(ChangeColumn(reply.items[0].id, s.column, ColumnValue(s))).Data?)
            && (forall i :: 0 <= i < |t.calls| && t.calls[i].CreateUpdate? ==>
                 i == |t.calls| - 1 && t.calls[i] == CreateUpdate(reply.items[0].id, Comment(s)))
  {
    var t := ProcessTask(monday, board, s, taskId);
    var lookup := Lookup(monday, board, taskId).0;
    assert forall i :: 0 <= i < |lookup| ==> lookup[i].ItemsByColumn?;
    if Found(monday, board, taskId) && monday(ChangeColumn(Lookup(monday, board, taskId).1.items[0].id, s.column, ColumnValue(s))).Data? {
      assert t.calls[|t.calls| - 1].CreateUpdate?;
    }
  }

  /** A failed column update ends the task: no comment follows. */
  lemma ColumnRejectedStopsTask(monday: Call -> Reply, board: string, s: Settings, taskId: string)
    requires ProcessTask(monday, board, s, taskId).outcome == ColumnRejected
    ensures var t := ProcessTask(monday, board, s, taskId);
            && IsMutation(t.calls[|t.calls| - 1]) && t.calls[|t.calls| - 1].ChangeColumn?
            && monday(t.calls[|t.calls| - 1]).Errors?
            && forall i :: 0 <= i < |t.calls| ==> !t.calls[i].CreateUpdate?
  {
    var lookup := Lookup(monday, board, taskId).0;
    assert forall i :: 0 <= i < |lookup| ==> lookup[i].ItemsByColumn?;
  }

  /** A task ends `Updated` exactly when the lookup found an item and both
      mutations replied with data. */
  lemma UpdatedIff(monday: Call -> Reply, board: string, s: Settings, taskId: string)
    ensures var t := ProcessTask(monday, board, s, taskId);
            var reply := Lookup(monday, board, taskId).1;
            t.outcome == Updated <==>
              && Found(monday, board, taskId)
              && monday(ChangeColumn(reply.items[0].id, s.column, ColumnValue(s))).Data?
              && monday(CreateUpdate(reply.items[0].id, Comment(s))).Data?
  {
  }

  // ---------------------------------------------------------------------------
  // The comment template read back

  const VersionTag: string := "Version: "
  const EnvironmentTag: string := "Environment: "
  const DescriptionTag: string := "Description: "

  /** Reads the three fields back out of a comment; the description may span
      lines, the other two may not. */
  function ParseComment(body: string): (r: Option<(string, string, string)>)
  {
    var lines := Split(body, '\n');
    if |lines| < 3 then None
    else
      var rest := Join(lines[2..], '\n');
      if VersionTag <= lines[0] && EnvironmentTag <= lines[1] && DescriptionTag <= rest then
        Some((lines[0][|VersionTag|..], lines[1][|EnvironmentTag|..], rest[|DescriptionTag|..]))
      else None
  }

  /** The comment's first two lines are its version and environment lines. */
  lemma CommentLines(s: Settings)
    requires '\n' !in s.version && '\n' !in s.environment
    ensures Split(Comment(s), '\n')
         == [VersionTag + s.version, EnvironmentTag + s.environment] + Split(DescriptionTag + s.description, '\n')
  {
    var l0 := VersionTag + s.version;
    var l1 := EnvironmentTag + s.environment;
    var l2 := DescriptionTag + s.description;
    CommentParts(s);
    assert '\n' !in l0 && '\n' !in l1;
    SplitAtSep(l0, '\n', l1 + ['\n'] + l2);
    SplitAtSep(l1, '\n', l2);
  }

  /** The comment is its three tagged lines joined by newlines. */
  lemma CommentParts(s: Settings)
    ensures Comment(s) == (VersionTag + s.version) + ['\n']
                          + ((EnvironmentTag + s.environment) + ['\n'] + (DescriptionTag + s.description))
  {
  }

  /** The comment holds the version, environment and description, in that
      order, whenever the first two are single lines. */
  lemma CommentRoundTrip(s: Settings)
    requires '\n' !in s.version && '\n' !in s.environment
    ensures ParseComment(Comment(s)) == Some((s.version, s.environment, s.description))
  {
    var l2 := DescriptionTag + s.description;
    CommentLines(s);
    var lines := Split(Comment(s), '\n');
    assert lines[2..] == Split(l2, '\n');
    assert lines[0][|VersionTag|..] == s.version;
    assert lines[1][|EnvironmentTag|..] == s.environment;
    assert l2[|DescriptionTag|..] == s.description;
  }

  /** Two settings that differ in version, environment or description give
      different comments when version and environment are single lines. */
  lemma CommentInjective(s: Settings, t: Settings)
    requires '\n' !in s.version && '\n' !in s.environment
    requires '\n' !in t.version && '\n' !in t.environment
    requires Comment(s) == Comment(t)
    ensures s.version == t.version && s.environment == t.environment && s.description == t.description
  {
    CommentRoundTrip(s);
    CommentRoundTrip(t);
  }

  /** The column value has no separator: different environment and version
      pairs can write the same value. */
  lemma ColumnValueAmbiguous()
    ensures ColumnValue(Settings("status", "1.0", "prod", "")) == ColumnValue(Settings("status", ".0", "prod1", ""))
  {
    assert "prod" + "1.0" == "prod1" + ".0";
  }

  // ---------------------------------------------------------------------------
  // The whole loop

  /** Without a board id nothing but the board lookup is sent. */
  lemma NoBoardNoTasks(monday: Call -> Reply, s: Settings, taskIds: seq<string>)
    requires taskIds == [] || BoardFrom(monday(ItemById(taskIds[0]))).None?
    ensures UpdateTasks(monday, s, taskIds).tasks == []
    ensures AllCalls(UpdateTasks(monday, s, taskIds)) == if taskIds == [] then [] else [ItemById(taskIds[0])]
  {
    assert UpdateTasks(monday, s, taskIds).lookup + [] == UpdateTasks(monday, s, taskIds).lookup;
  }

  /** With a board id every task is processed, in order, on that board, and
      the requests are the board lookup followed by each task's requests. */
  lemma EveryTaskProcessed(monday: Call -> Reply, s: Settings, taskIds: seq<string>)
    requires taskIds != [] && BoardFrom(monday(ItemById(taskIds[0]))).Some?
    ensures var r := UpdateTasks(monday, s, taskIds);
            var b := BoardFrom(monday(ItemById(taskIds[0]))).value;
            && r.board == Some(b)
            && |r.tasks| == |taskIds|
            && (forall k :: 0 <= k < |taskIds| ==> r.tasks[k] == ProcessTask(monday, b, s, taskIds[k]))
            && AllCalls(r)[0] == ItemById(taskIds[0])
            && (forall k :: 0 <= k < |taskIds| ==> r.tasks[k].calls[0] == ItemsByColumn(b, NameColumn, taskIds[k]))
  {
    var r := UpdateTasks(monday, s, taskIds);
    var b := BoardFrom(monday(ItemById(taskIds[0]))).value;
    forall k | 0 <= k < |taskIds| ensures r.tasks[k].calls[0] == ItemsByColumn(b, NameColumn, taskIds[k]) {
      var lookup := Lookup(monday, b, taskIds[k]).0;
      assert lookup <= r.tasks[k].calls;
    }
  }

  /** A task's outcome depends only on its own id: a crash in one task never
      changes what happens to another. */
  lemma TasksIndependent(monday: Call -> Reply, board: string, s: Settings, a: seq<string>, b: seq<string>, i: nat, j: nat)
    requires i < |a| && j < |b| && a[i] == b[j]
    ensures ProcessAll(monday, board, s, a)[i] == ProcessAll(monday, board, s, b)[j]
  {
  }
}
