/** get_real_tasks and get_assignee_for_task: the board file's tasks become dashboard
    tasks; archived ones are dropped, columns remapped, descriptions shortened, an owner
    chosen by keyword, and one fixed website task is appended. */
module Tasks {
  import opened Wrappers
  import opened Text

  /** A task of the board file as json.load gives it; None marks an absent key. Each
      activity entry is represented by its 'date', None when the entry has no date. */
  datatype BoardTask = BoardTask(
    id: Option<string>,
    title: Option<string>,
    description: Option<string>,
    column: Option<string>,
    priority: Option<string>,
    archived: bool,
    created: Option<string>,
    activity: Option<seq<Option<string>>>)

  datatype DashboardTask = DashboardTask(
    id: string,
    title: string,
    description: string,
    column: string,
    priority: string,
    assignee: string,
    created: string,
    lastUpdate: string)

  /** The entry appended after the board's tasks on every successful load. */
  const Netlify := DashboardTask(
    "task-netlify-001",
    "Off-Market Deals Website",
    "Funnel website deployed to Netlify for lead generation and property acquisition",
    "done", "high", "Arthur", "2026-02-08", "2026-02-08T15:30:00")

  const DashboardColumns: set<string> := {"backlog", "in-progress", "done"}

  /** column_mapping.get(column, 'backlog') */
  function MapColumn(column: string): (r: string)
    ensures r in DashboardColumns
    ensures column in DashboardColumns ==> r == column
    ensures column !in DashboardColumns ==> r == "backlog"
  {
    var table := map["backlog" := "backlog", "in-progress" := "in-progress",
                     "recurring" := "backlog", "done" := "done"];
    if column in table then table[column] else "backlog"
  }

  const DescriptionLimit := 100

  /** A description over 100 characters keeps its first 100 and gains "...". */
  function Truncate(d: string): (r: string)
    ensures |d| <= DescriptionLimit ==> r == d
    ensures |d| > DescriptionLimit ==> |r| == DescriptionLimit + 3 && d[..DescriptionLimit] <= r && r[DescriptionLimit..] == "..."
    ensures |r| <= DescriptionLimit + 3
  {
    if |d| > DescriptionLimit then d[..DescriptionLimit] + "..." else d
  }

  const ZillowWords := ["zillow", "real estate", "property", "section 8"]
  const ContentWords := ["content", "write", "post", "social", "twitter", "instagram"]
  const AdminWords := ["asana", "admin", "manage", "organize", "pipeline"]
  const Owners: set<string> := {"Zillow Bot", "Ghost", "Admin", "Arthur"}

  /** Some word of the list occurs in the lower-cased title or description. */
  predicate Mentions(words: seq<string>, title: string, description: string) {
    exists k | 0 <= k < |words| :: Occurs(words[k], Lower(title)) || Occurs(words[k], Lower(description))
  }

  /** The owner of a task: the first keyword list that the task mentions decides. */
  function Assignee(title: string, description: string): (r: string)
    ensures r in Owners
    ensures r == "Zillow Bot" <==> Mentions(ZillowWords, title, description)
    ensures r == "Ghost" <==> !Mentions(ZillowWords, title, description) && Mentions(ContentWords, title, description)
    ensures r == "Admin" <==>
      !Mentions(ZillowWords, title, description) && !Mentions(ContentWords, title, description)
      && Mentions(AdminWords, title, description)
  {
    if Mentions(ZillowWords, title, description) then "Zillow Bot"
    else if Mentions(ContentWords, title, description) then "Ghost"
    else if Mentions(AdminWords, title, description) then "Admin"
    else "Arthur"
  }

  /** task.get('activity', [{}])[-1].get('date', created): None when the activity list
      is present but empty, which raises IndexError. */
  function LastUpdate(activity: Option<seq<Option<string>>>, created: string): (r: Option<string>)
    ensures r.None? <==> activity == Some([])
    ensures activity.None? ==> r == Some(created)
    ensures activity.Some? && activity.value != [] ==>
      r == Some(activity.value[|activity.value| - 1].GetOr(created))
  {
    match activity
    case None => Some(created)
    case Some(entries) =>
      if entries == [] then None
      else
        var last := entries[|entries| - 1];
        Some(if last.Some? then last.value else created)
  }

  /** The task has every key the conversion reads, and no empty activity list. */
  predicate Convertible(t: BoardTask) {
    && t.id.Some? && t.title.Some? && t.description.Some? && t.column.Some? && t.created.Some?
    && t.activity != Some([])
  }

  /** The dashboard entry for one non-archived task; None where the code raises. */
  function Convert(t: BoardTask): (r: Option<DashboardTask>)
    ensures r.Some? <==> Convertible(t)
    ensures r.Some? ==>
      && r.value.column in DashboardColumns
      && |r.value.description| <= DescriptionLimit + 3
      && r.value.assignee in Owners
      && r.value.id == t.id.value && r.value.title == t.title.value
      && r.value.description == Truncate(t.description.value)
      && r.value.column == MapColumn(t.column.value)
      && r.value.priority == t.priority.GetOr("medium")
      && r.value.assignee == Assignee(t.title.value, t.description.value)
      && r.value.created == t.created.value
      && r.value.lastUpdate == LastUpdate(t.activity, t.created.value).value
  {
    if !(t.id.Some? && t.title.Some? && t.description.Some? && t.column.Some? && t.created.Some?) then None
    else
      var lastUpdate := LastUpdate(t.activity, t.created.value);
      if lastUpdate.None? then None
      else Some(DashboardTask(
        t.id.value,
        t.title.value,
        Truncate(t.description.value),
        MapColumn(t.column.value),
        t.priority.GetOr("medium"),
        Assignee(t.title.value, t.description.value),
        t.created.value,
        lastUpdate.value))
  }

  /** The tasks that are not archived, in board order. */
  function Live(tasks: seq<BoardTask>): seq<BoardTask> {
    if tasks == [] then []
    else
      var t := tasks[|tasks| - 1];
      Live(tasks[..|tasks| - 1]) + (if t.archived then [] else [t])
  }

  /** The conversion of each task, in order. */
  function Conversions(tasks: seq<BoardTask>): (r: seq<Option<DashboardTask>>)
    ensures |r| == |tasks|
    ensures forall k :: 0 <= k < |tasks| ==> r[k] == Convert(tasks[k])
  {
    seq(|tasks|, k requires 0 <= k < |tasks| => Convert(tasks[k]))
  }

  /** All the values, or None as soon as one is missing: the whole loader collapses at
      the first task that raises. */
  function AllOrNothing<T>(xs: seq<Option<T>>): Option<seq<T>> {
    if xs == [] then Some([])
    else
      match AllOrNothing(xs[..|xs| - 1])
      case None => None
      case Some(done) =>
        match xs[|xs| - 1]
        case None => None
        case Some(x) => Some(done + [x])
  }

  /** What get_real_tasks returns for a board file (None: missing or not JSON; a file
      without a 'tasks' key reads as an empty task list). */
  function LoadedTasks(board: Option<seq<BoardTask>>): (r: seq<DashboardTask>)
    ensures r == [] || r[|r| - 1] == Netlify
  {
    match board
    case None => []
    case Some(tasks) =>
      match AllOrNothing(Conversions(Live(tasks)))
      case None => []
      case Some(converted) => converted + [Netlify]
  }

  /** The loader: it walks the board, appends one entry per non-archived task, gives up
      with [] at the first task that raises, and finally appends the website task. */
  method RealTasks(board: Option<seq<BoardTask>>) returns (tasks: seq<DashboardTask>)
    ensures tasks == LoadedTasks(board)
  {
    if board.None? {
      return [];
    }
    var all := board.value;
    tasks := [];
    var i := 0;
    while i < |all|
      invariant 0 <= i <= |all|
      invariant AllOrNothing(Conversions(Live(all[..i]))) == Some(tasks)
    {
      ghost var before := Live(all[..i]);
      assert all[..i + 1][..i] == all[..i];
      var t := all[i];
      if !t.archived {
        assert Live(all[..i + 1]) == before + [t];
        ghost var results := Conversions(before + [t]);
        assert results[..|before|] == Conversions(before);
        var entry := Convert(t);
        if entry.None? {
          LiveOfAppend(all[..i + 1], all[i + 1..]);
          assert all[..i + 1] + all[i + 1..] == all;
          assert before + [t] <= Live(all);
          assert results <= Conversions(Live(all));
          NoRecoveryAfterFailure(results, Conversions(Live(all)));
          return [];
        }
        tasks := tasks + [entry.value];
      } else {
        assert Live(all[..i + 1]) == before;
      }
      i := i + 1;
    }
    assert all[..i] == all;
    tasks := tasks + [Netlify];
  }

  /** Once one value is missing, the result stays None whatever follows. */
  lemma {:induction false} NoRecoveryAfterFailure<T>(xs: seq<Option<T>>, ys: seq<Option<T>>)
    requires AllOrNothing(xs).None?
    requires xs <= ys
    ensures AllOrNothing(ys).None?
    decreases |ys|
  {
    if |ys| > |xs| {
      assert xs <= ys[..|ys| - 1];
      NoRecoveryAfterFailure(xs, ys[..|ys| - 1]);
    } else {
      assert xs == ys;
    }
  }

  /** Filtering a concatenation filters each part. */
  lemma {:induction false} LiveOfAppend(a: seq<BoardTask>, b: seq<BoardTask>)
    ensures Live(a + b) == Live(a) + Live(b)
  {
    if b == [] {
      assert a + b == a;
    } else {
      assert (a + b)[..|a + b| - 1] == a + b[..|b| - 1];
      LiveOfAppend(a, b[..|b| - 1]);
    }
  }

  /** A task survives exactly when it is on the board and not archived, and no more
      tasks survive than were on the board. */
  lemma {:induction false} LiveMembers(tasks: seq<BoardTask>)
    ensures forall t :: t in Live(tasks) <==> t in tasks && !t.archived
    ensures |Live(tasks)| <= |tasks|
  {
    if tasks != [] {
      var init := tasks[..|tasks| - 1];
      LiveMembers(init);
      assert tasks == init + [tasks[|tasks| - 1]];
    }
  }

  /** All or nothing succeeds exactly when every value is present, and then gives
      the values in order. */
  lemma {:induction false} AllOrNothingElementwise<T>(xs: seq<Option<T>>)
    ensures AllOrNothing(xs).Some? <==> forall k :: 0 <= k < |xs| ==> xs[k].Some?
    ensures AllOrNothing(xs).Some? ==>
      |AllOrNothing(xs).value| == |xs|
      && forall k :: 0 <= k < |xs| ==> xs[k] == Some(AllOrNothing(xs).value[k])
  {
    if xs != [] {
      var n := |xs| - 1;
      AllOrNothingElementwise(xs[..n]);
      assert forall k :: 0 <= k < n ==> xs[..n][k] == xs[k];
    }
  }

  /** The result of a load: [] when the board is unreadable or some non-archived task
      raises; otherwise one entry per non-archived task in board order, converted, and
      then the website task, so the length is the number of non-archived tasks plus one. */
  lemma {:induction false} LoadedTasksShape(board: Option<seq<BoardTask>>)
    ensures board.None? ==> LoadedTasks(board) == []
    ensures board.Some? && (exists t :: t in Live(board.value) && !Convertible(t)) ==> LoadedTasks(board) == []
    ensures board.Some? && (forall t :: t in Live(board.value) ==> Convertible(t)) ==>
      var live := Live(board.value);
      var r := LoadedTasks(board);
      && |r| == |live| + 1
      && r[|live|] == Netlify
      && forall k :: 0 <= k < |live| ==> Convert(live[k]) == Some(r[k])
  {
    if board.Some? {
      var live := Live(board.value);
      LiveMembers(board.value);
      AllOrNothingElementwise(Conversions(live));
      if exists t :: t in live && !Convertible(t) {
        var t :| t in live && !Convertible(t);
        var k :| 0 <= k < |live| && live[k] == t;
        assert Conversions(live)[k].None?;
      }
    }
  }

  /** No archived task reaches the dashboard: every entry but the last comes from a
      non-archived task of the board. */
  lemma {:induction false} NoArchivedTaskSurvives(tasks: seq<BoardTask>)
    ensures var r := LoadedTasks(Some(tasks));
      forall k :: 0 <= k < |r| - 1 ==>
        exists t :: t in tasks && !t.archived && Convert(t) == Some(r[k])
  {
    var live := Live(tasks);
    LiveMembers(tasks);
    AllOrNothingElementwise(Conversions(live));
    var r := LoadedTasks(Some(tasks));
    forall k | 0 <= k < |r| - 1
      ensures exists t :: t in tasks && !t.archived && Convert(t) == Some(r[k])
    {
      assert live[k] in live;
    }
  }

  /** Letter case does not matter to the owner. */
  lemma {:induction false} AssigneeIgnoresCase(title: string, description: string)
    ensures Assignee(Lower(title), Lower(description)) == Assignee(title, description)
  {
    LowerIdempotent(title);
    LowerIdempotent(description);
  }

  /** A real-estate keyword wins over a content keyword: "Write Section 8 listing post"
      goes to the Zillow agent although it also mentions "write" and "post". */
  lemma {:induction false} RealEstateBeforeContent()
    ensures Assignee("Write Section 8 listing post", "") == "Zillow Bot"
  {
    var title := "Write Section 8 listing post";
    assert Mentions(ZillowWords, title, "") by {
      SectionEightInTitle();
      assert ZillowWords[3] == "section 8";
    }
  }

  lemma {:induction false} SectionEightInTitle()
    ensures Occurs("section 8", Lower("Write Section 8 listing post"))
  {
    var head, piece, tail := "Write ", "Section 8", " listing post";
    assert head + piece + tail == "Write Section 8 listing post";
    assert Lower(piece) == "section 8" by {
      var lowPiece := Lower(piece);
      assert lowPiece[0] == LowerChar('S') == 's';
      assert forall j :: 1 <= j < 9 ==> lowPiece[j] == piece[j];
    }
    assert Lower(head + piece + tail) == Lower(head) + "section 8" + Lower(tail) by {
      LowerAppend(head + piece, tail);
      LowerAppend(head, piece);
    }
    OccursInMiddle(Lower(head), "section 8", Lower(tail));
  }
}
