/** The derivation effect of app/TodoApp.tsx (lines 30-52): the visible list is
    the task list filtered by status, by search text and by the "show completed"
    checkbox, then sorted by creation time. */
module View {
  import opened Types
  import opened Seqs
  import opened JsString
  import opened Utils

  /** The four inputs of the derivation besides the task list. */
  datatype Criteria = Criteria(filter: string, searchQuery: string, showCompleted: bool, sortOrder: string)

  /** `t => t.completed` */
  function IsDone(t: Todo): bool {
    t.completed
  }

  /** `t => !t.completed` */
  function IsActive(t: Todo): bool {
    !t.completed
  }

  /** The lower-cased title contains the lower-cased query. */
  predicate TitleMatches(t: Todo, query: string) {
    Includes(Lower(t.title), Lower(query))
  }

  /** The search test for one query. */
  function MatchesQuery(query: string): Todo -> bool {
    (t: Todo) => TitleMatches(t, query)
  }

  /** Lines 33-37: "completed" keeps completed tasks, "active" keeps the
      others, any other value keeps the list as it is. */
  function ByStatus(s: seq<Todo>, filter: string): seq<Todo> {
    if filter == "completed" then Filter(s, IsDone)
    else if filter == "active" then Filter(s, IsActive)
    else s
  }

  /** Lines 39-43: a non-empty query keeps the tasks whose title matches it. */
  function BySearch(s: seq<Todo>, query: string): seq<Todo> {
    if query != "" then Filter(s, MatchesQuery(query)) else s
  }

  /** Lines 45-47: with the checkbox cleared, completed tasks are dropped. */
  function ByShowCompleted(s: seq<Todo>, showCompleted: bool): seq<Todo> {
    if !showCompleted then Filter(s, IsActive) else s
  }

  /** The list before the sort of line 49. */
  function Visible(s: seq<Todo>, c: Criteria): seq<Todo> {
    ByShowCompleted(BySearch(ByStatus(s, c.filter), c.searchQuery), c.showCompleted)
  }

  /** What `setFilteredTodos` receives. */
  function DerivedView(s: seq<Todo>, c: Criteria): seq<Todo> {
    StableSort(Visible(s, c), c.sortOrder == "asc")
  }

  /** The status test on its own. */
  predicate StatusKeeps(filter: string, t: Todo) {
    if filter == "completed" then t.completed
    else if filter == "active" then !t.completed
    else true
  }

  /** The independent statement of which tasks are shown: all three tests at once. */
  predicate Shown(c: Criteria, t: Todo) {
    && StatusKeeps(c.filter, t)
    && (c.searchQuery == "" || TitleMatches(t, c.searchQuery))
    && (c.showCompleted || !t.completed)
  }

  function ShownBy(c: Criteria): Todo -> bool {
    (t: Todo) => Shown(c, t)
  }

  /** None of the three stages applies: `result` stays the `todos` array itself. */
  predicate FiltersNothing(c: Criteria) {
    c.filter != "completed" && c.filter != "active" && c.searchQuery == "" && c.showCompleted
  }

  function StatusTest(filter: string): Todo -> bool {
    (t: Todo) => StatusKeeps(filter, t)
  }

  function SearchTest(query: string): Todo -> bool {
    (t: Todo) => query == "" || TitleMatches(t, query)
  }

  function ShowTest(showCompleted: bool): Todo -> bool {
    (t: Todo) => showCompleted || !t.completed
  }

  lemma ByStatusIsFilter(s: seq<Todo>, filter: string)
    ensures ByStatus(s, filter) == Filter(s, StatusTest(filter))
  {
    if filter == "completed" {
      FilterTwice(s, IsDone, (t: Todo) => true, StatusTest(filter));
      FilterKeepsAll(Filter(s, IsDone), (t: Todo) => true);
    } else if filter == "active" {
      FilterTwice(s, IsActive, (t: Todo) => true, StatusTest(filter));
      FilterKeepsAll(Filter(s, IsActive), (t: Todo) => true);
    } else {
      FilterKeepsAll(s, StatusTest(filter));
    }
  }

  lemma BySearchIsFilter(s: seq<Todo>, query: string)
    ensures BySearch(s, query) == Filter(s, SearchTest(query))
  {
    if query != "" {
      FilterTwice(s, MatchesQuery(query), (t: Todo) => true, SearchTest(query));
      FilterKeepsAll(Filter(s, MatchesQuery(query)), (t: Todo) => true);
    } else {
      FilterKeepsAll(s, SearchTest(query));
    }
  }

  lemma ByShowCompletedIsFilter(s: seq<Todo>, showCompleted: bool)
    ensures ByShowCompleted(s, showCompleted) == Filter(s, ShowTest(showCompleted))
  {
    if !showCompleted {
      FilterTwice(s, IsActive, (t: Todo) => true, ShowTest(showCompleted));
      FilterKeepsAll(Filter(s, IsActive), (t: Todo) => true);
    } else {
      FilterKeepsAll(s, ShowTest(showCompleted));
    }
  }

  /** The three stages filter once by `Shown`. */
  lemma {:induction false} VisibleIsOneFilter(s: seq<Todo>, c: Criteria)
    ensures Visible(s, c) == Filter(s, ShownBy(c))
  {
    var p1, p2, p3 := StatusTest(c.filter), SearchTest(c.searchQuery), ShowTest(c.showCompleted);
    var p12 := (t: Todo) => p1(t) && p2(t);
    ByStatusIsFilter(s, c.filter);
    var s1 := Filter(s, p1);
    BySearchIsFilter(s1, c.searchQuery);
    FilterTwice(s, p1, p2, p12);
    var s2 := Filter(s, p12);
    ByShowCompletedIsFilter(s2, c.showCompleted);
    FilterTwice(s, p12, p3, ShownBy(c));
  }

  /** A task appears in the derived view exactly when it is in the list and
      passes all three tests. */
  lemma ViewMembership(s: seq<Todo>, c: Criteria, t: Todo)
    ensures t in DerivedView(s, c) <==> t in s && Shown(c, t)
  {
    VisibleIsOneFilter(s, c);
    SortPermutes(Visible(s, c), c.sortOrder == "asc");
    assert t in DerivedView(s, c) <==> t in multiset(DerivedView(s, c));
    assert t in Visible(s, c) <==> t in multiset(Visible(s, c));
  }

  /** The derived view is the stable sort of a subsequence of the list: a
      permutation of the shown tasks, ordered by `createdAt` ascending for
      "asc" and descending otherwise, with equal times in list order. */
  lemma ViewIsSortedSubsequence(s: seq<Todo>, c: Criteria)
    ensures Visible(s, c) == Filter(s, ShownBy(c))
    ensures IsSubsequence(Visible(s, c), s)
    ensures multiset(DerivedView(s, c)) == multiset(Filter(s, ShownBy(c)))
    ensures c.sortOrder == "asc" ==> forall i, j :: 0 <= i < j < |DerivedView(s, c)| ==>
      DerivedView(s, c)[i].createdAt <= DerivedView(s, c)[j].createdAt
    ensures c.sortOrder != "asc" ==> forall i, j :: 0 <= i < j < |DerivedView(s, c)| ==>
      DerivedView(s, c)[i].createdAt >= DerivedView(s, c)[j].createdAt
    ensures forall k :: CreatedAt(DerivedView(s, c), k) == CreatedAt(Filter(s, ShownBy(c)), k)
  {
    var asc := c.sortOrder == "asc";
    VisibleIsOneFilter(s, c);
    FilterIsSubsequence(s, ShownBy(c));
    SortPermutes(Visible(s, c), asc);
    SortIsSorted(Visible(s, c), asc);
    forall k ensures CreatedAt(DerivedView(s, c), k) == CreatedAt(Filter(s, ShownBy(c)), k) {
      SortIsStable(Visible(s, c), asc, k);
    }
  }

  /** Status filter: "completed" shows only completed tasks, "active" only
      the others, and any other value drops nothing at that stage. */
  lemma StatusFilterEffect(s: seq<Todo>, c: Criteria)
    ensures c.filter == "completed" ==> forall t :: t in DerivedView(s, c) ==> t.completed
    ensures c.filter == "active" ==> forall t :: t in DerivedView(s, c) ==> !t.completed
    ensures c.filter != "completed" && c.filter != "active" ==> ByStatus(s, c.filter) == s
  {
    forall t | t in DerivedView(s, c) ensures Shown(c, t) {
      ViewMembership(s, c, t);
    }
  }

  /** Search: with a non-empty query every shown title matches it; the empty
      query removes nothing. */
  lemma SearchFilterEffect(s: seq<Todo>, c: Criteria)
    ensures c.searchQuery != "" ==> forall t :: t in DerivedView(s, c) ==>
      Includes(Lower(t.title), Lower(c.searchQuery))
    ensures BySearch(s, "") == s
  {
    forall t | t in DerivedView(s, c) ensures Shown(c, t) {
      ViewMembership(s, c, t);
    }
  }

  /** With the checkbox cleared no completed task is shown, whatever the status filter. */
  lemma HideCompletedEffect(s: seq<Todo>, c: Criteria)
    ensures !c.showCompleted ==> forall t :: t in DerivedView(s, c) ==> !t.completed
  {
    forall t | t in DerivedView(s, c) ensures Shown(c, t) {
      ViewMembership(s, c, t);
    }
  }

  /** When no stage applies the view is the stable sort of the whole list. */
  lemma FiltersNothingSortsAll(s: seq<Todo>, c: Criteria)
    requires FiltersNothing(c)
    ensures Visible(s, c) == s
    ensures DerivedView(s, c) == StableSort(s, c.sortOrder == "asc")
  {
  }

  /** Re-running the derivation on the same inputs gives the same view, even
      though the first run reorders the task list when no stage applies. */
  lemma DeriveTwiceSameView(s: seq<Todo>, c: Criteria)
    ensures var s' := if FiltersNothing(c) then DerivedView(s, c) else s;
      DerivedView(s', c) == DerivedView(s, c)
  {
    if FiltersNothing(c) {
      SortIdempotent(s, c.sortOrder == "asc");
    }
  }

  /** Search ignores ASCII case: "Learn React" matches "react" and "REACT". */
  lemma {:induction false} SearchIgnoresCase(t: Todo, before: string, word: string, after: string, query: string)
    requires t.title == before + word + after
    requires Lower(word) == Lower(query)
    ensures TitleMatches(t, query)
  {
    var l := Lower(t.title);
    assert l[|before|..|before| + |word|] == Lower(query) by {
      LowerConcat(before + word, after);
      LowerConcat(before, word);
      assert l == Lower(before) + Lower(word) + Lower(after);
    }
    IncludesAt(l, Lower(query), |before|);
  }

  /** "Learn React" is found by "react" and by "REACT". */
  lemma SearchExample(t: Todo)
    requires t.title == "Learn React"
    ensures TitleMatches(t, "react") && TitleMatches(t, "REACT")
  {
    ReactSpellings();
    assert t.title == "Learn " + "React" + "";
    SearchIgnoresCase(t, "Learn ", "React", "", "react");
    SearchIgnoresCase(t, "Learn ", "React", "", "REACT");
  }

  /** Three spellings of one word, lower-cased. */
  lemma ReactSpellings()
    ensures Lower("React") == "react" && Lower("react") == "react" && Lower("REACT") == "react"
  {
    LowerWord("React", "react");
    LowerWord("react", "react");
    LowerWord("REACT", "react");
  }

  /** Lower-casing a word letter by letter. */
  lemma LowerWord(s: string, l: string)
    requires |s| == |l|
    requires forall i :: 0 <= i < |s| ==> LowerChar(s[i]) == l[i]
    ensures Lower(s) == l
  {
  }
}
