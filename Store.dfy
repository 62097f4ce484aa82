/** The pure part of the handlers of app/TodoApp.tsx (lines 79-161): input
    validation, the lookups and the list transformations each handler applies
    once the persistence call has succeeded, and the three counters. */
module Store {
  import opened Types
  import opened Seqs
  import opened JsString
  import opened View

  const EmptyTitleMessage: string := "Le titre ne peut pas être vide"
  const TooShortMessage: string := "Le titre doit faire au moins 3 caractères"
  const TooLongMessage: string := "Le titre ne peut pas dépasser 100 caractères"
  const MinTitleLength: nat := 3
  const MaxTitleLength: nat := 100

  // ---------------------------------------------------------------------------
  // Validation in `handleAddTodo` (lines 82-95)
  // ---------------------------------------------------------------------------

  /** The message `handleAddTodo` rejects a title with, or None when it goes on
      to call the server. Only the emptiness test trims; the length tests count
      the UTF-16 code units of the untrimmed title. */
  function AddTitleError(title: string): (r: Option<string>)
    ensures r.None? <==> !IsBlank(title) && MinTitleLength <= Utf16Length(title) <= MaxTitleLength
  {
    if IsBlank(title) then Some(EmptyTitleMessage)
    else if Utf16Length(title) < MinTitleLength then Some(TooShortMessage)
    else if Utf16Length(title) > MaxTitleLength then Some(TooLongMessage)
    else None
  }

  /** The emptiness test comes first: a title of whitespace only is reported
      as empty, however long it is. */
  lemma WhitespaceTitleIsEmpty(title: string)
    requires forall i :: 0 <= i < |title| ==> IsJsWhitespace(title[i])
    ensures AddTitleError(title) == Some(EmptyTitleMessage)
  {
    BlankIffAllWhitespace(title);
  }

  /** For a non-blank title without supplementary characters the length limits
      are 3 and 100 characters, counted before trimming. */
  lemma AddLengthLimits(title: string)
    requires exists i :: 0 <= i < |title| && !IsJsWhitespace(title[i])
    requires forall i :: 0 <= i < |title| ==> title[i] as int < 0x1_0000
    ensures AddTitleError(title) ==
      if |title| < 3 then Some(TooShortMessage)
      else if |title| > 100 then Some(TooLongMessage)
      else None
  {
    BlankIffAllWhitespace(title);
    var k :| 0 <= k < |title| && !IsJsWhitespace(title[k]);
    assert !IsBlank(title);
    assert Utf16Length(title) == |title|;
  }

  /** Padding counts: two spaces around one letter make an acceptable title
      although its trimmed form has a single character. */
  lemma PaddedTitleAccepted(c: char)
    requires !IsJsWhitespace(c) && c as int < 0x1_0000
    ensures AddTitleError([' ', c, ' ']) == None
    ensures |Trim([' ', c, ' '])| == 1
  {
    assert !IsJsWhitespace([' ', c, ' '][1]);
    AddLengthLimits([' ', c, ' ']);
    assert [' ', c, ' '][1..] == [c, ' '];
    assert TrimStart([' ', c, ' ']) == [c, ' '];
    assert [c, ' '][..1] == [c];
  }

  // ---------------------------------------------------------------------------
  // Lookups and list transformations
  // ---------------------------------------------------------------------------

  /** `todos.find(t => t.id === id)`: the first task with that id. */
  function Find(s: seq<Todo>, id: string): (r: Option<Todo>)
    ensures r.None? <==> forall i :: 0 <= i < |s| ==> s[i].id != id
    ensures r.Some? ==> exists i :: (0 <= i < |s| && s[i] == r.value && s[i].id == id &&
                                     forall j :: 0 <= j < i ==> s[j].id != id)
  {
    if s == [] then None
    else if s[0].id == id then Some(s[0])
    else
      var r := Find(s[1..], id);
      assert r.Some? ==> exists i :: (1 <= i < |s| && s[i] == r.value && s[i].id == id &&
                                      forall j :: 0 <= j < i ==> s[j].id != id) by {
        if r.Some? {
          var i :| 0 <= i < |s[1..]| && s[1..][i] == r.value && s[1..][i].id == id &&
            forall j :: 0 <= j < i ==> s[1..][j].id != id;
          assert forall j :: 1 <= j < i + 1 ==> s[j].id != id by {
            forall j | 1 <= j < i + 1 ensures s[j].id != id {
              assert s[j] == s[1..][j - 1];
            }
          }
        }
      }
      r
  }

  /** The task with `completed` negated when it carries `id`. */
  function Flip(t: Todo, id: string): Todo {
    if t.id == id then t.(completed := !t.completed) else t
  }

  /** The list `handleToggleTodo` stores: `todos.map(t => t.id === id ? {...t, completed: !t.completed} : t)`. */
  function Toggled(s: seq<Todo>, id: string): (r: seq<Todo>)
    ensures |r| == |s|
    ensures forall i :: 0 <= i < |s| ==>
      && r[i].id == s[i].id && r[i].title == s[i].title && r[i].createdAt == s[i].createdAt
      && r[i].completed == (if s[i].id == id then !s[i].completed else s[i].completed)
  {
    if s == [] then [] else [Flip(s[0], id)] + Toggled(s[1..], id)
  }

  /** The task with its title replaced when it carries `id`. */
  function Retitle(t: Todo, id: string, title: string): Todo {
    if t.id == id then t.(title := title) else t
  }

  /** The list `handleSaveEdit` stores: `todos.map(t => t.id === editingId ? {...t, title} : t)`. */
  function Renamed(s: seq<Todo>, id: string, title: string): (r: seq<Todo>)
    ensures |r| == |s|
    ensures forall i :: 0 <= i < |s| ==>
      && r[i].id == s[i].id && r[i].completed == s[i].completed && r[i].createdAt == s[i].createdAt
      && r[i].title == (if s[i].id == id then title else s[i].title)
  {
    if s == [] then [] else [Retitle(s[0], id, title)] + Renamed(s[1..], id, title)
  }

  function OtherThan(id: string): Todo -> bool {
    (t: Todo) => t.id != id
  }

  /** The list `handleDeleteTodo` stores: `todos.filter(t => t.id !== id)`. */
  function Removed(s: seq<Todo>, id: string): seq<Todo> {
    Filter(s, OtherThan(id))
  }

  /** `completedCount`, line 159. */
  function CompletedCount(s: seq<Todo>): nat {
    |Filter(s, IsDone)|
  }

  /** `activeCount`, line 160. */
  function ActiveCount(s: seq<Todo>): nat {
    |Filter(s, IsActive)|
  }

  /** No two tasks of the list share an id. */
  predicate UniqueIds(s: seq<Todo>) {
    forall i, j :: 0 <= i < j < |s| ==> s[i].id != s[j].id
  }

  // ---------------------------------------------------------------------------
  // Properties of the transformations
  // ---------------------------------------------------------------------------

  /** `completedCount + activeCount == totalCount`. */
  lemma CountsPartition(s: seq<Todo>)
    ensures CompletedCount(s) + ActiveCount(s) == |s|
  {
    FilterComplement(s, IsDone, IsActive);
  }

  /** Toggling an id that no task carries changes nothing. */
  lemma ToggleAbsent(s: seq<Todo>, id: string)
    requires forall i :: 0 <= i < |s| ==> s[i].id != id
    ensures Toggled(s, id) == s
  {
  }

  /** Toggling the same id twice restores the list. */
  lemma ToggleTwice(s: seq<Todo>, id: string)
    ensures Toggled(Toggled(s, id), id) == s
  {
  }

  /** With unique ids, toggling a present task moves exactly one task between
      the completed and active counts. */
  lemma ToggleShiftsCounts(s: seq<Todo>, id: string, i: nat)
    requires UniqueIds(s) && i < |s| && s[i].id == id
    ensures CompletedCount(Toggled(s, id)) == CompletedCount(s) + (if s[i].completed then -1 else 1)
    ensures ActiveCount(Toggled(s, id)) == ActiveCount(s) + (if s[i].completed then 1 else -1)
  {
    ToggleShiftsCompleted(s, id, i);
    CountsPartition(s);
    CountsPartition(Toggled(s, id));
  }

  /** The completed count alone, by induction on the list. */
  lemma {:induction false} ToggleShiftsCompleted(s: seq<Todo>, id: string, i: nat)
    requires UniqueIds(s) && i < |s| && s[i].id == id
    ensures CompletedCount(Toggled(s, id)) == CompletedCount(s) + (if s[i].completed then -1 else 1)
  {
    var r := Toggled(s, id);
    assert r[1..] == Toggled(s[1..], id);
    assert |Filter(r, IsDone)| == (if r[0].completed then 1 else 0) + |Filter(r[1..], IsDone)|;
    if i == 0 {
      ToggleAbsent(s[1..], id);
    } else {
      assert UniqueIds(s[1..]) && s[1..][i - 1].id == id;
      ToggleShiftsCompleted(s[1..], id, i - 1);
    }
  }

  /** After a successful toggle of an active task with a unique id, the
      "completed" view (no search, completed shown) contains it and no
      "active" view does. */
  lemma ToggleMovesBetweenViews(s: seq<Todo>, id: string, i: nat, order: string, query: string, show: bool)
    requires UniqueIds(s) && i < |s| && s[i].id == id && !s[i].completed
    ensures Toggled(s, id)[i] in DerivedView(Toggled(s, id), Criteria("completed", "", true, order))
    ensures forall t :: t in DerivedView(Toggled(s, id), Criteria("active", query, show, order)) ==> t.id != id
  {
    var r := Toggled(s, id);
    assert r[i].completed && r[i].id == id;
    assert r[i] in DerivedView(r, Criteria("completed", "", true, order)) by {
      ViewMembership(r, Criteria("completed", "", true, order), r[i]);
    }
    forall t | t in DerivedView(r, Criteria("active", query, show, order)) ensures t.id != id {
      ViewMembership(r, Criteria("active", query, show, order), t);
    }
  }

  /** The effect of a successful delete: exactly the tasks with that id go,
      the others stay with their multiplicities and their relative order. */
  lemma RemoveEffect(s: seq<Todo>, id: string)
    ensures forall t :: t in Removed(s, id) ==> t.id != id
    ensures forall t :: t in s && t.id != id ==> multiset(Removed(s, id))[t] == multiset(s)[t]
    ensures IsSubsequence(Removed(s, id), s)
    ensures |Removed(s, id)| == |s| - |Filter(s, (t: Todo) => t.id == id)|
  {
    forall t | t in s && t.id != id ensures multiset(Removed(s, id))[t] == multiset(s)[t] {
      FilterMultiset(s, OtherThan(id), t);
    }
    FilterIsSubsequence(s, OtherThan(id));
    FilterComplement(s, (t: Todo) => t.id == id, OtherThan(id));
  }

  /** A subsequence of a list with unique ids has unique ids. */
  lemma {:induction false} SubsequenceKeepsUniqueIds(a: seq<Todo>, b: seq<Todo>)
    requires IsSubsequence(a, b) && UniqueIds(b)
    ensures UniqueIds(a)
    ensures forall t :: t in a ==> t in b
  {
    if a != [] {
      assert UniqueIds(b[1..]) by {
        forall i, j | 0 <= i < j < |b[1..]| ensures b[1..][i].id != b[1..][j].id {
          assert b[1..][i] == b[i + 1] && b[1..][j] == b[j + 1];
        }
      }
      if a[0] == b[0] && IsSubsequence(a[1..], b[1..]) {
        SubsequenceKeepsUniqueIds(a[1..], b[1..]);
        forall i, j | 0 <= i < j < |a| ensures a[i].id != a[j].id {
          if i == 0 {
            assert a[j] == a[1..][j - 1];
            assert a[j] in a[1..];
            assert a[j] in b[1..];
            var k :| 0 <= k < |b[1..]| && b[1..][k] == a[j];
            assert b[k + 1] == a[j];
          } else {
            assert a[i] == a[1..][i - 1] && a[j] == a[1..][j - 1];
          }
        }
        forall t | t in a ensures t in b {
          if t != a[0] {
            assert t in a[1..];
          }
        }
      } else {
        SubsequenceKeepsUniqueIds(a, b[1..]);
      }
    }
  }

  /** Every successful handler keeps ids unique, the add handler provided the
      server returns a new id. */
  lemma HandlersKeepUniqueIds(s: seq<Todo>, id: string, title: string, created: Todo)
    requires UniqueIds(s)
    ensures UniqueIds(Toggled(s, id))
    ensures UniqueIds(Renamed(s, id, title))
    ensures UniqueIds(Removed(s, id))
    ensures (forall i :: 0 <= i < |s| ==> s[i].id != created.id) ==> UniqueIds(s + [created])
  {
    assert UniqueIds(Toggled(s, id)) by {
      var r := Toggled(s, id);
      assert forall i :: 0 <= i < |s| ==> r[i].id == s[i].id;
    }
    assert UniqueIds(Renamed(s, id, title)) by {
      var r := Renamed(s, id, title);
      assert forall i :: 0 <= i < |s| ==> r[i].id == s[i].id;
    }
    assert UniqueIds(Removed(s, id)) by {
      FilterIsSubsequence(s, OtherThan(id));
      SubsequenceKeepsUniqueIds(Removed(s, id), s);
    }
  }

  /** Renaming touches no completion flag, so the counters stay. */
  lemma {:induction false} RenameKeepsCounts(s: seq<Todo>, id: string, title: string)
    ensures CompletedCount(Renamed(s, id, title)) == CompletedCount(s)
    ensures ActiveCount(Renamed(s, id, title)) == ActiveCount(s)
  {
    if s != [] {
      var r := Renamed(s, id, title);
      assert r == [Retitle(s[0], id, title)] + Renamed(s[1..], id, title);
      assert Filter(r, IsDone) == (if IsDone(r[0]) then [r[0]] else []) + Filter(r[1..], IsDone);
      assert Filter(r, IsActive) == (if IsActive(r[0]) then [r[0]] else []) + Filter(r[1..], IsActive);
      RenameKeepsCounts(s[1..], id, title);
    }
  }
}
