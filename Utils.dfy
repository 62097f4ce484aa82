/** app/utils.ts: `validateTodo` and `sortTodos`. */
module Utils {
  import opened Types
  import opened Seqs
  import opened JsString

  /** `validateTodo`: the title is truthy and has positive `length`. */
  function ValidateTodo(todo: Todo): (ok: bool)
    ensures ok <==> todo.title != ""
  {
    todo.title != "" && Utf16Length(todo.title) > 0
  }

  /** `validateTodo` does not trim: a title of whitespace only is accepted
      although it is blank. */
  lemma ValidateAcceptsBlank(todo: Todo)
    requires todo.title != ""
    requires forall i :: 0 <= i < |todo.title| ==> IsJsWhitespace(todo.title[i])
    ensures ValidateTodo(todo) && IsBlank(todo.title)
  {
    BlankIffAllWhitespace(todo.title);
  }

  // ---------------------------------------------------------------------------
  // `sortTodos(todos, order)`: `Array.prototype.sort` with the comparator
  // `a.createdAt - b.createdAt` for "asc" and `b.createdAt - a.createdAt` for any
  // other order. ECMA-262 requires that sort to be stable.
  // ---------------------------------------------------------------------------

  /** The comparator `sortTodos` passes to `sort`. */
  function Compare(a: Todo, b: Todo, asc: bool): int {
    if asc then a.createdAt - b.createdAt else b.createdAt - a.createdAt
  }

  /** `a` may stand before `b` in the sorted array. */
  predicate InOrder(a: Todo, b: Todo, asc: bool) {
    Compare(a, b, asc) <= 0
  }

  /** Every pair of positions is in comparator order. */
  predicate SortedBy(s: seq<Todo>, asc: bool) {
    forall i, j :: 0 <= i < j < |s| ==> InOrder(s[i], s[j], asc)
  }

  /** The test "created at time `k`". */
  function HasTime(k: int): Todo -> bool {
    (t: Todo) => t.createdAt == k
  }

  /** The tasks of `s` created at time `k`, in their order in `s`. */
  function CreatedAt(s: seq<Todo>, k: int): seq<Todo> {
    Filter(s, HasTime(k))
  }

  /** Stable insertion of `x` after the sorted `s`: `x` moves in front of the
      elements it strictly precedes, and no further. */
  function Insert(x: Todo, s: seq<Todo>, asc: bool): seq<Todo> {
    if s == [] then [x]
    else if Compare(x, s[|s| - 1], asc) < 0 then Insert(x, s[..|s| - 1], asc) + [s[|s| - 1]]
    else s + [x]
  }

  /** The stable sort of `s` under the comparator: the reference result. */
  function StableSort(s: seq<Todo>, asc: bool): seq<Todo> {
    if s == [] then [] else Insert(s[|s| - 1], StableSort(s[..|s| - 1], asc), asc)
  }

  lemma {:induction false} InsertPermutes(x: Todo, s: seq<Todo>, asc: bool)
    ensures multiset(Insert(x, s, asc)) == multiset(s) + multiset{x}
  {
    if s != [] && Compare(x, s[|s| - 1], asc) < 0 {
      InsertPermutes(x, s[..|s| - 1], asc);
      assert s == s[..|s| - 1] + [s[|s| - 1]];
    }
  }

  lemma {:induction false} InsertSorted(x: Todo, s: seq<Todo>, asc: bool)
    requires SortedBy(s, asc)
    ensures SortedBy(Insert(x, s, asc), asc)
  {
    if s != [] {
      var front, last := s[..|s| - 1], s[|s| - 1];
      if Compare(x, last, asc) < 0 {
        InsertSorted(x, front, asc);
        InsertPermutes(x, front, asc);
        var u := Insert(x, front, asc);
        forall e | e in u ensures InOrder(e, last, asc) {
          assert e in multiset(u);
          if e != x {
            assert e in front;
          }
        }
        var r := u + [last];
        forall i, j | 0 <= i < j < |r| ensures InOrder(r[i], r[j], asc) {
          if j == |u| {
            assert r[i] in u;
          } else {
            assert r[i] == u[i] && r[j] == u[j];
          }
        }
      }
    }
  }

  /** Inserting `x` appends it to the run of tasks that share its time. */
  lemma {:induction false} InsertKeepsRuns(x: Todo, s: seq<Todo>, asc: bool, k: int)
    ensures CreatedAt(Insert(x, s, asc), k) == CreatedAt(s, k) + CreatedAt([x], k)
  {
    if s == [] {
      assert CreatedAt([], k) == [];
    } else {
      var front, last := s[..|s| - 1], s[|s| - 1];
      assert s == front + [last];
      FilterConcat(front, [last], HasTime(k));
      if Compare(x, last, asc) < 0 {
        InsertKeepsRuns(x, front, asc, k);
        FilterConcat(Insert(x, front, asc), [last], HasTime(k));
        RunsCommute(CreatedAt(front, k), x, last, asc, k);
      } else {
        FilterConcat(s, [x], HasTime(k));
      }
    }
  }

  /** A task and a later one it strictly precedes do not share a time, so
      their runs can be appended in either order. */
  lemma RunsCommute(a: seq<Todo>, x: Todo, last: Todo, asc: bool, k: int)
    requires Compare(x, last, asc) < 0
    ensures a + CreatedAt([x], k) + CreatedAt([last], k) == a + CreatedAt([last], k) + CreatedAt([x], k)
  {
    FilterSingleton(x, HasTime(k));
    FilterSingleton(last, HasTime(k));
    if x.createdAt == k {
      assert a + CreatedAt([last], k) == a;
    } else {
      assert a + CreatedAt([x], k) == a;
    }
  }

  /** The reference sort is ordered by the comparator. */
  lemma {:induction false} SortIsSorted(s: seq<Todo>, asc: bool)
    ensures SortedBy(StableSort(s, asc), asc)
    ensures asc ==> forall i, j :: 0 <= i < j < |StableSort(s, asc)| ==>
      StableSort(s, asc)[i].createdAt <= StableSort(s, asc)[j].createdAt
    ensures !asc ==> forall i, j :: 0 <= i < j < |StableSort(s, asc)| ==>
      StableSort(s, asc)[i].createdAt >= StableSort(s, asc)[j].createdAt
  {
    if s != [] {
      SortIsSorted(s[..|s| - 1], asc);
      InsertSorted(s[|s| - 1], StableSort(s[..|s| - 1], asc), asc);
    }
  }

  /** The reference sort is a permutation of its input. */
  lemma {:induction false} SortPermutes(s: seq<Todo>, asc: bool)
    ensures multiset(StableSort(s, asc)) == multiset(s)
  {
    if s != [] {
      SortPermutes(s[..|s| - 1], asc);
      InsertPermutes(s[|s| - 1], StableSort(s[..|s| - 1], asc), asc);
      assert s == s[..|s| - 1] + [s[|s| - 1]];
    }
  }

  /** Stability: tasks with equal `createdAt` keep their relative order. */
  lemma {:induction false} SortIsStable(s: seq<Todo>, asc: bool, k: int)
    ensures CreatedAt(StableSort(s, asc), k) == CreatedAt(s, k)
  {
    if s != [] {
      var front, last := s[..|s| - 1], s[|s| - 1];
      SortIsStable(front, asc, k);
      InsertKeepsRuns(last, StableSort(front, asc), asc, k);
      assert s == front + [last];
      FilterConcat(front, [last], HasTime(k));
    }
  }

  /** The first element of a sorted sequence may stand before each of its elements. */
  lemma SortedHeadFirst(r: seq<Todo>, e: Todo, asc: bool)
    requires SortedBy(r, asc) && e in r
    ensures InOrder(r[0], e, asc)
  {
    var j :| 0 <= j < |r| && r[j] == e;
    if j == 0 {
      assert Compare(e, e, asc) == 0;
    }
  }

  /** Peeling the head off the runs of a sequence. */
  lemma CreatedAtCons(r: seq<Todo>, k: int)
    requires r != []
    ensures CreatedAt(r, k) == (if r[0].createdAt == k then [r[0]] else []) + CreatedAt(r[1..], k)
  {
  }

  /** Two sorted non-empty sequences with the same runs start alike. */
  lemma SortedRunsSameHead(r1: seq<Todo>, r2: seq<Todo>, asc: bool)
    requires r1 != [] && r2 != []
    requires SortedBy(r1, asc) && SortedBy(r2, asc)
    requires forall k :: CreatedAt(r1, k) == CreatedAt(r2, k)
    ensures r1[0] == r2[0]
  {
    var k1, k2 := r1[0].createdAt, r2[0].createdAt;
    assert r1[0] in CreatedAt(r1, k1);
    assert r2[0] in CreatedAt(r2, k2);
    var e2 :| e2 in CreatedAt(r2, k1);
    var e1 :| e1 in CreatedAt(r1, k2);
    SortedHeadFirst(r2, e2, asc);
    SortedHeadFirst(r1, e1, asc);
    assert k1 == k2;
    CreatedAtCons(r1, k1);
    CreatedAtCons(r2, k1);
    var c := CreatedAt(r1, k1);
    assert c[0] == r1[0];
    assert c == CreatedAt(r2, k1);
  }

  /** Sequences with the same head and the same runs have tails with the same runs. */
  lemma SameRunsTail(r1: seq<Todo>, r2: seq<Todo>, k: int)
    requires r1 != [] && r2 != [] && r1[0] == r2[0]
    requires CreatedAt(r1, k) == CreatedAt(r2, k)
    ensures CreatedAt(r1[1..], k) == CreatedAt(r2[1..], k)
  {
    CreatedAtCons(r1, k);
    CreatedAtCons(r2, k);
    var h := if r1[0].createdAt == k then [r1[0]] else [];
    var t1, t2 := CreatedAt(r1[1..], k), CreatedAt(r2[1..], k);
    assert h + t1 == h + t2;
    assert t1 == (h + t1)[|h|..];
    assert t2 == (h + t2)[|h|..];
  }

  /** A non-empty sequence has a non-empty run at the time of its head. */
  lemma NonEmptyHasRun(r: seq<Todo>)
    ensures r != [] ==> CreatedAt(r, r[0].createdAt) != []
  {
    if r != [] {
      assert r[0] in CreatedAt(r, r[0].createdAt);
    }
  }

  /** Two sorted sequences with the same run for every time are equal. */
  lemma {:induction false} SortedRunsDetermine(r1: seq<Todo>, r2: seq<Todo>, asc: bool)
    requires SortedBy(r1, asc) && SortedBy(r2, asc)
    requires forall k :: CreatedAt(r1, k) == CreatedAt(r2, k)
    ensures r1 == r2
    decreases |r1|
  {
    NonEmptyHasRun(r1);
    NonEmptyHasRun(r2);
    if r1 != [] && r2 != [] {
      SortedRunsSameHead(r1, r2, asc);
      forall k ensures CreatedAt(r1[1..], k) == CreatedAt(r2[1..], k) {
        SameRunsTail(r1, r2, k);
      }
      SortedRunsDetermine(r1[1..], r2[1..], asc);
      assert r1 == [r1[0]] + r1[1..];
      assert r2 == [r2[0]] + r2[1..];
    }
  }

  /** The reference sort is the only sorted sequence that keeps every run of
      equal times in input order (both directions). */
  lemma SortCharacterized(s: seq<Todo>, r: seq<Todo>, asc: bool)
    ensures r == StableSort(s, asc) <==>
      SortedBy(r, asc) && forall k :: CreatedAt(r, k) == CreatedAt(s, k)
  {
    SortIsSorted(s, asc);
    forall k ensures CreatedAt(StableSort(s, asc), k) == CreatedAt(s, k) {
      SortIsStable(s, asc, k);
    }
    if SortedBy(r, asc) && forall k :: CreatedAt(r, k) == CreatedAt(s, k) {
      SortedRunsDetermine(r, StableSort(s, asc), asc);
    }
  }

  /** Sorting a sorted array again changes nothing. */
  lemma SortIdempotent(s: seq<Todo>, asc: bool)
    ensures StableSort(StableSort(s, asc), asc) == StableSort(s, asc)
  {
    var r := StableSort(s, asc);
    SortIsSorted(s, asc);
    forall k ensures CreatedAt(r, k) == CreatedAt(s, k) {
      SortIsStable(s, asc, k);
    }
    SortCharacterized(r, r, asc);
  }

  /** Where insertion puts `x`: after `s[..j]`, when `x` strictly precedes
      every element from `j` on and does not strictly precede `s[j - 1]`. */
  lemma {:induction false} InsertLands(x: Todo, s: seq<Todo>, j: nat, asc: bool)
    requires j <= |s|
    requires forall k :: j <= k < |s| ==> Compare(x, s[k], asc) < 0
    requires j == 0 || Compare(x, s[j - 1], asc) >= 0
    ensures Insert(x, s, asc) == s[..j] + [x] + s[j..]
    decreases |s|
  {
    if j < |s| {
      var front := s[..|s| - 1];
      InsertLands(x, front, j, asc);
      assert front[..j] == s[..j];
      assert s[j..] == front[j..] + [s[|s| - 1]];
    } else {
      assert s[..j] == s && s[j..] == [];
    }
  }

  /** One step of the insertion: move the last element of `a[..i + 1]` left
      past every element it strictly precedes. */
  method InsertLast(a: array<Todo>, i: nat, asc: bool)
    requires i < a.Length
    modifies a
    ensures a[..i + 1] == Insert(old(a[i]), old(a[..i]), asc)
    ensures a[i + 1..] == old(a[i + 1..])
  {
    ghost var sorted := a[..i];
    var x := a[i];
    var j := i;
    while j > 0 && Compare(x, a[j - 1], asc) < 0
      invariant 0 <= j <= i
      invariant a[j] == x
      invariant forall k :: 0 <= k < j ==> a[k] == sorted[k]
      invariant forall k :: j < k <= i ==> a[k] == sorted[k - 1]
      invariant forall k :: i < k < a.Length ==> a[k] == old(a[k])
      invariant forall k :: j <= k < i ==> Compare(x, sorted[k], asc) < 0
      decreases j
    {
      a[j - 1], a[j] := a[j], a[j - 1];
      j := j - 1;
    }
    assert a[..i + 1] == Insert(x, sorted, asc) by {
      InsertLands(x, sorted, j, asc);
      Reassemble(a[..], sorted, x, i, j);
    }
  }

  /** The array contents after the moves, read as a sequence. */
  lemma Reassemble(arr: seq<Todo>, sorted: seq<Todo>, x: Todo, i: nat, j: nat)
    requires j <= i < |arr| && |sorted| == i && arr[j] == x
    requires forall k :: 0 <= k < j ==> arr[k] == sorted[k]
    requires forall k :: j < k <= i ==> arr[k] == sorted[k - 1]
    ensures arr[..i + 1] == sorted[..j] + [x] + sorted[j..]
  {
    var target := sorted[..j] + [x] + sorted[j..];
    forall k | 0 <= k <= i ensures arr[k] == target[k] {
      if k < j {
        assert target[k] == sorted[k];
      } else if j < k {
        assert target[k] == sorted[k - 1];
      }
    }
  }

  /** `sortTodos`: sorts the array it is given in place and returns that same
      array. */
  method SortTodos(todos: array<Todo>, order: string) returns (r: array<Todo>)
    modifies todos
    ensures r == todos
    ensures todos[..] == StableSort(old(todos[..]), order == "asc")
  {
    var asc := order == "asc";
    ghost var orig := todos[..];
    var i := 0;
    while i < todos.Length
      invariant 0 <= i <= todos.Length
      invariant todos[..i] == StableSort(orig[..i], asc)
      invariant todos[i..] == orig[i..]
    {
      InsertLast(todos, i, asc);
      assert orig[..i + 1][..i] == orig[..i];
      i := i + 1;
    }
    assert todos[..] == todos[..todos.Length] && orig == orig[..todos.Length];
    r := todos;
  }

  /** Creation times 100, 300, 200, sorted both ways. */
  lemma SortExample(a: Todo, b: Todo, c: Todo)
    requires a.createdAt == 100 && b.createdAt == 300 && c.createdAt == 200
    ensures StableSort([a, b, c], true) == [a, c, b]
    ensures StableSort([a, b, c], false) == [b, c, a]
  {
    assert [a, b, c][..2] == [a, b];
    assert [a, b][..1] == [a];
    assert [a][..0] == [];
    assert StableSort([a], true) == [a] && StableSort([a], false) == [a];
    assert StableSort([a, b], true) == [a, b];
    assert [a, b][..1] == [a];
    assert Insert(c, [a], true) == [a, c];
    assert Insert(b, [a], false) == Insert(b, [], false) + [a];
    assert StableSort([a, b], false) == [b, a];
    assert [b, a][..1] == [b];
    assert Insert(c, [b], false) == [b, c];
  }
}
