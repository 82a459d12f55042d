/** The browser client's view derivation (app.js): the filter and sort pipeline
    behind the rendered list, and the relative due-date badge.
    Dates: `timeOf(s)` is the local wall-clock time of `new Date(s)` in
    milliseconds, `getTime()` plus a fixed offset, and `today` is the local
    day number of the current date. */
module ClientView {
  import opened TaskTypes

  /** currentView: the register page or the list page. */
  datatype View = Register | List

  /** currentFilter. */
  datatype CompletionFilter = All | Active | Completed

  /** currentSort: 'priority', or anything else, which sorts by date. */
  datatype SortMode = ByDate | ByPriority

  /** The currentCategory value that selects every category. */
  const AllCategories: string := "all"

  const MsPerDay: int := 86400000

  /** Local day number of a timestamp; setHours(0, 0, 0, 0) keeps exactly this. */
  function DayOf(ms: int): int {
    ms / MsPerDay
  }

  /** Whole days from today's midnight to the midnight of the due date. Both
      midnights are whole multiples of a day, so the source's Math.round and
      Math.ceil of their quotient give this same integer. */
  function DayDiff(due: string, today: int, timeOf: string -> int): int {
    DayOf(timeOf(due)) - today
  }

  /** `t.dueDate` is truthy. */
  predicate HasDueDate(t: Task) {
    Truthy(t.dueDate)
  }

  // ---------------------------------------------------------------------
  // Array.prototype.filter
  // ---------------------------------------------------------------------

  /** The elements of `s` satisfying `p`, in their order in `s`. */
  function Filter(s: seq<Task>, p: Task -> bool): (r: seq<Task>)
    ensures |r| <= |s|
    ensures forall t :: t in r <==> t in s && p(t)
  {
    if s == [] then [] else (if p(s[0]) then [s[0]] else []) + Filter(s[1..], p)
  }

  /** Filtering keeps every occurrence of a satisfying task and none of the others. */
  lemma {:induction false} FilterCount(s: seq<Task>, p: Task -> bool)
    ensures forall t :: multiset(Filter(s, p))[t] == if p(t) then multiset(s)[t] else 0
  {
    if s != [] {
      FilterCount(s[1..], p);
      assert s == [s[0]] + s[1..];
    }
  }

  /** Filtering works element by element, so it keeps the relative order. */
  lemma FilterSingle(x: Task, p: Task -> bool)
    ensures Filter([x], p) == if p(x) then [x] else []
  {
    assert [x][1..] == [];
  }

  lemma {:induction false} FilterAppend(a: seq<Task>, b: seq<Task>, p: Task -> bool)
    ensures Filter(a + b, p) == Filter(a, p) + Filter(b, p)
  {
    if a == [] {
      assert a + b == b;
    } else {
      assert (a + b)[1..] == a[1..] + b;
      FilterAppend(a[1..], b, p);
    }
  }

  /** Two filters applied one after the other commute. */
  lemma {:induction false} FilterCommute(s: seq<Task>, p: Task -> bool, q: Task -> bool)
    ensures Filter(Filter(s, p), q) == Filter(Filter(s, q), p)
  {
    if s != [] {
      FilterCommute(s[1..], p, q);
      var head := if p(s[0]) then [s[0]] else [];
      FilterAppend(head, Filter(s[1..], p), q);
      var head' := if q(s[0]) then [s[0]] else [];
      FilterAppend(head', Filter(s[1..], q), p);
    }
  }

  /** A filter that keeps every task is the identity. */
  lemma {:induction false} FilterKeepsAll(s: seq<Task>, p: Task -> bool)
    requires forall t :: t in s ==> p(t)
    ensures Filter(s, p) == s
  {
    if s != [] {
      assert forall t :: t in s[1..] ==> t in s;
      FilterKeepsAll(s[1..], p);
    }
  }

  // ---------------------------------------------------------------------
  // The view pre-filter and the completion filter
  // ---------------------------------------------------------------------

  /** Register page: a due date whose day lies within seven days of today, either way. */
  predicate InWeekWindow(t: Task, today: int, timeOf: string -> int) {
    HasDueDate(t) && -7 <= DayDiff(t.dueDate.value, today, timeOf) <= 7
  }

  /** List page: the selected category, or every task when it is 'all'. */
  predicate InCategory(t: Task, category: string) {
    category == AllCategories || t.category == category
  }

  predicate PassesView(t: Task, view: View, category: string, today: int, timeOf: string -> int) {
    if view == Register then InWeekWindow(t, today, timeOf) else InCategory(t, category)
  }

  predicate PassesCompletion(t: Task, filter: CompletionFilter) {
    match filter
    case All => true
    case Active => !t.completed
    case Completed => t.completed
  }

  function ViewPredicate(view: View, category: string, today: int, timeOf: string -> int): Task -> bool {
    t => PassesView(t, view, category, today, timeOf)
  }

  function CompletionPredicate(filter: CompletionFilter): Task -> bool {
    t => PassesCompletion(t, filter)
  }

  // ---------------------------------------------------------------------
  // The sort keys and a stable sort (Array.prototype.sort is stable)
  // ---------------------------------------------------------------------

  /** A comparator key: a number, or Infinity for a task without a due date.
      Infinity - Infinity is NaN, which the sort treats as "equal". */
  datatype SortKey = At(n: int) | Never

  predicate KeyLe(a: SortKey, b: SortKey) {
    b.Never? || (a.At? && a.n <= b.n)
  }

  predicate KnownPriority(p: string) {
    p == "high" || p == "medium" || p == "low"
  }

  /** The `order` table of the priority comparator, read only for known priorities. */
  function Rank(p: string): nat {
    if p == "high" then 0 else if p == "medium" then 1 else 2
  }

  /** A task the comparator can rank: any task for the date sort, one with a
      known priority for the priority sort. */
  predicate Sortable(t: Task, mode: SortMode) {
    mode == ByPriority ==> KnownPriority(t.priority)
  }

  predicate AllSortable(s: seq<Task>, mode: SortMode) {
    forall t :: t in s ==> Sortable(t, mode)
  }

  function KeyOf(t: Task, mode: SortMode, timeOf: string -> int): SortKey
    requires Sortable(t, mode)
  {
    match mode
    case ByPriority => At(Rank(t.priority))
    case ByDate => if HasDueDate(t) then At(timeOf(t.dueDate.value)) else Never
  }

  predicate SortedBy(s: seq<Task>, mode: SortMode, timeOf: string -> int)
    requires AllSortable(s, mode)
  {
    forall i, j :: 0 <= i < j < |s| ==> KeyLe(KeyOf(s[i], mode, timeOf), KeyOf(s[j], mode, timeOf))
  }

  /** Selects the tasks whose key is `k`: the tasks the comparator calls equal. */
  function KeyIs(k: SortKey, mode: SortMode, timeOf: string -> int): Task -> bool {
    t => Sortable(t, mode) && KeyOf(t, mode, timeOf) == k
  }

  /** Places `x` before the first element whose key is not smaller. */
  function Insert(x: Task, s: seq<Task>, mode: SortMode, timeOf: string -> int): (r: seq<Task>)
    requires Sortable(x, mode) && AllSortable(s, mode)
    ensures multiset(r) == multiset(s) + multiset{x}
  {
    if s == [] then [x]
    else if KeyLe(KeyOf(x, mode, timeOf), KeyOf(s[0], mode, timeOf)) then [x] + s
    else
      assert s == [s[0]] + s[1..];
      [s[0]] + Insert(x, s[1..], mode, timeOf)
  }

  /** The tasks of `s` ordered by their keys, keeping equal keys in input order. */
  function SortTasks(s: seq<Task>, mode: SortMode, timeOf: string -> int): (r: seq<Task>)
    requires AllSortable(s, mode)
    ensures multiset(r) == multiset(s)
  {
    if s == [] then []
    else
      var rest := SortTasks(s[1..], mode, timeOf);
      assert forall t :: t in rest ==> t in multiset(s[1..]);
      assert s == [s[0]] + s[1..];
      Insert(s[0], rest, mode, timeOf)
  }

  /** The tasks of Insert(x, s) are `x` and those of `s`. */
  lemma InsertMembers(x: Task, s: seq<Task>, mode: SortMode, timeOf: string -> int)
    requires Sortable(x, mode) && AllSortable(s, mode)
    ensures forall t :: t in Insert(x, s, mode, timeOf) ==> t == x || t in s
    ensures AllSortable(Insert(x, s, mode, timeOf), mode)
  {
    var r := Insert(x, s, mode, timeOf);
    assert forall t :: t in r ==> t in multiset(s) + multiset{x};
  }

  /** The first task of a sorted list has the least key. */
  lemma HeadIsLeast(s: seq<Task>, mode: SortMode, timeOf: string -> int)
    requires AllSortable(s, mode) && SortedBy(s, mode, timeOf) && s != []
    ensures forall t :: t in s ==> KeyLe(KeyOf(s[0], mode, timeOf), KeyOf(t, mode, timeOf))
  {
    forall t | t in s
      ensures KeyLe(KeyOf(s[0], mode, timeOf), KeyOf(t, mode, timeOf))
    {
      var j :| 0 <= j < |s| && s[j] == t;
      if j == 0 {
        assert KeyLe(KeyOf(t, mode, timeOf), KeyOf(t, mode, timeOf));
      }
    }
  }

  /** Prepending a task whose key is at most the first key keeps a list sorted. */
  lemma PrependSorted(x: Task, s: seq<Task>, mode: SortMode, timeOf: string -> int)
    requires Sortable(x, mode) && AllSortable(s, mode) && SortedBy(s, mode, timeOf)
    requires forall t :: t in s ==> KeyLe(KeyOf(x, mode, timeOf), KeyOf(t, mode, timeOf))
    ensures AllSortable([x] + s, mode)
    ensures SortedBy([x] + s, mode, timeOf)
  {
    var r := [x] + s;
    forall i, j | 0 <= i < j < |r|
      ensures KeyLe(KeyOf(r[i], mode, timeOf), KeyOf(r[j], mode, timeOf))
    {
      assert r[j] == s[j - 1];
      if i > 0 {
        assert r[i] == s[i - 1];
      }
    }
  }

  lemma {:induction false} InsertSorted(x: Task, s: seq<Task>, mode: SortMode, timeOf: string -> int)
    requires Sortable(x, mode) && AllSortable(s, mode) && SortedBy(s, mode, timeOf)
    ensures AllSortable(Insert(x, s, mode, timeOf), mode)
    ensures SortedBy(Insert(x, s, mode, timeOf), mode, timeOf)
  {
    InsertMembers(x, s, mode, timeOf);
    if s == [] {
    } else if KeyLe(KeyOf(x, mode, timeOf), KeyOf(s[0], mode, timeOf)) {
      HeadIsLeast(s, mode, timeOf);
      PrependSorted(x, s, mode, timeOf);
    } else {
      var tail := Insert(x, s[1..], mode, timeOf);
      assert Insert(x, s, mode, timeOf) == [s[0]] + tail;
      InsertSorted(x, s[1..], mode, timeOf);
      InsertMembers(x, s[1..], mode, timeOf);
      HeadIsLeast(s, mode, timeOf);
      forall t | t in tail
        ensures KeyLe(KeyOf(s[0], mode, timeOf), KeyOf(t, mode, timeOf))
      {
        if t != x {
          assert t in s;
        }
      }
      PrependSorted(s[0], tail, mode, timeOf);
    }
  }

  lemma {:induction false} SortTasksSorted(s: seq<Task>, mode: SortMode, timeOf: string -> int)
    requires AllSortable(s, mode)
    ensures AllSortable(SortTasks(s, mode, timeOf), mode)
    ensures SortedBy(SortTasks(s, mode, timeOf), mode, timeOf)
  {
    if s != [] {
      var rest := SortTasks(s[1..], mode, timeOf);
      SortTasksSorted(s[1..], mode, timeOf);
      InsertSorted(s[0], rest, mode, timeOf);
    }
  }

  /** A task whose key is above the head's goes past the head. */
  lemma InsertPastHead(x: Task, s: seq<Task>, mode: SortMode, timeOf: string -> int)
    requires Sortable(x, mode) && AllSortable(s, mode) && s != []
    requires !KeyLe(KeyOf(x, mode, timeOf), KeyOf(s[0], mode, timeOf))
    ensures Insert(x, s, mode, timeOf) == [s[0]] + Insert(x, s[1..], mode, timeOf)
  {
  }

  /** Two single tasks of which at most one is kept may be filtered in either order. */
  lemma FilterSinglesSwap(x: Task, y: Task, rest: seq<Task>, p: Task -> bool)
    requires p(x) ==> !p(y)
    ensures Filter([y], p) + (Filter([x], p) + rest) == Filter([x], p) + (Filter([y], p) + rest)
  {
    FilterSingle(x, p);
    FilterSingle(y, p);
  }

  /** Insert places `x` in front of the tasks that carry its own key. */
  lemma {:induction false} InsertStable(x: Task, s: seq<Task>, mode: SortMode, timeOf: string -> int, k: SortKey)
    requires Sortable(x, mode) && AllSortable(s, mode)
    ensures Filter(Insert(x, s, mode, timeOf), KeyIs(k, mode, timeOf))
         == Filter([x], KeyIs(k, mode, timeOf)) + Filter(s, KeyIs(k, mode, timeOf))
  {
    var p := KeyIs(k, mode, timeOf);
    if s == [] {
    } else if KeyLe(KeyOf(x, mode, timeOf), KeyOf(s[0], mode, timeOf)) {
      FilterAppend([x], s, p);
    } else {
      var tail := Insert(x, s[1..], mode, timeOf);
      InsertPastHead(x, s, mode, timeOf);
      FilterAppend([s[0]], tail, p);
      InsertStable(x, s[1..], mode, timeOf, k);
      assert p(x) ==> !p(s[0]);
      FilterSinglesSwap(x, s[0], Filter(s[1..], p), p);
      FilterAppend([s[0]], s[1..], p);
      assert [s[0]] + s[1..] == s;
    }
  }

  lemma {:induction false} SortTasksStable(s: seq<Task>, mode: SortMode, timeOf: string -> int, k: SortKey)
    requires AllSortable(s, mode)
    ensures Filter(SortTasks(s, mode, timeOf), KeyIs(k, mode, timeOf)) == Filter(s, KeyIs(k, mode, timeOf))
  {
    if s != [] {
      var p := KeyIs(k, mode, timeOf);
      var rest := SortTasks(s[1..], mode, timeOf);
      SortTasksSorted(s[1..], mode, timeOf);
      InsertStable(s[0], rest, mode, timeOf, k);
      SortTasksStable(s[1..], mode, timeOf, k);
      FilterAppend([s[0]], s[1..], p);
      assert [s[0]] + s[1..] == s;
    }
  }

  /** Two orderings of one multiset have the same length and members. */
  lemma SameMembers(a: seq<Task>, b: seq<Task>)
    requires multiset(a) == multiset(b)
    ensures |a| == |b| && forall t :: t in a <==> t in b
  {
    assert |a| == |multiset(a)|;
    forall t
      ensures t in a <==> t in b
    {
      assert t in a <==> t in multiset(a);
      assert t in b <==> t in multiset(b);
    }
  }

  // ---------------------------------------------------------------------
  // getFilteredAndSortedTasks
  // ---------------------------------------------------------------------

  /** The list the client renders: a copy of `tasks`, narrowed by the page's
      pre-filter, then by completion, then stably sorted. */
  function FilteredAndSorted(tasks: seq<Task>, view: View, filter: CompletionFilter, sort: SortMode,
                             category: string, today: int, timeOf: string -> int): (r: seq<Task>)
    requires AllSortable(tasks, sort)
    ensures |r| <= |tasks|
    ensures forall t :: t in r <==>
      t in tasks && PassesView(t, view, category, today, timeOf) && PassesCompletion(t, filter)
  {
    var byView := Filter(tasks, ViewPredicate(view, category, today, timeOf));
    var byCompletion := Filter(byView, CompletionPredicate(filter));
    var r := SortTasks(byCompletion, sort, timeOf);
    SameMembers(r, byCompletion);
    r
  }

  /** The rendered list holds every occurrence of each task that passes both
      filters, and nothing else: a permutation of a sub-multiset of `tasks`. */
  lemma ViewKeepsExactlyMatching(tasks: seq<Task>, view: View, filter: CompletionFilter, sort: SortMode,
                                 category: string, today: int, timeOf: string -> int)
    requires AllSortable(tasks, sort)
    ensures var r := FilteredAndSorted(tasks, view, filter, sort, category, today, timeOf);
      && (forall t :: multiset(r)[t] ==
            if PassesView(t, view, category, today, timeOf) && PassesCompletion(t, filter)
            then multiset(tasks)[t] else 0)
      && multiset(r) <= multiset(tasks)
  {
    var byView := Filter(tasks, ViewPredicate(view, category, today, timeOf));
    FilterCount(tasks, ViewPredicate(view, category, today, timeOf));
    FilterCount(byView, CompletionPredicate(filter));
  }

  /** In the list page with category 'all' and filter 'all' nothing is dropped:
      the rendered list is a reordering of the whole cache. */
  lemma UnfilteredListKeepsEverything(tasks: seq<Task>, sort: SortMode, today: int, timeOf: string -> int)
    requires AllSortable(tasks, sort)
    ensures multiset(FilteredAndSorted(tasks, List, All, sort, AllCategories, today, timeOf)) == multiset(tasks)
  {
    FilterKeepsAll(tasks, ViewPredicate(List, AllCategories, today, timeOf));
    FilterKeepsAll(tasks, CompletionPredicate(All));
  }

  /** The rendered list is ordered by the comparator's key. */
  lemma ViewSorted(tasks: seq<Task>, view: View, filter: CompletionFilter, sort: SortMode,
                   category: string, today: int, timeOf: string -> int)
    requires AllSortable(tasks, sort)
    ensures AllSortable(FilteredAndSorted(tasks, view, filter, sort, category, today, timeOf), sort)
    ensures SortedBy(FilteredAndSorted(tasks, view, filter, sort, category, today, timeOf), sort, timeOf)
  {
    var byView := Filter(tasks, ViewPredicate(view, category, today, timeOf));
    var byCompletion := Filter(byView, CompletionPredicate(filter));
    SortTasksSorted(byCompletion, sort, timeOf);
  }

  /** Tasks the comparator calls equal appear in the rendered list in the same
      relative order as in `tasks`. */
  lemma ViewStable(tasks: seq<Task>, view: View, filter: CompletionFilter, sort: SortMode,
                   category: string, today: int, timeOf: string -> int, k: SortKey)
    requires AllSortable(tasks, sort)
    ensures Filter(FilteredAndSorted(tasks, view, filter, sort, category, today, timeOf), KeyIs(k, sort, timeOf))
         == Filter(Filter(Filter(tasks, KeyIs(k, sort, timeOf)),
                          ViewPredicate(view, category, today, timeOf)),
                   CompletionPredicate(filter))
  {
    var pv := ViewPredicate(view, category, today, timeOf);
    var pc := CompletionPredicate(filter);
    var pk := KeyIs(k, sort, timeOf);
    var byView := Filter(tasks, pv);
    var byCompletion := Filter(byView, pc);
    SortTasksStable(byCompletion, sort, timeOf, k);
    FilterCommute(byView, pc, pk);
    FilterCommute(tasks, pv, pk);
  }

  /** High before medium before low. */
  predicate RanksAscend(r: seq<Task>) {
    && (forall i :: 0 <= i < |r| ==> KnownPriority(r[i].priority))
    && (forall i, j :: 0 <= i < j < |r| ==> Rank(r[i].priority) <= Rank(r[j].priority))
  }

  /** Sorting by priority: ranks never decrease along the list (high, then
      medium, then low). */
  lemma PrioritySortOrder(tasks: seq<Task>, view: View, filter: CompletionFilter,
                          category: string, today: int, timeOf: string -> int)
    requires AllSortable(tasks, ByPriority)
    ensures RanksAscend(FilteredAndSorted(tasks, view, filter, ByPriority, category, today, timeOf))
  {
    var r := FilteredAndSorted(tasks, view, filter, ByPriority, category, today, timeOf);
    ViewSorted(tasks, view, filter, ByPriority, category, today, timeOf);
    forall i | 0 <= i < |r|
      ensures KnownPriority(r[i].priority)
    {
      assert r[i] in r;
    }
    forall i, j | 0 <= i < j < |r|
      ensures Rank(r[i].priority) <= Rank(r[j].priority)
    {
      assert KeyLe(KeyOf(r[i], ByPriority, timeOf), KeyOf(r[j], ByPriority, timeOf));
    }
  }

  /** Sorting by date: no task without a due date precedes one with a due
      date, and dated tasks come in non-decreasing order of their time. */
  lemma DateSortOrder(tasks: seq<Task>, view: View, filter: CompletionFilter,
                      category: string, today: int, timeOf: string -> int)
    requires AllSortable(tasks, ByDate)
    ensures var r := FilteredAndSorted(tasks, view, filter, ByDate, category, today, timeOf);
      forall i, j :: 0 <= i < j < |r| && HasDueDate(r[j]) ==>
        HasDueDate(r[i]) && timeOf(r[i].dueDate.value) <= timeOf(r[j].dueDate.value)
  {
    var r := FilteredAndSorted(tasks, view, filter, ByDate, category, today, timeOf);
    ViewSorted(tasks, view, filter, ByDate, category, today, timeOf);
    forall i, j | 0 <= i < j < |r| && HasDueDate(r[j])
      ensures HasDueDate(r[i]) && timeOf(r[i].dueDate.value) <= timeOf(r[j].dueDate.value)
    {
      assert KeyLe(KeyOf(r[i], ByDate, timeOf), KeyOf(r[j], ByDate, timeOf));
    }
  }

  // ---------------------------------------------------------------------
  // formatDueDate
  // ---------------------------------------------------------------------

  /** A badge's text: fixed text, or the locale rendering of a timestamp
      (toLocaleDateString, kept opaque). */
  datatype Label = Text(s: string) | LocaleDate(ms: int)

  /** The { text, className } object of formatDueDate. */
  datatype Badge = Badge(text: Label, className: string)

  function FormatDueDate(dueDate: Option<string>, today: int, timeOf: string -> int): (b: Option<Badge>)
    ensures b.None? <==> !Truthy(dueDate)
    ensures b.Some? ==> (b.value.className == "" <==> b.value.text.LocaleDate?)
  {
    if !Truthy(dueDate) then None
    else
      var diff := DayDiff(dueDate.value, today, timeOf);
      if diff < 0 then Some(Badge(Text("期限切れ"), "overdue"))
      else if diff == 0 then Some(Badge(Text("今日"), "today"))
      else if diff == 1 then Some(Badge(Text("明日"), "soon"))
      else if diff <= 7 then Some(Badge(Text("あと" + [DigitChar(diff)] + "日"), "upcoming"))
      else Some(Badge(LocaleDate(timeOf(dueDate.value)), ""))
  }

  /** The bucket boundaries: no badge without a due date; otherwise the class
      is decided by the whole-day difference d alone, and "あと d 日" shows d. */
  lemma DueBadgeBuckets(dueDate: Option<string>, today: int, timeOf: string -> int)
    ensures var b := FormatDueDate(dueDate, today, timeOf);
      && (b.None? <==> !Truthy(dueDate))
      && (Truthy(dueDate) ==>
            var d := DayDiff(dueDate.value, today, timeOf);
            && (b.value.className == "overdue" <==> d < 0)
            && (b.value.className == "today" <==> d == 0)
            && (b.value.className == "soon" <==> d == 1)
            && (b.value.className == "upcoming" <==> 2 <= d <= 7)
            && (b.value.className == "" <==> d > 7)
            && (b.value.text.LocaleDate? <==> d > 7)
            && (2 <= d <= 7 ==> b.value.text == Text("あと" + [DigitChar(d)] + "日")))
  {
  }

  /** Every task shown on the register page carries a relative badge, never
      the plain date: the page's window and the badge buckets agree. */
  lemma RegisterViewBadges(tasks: seq<Task>, filter: CompletionFilter, sort: SortMode,
                           category: string, today: int, timeOf: string -> int)
    requires AllSortable(tasks, sort)
    ensures forall t :: t in FilteredAndSorted(tasks, Register, filter, sort, category, today, timeOf) ==>
      var b := FormatDueDate(t.dueDate, today, timeOf);
      b.Some? && b.value.className != "" && b.value.text.Text?
  {
    var byView := Filter(tasks, ViewPredicate(Register, category, today, timeOf));
    var byCompletion := Filter(byView, CompletionPredicate(filter));
    var r := SortTasks(byCompletion, sort, timeOf);
    forall t | t in r
      ensures var b := FormatDueDate(t.dueDate, today, timeOf);
        b.Some? && b.value.className != "" && b.value.text.Text?
    {
      assert t in multiset(byCompletion);
      assert t in byCompletion;
      assert t in byView;
      assert ViewPredicate(Register, category, today, timeOf)(t);
      assert InWeekWindow(t, today, timeOf);
    }
  }
}
