/** The `visible` list: search, then completion filter, then sort, on a copy of the stored
    list. The view parameters are the strings the page's controls hold: the query, the filter
    (`all`, `active`, `completed`) and the sort (`created_desc`, `created_asc`, `title_asc`,
    `title_desc`). `localeCompare` is the parameter `collate`. */
module View {
  import opened Text
  import opened Seqs
  import opened Sorting
  import opened Tasks

  // ---------------------------------------------------------------- search

  /** The lower-cased title or description contains the lower-cased query as it was typed,
      untrimmed. */
  predicate Matches(t: Task, query: string) {
    var q := Lower(query);
    Contains(Lower(t.title), q) || Contains(Lower(t.description), q)
  }

  function MatchesQuery(query: string): Task -> bool {
    (t: Task) => Matches(t, query)
  }

  /** The search step: it is switched on by the trimmed query, but matches the untrimmed one. */
  function Searched(s: seq<Task>, query: string): seq<Task> {
    if Trim(query) != [] then Filter(s, MatchesQuery(query)) else s
  }

  // ---------------------------------------------------------------- completion filter

  predicate IsCompleted(t: Task) {
    t.completed
  }

  /** The two completion filters, applied one after the other; any other value keeps all. */
  function Filtered(s: seq<Task>, filter: string): seq<Task> {
    var active := if filter == "active" then Filter(s, IsActive) else s;
    if filter == "completed" then Filter(active, IsCompleted) else active
  }

  /** A task passes the completion filter. */
  predicate PassesFilter(filter: string, t: Task) {
    (filter == "active" ==> !t.completed) && (filter == "completed" ==> t.completed)
  }

  /** A task of the stored list is shown: it passes the search when the trimmed query is not
      empty, and it passes the completion filter. */
  predicate Shown(query: string, filter: string, t: Task) {
    (Trim(query) != [] ==> Matches(t, query)) && PassesFilter(filter, t)
  }

  // ---------------------------------------------------------------- sort

  /** `const [by, dir] = sort.split('_')`: the part before the first `_`... */
  function SortField(sort: string): string {
    Split(sort, '_')[0]
  }

  /** ... and the part after it, up to the next `_`, or nothing (`undefined`). */
  function SortDirection(sort: string): Option<string> {
    var parts := Split(sort, '_');
    if |parts| > 1 then Some(parts[1]) else None
  }

  /** The sort options the page offers split into the field and direction they name. */
  lemma SortOptions()
    ensures SortField("created_desc") == "created" && SortDirection("created_desc") == Some("desc")
    ensures SortField("created_asc") == "created" && SortDirection("created_asc") == Some("asc")
    ensures SortField("title_asc") == "title" && SortDirection("title_asc") == Some("asc")
    ensures SortField("title_desc") == "title" && SortDirection("title_desc") == Some("desc")
  {
    assert "created_desc" == "created" + "_" + "desc";
    assert "created_asc" == "created" + "_" + "asc";
    assert "title_asc" == "title" + "_" + "asc";
    assert "title_desc" == "title" + "_" + "desc";
    SplitOption("created", "desc");
    SplitOption("created", "asc");
    SplitOption("title", "asc");
    SplitOption("title", "desc");
  }

  /** A sort string `field_direction` splits into its two halves. */
  lemma SplitOption(field: string, dir: string)
    requires '_' !in field && '_' !in dir
    ensures SortField(field + "_" + dir) == field && SortDirection(field + "_" + dir) == Some(dir)
  {
    SplitFirst(field, '_', dir);
    SplitNone(dir, '_');
  }

  /** The comparator given to `list.sort`: by `createdAt` (descending only for `desc`), by
      title through `collate` (ascending only for `asc`), and 0 for every other field. */
  function SortComparator(sort: string, collate: (string, string) -> int): (Task, Task) -> int {
    var field := SortField(sort);
    var dir := SortDirection(sort);
    if field == "created" then
      if dir == Some("desc") then (a: Task, b: Task) => b.createdAt - a.createdAt
      else (a: Task, b: Task) => a.createdAt - b.createdAt
    else if field == "title" then
      if dir == Some("asc") then (a: Task, b: Task) => collate(a.title, b.title)
      else (a: Task, b: Task) => collate(b.title, a.title)
    else (a: Task, b: Task) => 0
  }

  /** The comparator is consistent whenever the collation is. */
  lemma SortComparatorIsComparator(sort: string, collate: (string, string) -> int)
    requires IsComparator(collate)
    ensures IsComparator(SortComparator(sort, collate))
  {
    var cmp := SortComparator(sort, collate);
    if SortField(sort) == "title" {
      forall a: Task, b: Task ensures Sign(cmp(a, b)) == -Sign(cmp(b, a)) {
        assert Sign(collate(a.title, b.title)) == -Sign(collate(b.title, a.title));
      }
      forall a: Task, b: Task, c: Task | cmp(a, b) <= 0 && cmp(b, c) <= 0 ensures cmp(a, c) <= 0 {
        if SortDirection(sort) == Some("asc") {
          assert collate(a.title, b.title) <= 0 && collate(b.title, c.title) <= 0;
        } else {
          assert collate(c.title, b.title) <= 0 && collate(b.title, a.title) <= 0;
        }
      }
    }
  }

  // ---------------------------------------------------------------- the pipeline

  /** `visible`: the stored list searched, filtered and sorted. A function: the stored list
      is an input and is left as it was. */
  function Project(todos: seq<Task>, query: string, filter: string, sort: string,
                   collate: (string, string) -> int): seq<Task>
  {
    Sort(SortComparator(sort, collate), Filtered(Searched(todos, query), filter))
  }

  /** The search and filter steps keep exactly the tasks that are shown, as often as stored. */
  lemma FilteredCounts(todos: seq<Task>, query: string, filter: string)
    ensures forall t :: multiset(Filtered(Searched(todos, query), filter))[t]
                        == if Shown(query, filter, t) then multiset(todos)[t] else 0
  {
    FilterCounts(todos, MatchesQuery(query));
    var searched := Searched(todos, query);
    FilterCounts(searched, IsActive);
    var active := if filter == "active" then Filter(searched, IsActive) else searched;
    FilterCounts(active, IsCompleted);
  }

  /** The search and filter steps keep the stored order. */
  lemma FilteredIsSubsequence(todos: seq<Task>, query: string, filter: string)
    ensures Subsequence(Filtered(Searched(todos, query), filter), todos)
  {
    var searched := Searched(todos, query);
    if Trim(query) != [] {
      FilterSubsequence(todos, MatchesQuery(query));
    } else {
      SubsequenceReflexive(todos);
    }
    var active := if filter == "active" then Filter(searched, IsActive) else searched;
    if filter == "active" {
      FilterSubsequence(searched, IsActive);
    } else {
      SubsequenceReflexive(searched);
    }
    var filtered := Filtered(searched, filter);
    if filter == "completed" {
      FilterSubsequence(active, IsCompleted);
    } else {
      SubsequenceReflexive(active);
    }
    SubsequenceTransitive(filtered, active, searched);
    SubsequenceTransitive(filtered, searched, todos);
  }

  /** Every shown task passes the completion filter and, when the trimmed query is not empty,
      the search; every stored task that passes both is shown, as often as it is stored. */
  lemma ProjectSelects(todos: seq<Task>, query: string, filter: string, sort: string,
                       collate: (string, string) -> int)
    ensures forall t :: multiset(Project(todos, query, filter, sort, collate))[t]
                        == if Shown(query, filter, t) then multiset(todos)[t] else 0
    ensures forall t :: t in Project(todos, query, filter, sort, collate) <==> t in todos && Shown(query, filter, t)
  {
    FilteredCounts(todos, query, filter);
    var r := Project(todos, query, filter, sort, collate);
    forall t ensures t in r <==> t in todos && Shown(query, filter, t) {
      assert t in r <==> t in multiset(r);
      assert t in todos <==> t in multiset(todos);
    }
  }

  /** With a blank query and the `all` filter the view holds every stored task. */
  lemma ProjectShowsAll(todos: seq<Task>, query: string, sort: string, collate: (string, string) -> int)
    requires Blank(query)
    ensures multiset(Project(todos, query, "all", sort, collate)) == multiset(todos)
  {
    TrimEmptyIffBlank(query);
    ProjectSelects(todos, query, "all", sort, collate);
    assert forall t :: Shown(query, "all", t);
  }

  /** The view is sorted by the comparator the sort string names, if the collation is
      consistent. */
  lemma ProjectOrdered(todos: seq<Task>, query: string, filter: string, sort: string,
                       collate: (string, string) -> int)
    requires IsComparator(collate)
    ensures SortedBy(SortComparator(sort, collate), Project(todos, query, filter, sort, collate))
  {
    SortComparatorIsComparator(sort, collate);
    SortSorted(SortComparator(sort, collate), Filtered(Searched(todos, query), filter));
  }

  /** A comparator by `createdAt` is consistent whatever the collation. */
  lemma CreatedComparatorIsComparator(sort: string, collate: (string, string) -> int)
    requires SortField(sort) == "created"
    ensures IsComparator(SortComparator(sort, collate))
  {
  }

  /** Sorting by `created`: newest first (non-increasing `createdAt`) for the direction
      `desc`, oldest first for every other direction. */
  lemma ProjectByCreated(todos: seq<Task>, query: string, filter: string, sort: string,
                         collate: (string, string) -> int)
    requires SortField(sort) == "created"
    ensures var r := Project(todos, query, filter, sort, collate);
      SortDirection(sort) == Some("desc") ==>
        forall i, j :: 0 <= i < j < |r| ==> r[i].createdAt >= r[j].createdAt
    ensures var r := Project(todos, query, filter, sort, collate);
      SortDirection(sort) != Some("desc") ==>
        forall i, j :: 0 <= i < j < |r| ==> r[i].createdAt <= r[j].createdAt
  {
    var cmp := SortComparator(sort, collate);
    CreatedComparatorIsComparator(sort, collate);
    SortSorted(cmp, Filtered(Searched(todos, query), filter));
    if SortDirection(sort) == Some("desc") {
      assert forall a, b :: cmp(a, b) == b.createdAt - a.createdAt;
    } else {
      assert forall a, b :: cmp(a, b) == a.createdAt - b.createdAt;
    }
  }

  /** Sorting by `title`: titles in collation order for the direction `asc`, in reverse
      order for every other direction. */
  lemma ProjectByTitle(todos: seq<Task>, query: string, filter: string, sort: string,
                       collate: (string, string) -> int)
    requires IsComparator(collate) && SortField(sort) == "title"
    ensures var r := Project(todos, query, filter, sort, collate);
      SortDirection(sort) == Some("asc") ==>
        forall i, j :: 0 <= i < j < |r| ==> collate(r[i].title, r[j].title) <= 0
    ensures var r := Project(todos, query, filter, sort, collate);
      SortDirection(sort) != Some("asc") ==>
        forall i, j :: 0 <= i < j < |r| ==> collate(r[j].title, r[i].title) <= 0
  {
    ProjectOrdered(todos, query, filter, sort, collate);
  }

  /** A sort field other than `created` and `title` leaves the filtered order as it is: the
      comparator answers 0 and the sort is stable. */
  lemma ProjectUnknownFieldKeepsOrder(todos: seq<Task>, query: string, filter: string, sort: string,
                                      collate: (string, string) -> int)
    requires SortField(sort) != "created" && SortField(sort) != "title"
    ensures Project(todos, query, filter, sort, collate) == Filtered(Searched(todos, query), filter)
  {
    SortAllTies(SortComparator(sort, collate), Filtered(Searched(todos, query), filter));
  }

  /** Tasks the comparator cannot tell apart stay in their stored order. */
  lemma ProjectStable(todos: seq<Task>, query: string, filter: string, sort: string,
                      collate: (string, string) -> int, y: Task, tied: Task -> bool)
    requires IsComparator(collate)
    requires forall t :: tied(t) == (SortComparator(sort, collate)(t, y) == 0)
    ensures Filter(Project(todos, query, filter, sort, collate), tied)
            == Filter(Filtered(Searched(todos, query), filter), tied)
  {
    SortComparatorIsComparator(sort, collate);
    SortStable(SortComparator(sort, collate), Filtered(Searched(todos, query), filter), y, tied);
  }

  // ---------------------------------------------------------------- a collation

  /** Lexicographic order of character codes: a consistent collation that stands in for
      `localeCompare`. */
  function CompareText(a: string, b: string): (r: int)
    ensures -1 <= r <= 1
    ensures r == 0 <==> a == b
  {
    if a == [] && b == [] then 0
    else if a == [] then -1
    else if b == [] then 1
    else if a[0] < b[0] then -1
    else if a[0] > b[0] then 1
    else
      var r := CompareText(a[1..], b[1..]);
      assert a == [a[0]] + a[1..] && b == [b[0]] + b[1..];
      r
  }

  /** Swapping the two strings negates the answer. */
  lemma {:induction false} CompareTextAntisymmetric(a: string, b: string)
    ensures CompareText(a, b) == -CompareText(b, a)
  {
    if a != [] && b != [] && a[0] == b[0] {
      CompareTextAntisymmetric(a[1..], b[1..]);
    }
  }

  /** "Not after" is transitive. */
  lemma {:induction false} CompareTextTransitive(a: string, b: string, c: string)
    requires CompareText(a, b) <= 0 && CompareText(b, c) <= 0
    ensures CompareText(a, c) <= 0
  {
    if a != [] && b != [] && c != [] && a[0] == b[0] && b[0] == c[0] {
      CompareTextTransitive(a[1..], b[1..], c[1..]);
    }
  }

  lemma CompareTextIsComparator()
    ensures IsComparator(CompareText)
  {
    forall a, b ensures Sign(CompareText(a, b)) == -Sign(CompareText(b, a)) {
      CompareTextAntisymmetric(a, b);
    }
    forall a, b, c | CompareText(a, b) <= 0 && CompareText(b, c) <= 0 ensures CompareText(a, c) <= 0 {
      CompareTextTransitive(a, b, c);
    }
  }

  // ---------------------------------------------------------------- examples

  lemma MilkText()
    ensures Lower("Buy milk") == "buy milk" && Lower("Walk dog") == "walk dog"
    ensures Lower("Milk") == "milk" && Lower("milk") == "milk" && Lower(" milk") == " milk"
    ensures Lower("") == ""
  {
  }

  lemma MilkOccurrences()
    ensures Contains("buy milk", "milk") && !Contains("walk dog", "milk") && !Contains("", "milk")
    ensures !Contains("milk", " milk") && !Contains("", " milk")
  {
    ContainsIff("buy milk", "milk");
    assert OccursAt("buy milk", "milk", 4);
    assert 'm' !in "walk dog";
    if Contains("walk dog", "milk") {
      ContainsBounds("walk dog", "milk");
    }
    if Contains("milk", " milk") {
      ContainsBounds("milk", " milk");
    }
  }

  lemma MilkNotBlank()
    ensures Trim("milk") != [] && Trim(" milk") != []
  {
    assert !IsSpace("milk"[0]) && !IsSpace(" milk"[1]);
    TrimNotEmpty("milk", 0);
    TrimNotEmpty(" milk", 1);
  }

  lemma MilkMatches(milk: Task, dog: Task)
    requires milk.title == "Buy milk" && milk.description == ""
    requires dog.title == "Walk dog" && dog.description == ""
    ensures Matches(milk, "milk") && !Matches(dog, "milk")
  {
    MilkText();
    MilkOccurrences();
  }

  lemma LeadingBlankMisses(milk: Task)
    requires milk.title == "Milk" && milk.description == ""
    ensures !Matches(milk, " milk")
  {
    MilkText();
    MilkOccurrences();
  }

  /** Searching "milk" among "Buy milk" and "Walk dog" keeps only the first. */
  lemma MilkSearch(milk: Task, dog: Task)
    requires milk.title == "Buy milk" && milk.description == ""
    requires dog.title == "Walk dog" && dog.description == ""
    ensures Searched([dog, milk], "milk") == [milk]
  {
    MilkMatches(milk, dog);
    MilkNotBlank();
    var p := MatchesQuery("milk");
    FilterPair(p, dog, milk);
  }

  /** The example of the search box: "milk" among "Buy milk" and "Walk dog" shows only the
      first, whatever the sort. */
  lemma MilkExample(milk: Task, dog: Task, sort: string, collate: (string, string) -> int)
    requires milk.title == "Buy milk" && milk.description == ""
    requires dog.title == "Walk dog" && dog.description == ""
    ensures Project([dog, milk], "milk", "all", sort, collate) == [milk]
  {
    MilkSearch(milk, dog);
    assert Filtered([milk], "all") == [milk];
    SortSingle(SortComparator(sort, collate), milk);
  }

  /** The query is trimmed only to decide whether to search: " milk" (with a leading blank)
      turns the search on, and then the blank keeps a task titled "Milk" out. */
  lemma UntrimmedSearch(milk: Task)
    requires milk.title == "Milk" && milk.description == ""
    ensures Searched([milk], " milk") == []
  {
    LeadingBlankMisses(milk);
    MilkNotBlank();
    FilterOne(MatchesQuery(" milk"), milk);
  }

  /** So the view shows nothing, whatever the filter `all` is sorted by. */
  lemma UntrimmedQueryExample(milk: Task, sort: string, collate: (string, string) -> int)
    requires milk.title == "Milk" && milk.description == ""
    ensures Project([milk], " milk", "all", sort, collate) == []
  {
    UntrimmedSearch(milk);
    assert Filtered([], "all") == [];
  }
}
