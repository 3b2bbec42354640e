/**
 * The matrix layout of pages/index.tsx (`Home`, lines 67-96): the distinct
 * categories in first-seen order, one list of records per category, and the
 * row-major matrix of optional records the grid renders, with each shown
 * record's type written into it in place.
 */
module Layout {
  import opened Basics
  import opened Classify

  /**
   * A record of the data file as the page holds it. The page writes the
   * record's type into it in place; the other fields never change.
   */
  class Row {
    const id: string
    const value: string
    const description: string
    const category: string
    var recordType: Option<Type>

    constructor (id: string, value: string, description: string, category: string)
      ensures this.id == id && this.value == value && this.description == description
      ensures this.category == category && recordType == None
    {
      this.id := id;
      this.value := value;
      this.description := description;
      this.category := category;
      recordType := None;
    }
  }

  /** `data.map((item) => item.category)`. */
  function CategoriesOf(data: seq<Row>): (cs: seq<string>)
    ensures |cs| == |data| && forall k :: 0 <= k < |data| ==> cs[k] == data[k].category
  {
    if |data| == 0 then [] else CategoriesOf(data[..|data| - 1]) + [data[|data| - 1].category]
  }

  /** `Array.from(new Set(s))`: each value once, in the order it was first inserted. */
  function Distinct(s: seq<string>): (d: seq<string>)
    ensures NoDuplicates(d)
    ensures forall x :: x in d <==> x in s
  {
    if |s| == 0 then []
    else
      var d := Distinct(s[..|s| - 1]);
      assert forall x :: x in s <==> x in s[..|s| - 1] || x == s[|s| - 1] by {
        assert s == s[..|s| - 1] + [s[|s| - 1]];
      }
      if s[|s| - 1] in d then d else d + [s[|s| - 1]]
  }

  /** The index of the first occurrence of `x` in `s`. */
  function FirstIndex(s: seq<string>, x: string): (k: nat)
    requires x in s
    ensures k < |s| && s[k] == x && forall j :: 0 <= j < k ==> s[j] != x
  {
    if s[0] == x then 0 else 1 + FirstIndex(s[1..], x)
  }

  /** The first occurrence of `x` lies inside any prefix that contains `x`. */
  lemma FirstIndexWithinPrefix(s: seq<string>, x: string, m: nat)
    requires m <= |s| && x in s[..m]
    ensures FirstIndex(s, x) < m
  {
    var j :| 0 <= j < m && s[..m][j] == x;
    assert s[j] == x;
  }

  /** The distinct values appear in the order of their first occurrences. */
  lemma {:induction false} DistinctInFirstSeenOrder(s: seq<string>, i: nat, j: nat)
    requires i < j < |Distinct(s)|
    ensures FirstIndex(s, Distinct(s)[i]) < FirstIndex(s, Distinct(s)[j])
    decreases |s|
  {
    var n := |s|;
    var prefix := s[..n - 1];
    var d := Distinct(prefix);
    var dd := Distinct(s);
    assert s == prefix + [s[n - 1]];
    assert prefix == s[..n - 1];
    assert forall x :: x in prefix ==> x in s;
    if j < |d| {
      assert dd[i] == d[i] && dd[j] == d[j];
      DistinctInFirstSeenOrder(prefix, i, j);
      FirstIndexAgrees(s, n - 1, d[i]);
      FirstIndexAgrees(s, n - 1, d[j]);
    } else {
      assert dd == d + [s[n - 1]] && dd[j] == s[n - 1] && s[n - 1] !in prefix;
      assert dd[i] == d[i] && d[i] in prefix;
      FirstIndexWithinPrefix(s, d[i], n - 1);
      assert FirstIndex(s, s[n - 1]) == n - 1;
    }
  }

  /** A value of a prefix has the same first occurrence in the whole sequence. */
  lemma {:induction false} FirstIndexAgrees(s: seq<string>, m: nat, x: string)
    requires m <= |s| && x in s[..m]
    ensures FirstIndex(s[..m], x) == FirstIndex(s, x)
  {
    var k := FirstIndex(s, x);
    FirstIndexWithinPrefix(s, x, m);
    var p := FirstIndex(s[..m], x);
    assert s[p] == x;
    assert forall j :: 0 <= j < k ==> s[..m][j] != x;
  }

  /** The records of category `c`, in data order (what `categoryLists[i]` collects). */
  function CategoryList(data: seq<Row>, c: string): (l: seq<Row>)
    ensures |l| <= |data|
    ensures forall k :: 0 <= k < |l| ==> l[k].category == c
  {
    if |data| == 0 then []
    else CategoryList(data[..|data| - 1], c) + (if data[|data| - 1].category == c then [data[|data| - 1]] else [])
  }

  /** A record is in its category's list exactly when it is in the data with that category. */
  lemma {:induction false} CategoryListMembership(data: seq<Row>, c: string, r: Row)
    ensures r in CategoryList(data, c) <==> r in data && r.category == c
  {
    if |data| > 0 {
      var prefix := data[..|data| - 1];
      CategoryListMembership(prefix, c, r);
      assert data == prefix + [data[|data| - 1]];
    }
  }

  /** The per-category list keeps data order: it distributes over concatenation. */
  lemma {:induction false} CategoryListAppend(a: seq<Row>, b: seq<Row>, c: string)
    ensures CategoryList(a + b, c) == CategoryList(a, c) + CategoryList(b, c)
    decreases |b|
  {
    if |b| == 0 {
      assert a + b == a;
    } else {
      var b' := b[..|b| - 1];
      CategoryListAppend(a, b', c);
      assert (a + b)[..|a + b| - 1] == a + b';
      assert (a + b)[|a + b| - 1] == b[|b| - 1];
    }
  }

  /** Every category's list holds exactly the records of that category. */
  lemma CategoryListsMembership(data: seq<Row>, categories: seq<string>)
    ensures forall i, k :: 0 <= i < |categories| && 0 <= k < |CategoryList(data, categories[i])| ==>
              CategoryList(data, categories[i])[k] in data
    ensures forall i, k :: 0 <= i < |categories| && 0 <= k < |data| && data[k].category == categories[i] ==>
              data[k] in CategoryList(data, categories[i])
  {
    forall i, k | 0 <= i < |categories| && 0 <= k < |CategoryList(data, categories[i])|
      ensures CategoryList(data, categories[i])[k] in data
    {
      CategoryListMembership(data, categories[i], CategoryList(data, categories[i])[k]);
    }
    forall i, k | 0 <= i < |categories| && 0 <= k < |data| && data[k].category == categories[i]
      ensures data[k] in CategoryList(data, categories[i])
    {
      CategoryListMembership(data, categories[i], data[k]);
    }
  }

  /**
   * One list per category, in category order: list `i` holds exactly the
   * records of category `i`, in data order (`CategoryListAppend`).
   */
  function Lists(data: seq<Row>, categories: seq<string>): (lists: seq<seq<Row>>)
    ensures |lists| == |categories|
    ensures forall i, k :: 0 <= i < |categories| && 0 <= k < |lists[i]| ==>
              lists[i][k] in data && lists[i][k].category == categories[i]
    ensures forall i, k :: 0 <= i < |categories| && 0 <= k < |data| && data[k].category == categories[i] ==>
              data[k] in lists[i]
  {
    CategoryListsMembership(data, categories);
    seq(|categories|, i requires 0 <= i < |categories| => CategoryList(data, categories[i]))
  }

  /** `Math.max(...lengths)` of the lists, taken as 0 when there are no lists. */
  function Longest(lists: seq<seq<Row>>): (m: nat)
    ensures forall i :: 0 <= i < |lists| ==> |lists[i]| <= m
    ensures |lists| == 0 ==> m == 0
    ensures |lists| > 0 ==> exists i :: 0 <= i < |lists| && |lists[i]| == m
  {
    if |lists| == 0 then 0
    else
      var rest := Longest(lists[1..]);
      assert forall i :: 1 <= i < |lists| ==> lists[i] == lists[1..][i - 1];
      if |lists[0]| >= rest then |lists[0]| else rest
  }

  /** The grid cell of category `i` in grid row `j`: its `j`-th record, or an empty cell. */
  function GridCell(lists: seq<seq<Row>>, i: nat, j: nat): Option<Row>
    requires i < |lists|
  {
    if j < |lists[i]| then Some(lists[i][j]) else None
  }

  /** Grid row `j`: one cell per category, in category order. */
  function MatrixRow(lists: seq<seq<Row>>, j: nat): (row: seq<Option<Row>>)
    ensures |row| == |lists|
    ensures forall i :: 0 <= i < |lists| ==> row[i] == GridCell(lists, i, j)
  {
    seq(|lists|, i requires 0 <= i < |lists| => GridCell(lists, i, j))
  }

  /** The first `height` grid rows, one after the other. */
  function Matrix(lists: seq<seq<Row>>, height: nat): seq<Option<Row>>
  {
    if height == 0 then [] else Matrix(lists, height - 1) + MatrixRow(lists, height - 1)
  }

  /** The first `height` grid rows hold `height` cells per category. */
  lemma {:induction false} MatrixLength(lists: seq<seq<Row>>, height: nat)
    ensures |Matrix(lists, height)| == height * |lists|
  {
    if height > 0 {
      MatrixLength(lists, height - 1);
      assert height * |lists| == (height - 1) * |lists| + |lists|;
    }
  }

  /** Cells of earlier grid rows come before grid row `height`. */
  lemma {:induction false} MulBound(j: nat, height: nat, n: nat, i: nat)
    requires j < height && i < n
    ensures j * n + i < height * n
  {
    if j < height - 1 {
      MulBound(j, height - 1, n, i);
    }
    assert height * n == (height - 1) * n + n;
  }

  /** Cell `j * n + i` of the matrix holds the `j`-th record of category `i`, or nothing. */
  lemma {:induction false} MatrixCell(lists: seq<seq<Row>>, height: nat, j: nat, i: nat)
    requires j < height && i < |lists|
    ensures j * |lists| + i < |Matrix(lists, height)|
    ensures Matrix(lists, height)[j * |lists| + i] == GridCell(lists, i, j)
  {
    var n := |lists|;
    var h := height - 1;
    MatrixLength(lists, h);
    MulBound(j, height, n, i);
    MatrixLength(lists, height);
    if j < h {
      MulBound(j, h, n, i);
      MatrixCell(lists, h, j, i);
    } else {
      assert j * n + i == h * n + i;
    }
  }

  /** The records shown in a run of grid cells, with multiplicity. */
  function Shown(cells: seq<Option<Row>>): multiset<Row>
  {
    if |cells| == 0 then multiset{}
    else Shown(cells[..|cells| - 1]) + CellShows(cells[|cells| - 1])
  }

  lemma {:induction false} ShownAppend(a: seq<Option<Row>>, b: seq<Option<Row>>)
    ensures Shown(a + b) == Shown(a) + Shown(b)
    decreases |b|
  {
    if |b| == 0 {
      assert a + b == a;
    } else {
      var b' := b[..|b| - 1];
      ShownAppend(a, b');
      InitOfAppend(a, b);
    }
  }

  /** The first `height` records of a list (all of it when it is shorter). */
  function Take(l: seq<Row>, height: nat): seq<Row>
  {
    if height <= |l| then l[..height] else l
  }

  /** The records of the first `height` entries of every list, with multiplicity. */
  function Heads(lists: seq<seq<Row>>, height: nat): multiset<Row>
  {
    if |lists| == 0 then multiset{} else multiset(Take(lists[0], height)) + Heads(lists[1..], height)
  }

  /** All records of all lists, with multiplicity. */
  function AllOf(lists: seq<seq<Row>>): multiset<Row>
  {
    if |lists| == 0 then multiset{} else multiset(lists[0]) + AllOf(lists[1..])
  }

  /** The records a single grid cell shows. */
  function CellShows(cell: Option<Row>): multiset<Row>
  {
    match cell
    case None => multiset{}
    case Some(r) => multiset{r}
  }

  lemma ShownCons(cell: Option<Row>, cells: seq<Option<Row>>)
    ensures Shown([cell] + cells) == CellShows(cell) + Shown(cells)
  {
    ShownAppend([cell], cells);
    assert [cell][..0] == [];
  }

  lemma MatrixRowCons(lists: seq<seq<Row>>, height: nat)
    requires |lists| > 0
    ensures MatrixRow(lists, height) == [GridCell(lists, 0, height)] + MatrixRow(lists[1..], height)
  {
    var row, rest := MatrixRow(lists, height), MatrixRow(lists[1..], height);
    forall i | 1 <= i < |lists|
      ensures row[i] == rest[i - 1]
    {
      assert lists[1..][i - 1] == lists[i];
    }
  }

  lemma TakeStep(l: seq<Row>, height: nat)
    ensures multiset(Take(l, height + 1)) == multiset(Take(l, height)) + CellShows(if height < |l| then Some(l[height]) else None)
  {
    if height < |l| {
      assert l[..height + 1] == l[..height] + [l[height]];
    } else {
      assert Take(l, height) == l;
    }
  }

  /** Grid row `height` shows the next entry of every list that has one. */
  lemma {:induction false} HeadsStep(lists: seq<seq<Row>>, height: nat)
    ensures Heads(lists, height + 1) == Heads(lists, height) + Shown(MatrixRow(lists, height))
    decreases |lists|
  {
    if |lists| == 0 {
      assert MatrixRow(lists, height) == [];
    } else {
      var rest := lists[1..];
      var cell := GridCell(lists, 0, height);
      HeadsStep(rest, height);
      MatrixRowCons(lists, height);
      ShownCons(cell, MatrixRow(rest, height));
      TakeStep(lists[0], height);
      calc {
        Heads(lists, height + 1);
        multiset(Take(lists[0], height + 1)) + Heads(rest, height + 1);
        multiset(Take(lists[0], height)) + CellShows(cell) + (Heads(rest, height) + Shown(MatrixRow(rest, height)));
        (multiset(Take(lists[0], height)) + Heads(rest, height)) + (CellShows(cell) + Shown(MatrixRow(rest, height)));
        Heads(lists, height) + Shown(MatrixRow(lists, height));
      }
    }
  }

  /** The first `height` grid rows show exactly the first `height` entries of every list. */
  lemma {:induction false} MatrixShowsHeads(lists: seq<seq<Row>>, height: nat)
    ensures Shown(Matrix(lists, height)) == Heads(lists, height)
  {
    if height == 0 {
      HeadsEmpty(lists);
    } else {
      var h := height - 1;
      MatrixShowsHeads(lists, h);
      ShownAppend(Matrix(lists, h), MatrixRow(lists, h));
      HeadsStep(lists, h);
      assert Matrix(lists, height) == Matrix(lists, h) + MatrixRow(lists, h);
    }
  }

  lemma {:induction false} HeadsEmpty(lists: seq<seq<Row>>)
    ensures Heads(lists, 0) == multiset{}
    decreases |lists|
  {
    if |lists| > 0 {
      HeadsEmpty(lists[1..]);
    }
  }

  /** Once the height reaches every list's length, the heads are the whole lists. */
  lemma {:induction false} HeadsWhole(lists: seq<seq<Row>>, height: nat)
    requires forall i :: 0 <= i < |lists| ==> |lists[i]| <= height
    ensures Heads(lists, height) == AllOf(lists)
    decreases |lists|
  {
    if |lists| > 0 {
      assert forall i :: 1 <= i < |lists| ==> lists[1..][i - 1] == lists[i];
      HeadsWhole(lists[1..], height);
      assert Take(lists[0], height) == lists[0];
    }
  }

  /** The records whose category is one of `cs`, in data order. */
  function InCategories(data: seq<Row>, cs: set<string>): seq<Row>
  {
    if |data| == 0 then []
    else InCategories(data[..|data| - 1], cs) + (if data[|data| - 1].category in cs then [data[|data| - 1]] else [])
  }

  /** One more record adds itself to the records of `cs` if its category is one of them. */
  lemma InCategoriesLast(data: seq<Row>, cs: set<string>)
    requires |data| > 0
    ensures var r := data[|data| - 1];
            multiset(InCategories(data, cs)) == multiset(InCategories(data[..|data| - 1], cs)) + (if r.category in cs then multiset{r} else multiset{})
  {
  }

  /** One more record adds itself to the list of its category. */
  lemma CategoryListLast(data: seq<Row>, c: string)
    requires |data| > 0
    ensures var r := data[|data| - 1];
            multiset(CategoryList(data, c)) == multiset(CategoryList(data[..|data| - 1], c)) + (if r.category == c then multiset{r} else multiset{})
  {
  }

  /** Taking one more category out adds that category's list. */
  lemma {:induction false} InCategoriesAdd(data: seq<Row>, c: string, cs: set<string>)
    requires c !in cs
    ensures multiset(InCategories(data, {c} + cs)) == multiset(CategoryList(data, c)) + multiset(InCategories(data, cs))
  {
    if |data| > 0 {
      var prefix := data[..|data| - 1];
      InCategoriesAdd(prefix, c, cs);
      InCategoriesLast(data, {c} + cs);
      InCategoriesLast(data, cs);
      CategoryListLast(data, c);
    }
  }

  /** When every record's category is among `cs`, selecting by `cs` keeps all of the data. */
  lemma {:induction false} InCategoriesAll(data: seq<Row>, cs: set<string>)
    requires forall k :: 0 <= k < |data| ==> data[k].category in cs
    ensures InCategories(data, cs) == data
  {
    if |data| > 0 {
      InCategoriesAll(data[..|data| - 1], cs);
      assert data == data[..|data| - 1] + [data[|data| - 1]];
    }
  }

  /** The lists after the first are the lists of the remaining categories. */
  lemma ListsTail(data: seq<Row>, categories: seq<string>)
    requires |categories| > 0
    ensures Lists(data, categories)[1..] == Lists(data, categories[1..])
  {
  }

  /** The categories are the first one and, apart from it, the rest. */
  lemma CategoriesCons(categories: seq<string>)
    requires |categories| > 0 && NoDuplicates(categories)
    ensures (set c | c in categories) == {categories[0]} + (set c | c in categories[1..])
    ensures categories[0] !in (set c | c in categories[1..])
  {
    var rest := categories[1..];
    forall k | 0 <= k < |rest|
      ensures rest[k] != categories[0]
    {
      assert rest[k] == categories[k + 1];
    }
  }

  /** The lists of distinct categories hold the records of those categories, each once. */
  lemma {:induction false} ListsCover(data: seq<Row>, categories: seq<string>)
    requires NoDuplicates(categories)
    ensures AllOf(Lists(data, categories)) == multiset(InCategories(data, set c | c in categories))
    decreases |categories|
  {
    if |categories| == 0 {
      assert (set c | c in categories) == {};
      EmptySelection(data);
    } else {
      var rest := categories[1..];
      assert NoDuplicates(rest) by {
        forall i, j | 0 <= i < j < |rest|
          ensures rest[i] != rest[j]
        {
          assert rest[i] == categories[i + 1] && rest[j] == categories[j + 1];
        }
      }
      ListsTail(data, categories);
      ListsCover(data, rest);
      CategoriesCons(categories);
      InCategoriesAdd(data, categories[0], set c | c in rest);
    }
  }

  lemma {:induction false} EmptySelection(data: seq<Row>)
    ensures InCategories(data, {}) == []
  {
    if |data| > 0 {
      EmptySelection(data[..|data| - 1]);
    }
  }

  /** Every record's category is one of the distinct categories. */
  lemma CategoryIsListed(data: seq<Row>, k: nat)
    requires k < |data|
    ensures data[k].category in Distinct(CategoriesOf(data))
  {
    assert CategoriesOf(data)[k] == data[k].category;
  }

  /**
   * Partitioning by the distinct categories loses and repeats no record:
   * the lists together hold exactly the data, with multiplicity.
   */
  lemma PartitionIsPermutation(data: seq<Row>)
    ensures AllOf(Lists(data, Distinct(CategoriesOf(data)))) == multiset(data)
  {
    var categories := Distinct(CategoriesOf(data));
    ListsCover(data, categories);
    var cs := set c | c in categories;
    forall k | 0 <= k < |data|
      ensures data[k].category in cs
    {
      CategoryIsListed(data, k);
    }
    InCategoriesAll(data, cs);
  }

  /** The number of records over all lists. */
  function TotalLength(lists: seq<seq<Row>>): nat
  {
    if |lists| == 0 then 0 else |lists[0]| + TotalLength(lists[1..])
  }

  lemma {:induction false} AllOfSize(lists: seq<seq<Row>>)
    ensures |AllOf(lists)| == TotalLength(lists)
    decreases |lists|
  {
    if |lists| > 0 {
      AllOfSize(lists[1..]);
    }
  }

  /** The lists' lengths add up to the number of records. */
  lemma PartitionSizes(data: seq<Row>)
    ensures TotalLength(Lists(data, Distinct(CategoriesOf(data)))) == |data|
  {
    PartitionIsPermutation(data);
    AllOfSize(Lists(data, Distinct(CategoriesOf(data))));
  }

  /**
   * The grid, `longestList` rows of one cell per category, shows every record
   * exactly once.
   */
  lemma MatrixShowsEveryRecordOnce(data: seq<Row>)
    ensures var lists := Lists(data, Distinct(CategoriesOf(data)));
            Shown(Matrix(lists, Longest(lists))) == multiset(data)
  {
    var lists := Lists(data, Distinct(CategoriesOf(data)));
    MatrixShowsHeads(lists, Longest(lists));
    HeadsWhole(lists, Longest(lists));
    PartitionIsPermutation(data);
  }

  /**
   * `categoryIds` (lines 69-72): every category mapped to its position; were
   * a category repeated, the last position would win.
   */
  method IndexCategories(categories: seq<string>) returns (categoryIds: map<string, nat>)
    ensures categoryIds.Keys == set c | c in categories
    ensures forall c :: c in categoryIds ==> categoryIds[c] < |categories| && categories[categoryIds[c]] == c
    ensures forall c, j :: c in categoryIds && categoryIds[c] < j < |categories| ==> categories[j] != c
  {
    categoryIds := map[];
    var index := 0;
    while index < |categories|
      invariant index <= |categories|
      invariant categoryIds.Keys == set c | c in categories[..index]
      invariant forall c :: c in categoryIds ==> categoryIds[c] < index && categories[categoryIds[c]] == c
      invariant forall c, j :: c in categoryIds && categoryIds[c] < j < index ==> categories[j] != c
    {
      assert categories[..index + 1] == categories[..index] + [categories[index]];
      categoryIds := categoryIds[categories[index] := index];
      index := index + 1;
    }
    assert categories[..index] == categories;
  }

  /** A category list grows by the next record exactly when that record has its category. */
  lemma CategoryListStep(data: seq<Row>, k: nat, c: string)
    requires k < |data|
    ensures CategoryList(data[..k + 1], c) == CategoryList(data[..k], c) + (if data[k].category == c then [data[k]] else [])
  {
    assert data[..k + 1][..k] == data[..k];
  }

  /**
   * `categoryLists` (lines 74-81): one empty list per category, then every
   * record pushed onto the list of its category, in data order.
   */
  method Partition(data: seq<Row>, categories: seq<string>, categoryIds: map<string, nat>)
    returns (categoryLists: seq<seq<Row>>)
    requires NoDuplicates(categories)
    requires forall c :: c in categoryIds ==> categoryIds[c] < |categories| && categories[categoryIds[c]] == c
    requires forall k :: 0 <= k < |data| ==> data[k].category in categoryIds
    ensures categoryLists == Lists(data, categories)
  {
    categoryLists := [];
    while |categoryLists| < |categories|
      invariant |categoryLists| <= |categories|
      invariant forall i :: 0 <= i < |categoryLists| ==> categoryLists[i] == []
    {
      categoryLists := categoryLists + [[]];
    }
    var k := 0;
    while k < |data|
      invariant k <= |data|
      invariant categoryLists == Lists(data[..k], categories)
    {
      var row := data[k];
      var index := categoryIds[row.category];
      var next := categoryLists[index := categoryLists[index] + [row]];
      var expected := Lists(data[..k + 1], categories);
      forall i | 0 <= i < |categories|
        ensures expected[i] == next[i]
      {
        CategoryListStep(data, k, categories[i]);
        assert row.category == categories[i] <==> i == index;
      }
      assert next == expected;
      categoryLists := next;
      k := k + 1;
    }
    assert data[..k] == data;
  }

  /**
   * Whether record `r` sits in one of the first `height` grid rows, or in
   * grid row `height` before category `column`: the cells the matrix loop
   * has passed.
   */
  predicate Visited(lists: seq<seq<Row>>, height: nat, column: nat, r: Row)
  {
    exists i, j :: 0 <= i < |lists| && 0 <= j < |lists[i]| && (j < height || (j == height && i < column)) && lists[i][j] == r
  }

  lemma VisitedStep(lists: seq<seq<Row>>, height: nat, column: nat, r: Row)
    requires column < |lists|
    ensures Visited(lists, height, column + 1, r) <==>
              Visited(lists, height, column, r) || (height < |lists[column]| && lists[column][height] == r)
  {
    if Visited(lists, height, column + 1, r) && !(height < |lists[column]| && lists[column][height] == r) {
      var i, j :| 0 <= i < |lists| && 0 <= j < |lists[i]| && (j < height || (j == height && i < column + 1)) && lists[i][j] == r;
      assert i != column || j != height;
      assert Visited(lists, height, column, r);
    }
  }

  lemma VisitedRowEnd(lists: seq<seq<Row>>, height: nat, r: Row)
    ensures Visited(lists, height, |lists|, r) <==> Visited(lists, height + 1, 0, r)
  {
  }

  /**
   * The matrix loop (lines 85-96): grid row by grid row, category by
   * category, push the cell, and write into each present record the type
   * its id names.
   */
  method FillMatrix(data: seq<Row>, categoryLists: seq<seq<Row>>, longestList: nat) returns (matrix: seq<Option<Row>>)
    requires forall i, j :: 0 <= i < |categoryLists| && 0 <= j < |categoryLists[i]| ==> categoryLists[i][j] in data
    modifies data
    ensures matrix == Matrix(categoryLists, longestList)
    ensures forall k :: 0 <= k < |data| ==>
              data[k].recordType == if Visited(categoryLists, longestList, 0, data[k]) then TypeOfId(data[k].id) else old(data[k].recordType)
  {
    matrix := [];
    var j := 0;
    while j < longestList
      invariant j <= longestList
      invariant matrix == Matrix(categoryLists, j)
      invariant forall k :: 0 <= k < |data| ==>
                  data[k].recordType == if Visited(categoryLists, j, 0, data[k]) then TypeOfId(data[k].id) else old(data[k].recordType)
    {
      var i := 0;
      while i < |categoryLists|
        invariant i <= |categoryLists|
        invariant matrix == Matrix(categoryLists, j) + MatrixRow(categoryLists, j)[..i]
        invariant forall k :: 0 <= k < |data| ==>
                    data[k].recordType == if Visited(categoryLists, j, i, data[k]) then TypeOfId(data[k].id) else old(data[k].recordType)
      {
        var cell := if j < |categoryLists[i]| then Some(categoryLists[i][j]) else None;
        if cell.Some? {
          cell.value.recordType := TypeOfId(cell.value.id);
        }
        forall k | 0 <= k < |data|
          ensures Visited(categoryLists, j, i + 1, data[k]) <==> Visited(categoryLists, j, i, data[k]) || cell == Some(data[k])
        {
          VisitedStep(categoryLists, j, i, data[k]);
        }
        assert MatrixRow(categoryLists, j)[..i + 1] == MatrixRow(categoryLists, j)[..i] + [cell];
        matrix := matrix + [cell];
        i := i + 1;
      }
      forall k | 0 <= k < |data|
        ensures Visited(categoryLists, j, i, data[k]) <==> Visited(categoryLists, j + 1, 0, data[k])
      {
        VisitedRowEnd(categoryLists, j, data[k]);
      }
      assert MatrixRow(categoryLists, j)[..i] == MatrixRow(categoryLists, j);
      j := j + 1;
    }
  }

  /** Every record sits in a cell of the full grid. */
  lemma RecordIsVisited(data: seq<Row>, k: nat)
    requires k < |data|
    ensures var lists := Lists(data, Distinct(CategoriesOf(data)));
            Visited(lists, Longest(lists), 0, data[k])
  {
    var categories := Distinct(CategoriesOf(data));
    var lists := Lists(data, categories);
    var r := data[k];
    CategoryIsListed(data, k);
    var i :| 0 <= i < |categories| && categories[i] == r.category;
    CategoryListMembership(data, r.category, r);
    var j :| 0 <= j < |lists[i]| && lists[i][j] == r;
    assert j < Longest(lists);
  }

  /**
   * `Home`'s layout (lines 67-96): the distinct categories, the matrix of
   * their lists read row by row, and every record typed from its id.
   */
  method Home(data: seq<Row>) returns (categories: seq<string>, matrix: seq<Option<Row>>)
    modifies data
    ensures categories == Distinct(CategoriesOf(data))
    ensures matrix == Matrix(Lists(data, categories), Longest(Lists(data, categories)))
    ensures forall k :: 0 <= k < |data| ==> data[k].recordType == TypeOfId(data[k].id)
  {
    categories := Distinct(CategoriesOf(data));
    var categoryIds := IndexCategories(categories);
    forall k | 0 <= k < |data|
      ensures data[k].category in categoryIds
    {
      CategoryIsListed(data, k);
    }
    var categoryLists := Partition(data, categories, categoryIds);
    forall i, j | 0 <= i < |categoryLists| && 0 <= j < |categoryLists[i]|
      ensures categoryLists[i][j] in data
    {
      CategoryListMembership(data, categories[i], categoryLists[i][j]);
    }
    var longestList := Longest(categoryLists);
    matrix := FillMatrix(data, categoryLists, longestList);
    forall k | 0 <= k < |data|
      ensures Visited(categoryLists, longestList, 0, data[k])
    {
      RecordIsVisited(data, k);
    }
  }
}
