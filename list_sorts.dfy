/**
 * The sortable story list: the table of sort functions, the ordering shown
 * for a sort state, and the click handler that switches sort key and
 * direction. `sortBy` from lodash is specified as what it promises: a stable
 * sort, ascending by one field.
 */
module ListSorts {
  import opened Stories
  import opened Seqs

  // ----- the order lodash uses on one field -----

  /** The field a sort orders by. */
  datatype Field = Title | Author | NumComments | Points

  /** A field's value: strings for title and author, numbers for comments and points. */
  datatype KeyValue = Text(s: string) | Number(n: int)

  function KeyOf(f: Field, story: Story): KeyValue
  {
    match f
    case Title => Text(story.title)
    case Author => Text(story.author)
    case NumComments => Number(story.num_comments)
    case Points => Number(story.points)
  }

  /** String order as JavaScript's `<`: character by character, a proper prefix first. */
  predicate StrLe(a: string, b: string)
  {
    a == [] || (b != [] && (a[0] < b[0] || (a[0] == b[0] && StrLe(a[1..], b[1..]))))
  }

  /** The order on field values; a field's values all have the same kind. */
  predicate KeyLe(a: KeyValue, b: KeyValue)
  {
    match (a, b)
    case (Number(x), Number(y)) => x <= y
    case (Text(x), Text(y)) => StrLe(x, y)
    case (Number(_), Text(_)) => true
    case (Text(_), Number(_)) => false
  }

  lemma {:induction false} StrLeReflexive(a: string)
    ensures StrLe(a, a)
  {
    if a != [] {
      StrLeReflexive(a[1..]);
    }
  }

  lemma {:induction false} StrLeTotal(a: string, b: string)
    ensures StrLe(a, b) || StrLe(b, a)
  {
    if a != [] && b != [] && a[0] == b[0] {
      StrLeTotal(a[1..], b[1..]);
    }
  }

  lemma {:induction false} StrLeAntisymmetric(a: string, b: string)
    requires StrLe(a, b) && StrLe(b, a)
    ensures a == b
  {
    if a != [] && b != [] {
      StrLeAntisymmetric(a[1..], b[1..]);
      assert a == [a[0]] + a[1..] && b == [b[0]] + b[1..];
    }
  }

  lemma {:induction false} StrLeTransitive(a: string, b: string, c: string)
    requires StrLe(a, b) && StrLe(b, c)
    ensures StrLe(a, c)
  {
    if a != [] && b != [] && c != [] && a[0] == b[0] && b[0] == c[0] {
      StrLeTransitive(a[1..], b[1..], c[1..]);
    }
  }

  lemma KeyLeReflexive(a: KeyValue)
    ensures KeyLe(a, a)
  {
    if a.Text? {
      StrLeReflexive(a.s);
    }
  }

  lemma KeyLeTotal(a: KeyValue, b: KeyValue)
    ensures KeyLe(a, b) || KeyLe(b, a)
  {
    if a.Text? && b.Text? {
      StrLeTotal(a.s, b.s);
    }
  }

  lemma KeyLeAntisymmetric(a: KeyValue, b: KeyValue)
    requires KeyLe(a, b) && KeyLe(b, a)
    ensures a == b
  {
    if a.Text? && b.Text? {
      StrLeAntisymmetric(a.s, b.s);
    }
  }

  lemma KeyLeTransitive(a: KeyValue, b: KeyValue, c: KeyValue)
    requires KeyLe(a, b) && KeyLe(b, c)
    ensures KeyLe(a, c)
  {
    if a.Text? && b.Text? && c.Text? {
      StrLeTransitive(a.s, b.s, c.s);
    }
  }

  /** Non-decreasing by the field. */
  predicate Ascending(f: Field, s: seq<Story>)
  {
    forall i, j :: 0 <= i < j < |s| ==> KeyLe(KeyOf(f, s[i]), KeyOf(f, s[j]))
  }

  /** Non-increasing by the field. */
  predicate Descending(f: Field, s: seq<Story>)
  {
    forall i, j :: 0 <= i < j < |s| ==> KeyLe(KeyOf(f, s[j]), KeyOf(f, s[i]))
  }

  /** The stories of `s` whose field value is `k`, in their order in `s`. */
  function WithKey(f: Field, s: seq<Story>, k: KeyValue): seq<Story>
  {
    if s == [] then []
    else (if KeyOf(f, s[0]) == k then [s[0]] else []) + WithKey(f, s[1..], k)
  }

  /** `r` keeps every group of stories with equal field value in the order `s` has it. */
  ghost predicate SameTies(f: Field, r: seq<Story>, s: seq<Story>)
  {
    forall k :: WithKey(f, r, k) == WithKey(f, s, k)
  }

  // ----- the stable ascending sort -----

  /** Place `x` before the first story whose field value is not below its own. */
  function Insert(f: Field, x: Story, s: seq<Story>): (r: seq<Story>)
    ensures multiset(r) == multiset(s) + multiset{x}
  {
    if s == [] then [x]
    else if KeyLe(KeyOf(f, x), KeyOf(f, s[0])) then [x] + s
    else
      assert s == [s[0]] + s[1..];
      [s[0]] + Insert(f, x, s[1..])
  }

  /** A story no greater than any story of an ascending list may go in front of it. */
  lemma AscendingCons(f: Field, y: Story, t: seq<Story>)
    requires Ascending(f, t)
    requires forall z :: z in t ==> KeyLe(KeyOf(f, y), KeyOf(f, z))
    ensures Ascending(f, [y] + t)
  {
    var r := [y] + t;
    forall i, j | 0 <= i < j < |r|
      ensures KeyLe(KeyOf(f, r[i]), KeyOf(f, r[j]))
    {
      if i == 0 {
        assert r[j] == t[j - 1];
      } else {
        assert r[i] == t[i - 1] && r[j] == t[j - 1];
      }
    }
  }

  /** Inserting into an ascending list keeps it ascending. */
  lemma {:induction false} InsertAscending(f: Field, x: Story, s: seq<Story>)
    requires Ascending(f, s)
    ensures Ascending(f, Insert(f, x, s))
  {
    if s == [] {
      assert Insert(f, x, s) == [x];
    } else if KeyLe(KeyOf(f, x), KeyOf(f, s[0])) {
      forall z | z in s
        ensures KeyLe(KeyOf(f, x), KeyOf(f, z))
      {
        FirstIsLeast(f, s, z);
        KeyLeTransitive(KeyOf(f, x), KeyOf(f, s[0]), KeyOf(f, z));
      }
      AscendingCons(f, x, s);
    } else {
      var tail := s[1..];
      var rest := Insert(f, x, tail);
      assert Ascending(f, tail);
      InsertAscending(f, x, tail);
      KeyLeTotal(KeyOf(f, x), KeyOf(f, s[0]));
      assert s == [s[0]] + tail;
      forall z | z in rest
        ensures KeyLe(KeyOf(f, s[0]), KeyOf(f, z))
      {
        assert z in multiset(rest);
        if z != x {
          assert z in multiset(tail);
          assert z in s;
          FirstIsLeast(f, s, z);
        }
      }
      AscendingCons(f, s[0], rest);
    }
  }

  /** The tie group of `x` alone, or nothing. */
  function Tie(f: Field, x: Story, k: KeyValue): seq<Story>
  {
    if KeyOf(f, x) == k then [x] else []
  }

  lemma WithKeyCons(f: Field, x: Story, s: seq<Story>, k: KeyValue)
    ensures WithKey(f, [x] + s, k) == Tie(f, x, k) + WithKey(f, s, k)
  {
    assert ([x] + s)[1..] == s;
  }

  /** Stories with different values never share a tie group, so their groups commute. */
  lemma SwapTies(f: Field, a: Story, b: Story, t: seq<Story>, k: KeyValue)
    requires KeyOf(f, a) != KeyOf(f, b)
    ensures Tie(f, a, k) + (Tie(f, b, k) + t) == Tie(f, b, k) + (Tie(f, a, k) + t)
  {
    if KeyOf(f, a) == k {
      assert Tie(f, b, k) == [];
    } else {
      assert Tie(f, a, k) == [];
    }
  }

  /** Inserting `x` in front of its equals keeps it ahead of every story with the same value. */
  lemma {:induction false} InsertKeepsTies(f: Field, x: Story, s: seq<Story>, k: KeyValue)
    ensures WithKey(f, Insert(f, x, s), k) == WithKey(f, [x] + s, k)
  {
    if s == [] {
      assert Insert(f, x, s) == [x] + s;
    } else if KeyLe(KeyOf(f, x), KeyOf(f, s[0])) {
      assert Insert(f, x, s) == [x] + s;
    } else {
      var tail := s[1..];
      var rest := Insert(f, x, tail);
      var w := WithKey(f, tail, k);
      assert Insert(f, x, s) == [s[0]] + rest;
      assert s == [s[0]] + tail;
      // the skipped story's value differs from the inserted one's
      KeyLeReflexive(KeyOf(f, x));
      InsertKeepsTies(f, x, tail, k);
      WithKeyCons(f, x, tail, k);
      WithKeyCons(f, s[0], rest, k);
      WithKeyCons(f, s[0], tail, k);
      WithKeyCons(f, x, s, k);
      SwapTies(f, s[0], x, w, k);
    }
  }

  /** `sortBy(list, field)`: a stable sort, ascending by the field. */
  function SortBy(f: Field, list: seq<Story>): (r: seq<Story>)
    ensures multiset(r) == multiset(list)
    ensures |r| == |list|
    ensures Ascending(f, r)
  {
    if list == [] then []
    else
      assert list == [list[0]] + list[1..];
      InsertAscending(f, list[0], SortBy(f, list[1..]));
      Insert(f, list[0], SortBy(f, list[1..]))
  }

  /** Stories with equal field values keep their input order. */
  lemma {:induction false} SortByKeepsTies(f: Field, list: seq<Story>)
    ensures SameTies(f, SortBy(f, list), list)
  {
    if list != [] {
      var x, tail := list[0], list[1..];
      var sorted := SortBy(f, tail);
      assert SortBy(f, list) == Insert(f, x, sorted);
      assert list == [x] + tail;
      SortByKeepsTies(f, tail);
      forall k
        ensures WithKey(f, SortBy(f, list), k) == WithKey(f, list, k)
      {
        InsertKeepsTies(f, x, sorted, k);
        WithKeyCons(f, x, sorted, k);
        WithKeyCons(f, x, tail, k);
        assert WithKey(f, sorted, k) == WithKey(f, tail, k);
      }
    }
  }

  lemma {:induction false} WithKeyMember(f: Field, s: seq<Story>, k: KeyValue, y: Story)
    ensures y in WithKey(f, s, k) <==> y in s && KeyOf(f, y) == k
  {
    if s != [] {
      WithKeyMember(f, s[1..], k, y);
      assert s == [s[0]] + s[1..];
    }
  }

  /** In an ascending arrangement the first story's value is below every other's. */
  lemma FirstIsLeast(f: Field, r: seq<Story>, y: Story)
    requires Ascending(f, r) && y in r
    ensures KeyLe(KeyOf(f, r[0]), KeyOf(f, y))
  {
    var i :| 0 <= i < |r| && r[i] == y;
    if i == 0 {
      KeyLeReflexive(KeyOf(f, y));
    }
  }

  /**
   * Ascending order and kept ties leave no choice: two ascending arrangements
   * with the same ties are equal. So any stable ascending sort, lodash's
   * included, gives exactly `SortBy`.
   */
  lemma {:induction false} StableSortIsUnique(f: Field, r1: seq<Story>, r2: seq<Story>)
    requires Ascending(f, r1) && Ascending(f, r2)
    requires SameTies(f, r1, r2)
    ensures r1 == r2
  {
    if r1 == [] || r2 == [] {
      if r1 != [] {
        WithKeyMember(f, r1, KeyOf(f, r1[0]), r1[0]);
        WithKeyMember(f, r2, KeyOf(f, r1[0]), r1[0]);
      } else if r2 != [] {
        WithKeyMember(f, r2, KeyOf(f, r2[0]), r2[0]);
        WithKeyMember(f, r1, KeyOf(f, r2[0]), r2[0]);
      }
    } else {
      var x1, x2 := r1[0], r2[0];
      var k1, k2 := KeyOf(f, x1), KeyOf(f, x2);
      assert r1 == [x1] + r1[1..] && r2 == [x2] + r2[1..];
      // each first story appears in the other arrangement, so neither value is below the other
      WithKeyMember(f, r2, k2, x2);
      WithKeyMember(f, r1, k2, x2);
      WithKeyMember(f, r1, k1, x1);
      WithKeyMember(f, r2, k1, x1);
      FirstIsLeast(f, r1, x2);
      FirstIsLeast(f, r2, x1);
      KeyLeAntisymmetric(k1, k2);
      // so both start with the first story of that value's group
      WithKeyCons(f, x1, r1[1..], k1);
      WithKeyCons(f, x2, r2[1..], k1);
      assert WithKey(f, r1, k1)[0] == x1;
      assert WithKey(f, r2, k1)[0] == x2;
      assert WithKey(f, r1, k1) == WithKey(f, r2, k1);
      assert x1 == x2;
      forall k
        ensures WithKey(f, r1[1..], k) == WithKey(f, r2[1..], k)
      {
        WithKeyCons(f, x1, r1[1..], k);
        WithKeyCons(f, x1, r2[1..], k);
        var t := Tie(f, x1, k);
        assert WithKey(f, r1, k) == WithKey(f, r2, k);
        assert WithKey(f, r1[1..], k) == (t + WithKey(f, r1[1..], k))[|t|..];
        assert WithKey(f, r2[1..], k) == (t + WithKey(f, r2[1..], k))[|t|..];
      }
      StableSortIsUnique(f, r1[1..], r2[1..]);
    }
  }

  // ----- reversal -----

  lemma {:induction false} ReverseDescending(f: Field, s: seq<Story>)
    requires Ascending(f, s)
    ensures Descending(f, Reverse(s))
  {
    var r := Reverse(s);
    forall i, j | 0 <= i < j < |r|
      ensures KeyLe(KeyOf(f, r[j]), KeyOf(f, r[i]))
    {
      ReverseAt(s, i);
      ReverseAt(s, j);
    }
  }

  lemma {:induction false} ReverseAscending(f: Field, s: seq<Story>)
    requires Descending(f, s)
    ensures Ascending(f, Reverse(s))
  {
    var r := Reverse(s);
    forall i, j | 0 <= i < j < |r|
      ensures KeyLe(KeyOf(f, r[i]), KeyOf(f, r[j]))
    {
      ReverseAt(s, i);
      ReverseAt(s, j);
    }
  }

  lemma {:induction false} WithKeyAppend(f: Field, a: seq<Story>, b: seq<Story>, k: KeyValue)
    ensures WithKey(f, a + b, k) == WithKey(f, a, k) + WithKey(f, b, k)
  {
    if a == [] {
      assert a + b == b;
    } else {
      var x, tail := a[0], a[1..];
      assert a == [x] + tail;
      assert a + b == [x] + (tail + b);
      WithKeyAppend(f, tail, b, k);
      WithKeyCons(f, x, tail + b, k);
      WithKeyCons(f, x, tail, k);
    }
  }

  /** Reversing a list reverses each group of ties. */
  lemma {:induction false} WithKeyReverse(f: Field, s: seq<Story>, k: KeyValue)
    ensures WithKey(f, Reverse(s), k) == Reverse(WithKey(f, s, k))
  {
    if s != [] {
      WithKeyReverse(f, s[1..], k);
      WithKeyAppend(f, Reverse(s[1..]), [s[0]], k);
      var head := if KeyOf(f, s[0]) == k then [s[0]] else [];
      assert WithKey(f, [s[0]], k) == head by {
        assert [s[0]][1..] == [];
      }
      ReverseAppend(head, WithKey(f, s[1..], k));
    }
  }

  lemma ReverseAppend(a: seq<Story>, b: seq<Story>)
    requires |a| <= 1
    ensures Reverse(a + b) == Reverse(b) + a
  {
    if a != [] {
      assert (a + b)[1..] == b;
      assert (a + b)[0] == a[0];
    } else {
      assert a + b == b;
    }
  }

  // ----- the SORTS table and the list shown -----

  /** The keys of the SORTS table. */
  datatype SortKey = NONE | TITLE | AUTHOR | COMMENT | POINT

  /** `SORTS[key]`: titles and authors ascending; comments and points descending by reversing the ascending sort. */
  function SortFunction(key: SortKey, list: seq<Story>): (r: seq<Story>)
    ensures |r| == |list| && multiset(r) == multiset(list)
  {
    match key
    case NONE => list
    case TITLE => SortBy(Title, list)
    case AUTHOR => SortBy(Author, list)
    case COMMENT => Reverse(SortBy(NumComments, list))
    case POINT => Reverse(SortBy(Points, list))
  }

  /** The field each sorting key orders by. */
  function FieldOf(key: SortKey): Field
    requires key != NONE
  {
    match key
    case TITLE => Title
    case AUTHOR => Author
    case COMMENT => NumComments
    case POINT => Points
  }

  /**
   * The table as promised: NONE keeps the list; TITLE and AUTHOR are stable
   * ascending sorts; COMMENT and POINT are descending, with ties in reverse
   * input order.
   */
  lemma SortFunctionOrder(key: SortKey, list: seq<Story>)
    ensures key == NONE ==> SortFunction(key, list) == list
    ensures key == TITLE || key == AUTHOR ==>
      Ascending(FieldOf(key), SortFunction(key, list)) && SameTies(FieldOf(key), SortFunction(key, list), list)
    ensures key == COMMENT || key == POINT ==>
      Descending(FieldOf(key), SortFunction(key, list)) &&
      forall k :: WithKey(FieldOf(key), SortFunction(key, list), k) == Reverse(WithKey(FieldOf(key), list, k))
  {
    if key != NONE {
      var f := FieldOf(key);
      SortByKeepsTies(f, list);
      if key == COMMENT || key == POINT {
        ReverseDescending(f, SortBy(f, list));
        forall k
          ensures WithKey(f, SortFunction(key, list), k) == Reverse(WithKey(f, list, k))
        {
          WithKeyReverse(f, SortBy(f, list), k);
        }
      }
    }
  }

  /** The sort state: which key is active and whether its order is flipped. */
  datatype SortState = SortState(sortKey: SortKey, isReverse: bool)

  const InitialSort := SortState(NONE, false)

  /** `sortedList`: the active sort function's result, reversed when `isReverse` is set. */
  function SortedList(sort: SortState, list: seq<Story>): (r: seq<Story>)
    ensures |r| == |list| && multiset(r) == multiset(list)
  {
    if sort.isReverse then Reverse(SortFunction(sort.sortKey, list)) else SortFunction(sort.sortKey, list)
  }

  /** The first rendering shows the list in its given order. */
  lemma InitialSortKeepsOrder(list: seq<Story>)
    ensures SortedList(InitialSort, list) == list
  {
  }

  /** Whether the shown list is ascending by the key's field. */
  predicate ShowsAscending(sort: SortState)
  {
    if sort.sortKey == TITLE || sort.sortKey == AUTHOR then !sort.isReverse else sort.isReverse
  }

  /** For every key but NONE the shown list is ordered by the key's field, in the direction the state selects. */
  lemma SortedListOrder(sort: SortState, list: seq<Story>)
    requires sort.sortKey != NONE
    ensures ShowsAscending(sort) ==> Ascending(FieldOf(sort.sortKey), SortedList(sort, list))
    ensures !ShowsAscending(sort) ==> Descending(FieldOf(sort.sortKey), SortedList(sort, list))
  {
    var key := sort.sortKey;
    var f := FieldOf(key);
    SortFunctionOrder(key, list);
    if sort.isReverse {
      if key == TITLE || key == AUTHOR {
        ReverseDescending(f, SortFunction(key, list));
      } else {
        ReverseAscending(f, SortFunction(key, list));
      }
    }
  }

  /** `handleSort`'s new state: the clicked key, flipped only when it was already active and not flipped. */
  function NextSort(sort: SortState, sortKey: SortKey): (r: SortState)
    ensures r.sortKey == sortKey
    ensures sortKey != sort.sortKey ==> !r.isReverse
    ensures sortKey == sort.sortKey ==> r.isReverse == !sort.isReverse
  {
    SortState(sortKey, sort.sortKey == sortKey && !sort.isReverse)
  }

  /** Clicking the active key twice returns to where it was. */
  lemma ClickTwiceRestores(sort: SortState)
    ensures NextSort(NextSort(sort, sort.sortKey), sort.sortKey) == sort
  {
  }

  /** Clicking "Comments" from the start shows most comments first; clicking it again shows fewest first. */
  lemma CommentsClicks(list: seq<Story>)
    ensures Descending(NumComments, SortedList(NextSort(InitialSort, COMMENT), list))
    ensures Ascending(NumComments, SortedList(NextSort(NextSort(InitialSort, COMMENT), COMMENT), list))
    ensures SortedList(NextSort(NextSort(InitialSort, COMMENT), COMMENT), list) == SortBy(NumComments, list)
  {
    SortedListOrder(NextSort(InitialSort, COMMENT), list);
    SortedListOrder(NextSort(NextSort(InitialSort, COMMENT), COMMENT), list);
    ReverseReverse(SortBy(NumComments, list));
  }

  /** The `sort` state of the List component and its click handler. */
  class SortControl {
    var sort: SortState

    constructor ()
      ensures sort == InitialSort
    {
      sort := InitialSort;
    }

    /**
     * `handleSort`: the clicked key becomes active; the order is flipped
     * exactly when that key was already active and not yet flipped.
     */
    method HandleSort(sortKey: SortKey)
      modifies this
      ensures sort == NextSort(old(sort), sortKey)
      ensures sort.sortKey == sortKey
      ensures sortKey != old(sort).sortKey ==> !sort.isReverse
      ensures sortKey == old(sort).sortKey ==> sort.isReverse == !old(sort).isReverse
    {
      var isReverse := sort.sortKey == sortKey && !sort.isReverse;
      sort := SortState(sortKey, isReverse);
    }

    /** The list as currently shown. */
    function Shown(list: seq<Story>): (r: seq<Story>)
      reads this
      ensures |r| == |list| && multiset(r) == multiset(list)
    {
      SortedList(sort, list)
    }
  }
}
