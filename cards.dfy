/** The course grid: which courses a category shows, and one card per shown
    course, all rendered against the same liked list. */
module Cards {
  import opened Card

  datatype Option<T> = None | Some(value: T)

  /** The fetched catalogue: category names paired with their courses in
      fetch order, in the order the categories appear in the payload. */
  type Collection = seq<(string, seq<Course>)>

  /** The category that selects every course. */
  const AllCategory: string := "All"

  /** What an object of the source guarantees: no category name twice. */
  ghost predicate DistinctKeys(c: Collection)
  {
    forall i, j :: 0 <= i < j < |c| ==> c[i].0 != c[j].0
  }

  predicate HasKey(c: Collection, key: string)
  {
    exists i :: 0 <= i < |c| && c[i].0 == key
  }

  /** The number of courses over all groups. */
  function TotalSize(c: Collection): (n: nat)
  {
    if c == [] then 0 else |c[0].1| + TotalSize(c[1..])
  }

  /** Every group, one after another, in collection order: as many courses
      as the groups hold together, and a course exactly when some group
      holds it. */
  function Flatten(c: Collection): (r: seq<Course>)
    ensures |r| == TotalSize(c)
    ensures forall x :: x in r <==> exists i :: 0 <= i < |c| && x in c[i].1
  {
    if c == [] then []
    else
      var r := c[0].1 + Flatten(c[1..]);
      assert forall i :: 0 <= i < |c| - 1 ==> c[1..][i] == c[i + 1];
      assert forall x :: (exists i :: 0 <= i < |c| && x in c[i].1) ==>
        x in c[0].1 || exists i :: 0 <= i < |c| - 1 && x in c[1..][i].1;
      r
  }

  /** The group stored under `key`, if any. */
  function Lookup(c: Collection, key: string): (r: Option<seq<Course>>)
    ensures r.None? <==> !HasKey(c, key)
    ensures r.Some? ==> exists i :: 0 <= i < |c| && c[i].0 == key && c[i].1 == r.value
  {
    if c == [] then None
    else if c[0].0 == key then Some(c[0].1)
    else
      var r := Lookup(c[1..], key);
      assert forall i :: 0 <= i < |c| - 1 ==> c[1..][i] == c[i + 1];
      assert HasKey(c, key) ==> HasKey(c[1..], key);
      r
  }

  /** The courses the grid shows for `category`: under "All" every course of
      every group; otherwise the group stored under that name, or none when
      no group has that name. Every course shown belongs to some group. */
  function GetCourses(c: Collection, category: string): (r: seq<Course>)
    ensures category == AllCategory ==> |r| == TotalSize(c)
    ensures category != AllCategory && HasKey(c, category) ==>
      exists i :: 0 <= i < |c| && c[i].0 == category && c[i].1 == r
    ensures category != AllCategory && !HasKey(c, category) ==> r == []
    ensures forall x :: x in r ==> exists i :: 0 <= i < |c| && x in c[i].1
  {
    if category == AllCategory then Flatten(c)
    else match Lookup(c, category)
      case Some(group) => group
      case None => []
  }

  /** One card per shown course, in the order they are shown, all of them
      reading the one liked list. */
  function RenderCards(c: Collection, category: string, liked: seq<int>): (cards: seq<CardView>)
    ensures |cards| == |GetCourses(c, category)|
    ensures forall i :: 0 <= i < |cards| ==>
      cards[i] == RenderCard(GetCourses(c, category)[i], liked)
  {
    var shown := GetCourses(c, category);
    seq(|shown|, i requires 0 <= i < |shown| => RenderCard(shown[i], liked))
  }

  lemma {:induction false} FlattenAppend(a: Collection, b: Collection)
    ensures Flatten(a + b) == Flatten(a) + Flatten(b)
  {
    if a == [] {
      assert a + b == b;
    } else {
      assert (a + b)[0] == a[0];
      assert (a + b)[1..] == a[1..] + b;
      FlattenAppend(a[1..], b);
    }
  }

  /** "All" shows the groups one after another in collection order: a single
      group shows as itself, and two collections put together show as the
      first's courses followed by the second's. */
  lemma AllInCollectionOrder(a: Collection, b: Collection, key: string, group: seq<Course>)
    ensures GetCourses([(key, group)], AllCategory) == group
    ensures GetCourses(a + b, AllCategory) == GetCourses(a, AllCategory) + GetCourses(b, AllCategory)
  {
    assert [(key, group)][1..] == [];
    assert Flatten([(key, group)]) == group + [];
    FlattenAppend(a, b);
  }

  /** A category present in the collection shows exactly its own group. */
  lemma PresentKey(c: Collection, i: nat)
    requires DistinctKeys(c)
    requires i < |c| && c[i].0 != AllCategory
    ensures GetCourses(c, c[i].0) == c[i].1
  {
    var r := Lookup(c, c[i].0);
    var j :| 0 <= j < |c| && c[j].0 == c[i].0 && c[j].1 == r.value;
    assert i == j;
  }

  /** A category absent from the collection (other than "All") shows nothing. */
  lemma AbsentKey(c: Collection, key: string)
    requires key != AllCategory && !HasKey(c, key)
    ensures GetCourses(c, key) == []
  {
  }

  /** Every course shown for one category is also shown under "All". */
  lemma SpecificWithinAll(c: Collection, key: string, x: Course)
    requires x in GetCourses(c, key)
    ensures x in GetCourses(c, AllCategory)
  {
    var i :| 0 <= i < |c| && x in c[i].1;
  }

  /** Under "All", a group sits as one contiguous block that starts after the
      courses of the groups before it. */
  lemma GroupIsBlockOfAll(c: Collection, i: nat)
    requires i < |c|
    ensures TotalSize(c[..i]) + |c[i].1| <= |GetCourses(c, AllCategory)|
    ensures GetCourses(c, AllCategory)[TotalSize(c[..i])..TotalSize(c[..i]) + |c[i].1|] == c[i].1
  {
    var before, after := c[..i], c[i + 1..];
    assert c == before + ([c[i]] + after);
    FlattenAppend(before, [c[i]] + after);
    FlattenAppend([c[i]], after);
    assert [c[i]][1..] == [];
    var all, p := Flatten(c), TotalSize(before);
    assert all == Flatten(before) + (c[i].1 + Flatten(after));
    assert all[p..p + |c[i].1|] == c[i].1;
  }

  /** A click re-renders the cards of the clicked course with the other icon
      and leaves every other card exactly as it was. */
  lemma ToggleRerendersOnlyItsCards(c: Collection, category: string, liked: seq<int>, id: int, i: nat)
    requires i < |GetCourses(c, category)|
    ensures |RenderCards(c, category, Toggle(liked, id))| == |RenderCards(c, category, liked)|
    ensures GetCourses(c, category)[i].id == id ==>
      RenderCards(c, category, Toggle(liked, id))[i].icon != RenderCards(c, category, liked)[i].icon
    ensures GetCourses(c, category)[i].id != id ==>
      RenderCards(c, category, Toggle(liked, id))[i] == RenderCards(c, category, liked)[i]
  {
    var course := GetCourses(c, category)[i];
    ToggleFlipsOnlyItsIcon(liked, id, course.id);
  }
}
