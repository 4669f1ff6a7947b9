/** The concrete situations the repository's tests describe, stated against the
    model: the mock course, the 150-character description, the two clicks, and
    the two-group catalogue. */
module Scenarios {
  import opened Card
  import opened Likes
  import opened Cards

  function Repeat(ch: char, n: nat): (s: string)
    ensures |s| == n && forall i :: 0 <= i < n ==> s[i] == ch
  {
    seq(n, _ => ch)
  }

  const MockCourse: Course :=
    Course(1, "Test Course", "This is a test course description", Image("test-image-url"))

  /** The two-group catalogue the fetch mock resolves with. Its records
      carry only an id and a title; here each also gets an empty description
      and an empty image URL, because a card reads both fields. */
  const ReactCourse: Course := Course(1, "React Course", "", Image(""))
  const BusinessCourse: Course := Course(2, "Business 101", "", Image(""))
  const MockCollection: Collection := [("Development", [ReactCourse]), ("Business", [BusinessCourse])]

  /** The mock course renders its image, title and short description as they
      are, with the empty heart while nothing is liked. */
  lemma RendersCourseInformation()
    ensures RenderCard(MockCourse, []) ==
      CardView("test-image-url", "Test Course", "Test Course", "This is a test course description", FcLikePlaceholder)
    ensures RenderCard(MockCourse, [1]).icon == FcLike
  {
  }

  /** A run of 150 'A's renders as 100 'A's and the ellipsis. */
  lemma TruncatesLongDescription()
    ensures Truncate(Repeat('A', 150)) == Repeat('A', 100) + "..."
  {
    assert Repeat('A', 150)[..100] == Repeat('A', 100);
  }

  /** Clicking the mock course's button from nothing liked shows the success
      toast and likes it; clicking again shows the warning and unlikes it. */
  method LikeThenUnlike() returns (afterLike: seq<int>, afterUnlike: seq<int>, toasts: seq<Notification>)
    ensures afterLike == [1] && afterUnlike == []
    ensures toasts == [Notification(Success, "Liked Successfully"), Notification(Warning, "Like removed")]
  {
    var likes := new LikedCourses();
    likes.ToggleLike(MockCourse.id);
    afterLike := likes.liked;
    likes.ToggleLike(MockCourse.id);
    afterUnlike := likes.liked;
    toasts := likes.log;
  }

  /** With the two-group catalogue, "All" shows both courses and
      "Development" shows only the React course. */
  lemma FiltersMockCollection()
    ensures |GetCourses(MockCollection, "All")| == 2
    ensures GetCourses(MockCollection, "Development") == [ReactCourse]
    ensures GetCourses(MockCollection, "Design") == []
    ensures GetCourses(MockCollection, AllCategory) == [ReactCourse, BusinessCourse]
  {
    var rest := MockCollection[1..];
    assert rest == [("Business", [BusinessCourse])] && rest[1..] == [];
    assert Flatten(rest) == [BusinessCourse] + [];
    assert Flatten(MockCollection) == [ReactCourse] + Flatten(rest);
  }

  /** Mounting the grid on the two-group catalogue (with the empty
      description and image URL added above) under "All" and clicking the
      second card's button fills that card's heart and no other: every card
      reads the one shared list. */
  method ClickInGrid() returns (before: seq<CardView>, after: seq<CardView>)
    ensures |before| == 2 && |after| == 2
    ensures before[0].icon == FcLikePlaceholder && before[1].icon == FcLikePlaceholder
    ensures after[0].icon == FcLikePlaceholder && after[1].icon == FcLike
  {
    var likes := new LikedCourses();
    before := RenderCards(MockCollection, AllCategory, likes.liked);
    var shown := GetCourses(MockCollection, AllCategory);
    FiltersMockCollection();
    assert shown == [ReactCourse, BusinessCourse];
    likes.ToggleLike(shown[1].id);
    after := RenderCards(MockCollection, AllCategory, likes.liked);
  }
}
