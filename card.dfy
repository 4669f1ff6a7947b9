/** One course card: the description it shows, the like icon it picks, and
    the pure part of its like toggle (the new list and the toast it emits). */
module Card {

  datatype Image = Image(url: string)

  /** A course as fetched; never changed after the fetch. */
  datatype Course = Course(id: int, title: string, description: string, image: Image)

  /** The two variants of the like button's icon. */
  datatype Icon = FcLike | FcLikePlaceholder

  /** The toast collaborator's two entry points used by a card. */
  datatype ToastKind = Success | Warning

  /** One call into the toast collaborator: which entry point, with which text. */
  datatype Notification = Notification(kind: ToastKind, message: string)

  /** What a card shows: image source and alt text, title, description, icon. */
  datatype CardView = CardView(imageSrc: string, alt: string, title: string, description: string, icon: Icon)

  const DescriptionLimit: nat := 100
  const Ellipsis: string := "..."
  const LikedMessage: string := "Liked Successfully"
  const UnlikedMessage: string := "Like removed"

  function Min(a: int, b: int): (m: int) { if a < b then a else b }

  /** The description as a card renders it: longer than the limit, it is cut
      to its first 100 characters and an ellipsis follows; otherwise it is
      shown as it is. */
  function Truncate(s: string): (r: string)
    ensures |r| <= DescriptionLimit + |Ellipsis|
    ensures s[..Min(|s|, DescriptionLimit)] <= r
    ensures |s| <= DescriptionLimit ==> r == s
    ensures |s| > DescriptionLimit ==> |r| == DescriptionLimit + |Ellipsis| && r[DescriptionLimit..] == Ellipsis
  {
    if |s| > DescriptionLimit then s[..DescriptionLimit] + Ellipsis else s
  }

  /** Truncating an already rendered description changes nothing. */
  lemma TruncateIdempotent(s: string)
    ensures Truncate(Truncate(s)) == Truncate(s)
  {
    if |s| > DescriptionLimit {
      var r := Truncate(s);
      assert r[..DescriptionLimit] == s[..DescriptionLimit];
    }
  }

  /** The descriptions a card shows verbatim are exactly those of at most 100
      characters, and the 103-character ones that already end in the ellipsis. */
  lemma TruncateFixedPoint(s: string)
    ensures Truncate(s) == s <==>
      |s| <= DescriptionLimit || (|s| == DescriptionLimit + |Ellipsis| && s[DescriptionLimit..] == Ellipsis)
  {
    if |s| == DescriptionLimit + |Ellipsis| && s[DescriptionLimit..] == Ellipsis {
      assert s == s[..DescriptionLimit] + s[DescriptionLimit..];
    }
  }

  /** The icon of the like button: the filled heart exactly for a liked id. */
  function IconFor(id: int, liked: seq<int>): (icon: Icon)
    ensures icon == FcLike <==> id in liked
    ensures icon == FcLikePlaceholder <==> id !in liked
  {
    if id in liked then FcLike else FcLikePlaceholder
  }

  /** The rendering of one card against the shared liked list. */
  function RenderCard(course: Course, liked: seq<int>): (v: CardView)
    ensures v.imageSrc == course.image.url && v.alt == course.title && v.title == course.title
    ensures v.description == Truncate(course.description)
    ensures v.icon == FcLike <==> course.id in liked
  {
    CardView(course.image.url, course.title, course.title, Truncate(course.description), IconFor(course.id, liked))
  }

  /** The list with every occurrence of `x` filtered out (strict inequality
      keeps an element). */
  function Without(s: seq<int>, x: int): (r: seq<int>)
    ensures forall y :: y in r <==> y in s && y != x
    ensures |r| <= |s|
    ensures x in s ==> |r| < |s|
  {
    if s == [] then []
    else if s[0] == x then Without(s[1..], x)
    else [s[0]] + Without(s[1..], x)
  }

  /** The liked list after one click on the card of `id`. */
  function Toggle(liked: seq<int>, id: int): (r: seq<int>)
    ensures id in r <==> id !in liked
    ensures forall y :: y != id ==> (y in r <==> y in liked)
  {
    if id in liked then Without(liked, id) else liked + [id]
  }

  /** The toast that one click on the card of `id` emits: a warning exactly
      when the id was liked, and so exactly when the click unlikes it; the
      text is fixed by the kind. */
  function Notice(liked: seq<int>, id: int): (n: Notification)
    ensures n.kind == Warning <==> id in liked
    ensures n.kind == Warning <==> id !in Toggle(liked, id)
    ensures n.message == (if n.kind == Warning then UnlikedMessage else LikedMessage)
  {
    if id in liked then Notification(Warning, UnlikedMessage) else Notification(Success, LikedMessage)
  }

  predicate NoDups(s: seq<int>)
  {
    forall i, j :: 0 <= i < j < |s| ==> s[i] != s[j]
  }

  lemma {:induction false} WithoutAbsent(s: seq<int>, x: int)
    requires x !in s
    ensures Without(s, x) == s
  {
    if s != [] {
      WithoutAbsent(s[1..], x);
      assert s == [s[0]] + s[1..];
    }
  }

  /** Filtering works piecewise, so the ids that stay keep their order. */
  lemma {:induction false} WithoutAppend(a: seq<int>, b: seq<int>, x: int)
    ensures Without(a + b, x) == Without(a, x) + Without(b, x)
  {
    if a == [] {
      assert a + b == b;
    } else {
      assert (a + b)[0] == a[0];
      assert (a + b)[1..] == a[1..] + b;
      WithoutAppend(a[1..], b, x);
    }
  }

  lemma {:induction false} WithoutKeepsNoDups(s: seq<int>, x: int)
    requires NoDups(s)
    ensures NoDups(Without(s, x))
  {
    if s != [] {
      var t := s[1..];
      assert NoDups(t) by {
        forall i, j | 0 <= i < j < |t| ensures t[i] != t[j] {
          assert t[i] == s[i + 1] && t[j] == s[j + 1];
        }
      }
      WithoutKeepsNoDups(t, x);
      if s[0] != x {
        var w := Without(t, x);
        assert s[0] !in t by {
          forall k | 0 <= k < |t| ensures t[k] != s[0] {
            assert t[k] == s[k + 1];
          }
        }
        assert s[0] !in w;
        var r := [s[0]] + w;
        forall i, j | 0 <= i < j < |r| ensures r[i] != r[j] {
          if i == 0 {
            assert r[j] == w[j - 1];
          } else {
            assert r[i] == w[i - 1] && r[j] == w[j - 1];
          }
        }
      }
    }
  }

  /** In a list without duplicates, the element at position k occurs
      neither before nor after that position. */
  lemma OccursOnlyAt(s: seq<int>, k: nat)
    requires NoDups(s) && k < |s|
    ensures s[k] !in s[..k] && s[k] !in s[k + 1..]
  {
    var before, after := s[..k], s[k + 1..];
    forall i | 0 <= i < |before| ensures before[i] != s[k] {
      assert before[i] == s[i];
    }
    forall i | 0 <= i < |after| ensures after[i] != s[k] {
      assert after[i] == s[k + 1 + i];
    }
  }

  /** In a list without duplicates, unliking the id at position k takes out
      exactly that position and keeps every other id where it was. */
  lemma RemoveAtPosition(s: seq<int>, k: nat)
    requires NoDups(s) && k < |s|
    ensures Without(s, s[k]) == s[..k] + s[k + 1..]
  {
    var x, before, after := s[k], s[..k], s[k + 1..];
    OccursOnlyAt(s, k);
    assert s == before + ([x] + after);
    calc {
      Without(s, x);
    == { WithoutAppend(before, [x] + after, x); }
      Without(before, x) + Without([x] + after, x);
    == { WithoutAbsent(before, x); }
      before + Without([x] + after, x);
    == { assert ([x] + after)[0] == x && ([x] + after)[1..] == after; }
      before + Without(after, x);
    == { WithoutAbsent(after, x); }
      before + after;
    }
  }

  /** In a list without duplicates, unliking a liked id shortens the list by
      exactly one. */
  lemma UnlikeShrinksByOne(liked: seq<int>, id: int)
    requires NoDups(liked) && id in liked
    ensures |Toggle(liked, id)| == |liked| - 1
  {
    var k :| 0 <= k < |liked| && liked[k] == id;
    RemoveAtPosition(liked, k);
  }

  /** Liking an id that is not liked and then clicking again gives back the
      list as it was. */
  lemma ToggleRoundTrip(liked: seq<int>, id: int)
    requires id !in liked
    ensures Toggle(Toggle(liked, id), id) == liked
  {
    WithoutAppend(liked, [id], id);
    WithoutAbsent(liked, id);
  }

  /** Two clicks always restore which ids are liked, whatever the start. */
  lemma ToggleTwiceMembership(liked: seq<int>, id: int, y: int)
    ensures y in Toggle(Toggle(liked, id), id) <==> y in liked
  {
  }

  /** A toggle keeps a duplicate-free list duplicate-free. */
  lemma ToggleKeepsNoDups(liked: seq<int>, id: int)
    requires NoDups(liked)
    ensures NoDups(Toggle(liked, id))
  {
    if id in liked {
      WithoutKeepsNoDups(liked, id);
    } else {
      var r := liked + [id];
      forall i, j | 0 <= i < j < |r| ensures r[i] != r[j] {
        if j == |liked| {
          assert r[i] == liked[i];
        } else {
          assert r[i] == liked[i] && r[j] == liked[j];
        }
      }
    }
  }

  /** A click flips the icon of the clicked course and of no other course. */
  lemma ToggleFlipsOnlyItsIcon(liked: seq<int>, id: int, other: int)
    ensures IconFor(id, Toggle(liked, id)) != IconFor(id, liked)
    ensures other != id ==> IconFor(other, Toggle(liked, id)) == IconFor(other, liked)
  {
  }
}
