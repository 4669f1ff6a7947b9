/** The liked-course list that the course grid owns and every card updates,
    together with the log of toasts the cards emit. */
module Likes {
  import opened Card

  class LikedCourses {
    /** The ids of the liked courses, in the order they were liked. */
    var liked: seq<int>
    /** Every toast emitted so far, oldest first. */
    var log: seq<Notification>

    /** No id is liked twice. */
    ghost predicate Valid()
      reads this
    {
      NoDups(liked)
    }

    /** Mounting the grid: nothing is liked and no toast has been shown. */
    constructor ()
      ensures liked == [] && log == []
      ensures Valid()
    {
      liked := [];
      log := [];
    }

    /** One click on the like button of the card for `id`. */
    method ToggleLike(id: int)
      modifies this
      ensures id in old(liked) ==>
        liked == Without(old(liked), id) && log == old(log) + [Notification(Warning, UnlikedMessage)]
      ensures id !in old(liked) ==>
        liked == old(liked) + [id] && log == old(log) + [Notification(Success, LikedMessage)]
      ensures liked == Toggle(old(liked), id) && log == old(log) + [Notice(old(liked), id)]
      ensures old(Valid()) ==> Valid()
      ensures old(Valid()) && id in old(liked) ==> |liked| == |old(liked)| - 1
      ensures id !in old(liked) ==> |liked| == |old(liked)| + 1
    {
      if id in liked {
        liked := Without(liked, id);
        log := log + [Notification(Warning, UnlikedMessage)];
      } else {
        liked := liked + [id];
        log := log + [Notification(Success, LikedMessage)];
      }
      if NoDups(old(liked)) {
        ToggleKeepsNoDups(old(liked), id);
        if id in old(liked) {
          UnlikeShrinksByOne(old(liked), id);
        }
      }
    }
  }
}
