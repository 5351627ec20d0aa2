/** The photo gallery's view toggle (src/components/PhotoGallery.jsx): every
    photo has two views and one view index; the arrows rewrite one index in a
    fresh copy of the index array, and what each photo shows is a function of
    its own index. */
module Gallery {
  import Marks

  /** The number of photos in the gallery. */
  const PhotoCount: nat := 10

  /** Every view index is 0 or 1. */
  ghost predicate Binary(s: seq<nat>)
  {
    forall j :: 0 <= j < |s| ==> s[j] <= 1
  }

  /** The array `switchImage` produces from `s`: "next" adds one modulo 2,
      "prev" maps 0 to 1 and everything else to 0, any other direction
      leaves every entry as it was. */
  function Switched(s: seq<nat>, photoIndex: nat, direction: string): (r: seq<nat>)
    requires photoIndex < |s|
    ensures |r| == |s|
    ensures forall j :: 0 <= j < |s| && j != photoIndex ==> r[j] == s[j]
    ensures r[photoIndex] <= 1 || r == s
  {
    if direction == "next" then s[photoIndex := (s[photoIndex] + 1) % 2]
    else if direction == "prev" then s[photoIndex := if s[photoIndex] == 0 then 1 else 0]
    else s
  }

  /** On a binary entry both arrows flip it. */
  lemma SwitchFlipsBinary(s: seq<nat>, photoIndex: nat, direction: string)
    requires photoIndex < |s| && s[photoIndex] <= 1
    requires direction == "next" || direction == "prev"
    ensures Switched(s, photoIndex, direction)[photoIndex] == 1 - s[photoIndex]
  {
  }

  /** Switching keeps every entry binary. */
  lemma SwitchKeepsBinary(s: seq<nat>, photoIndex: nat, direction: string)
    requires photoIndex < |s| && Binary(s)
    ensures Binary(Switched(s, photoIndex, direction))
  {
  }

  /** Switching a binary entry twice in the same direction restores the array. */
  lemma SwitchTwiceRestores(s: seq<nat>, photoIndex: nat, direction: string)
    requires photoIndex < |s| && s[photoIndex] <= 1
    ensures Switched(Switched(s, photoIndex, direction), photoIndex, direction) == s
  {
    var once := Switched(s, photoIndex, direction);
    if direction == "next" || direction == "prev" {
      SwitchFlipsBinary(s, photoIndex, direction);
      SwitchFlipsBinary(once, photoIndex, direction);
    }
  }

  /** Any direction other than "next" and "prev" changes nothing. */
  lemma UnknownDirectionChangesNothing(s: seq<nat>, photoIndex: nat, direction: string)
    requires photoIndex < |s|
    requires direction != "next" && direction != "prev"
    ensures Switched(s, photoIndex, direction) == s
  {
  }

  /** On a binary entry "next" and "prev" produce the same array. */
  lemma ArrowsAgreeOnBinary(s: seq<nat>, photoIndex: nat)
    requires photoIndex < |s| && s[photoIndex] <= 1
    ensures Switched(s, photoIndex, "next") == Switched(s, photoIndex, "prev")
  {
  }

  /** The opacity class of view `view` (0 or 1) of a photo whose index is `index`. */
  function ViewOpacity(index: nat, view: nat): (r: string)
    ensures r == "opacity-100" || r == "opacity-0"
    ensures r == "opacity-100" <==> index == view
  {
    if index == view then "opacity-100" else "opacity-0"
  }

  /** The forward arrow (which switches "next") shows only on view 0. */
  function ShowsForwardArrow(index: nat): bool
  {
    index == 0
  }

  /** The back arrow (which switches "prev") shows only on view 1. */
  function ShowsBackArrow(index: nat): bool
  {
    index == 1
  }

  /** For a binary index exactly one view is opaque, the one the index names,
      and exactly one arrow shows: forward on view 0, back on view 1. */
  lemma {:induction false} ExactlyOneViewAndArrow(index: nat)
    requires index <= 1
    ensures Marks.Count([ViewOpacity(index, 0), ViewOpacity(index, 1)], "opacity-100") == 1
    ensures ViewOpacity(index, index) == "opacity-100"
    ensures ShowsForwardArrow(index) != ShowsBackArrow(index)
    ensures ShowsForwardArrow(index) <==> index == 0
  {
    var row := [ViewOpacity(index, 0), ViewOpacity(index, 1)];
    assert row == Marks.OneHot(2, index, "opacity-100", "opacity-0");
    Marks.ExactlyOneMark(2, index, "opacity-100", "opacity-0");
  }

  /** Clicking whichever arrow a photo shows brings up the other view and the other arrow. */
  lemma ArrowClickShowsOtherView(s: seq<nat>, photoIndex: nat)
    requires photoIndex < |s| && s[photoIndex] <= 1
    ensures var direction := if ShowsForwardArrow(s[photoIndex]) then "next" else "prev";
            var t := Switched(s, photoIndex, direction);
            && ViewOpacity(t[photoIndex], 1 - s[photoIndex]) == "opacity-100"
            && ViewOpacity(t[photoIndex], s[photoIndex]) == "opacity-0"
            && ShowsForwardArrow(t[photoIndex]) == ShowsBackArrow(s[photoIndex])
  {
  }

  /** The "Next" section button shows on every photo but the last, so its target is a photo. */
  function ShowsNextButton(index: nat, photoCount: nat): (r: bool)
    ensures r ==> index + 1 < photoCount
    ensures index < photoCount ==> (r <==> index != photoCount - 1)
  {
    index < photoCount - 1
  }

  /** The class of every bar in a photo's side indicator: only the photo's own bar is highlighted. */
  function SideIndicator(index: nat, photoCount: nat): (r: seq<string>)
    requires index < photoCount
    ensures |r| == photoCount
    ensures forall i :: 0 <= i < photoCount ==> (r[i] == "bg-tertiary-custom" <==> i == index)
    ensures Marks.Count(r, "bg-tertiary-custom") == 1
  {
    Marks.ExactlyOneMark(photoCount, index, "bg-tertiary-custom", "bg-light-custom");
    Marks.OneHot(photoCount, index, "bg-tertiary-custom", "bg-light-custom")
  }

  /** The gallery's view-index state. */
  class PhotoGallery {
    var currentImageIndices: array<nat>

    ghost predicate Valid()
      reads this, currentImageIndices
    {
      currentImageIndices.Length == PhotoCount && Binary(currentImageIndices[..])
    }

    /** One index per photo, all showing view 0. */
    constructor ()
      ensures Valid() && fresh(currentImageIndices)
      ensures currentImageIndices[..] == seq(PhotoCount, _ => 0)
    {
      currentImageIndices := new nat[PhotoCount](_ => 0);
    }

    /** Copy the index array, rewrite the slot of `photoIndex`, and make the
        copy the new state; the previous array is left as it was. */
    method SwitchImage(photoIndex: nat, direction: string)
      requires Valid() && photoIndex < currentImageIndices.Length
      modifies this
      ensures Valid() && fresh(currentImageIndices)
      ensures currentImageIndices[..] == Switched(old(currentImageIndices[..]), photoIndex, direction)
      ensures old(currentImageIndices)[..] == old(currentImageIndices[..])
    {
      var prev := currentImageIndices;
      var newIndices := new nat[prev.Length](i requires 0 <= i < prev.Length reads prev => prev[i]);
      if direction == "next" {
        newIndices[photoIndex] := (newIndices[photoIndex] + 1) % 2;
      } else if direction == "prev" {
        newIndices[photoIndex] := if newIndices[photoIndex] == 0 then 1 else 0;
      }
      currentImageIndices := newIndices;
      SwitchKeepsBinary(prev[..], photoIndex, direction);
    }
  }
}
