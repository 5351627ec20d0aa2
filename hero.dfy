/** The hero banner's slide controller (src/components/Hero.jsx): a slide index
    advanced by a timer or set by an indicator click, a selector naming one of
    two background layers, and the transition that paints the selected layer
    with the new slide and hides the other one. */
module Hero {
  import Marks

  datatype Option<T> = None | Some(value: T)

  /** One entry of the slide list; the list's subtitle and description are never rendered. */
  datatype Slide = Slide(bg: string, title: string)

  /** Viewport widths strictly below this are mobile (also Tailwind's `md` breakpoint). */
  const MobileBreakpoint: int := 768

  /** The value of the `activeBg` ref: background layer 1 or 2. */
  type LayerId = b: int | b == 1 || b == 2 witness 1

  /** The flip both state changes apply to `activeBg`. */
  function Flip(b: LayerId): (r: LayerId)
    ensures r != b
  {
    if b == 1 then 2 else 1
  }

  lemma FlipTwice(b: LayerId)
    ensures Flip(Flip(b)) == b
  {
  }

  /** The auto-advance target: the next slide, wrapping after the last one. */
  function NextSlide(i: nat, n: nat): (r: nat)
    requires n > 0
    ensures r < n
    ensures i + 1 < n ==> r == i + 1
    ensures i + 1 == n ==> r == 0
  {
    (i + 1) % n
  }

  /** The slide reached from `i` after `k` auto-advances. */
  function Advanced(i: nat, k: nat, n: nat): (r: nat)
    requires n > 0
  {
    if k == 0 then i else NextSlide(Advanced(i, k - 1, n), n)
  }

  /** Advancing `a` times and then `b` times is advancing `a + b` times. */
  lemma {:induction false} AdvancedCompose(i: nat, a: nat, b: nat, n: nat)
    requires n > 0
    ensures Advanced(Advanced(i, a, n), b, n) == Advanced(i, a + b, n)
  {
    if b > 0 {
      AdvancedCompose(i, a, b - 1, n);
    }
  }

  /** From slide 0 the first `n` advances visit 0, 1, ..., n-1 in order. */
  lemma {:induction false} AdvanceVisitsInOrder(k: nat, n: nat)
    requires k < n
    ensures Advanced(0, k, n) == k
  {
    if k > 0 {
      AdvanceVisitsInOrder(k - 1, n);
    }
  }

  /** After `n` advances the show is back at slide 0, and from there it repeats:
      every slide is visited, none is skipped, and the cycle has period `n`. */
  lemma AdvanceCycles(n: nat)
    requires n > 0
    ensures forall k :: 0 <= k < n ==> Advanced(0, k, n) == k
    ensures Advanced(0, n, n) == 0
    ensures forall k: nat :: Advanced(0, n + k, n) == Advanced(0, k, n)
  {
    forall k | 0 <= k < n
      ensures Advanced(0, k, n) == k
    {
      AdvanceVisitsInOrder(k, n);
    }
    AdvanceVisitsInOrder(n - 1, n);
    forall k: nat
      ensures Advanced(0, n + k, n) == Advanced(0, k, n)
    {
      AdvancedCompose(0, n, k, n);
    }
  }

  /** The CSS `background-image` value painted for a slide. */
  function Url(bg: string): (r: string)
    ensures |r| == |bg| + 5
    ensures r[..4] == "url(" && r[4..|r| - 1] == bg && r[|r| - 1] == ')'
  {
    "url(" + bg + ")"
  }

  datatype Framing = Framing(position: string, size: string)

  /** How a layer frames a slide's background at a viewport width: on desktop
      every slide is centred and covers; on mobile slide 1 is shifted left and
      stretched, every other slide is top-anchored. */
  function SlideFraming(slide: nat, width: int): (f: Framing)
    ensures width >= MobileBreakpoint ==> f == Framing("center center", "cover")
    ensures width < MobileBreakpoint ==>
      f == if slide == 1 then Framing("left center", "125% 100%") else Framing("top center", "cover")
    ensures f.size == "cover" <==> !(slide == 1 && width < MobileBreakpoint)
    ensures width < MobileBreakpoint ==> f.position != "center center"
    ensures width < MobileBreakpoint ==> (f.position == "left center" <==> slide == 1)
  {
    if slide == 1 then
      if width < MobileBreakpoint then Framing("left center", "125% 100%")
      else Framing("center center", "cover")
    else
      Framing(if width < MobileBreakpoint then "top center" else "center center", "cover")
  }

  /** One of the two absolutely positioned background `div`s; `None` in an
      inline style field means the stylesheet class decides it. */
  class Layer {
    var image: Option<string>
    var position: Option<string>
    var size: Option<string>
    var opacity: int
    var zIndex: int

    constructor (image: Option<string>, opacity: int, zIndex: int)
      ensures this.image == image && position == None && size == None
      ensures this.opacity == opacity && this.zIndex == zIndex
    {
      this.image := image;
      position := None;
      size := None;
      this.opacity := opacity;
      this.zIndex := zIndex;
    }
  }

  class HeroController {
    const slides: seq<Slide>
    const bg1: Layer
    const bg2: Layer
    var currentSlide: nat
    var prevSlide: Option<nat>
    var activeBg: LayerId
    /** The text of the main heading. */
    var heading: string

    ghost predicate Valid()
      reads this
    {
      |slides| > 0 && currentSlide < |slides| && bg1 != bg2
    }

    /** The layer `activeBg` names. */
    function ActiveLayer(): (l: Layer)
      reads this
      ensures l == bg1 || l == bg2
    {
      if activeBg == 1 then bg1 else bg2
    }

    /** The layer `activeBg` does not name. */
    function OtherLayer(): (l: Layer)
      reads this
      requires Valid()
      ensures l != ActiveLayer() && (l == bg1 || l == bg2)
    {
      if activeBg == 1 then bg2 else bg1
    }

    /** The resting picture agrees with the state: the layer `activeBg` names
        shows the current slide, opaque and in front; the other one is
        transparent behind it; the heading is the current slide's title. */
    ghost predicate Displayed()
      reads this, bg1, bg2
      requires Valid()
    {
      var shown, hidden := ActiveLayer(), OtherLayer();
      && shown.image == Some(Url(slides[currentSlide].bg))
      && shown.opacity == 1 && shown.zIndex == 2
      && hidden.opacity == 0 && hidden.zIndex == 1
      && heading == slides[currentSlide].title
    }

    /** The first render: slide 0 on layer 1, opaque in front, layer 2 transparent behind. */
    constructor (slides: seq<Slide>)
      requires |slides| > 0
      ensures this.slides == slides && Valid() && Displayed()
      ensures currentSlide == 0 && prevSlide == None && activeBg == 1
      ensures fresh(bg1) && fresh(bg2)
      ensures bg1.image == Some(Url(slides[0].bg)) && bg1.opacity == 1 && bg1.zIndex == 2
      ensures bg1.position == None && bg1.size == None
      ensures bg2.image == None && bg2.position == None && bg2.size == None
      ensures bg2.opacity == 0 && bg2.zIndex == 1
    {
      this.slides := slides;
      bg1 := new Layer(Some(Url(slides[0].bg)), 1, 2);
      bg2 := new Layer(None, 0, 1);
      currentSlide := 0;
      prevSlide := None;
      activeBg := 1;
      heading := slides[0].title;
    }

    /** The `aria-current` value of every slide indicator: exactly one says "true". */
    function IndicatorAriaCurrent(): (r: seq<string>)
      reads this
      requires Valid()
      ensures |r| == |slides|
      ensures forall i :: 0 <= i < |r| ==> (r[i] == "true" <==> i == currentSlide)
      ensures Marks.Count(r, "true") == 1
    {
      Marks.ExactlyOneMark(|slides|, currentSlide, "true", "false");
      Marks.OneHot(|slides|, currentSlide, "true", "false")
    }

    /** The interval body: remember the outgoing slide, move to the next one, flip the layer selector. */
    method Advance()
      requires Valid()
      modifies this
      ensures Valid()
      ensures prevSlide == Some(old(currentSlide))
      ensures currentSlide == NextSlide(old(currentSlide), |slides|)
      ensures activeBg == Flip(old(activeBg))
      ensures heading == old(heading)
    {
      prevSlide := Some(currentSlide);
      currentSlide := (currentSlide + 1) % |slides|;
      activeBg := if activeBg == 1 then 2 else 1;
    }

    /** An indicator click: remember the outgoing slide, jump to `index`, flip
        the layer selector, even when `index` is already the current slide. */
    method GoToSlide(index: nat)
      requires Valid() && index < |slides|
      modifies this
      ensures Valid()
      ensures prevSlide == Some(old(currentSlide))
      ensures currentSlide == index
      ensures activeBg == Flip(old(activeBg))
      ensures heading == old(heading)
    {
      prevSlide := Some(currentSlide);
      currentSlide := index;
      activeBg := if activeBg == 1 then 2 else 1;
    }

    /** The effect that re-frames slide 1 on the layer `activeBg` names. */
    method ApplySlideOneFraming(width: int)
      requires Valid()
      modifies bg1, bg2
      ensures currentSlide == 1 ==>
        && ActiveLayer().position == Some(SlideFraming(1, width).position)
        && ActiveLayer().size == Some(SlideFraming(1, width).size)
      ensures currentSlide != 1 ==> unchanged(bg1, bg2)
      ensures unchanged(OtherLayer())
      ensures unchanged(ActiveLayer()`image, ActiveLayer()`opacity, ActiveLayer()`zIndex)
    {
      var activeBgRef := if activeBg == 1 then bg1 else bg2;
      if currentSlide == 1 {
        var isMobile := width < MobileBreakpoint;
        if isMobile {
          activeBgRef.position := Some("left center");
          activeBgRef.size := Some("125% 100%");
        } else {
          activeBgRef.position := Some("center center");
          activeBgRef.size := Some("cover");
        }
      }
    }

    /** The committed end state of the transition: the layer `activeBg` names
        is painted with the current slide, framed for `width`, faded in to full
        opacity in front; the other layer is hidden behind it; the heading
        text is replaced. */
    method CommitTransition(width: int)
      requires Valid()
      modifies bg1, bg2, this`heading
      ensures Valid() && Displayed()
      ensures ActiveLayer().position == Some(SlideFraming(currentSlide, width).position)
      ensures ActiveLayer().size == Some(SlideFraming(currentSlide, width).size)
      ensures unchanged(OtherLayer()`image, OtherLayer()`position, OtherLayer()`size)
    {
      var nextBgRef := if activeBg == 1 then bg1 else bg2;
      nextBgRef.image := Some(Url(slides[currentSlide].bg));
      if currentSlide == 1 {
        if width < MobileBreakpoint {
          nextBgRef.position := Some("left center");
          nextBgRef.size := Some("125% 100%");
        } else {
          nextBgRef.position := Some("center center");
          nextBgRef.size := Some("cover");
        }
      } else {
        nextBgRef.position := Some(if width < MobileBreakpoint then "top center" else "center center");
        nextBgRef.size := Some("cover");
      }
      // set before the fade-in, then the value the fade-in ends at
      nextBgRef.opacity, nextBgRef.zIndex := 0, 2;
      nextBgRef.opacity := 1;
      heading := slides[currentSlide].title;
      // the fade-in's completion callback hides the other layer
      var prevBgRef := if activeBg == 1 then bg2 else bg1;
      prevBgRef.opacity, prevBgRef.zIndex := 0, 1;
    }

    /** The effects keyed on `currentSlide`; they run only when a state change altered it. */
    method RunSlideEffects(width: int)
      requires Valid()
      modifies bg1, bg2, this`heading
      ensures Valid() && Displayed()
      ensures ActiveLayer().position == Some(SlideFraming(currentSlide, width).position)
      ensures ActiveLayer().size == Some(SlideFraming(currentSlide, width).size)
      ensures unchanged(OtherLayer()`image, OtherLayer()`position, OtherLayer()`size)
    {
      ApplySlideOneFraming(width);
      CommitTransition(width);
    }

    /** One timer period: advance, then repaint if the slide index changed.
        With more than one slide the picture always follows the state; with a
        single slide the index stays put, nothing repaints, and the flipped
        selector names the transparent layer. */
    method Tick(width: int)
      requires Valid()
      modifies this, bg1, bg2
      ensures Valid()
      ensures prevSlide == Some(old(currentSlide))
      ensures currentSlide == NextSlide(old(currentSlide), |slides|)
      ensures activeBg == Flip(old(activeBg))
      ensures |slides| > 1 ==> Displayed()
      ensures |slides| > 1 ==> ActiveLayer().position == Some(SlideFraming(currentSlide, width).position)
      ensures |slides| > 1 ==> ActiveLayer().size == Some(SlideFraming(currentSlide, width).size)
      ensures |slides| > 1 ==> OtherLayer().image == old(ActiveLayer().image)
      ensures |slides| > 1 ==>
        OtherLayer().position == old(ActiveLayer().position) && OtherLayer().size == old(ActiveLayer().size)
      ensures |slides| == 1 ==> unchanged(bg1, bg2) && heading == old(heading)
      ensures |slides| == 1 && old(Displayed()) ==> !Displayed()
    {
      var before := currentSlide;
      Advance();
      if currentSlide != before {
        RunSlideEffects(width);
      }
    }

    /** One indicator click: go to `index`, then repaint if the slide index
        changed. Choosing a different slide keeps the picture in step with the
        state; choosing the current slide flips the selector with no repaint,
        so the selector then names the transparent layer. */
    method SelectSlide(index: nat, width: int)
      requires Valid() && index < |slides|
      modifies this, bg1, bg2
      ensures Valid()
      ensures prevSlide == Some(old(currentSlide))
      ensures currentSlide == index
      ensures activeBg == Flip(old(activeBg))
      ensures index != old(currentSlide) ==> Displayed()
      ensures index != old(currentSlide) ==> ActiveLayer().position == Some(SlideFraming(index, width).position)
      ensures index != old(currentSlide) ==> ActiveLayer().size == Some(SlideFraming(index, width).size)
      ensures index != old(currentSlide) ==> OtherLayer().image == old(ActiveLayer().image)
      ensures index != old(currentSlide) ==>
        OtherLayer().position == old(ActiveLayer().position) && OtherLayer().size == old(ActiveLayer().size)
      ensures index == old(currentSlide) ==> unchanged(bg1, bg2) && heading == old(heading)
      ensures index == old(currentSlide) && old(Displayed()) ==> !Displayed()
    {
      var before := currentSlide;
      GoToSlide(index);
      if currentSlide != before {
        RunSlideEffects(width);
      }
    }
  }

  /** The four slides of the site; only their count and order matter here. */
  function SiteSlides(): (s: seq<Slide>)
    ensures |s| == 4
  {
    [ Slide("Exterior 3", "Premium Office Suites"),
      Slide("Exterior 2", "Modern Workspaces"),
      Slide("Exterior 1", "Prime Locations"),
      Slide("Hallway 1", "Complete Solutions") ]
  }

  /** Mounting the banner: the first render, then the effects keyed on
      `currentSlide`, which React runs once on mount. Layer 1 gets slide 0's
      inline framing and the committed opacity and depth; the picture still
      matches the state. */
  method Mount(slides: seq<Slide>, width: int) returns (hero: HeroController)
    requires |slides| > 0
    ensures fresh(hero) && fresh(hero.bg1) && fresh(hero.bg2)
    ensures hero.slides == slides && hero.Valid() && hero.Displayed()
    ensures hero.currentSlide == 0 && hero.prevSlide == None && hero.activeBg == 1
    ensures hero.bg1.image == Some(Url(slides[0].bg))
    ensures hero.bg1.position == Some(SlideFraming(0, width).position)
    ensures hero.bg1.size == Some(SlideFraming(0, width).size)
    ensures hero.bg2.image == None && hero.bg2.position == None && hero.bg2.size == None
    ensures hero.bg2.opacity == 0 && hero.bg2.zIndex == 1
  {
    hero := new HeroController(slides);
    hero.RunSlideEffects(width);
  }

  /** Clicking the indicator of the slide already shown leaves the selector
      naming a layer that is fully transparent. */
  method SameSlideClickHidesSelectedLayer(width: int) returns (selectedOpacity: int, otherOpacity: int)
    ensures selectedOpacity == 0 && otherOpacity == 1
  {
    var hero := Mount(SiteSlides(), width);
    hero.SelectSlide(0, width);
    selectedOpacity := hero.ActiveLayer().opacity;
    otherOpacity := hero.OtherLayer().opacity;
  }

  /** A different slide repaints: the selected layer ends opaque with the chosen slide. */
  method OtherSlideClickShowsSelectedLayer(width: int) returns (selectedOpacity: int, selectedImage: Option<string>)
    ensures selectedOpacity == 1 && selectedImage == Some(Url(SiteSlides()[2].bg))
  {
    var hero := Mount(SiteSlides(), width);
    hero.SelectSlide(2, width);
    selectedOpacity := hero.ActiveLayer().opacity;
    selectedImage := hero.ActiveLayer().image;
  }

  /** On a mobile width, clicking slide 1 frames the selected layer "left center", stretched. */
  method MobileSlideOneClickShiftsLeft(width: int) returns (position: Option<string>, size: Option<string>)
    requires width < MobileBreakpoint
    ensures position == Some("left center") && size == Some("125% 100%")
  {
    var hero := Mount(SiteSlides(), width);
    hero.SelectSlide(1, width);
    position := hero.ActiveLayer().position;
    size := hero.ActiveLayer().size;
  }
}
