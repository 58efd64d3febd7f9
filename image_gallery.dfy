/**
 * The detail page's image gallery: per-category loading and error flags, the fallback
 * counter that switches a raw or legacy-overlay image to its second legacy file name,
 * the enlarged-image slot, the image source paths, and the marbling comparison panel.
 */
module ImageGallery {
  import opened Js
  import opened Server
  import CarcassTable

  const AllCategories: set<Category> := {Raw, Orig, New}

  /** The categories that have a fallback counter. */
  const FallbackCategories: set<Category> := {Raw, Orig}

  // ---------------------------------------------------------------------------
  // The gallery's state as a value, and what each event does to it

  datatype Gallery = Gallery(
    loading: map<Category, bool>,
    error: map<Category, bool>,
    fallback: map<Category, int>,
    selected: Option<Category>)
  {
    predicate WellFormed()
    {
      && loading.Keys == AllCategories
      && error.Keys == AllCategories
      && fallback.Keys == FallbackCategories
      && forall c | c in fallback :: fallback[c] == 1 || fallback[c] == 2
    }
  }

  /** The state on mount and after every change of `carcassId`. */
  const Fresh := Gallery(
    map[Raw := true, Orig := true, New := true],
    map[Raw := false, Orig := false, New := false],
    map[Raw := 1, Orig := 1],
    None)

  datatype Event = ImageLoaded(c: Category) | ImageFailed(c: Category) | Opened(c: Category) | Closed | CarcassChanged

  function Step(g: Gallery, e: Event, availability: ImageAvailability): Gallery
  {
    match e
    case ImageLoaded(c) => g.(loading := g.loading[c := false])
    case ImageFailed(c) =>
      g.(loading := g.loading[c := false],
         error := g.error[c := true],
         fallback := if c in FallbackCategories && c in g.fallback && g.fallback[c] == 1
                     then g.fallback[c := 2] else g.fallback)
    case Opened(c) =>
      if availability.Available(c) && !(c in g.error && g.error[c]) then g.(selected := Some(c)) else g
    case Closed => g.(selected := None)
    case CarcassChanged => Fresh
  }

  function Run(g: Gallery, events: seq<Event>, availability: ImageAvailability): Gallery
    decreases |events|
  {
    if events == [] then g else Run(Step(g, events[0], availability), events[1..], availability)
  }

  lemma StepWellFormed(g: Gallery, e: Event, availability: ImageAvailability)
    requires g.WellFormed()
    ensures Step(g, e, availability).WellFormed()
  {
    if e.ImageLoaded? || e.ImageFailed? {
      assert e.c in AllCategories by { assert e.c == Raw || e.c == Orig || e.c == New; }
    }
  }

  /** Every reachable state has the three flags per category and a counter of 1 or 2 for raw and orig. */
  lemma {:induction false} RunWellFormed(g: Gallery, events: seq<Event>, availability: ImageAvailability)
    requires g.WellFormed()
    ensures Run(g, events, availability).WellFormed()
    decreases |events|
  {
    if events != [] {
      StepWellFormed(g, events[0], availability);
      RunWellFormed(Step(g, events[0], availability), events[1..], availability);
    }
  }

  /** Until the next change of `carcassId`, an error flag once set stays set: a later
      successful load does not clear it. */
  lemma {:induction false} ErrorSticks(g: Gallery, events: seq<Event>, availability: ImageAvailability, c: Category)
    requires g.WellFormed() && g.error[c]
    requires forall i :: 0 <= i < |events| ==> !events[i].CarcassChanged?
    ensures Run(g, events, availability).WellFormed()
    ensures Run(g, events, availability).error[c]
    decreases |events|
  {
    RunWellFormed(g, events, availability);
    if events != [] {
      var g' := Step(g, events[0], availability);
      StepWellFormed(g, events[0], availability);
      assert forall i :: 0 <= i < |events[1..]| ==> !events[1..][i].CarcassChanged? by {
        forall i | 0 <= i < |events[1..]| ensures !events[1..][i].CarcassChanged? {
          assert events[1..][i] == events[i + 1];
        }
      }
      ErrorSticks(g', events[1..], availability, c);
    }
  }

  /** Until the next change of `carcassId`, the fallback counter never goes back from 2 to 1. */
  lemma {:induction false} FallbackNeverReturns(g: Gallery, events: seq<Event>, availability: ImageAvailability, c: Category)
    requires g.WellFormed() && c in FallbackCategories && g.fallback[c] == 2
    requires forall i :: 0 <= i < |events| ==> !events[i].CarcassChanged?
    ensures Run(g, events, availability).WellFormed()
    ensures Run(g, events, availability).fallback[c] == 2
    decreases |events|
  {
    RunWellFormed(g, events, availability);
    if events != [] {
      var g' := Step(g, events[0], availability);
      StepWellFormed(g, events[0], availability);
      assert forall i :: 0 <= i < |events[1..]| ==> !events[1..][i].CarcassChanged? by {
        forall i | 0 <= i < |events[1..]| ensures !events[1..][i].CarcassChanged? {
          assert events[1..][i] == events[i + 1];
        }
      }
      FallbackNeverReturns(g', events[1..], availability, c);
    }
  }

  /** The first failure of a raw or legacy-overlay image moves its counter to 2; the new
      overlay has no counter. */
  lemma FirstFailureSwitchesFallback(g: Gallery, c: Category, availability: ImageAvailability)
    requires g.WellFormed()
    ensures var g' := Step(g, ImageFailed(c), availability);
      && g'.loading[c] == false && g'.error[c] == true
      && (c in FallbackCategories ==> g'.fallback[c] == 2)
      && (forall d | d in FallbackCategories && d != c :: g'.fallback[d] == g.fallback[d])
      && (forall d | d in AllCategories && d != c :: g'.loading[d] == g.loading[d] && g'.error[d] == g.error[d])
  {
  }

  // ---------------------------------------------------------------------------
  // The component's state

  class GalleryState {
    var imageLoading: map<Category, bool>
    var imageError: map<Category, bool>
    var selectedImage: Option<Category>
    var fallback: map<Category, int>

    function Snapshot(): Gallery
      reads this
    {
      Gallery(imageLoading, imageError, fallback, selectedImage)
    }

    ghost predicate Valid()
      reads this
    {
      Snapshot().WellFormed()
    }

    constructor ()
      ensures Valid() && Snapshot() == Fresh
    {
      imageLoading := map[Raw := true, Orig := true, New := true];
      imageError := map[Raw := false, Orig := false, New := false];
      selectedImage := None;
      fallback := map[Raw := 1, Orig := 1];
    }

    /** The effect that runs when `carcassId` changes. */
    method ResetForCarcass()
      modifies this
      ensures Valid()
      ensures Snapshot() == Step(old(Snapshot()), CarcassChanged, ImageAvailability(false, false, false, ImagePaths(None, None, None)))
      ensures forall c | c in AllCategories :: imageLoading[c] && !imageError[c]
      ensures selectedImage == None && fallback == map[Raw := 1, Orig := 1]
    {
      imageLoading := map[Raw := true, Orig := true, New := true];
      imageError := map[Raw := false, Orig := false, New := false];
      selectedImage := None;
      fallback := map[Raw := 1, Orig := 1];
    }

    method HandleImageLoad(t: Category)
      requires Valid()
      modifies this
      ensures Valid()
      ensures forall availability :: Snapshot() == Step(old(Snapshot()), ImageLoaded(t), availability)
      ensures imageLoading == old(imageLoading)[t := false]
      ensures imageError == old(imageError) && fallback == old(fallback) && selectedImage == old(selectedImage)
    {
      imageLoading := imageLoading[t := false];
    }

    method HandleImageError(t: Category)
      requires Valid()
      modifies this
      ensures Valid()
      ensures forall availability :: Snapshot() == Step(old(Snapshot()), ImageFailed(t), availability)
      ensures imageLoading == old(imageLoading)[t := false] && imageError == old(imageError)[t := true]
      ensures fallback == if t in FallbackCategories && old(fallback)[t] == 1 then old(fallback)[t := 2] else old(fallback)
      ensures selectedImage == old(selectedImage)
    {
      ghost var none := ImageAvailability(false, false, false, ImagePaths(None, None, None));
      ghost var before := Snapshot();
      StepWellFormed(before, ImageFailed(t), none);
      imageLoading := imageLoading[t := false];
      imageError := imageError[t := true];
      if t == Raw && fallback[Raw] == 1 {
        fallback := fallback[Raw := 2];
      }
      if t == Orig && fallback[Orig] == 1 {
        fallback := fallback[Orig := 2];
      }
      assert Snapshot() == Step(before, ImageFailed(t), none);
    }

    method OpenModal(t: Category, availability: ImageAvailability)
      requires Valid()
      modifies this
      ensures Valid()
      ensures Snapshot() == Step(old(Snapshot()), Opened(t), availability)
      ensures selectedImage == if availability.Available(t) && !old(imageError)[t] then Some(t) else old(selectedImage)
      ensures imageLoading == old(imageLoading) && imageError == old(imageError) && fallback == old(fallback)
    {
      if availability.Available(t) && !imageError[t] {
        selectedImage := Some(t);
      }
    }

    method CloseModal()
      requires Valid()
      modifies this
      ensures Valid()
      ensures forall availability :: Snapshot() == Step(old(Snapshot()), Closed, availability)
      ensures selectedImage == None
      ensures imageLoading == old(imageLoading) && imageError == old(imageError) && fallback == old(fallback)
    {
      selectedImage := None;
    }
  }

  // ---------------------------------------------------------------------------
  // Image sources

  /** `paths.x` used as a condition: present and not the empty string. */
  predicate Truthy(p: Option<string>)
  {
    p.Some? && p.value != ""
  }

  /** The `imageSources` entry for category `c`; `fallbackNumber` is `fallback[c]`,
      which the new overlay does not use. */
  function ImageSource(c: Category, availability: ImageAvailability, fallbackNumber: int, carcassId: string): string
  {
    var prefix := "/images/" + Dir(c) + "/";
    prefix + (
      if Truthy(availability.PathOf(c)) then availability.PathOf(c).value
      else
        match c
        case Raw => "0000" + carcassId + (if fallbackNumber == 1 then "-1c.jpg" else "-2c.jpg")
        case Orig => "0000" + carcassId + (if fallbackNumber == 1 then "-1s.jpg" else "-2s.jpg")
        case New => "processed_" + carcassId + ".jpg")
  }

  /** Every source lies in the directory of its category, and names the resolved file when
      there is one, the numbered legacy file otherwise. */
  lemma ImageSourceMeaning(c: Category, availability: ImageAvailability, n: int, id: string)
    ensures var src := ImageSource(c, availability, n, id);
      var prefix := "/images/" + Dir(c) + "/";
      && |prefix| <= |src| && src[..|prefix|] == prefix
      && (Truthy(availability.PathOf(c)) ==> src[|prefix|..] == availability.PathOf(c).value)
      && (!Truthy(availability.PathOf(c)) && c == Raw ==>
            src[|prefix|..] == "0000" + id + (if n == 1 then "-1c.jpg" else "-2c.jpg"))
      && (!Truthy(availability.PathOf(c)) && c == Orig ==>
            src[|prefix|..] == "0000" + id + (if n == 1 then "-1s.jpg" else "-2s.jpg"))
      && (!Truthy(availability.PathOf(c)) && c == New ==> src[|prefix|..] == "processed_" + id + ".jpg")
  {
    var src := ImageSource(c, availability, n, id);
    var prefix := "/images/" + Dir(c) + "/";
    var file :=
      if Truthy(availability.PathOf(c)) then availability.PathOf(c).value
      else if c == Raw then "0000" + id + (if n == 1 then "-1c.jpg" else "-2c.jpg")
      else if c == Orig then "0000" + id + (if n == 1 then "-1s.jpg" else "-2s.jpg")
      else "processed_" + id + ".jpg";
    assert src == prefix + file;
    SplitAfterPrefix(prefix, file);
  }

  lemma SplitAfterPrefix(prefix: string, rest: string)
    ensures |prefix| <= |prefix + rest|
    ensures (prefix + rest)[..|prefix|] == prefix && (prefix + rest)[|prefix|..] == rest
  {
  }

  /** Against a response of the image route, an available category is always shown from the
      file the server found, in the directory it probed; the fallback names are used only
      for categories the server reported missing. */
  lemma AvailableUsesResolvedFile(files: set<string>, imagesRoot: string, id: string,
                                  images: ImageAvailability, c: Category, n: int)
    requires CategoryReport(images, c, files, imagesRoot, id)
    requires images.Available(c)
    ensures exists k :: (0 <= k < |Extensions| && FirstExisting(files, BasePath(imagesRoot, c, id), k)
      && ImageSource(c, images, n, id) == "/images/" + Dir(c) + "/" + id + Extensions[k])
  {
    var k :| 0 <= k < |Extensions| && FirstExisting(files, BasePath(imagesRoot, c, id), k)
      && images.PathOf(c) == Some(id + Extensions[k]);
    assert Truthy(images.PathOf(c));
  }

  // ---------------------------------------------------------------------------
  // The marbling comparison panel

  /** `calculateDifference`'s result, before `toFixed(1)`. */
  datatype Delta = Delta(percent: real, isPositive: bool)

  /** `!x` for a numeric column: null and zero are falsy. */
  predicate Falsy(x: Option<real>)
  {
    x.None? || x.value == 0.0
  }

  function CalculateDifference(legacy: Option<real>, predict: Option<real>): (r: Option<Delta>)
    ensures r.None? <==> Falsy(legacy) || Falsy(predict)
    ensures r.Some? ==> r.value.percent * legacy.value == (predict.value - legacy.value) * 100.0
    ensures r.Some? ==> (r.value.isPositive <==> r.value.percent > 0.0)
  {
    if Falsy(legacy) || Falsy(predict) then None
    else
      var diff := (predict.value - legacy.value) / legacy.value * 100.0;
      Some(Delta(diff, diff > 0.0))
  }

  /** With a positive legacy value the delta is positive exactly when the prediction is larger. */
  lemma DifferenceSign(legacy: real, predict: real)
    requires legacy > 0.0 && predict != 0.0
    ensures CalculateDifference(Some(legacy), Some(predict)).value.isPositive <==> predict > legacy
  {
    var p := CalculateDifference(Some(legacy), Some(predict)).value.percent;
    assert p * legacy == (predict - legacy) * 100.0;
    if p > 0.0 {
      assert p * legacy > 0.0;
    } else {
      assert p * legacy <= 0.0;
    }
  }

  lemma DifferenceExamples()
    ensures CalculateDifference(Some(100.0), Some(110.0)) == Some(Delta(10.0, true))
    ensures CalculateDifference(Some(100.0), Some(90.0)) == Some(Delta(-10.0, false))
    ensures forall p :: CalculateDifference(Some(0.0), p) == None
    ensures forall l :: CalculateDifference(l, None) == None
  {
  }

  /** The grade and quality "changed" badge: the legacy and predicted values differ under `!==`. */
  predicate Changed(legacy: Value, predict: Value)
  {
    legacy != predict
  }

  /** The badge is stricter than the list table's highlighting: it also fires when one side is
      null and when two numbers are within the table's tolerance. */
  lemma ChangedVersusTableHighlight(legacy: Value, predict: Value)
    ensures CarcassTable.IsDifferent(legacy, predict) ==> Changed(legacy, predict)
    ensures Changed(legacy, predict) && !CarcassTable.IsDifferent(legacy, predict) <==>
      legacy != predict && (legacy.Null? || predict.Null? || (legacy.Num? && predict.Num?
        && CarcassTable.Abs(legacy.n - predict.n) <= CarcassTable.Tolerance))
  {
  }

  /** The comparison panel is shown only when both analysis overlays exist. */
  function ShowComparison(availability: ImageAvailability): (r: bool)
    ensures r <==> availability.Available(Orig) && availability.Available(New)
  {
    availability.orig && availability.newImage
  }

  /** Against a response of the image route, whenever the panel is shown both overlays it
      compares are the files the server found in their own directories. */
  lemma ComparisonShowsResolvedOverlays(files: set<string>, imagesRoot: string, id: string,
                                        images: ImageAvailability, n: int)
    requires CategoryReport(images, Orig, files, imagesRoot, id)
    requires CategoryReport(images, New, files, imagesRoot, id)
    requires ShowComparison(images)
    ensures exists k :: (0 <= k < |Extensions| && FirstExisting(files, BasePath(imagesRoot, Orig, id), k)
      && ImageSource(Orig, images, n, id) == "/images/" + Dir(Orig) + "/" + id + Extensions[k])
    ensures exists k :: (0 <= k < |Extensions| && FirstExisting(files, BasePath(imagesRoot, New, id), k)
      && ImageSource(New, images, n, id) == "/images/" + Dir(New) + "/" + id + Extensions[k])
  {
    AvailableUsesResolvedFile(files, imagesRoot, id, images, Orig, n);
    AvailableUsesResolvedFile(files, imagesRoot, id, images, New, n);
  }
}
