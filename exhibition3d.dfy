/**
 * The 3D exhibition viewer of src/components/Exhibition3D.tsx with the graphics
 * library taken away: the viewer's state machine, the index of the artwork on show,
 * the info-panel flag, and what the scene keeps per artwork frame (its position, the
 * scale it is animated towards, how many glow overlays it carries) together with the
 * spotlights in the scene. An animation is modelled by the value it animates towards.
 */
module Exhibition3D {
  import opened Wrappers

  /** An entry of the `artworks` table. */
  datatype Artwork = Artwork(
    id: string, title: string, artist: string, year: string, image: string, description: string)

  /** `ExhibitionState`: which overlay is shown. */
  datatype ExhibitionState = Entrance | CategorySelection | ExhibitionHall

  /** JavaScript truthiness of `selectedCategory: string | null`: null and "" are both falsy. */
  predicate IsSelected(category: Option<string>) {
    category.Some? && category.value != ""
  }

  // ---------------------------------------------------------------------------
  // Frame layout
  // ---------------------------------------------------------------------------

  /**
   * The x position of frame i of n: `(i - (n - 1) / 2) * 5`, computed exactly. The n
   * frames lie within the span centred on x = 0, and an odd row has its middle frame
   * at the centre.
   */
  function FrameX(i: int, n: nat): (x: real)
    ensures 0 <= i < n ==> -((n as real) - 1.0) * 2.5 <= x <= ((n as real) - 1.0) * 2.5
    ensures 2 * i == n - 1 ==> x == 0.0
  {
    ((i as real) - ((n as real) - 1.0) / 2.0) * 5.0
  }

  /** Every frame hangs at this height and depth; the spotlight target shares them. */
  const FrameY: real := 3.0
  const FrameZ: real := -4.9

  /** Neighbouring frames are 5 units apart. */
  lemma FrameSpacing(i: int, n: nat)
    ensures FrameX(i + 1, n) - FrameX(i, n) == 5.0
  {
  }

  /** The row is centred: frame i mirrors frame n - 1 - i. */
  lemma FrameSymmetry(i: int, n: nat)
    ensures FrameX(i, n) == -FrameX(n - 1 - i, n)
  {
  }

  const HighlightScale: real := 1.1
  const NormalScale: real := 1.0

  /**
   * A frame mesh as far as the viewer's logic sees it: its x position, the artwork it
   * shows (`userData.artworkIndex`), the uniform scale it was last sent towards, the
   * number of children named 'glow', and whether the loaded picture has been attached.
   */
  datatype Frame = Frame(x: real, artworkIndex: nat, targetScale: real, glowCount: nat, hasArt: bool)

  /** A SpotLight of the scene: its x position and its target's x (target y and z are FrameY, FrameZ). */
  datatype Spotlight = Spotlight(x: real, targetX: real)

  /**
   * The frames handleCategorySelect creates for n artworks, in artwork order: frame i
   * shows artwork i at FrameX(i, n); only frame 0 starts enlarged; none glows yet.
   */
  function Layout(n: nat): (frames: seq<Frame>)
    ensures |frames| == n
    ensures forall i :: 0 <= i < n ==>
      frames[i].artworkIndex == i && frames[i].x == FrameX(i, n) && frames[i].glowCount == 0 && !frames[i].hasArt
    ensures forall i :: 0 <= i < n ==> (frames[i].targetScale == HighlightScale <==> i == 0)
  {
    seq(n, i requires 0 <= i < n => Frame(FrameX(i, n), i, if i == 0 then HighlightScale else NormalScale, 0, false))
  }

  // ---------------------------------------------------------------------------
  // Highlighting
  // ---------------------------------------------------------------------------

  predicate GlowsAtMostOnce(frames: seq<Frame>) {
    forall i :: 0 <= i < |frames| ==> frames[i].glowCount <= 1
  }

  /**
   * One step of updateArtworkHighlight's forEach: scale towards 1.1 or 1; add a glow to
   * the current frame if it has none; remove one glow (the first one found) from any
   * other frame that has one.
   */
  function HighlightedFrame(f: Frame, isCurrent: bool): Frame {
    f.(targetScale := if isCurrent then HighlightScale else NormalScale,
       glowCount := if isCurrent && f.glowCount == 0 then 1
                    else if !isCurrent && f.glowCount > 0 then f.glowCount - 1
                    else f.glowCount)
  }

  /**
   * The frames after highlighting frame k. Position, artwork and picture stay; frame k
   * is sent to 1.1 and every other frame to 1; frame k keeps its glows or gets one if it
   * has none; every other frame loses exactly one glow if it has any; so when no frame
   * carried two glows before, exactly frame k glows afterwards.
   */
  function Highlighted(frames: seq<Frame>, k: int): (r: seq<Frame>)
    ensures |r| == |frames|
    ensures forall i :: 0 <= i < |r| ==>
      r[i].x == frames[i].x && r[i].artworkIndex == frames[i].artworkIndex && r[i].hasArt == frames[i].hasArt
    ensures forall i :: 0 <= i < |r| ==> r[i].targetScale == if i == k then HighlightScale else NormalScale
    ensures 0 <= k < |r| ==> r[k].glowCount >= 1
    ensures 0 <= k < |r| ==> r[k].glowCount == if frames[k].glowCount == 0 then 1 else frames[k].glowCount
    ensures forall i :: 0 <= i < |r| && i != k ==>
      r[i].glowCount == if frames[i].glowCount > 0 then frames[i].glowCount - 1 else 0
    ensures GlowsAtMostOnce(frames) ==> GlowsAtMostOnce(r)
    ensures GlowsAtMostOnce(frames) ==> forall i :: 0 <= i < |r| ==> r[i].glowCount == if i == k then 1 else 0
  {
    seq(|frames|, i requires 0 <= i < |frames| => HighlightedFrame(frames[i], i == k))
  }

  /** Re-applying a highlight (the effect that re-highlights after a state change) changes nothing more. */
  lemma HighlightIdempotent(frames: seq<Frame>, k: int)
    requires GlowsAtMostOnce(frames)
    ensures Highlighted(Highlighted(frames, k), k) == Highlighted(frames, k)
  {
  }

  /** Under the glow invariant, where one navigated from does not matter. */
  lemma HighlightForgetsHistory(frames: seq<Frame>, j: int, k: int)
    requires GlowsAtMostOnce(frames)
    ensures Highlighted(Highlighted(frames, j), k) == Highlighted(frames, k)
  {
  }

  /**
   * updateArtworkHighlight moves the FIRST SpotLight of the scene (`children.find`) to
   * frame k; the others stay. When k names no frame, nothing moves.
   */
  function RetargetSpotlight(spots: seq<Spotlight>, frames: seq<Frame>, k: int): (r: seq<Spotlight>)
    ensures |r| == |spots|
    ensures forall j :: 1 <= j < |r| ==> r[j] == spots[j]
    ensures 0 <= k < |frames| && |spots| > 0 ==> r[0].x == frames[k].x && r[0].targetX == frames[k].x
    ensures !(0 <= k < |frames|) ==> r == spots
  {
    if 0 <= k < |frames| && |spots| > 0 then spots[0 := Spotlight(frames[k].x, frames[k].x)] else spots
  }

  /**
   * img.onload for frame i: the picture is attached, and frame 0 gets a glow without
   * checking whether it already has one.
   */
  function AfterImageLoad(frames: seq<Frame>, i: nat): (r: seq<Frame>)
    requires i < |frames|
    ensures |r| == |frames| && r[i].hasArt
    ensures r[i].x == frames[i].x && r[i].artworkIndex == frames[i].artworkIndex
    ensures r[i].targetScale == frames[i].targetScale
    ensures forall j :: 0 <= j < |r| && j != i ==> r[j] == frames[j]
    ensures r[i].glowCount == if i == 0 then frames[i].glowCount + 1 else frames[i].glowCount
  {
    frames[i := frames[i].(hasArt := true, glowCount := if i == 0 then frames[i].glowCount + 1 else frames[i].glowCount)]
  }

  /**
   * A picture that loads while its frame is highlighted gives frame 0 a second glow.
   * Going to frame 1 pre-highlights it and leaves frame 0 still glowing; the effect's
   * re-highlight of frame 1, once its timer fires, removes that last glow.
   */
  lemma ImageLoadGlowIsTransient(n: nat)
    requires n >= 2
    ensures var shown := Highlighted(Layout(n), 0);
      var loaded := AfterImageLoad(shown, 0);
      var next := Highlighted(loaded, 1);
      var settled := Highlighted(next, 1);
      GlowsAtMostOnce(shown) && !GlowsAtMostOnce(loaded) && loaded[0].glowCount == 2
      && next[0].glowCount == 1 && next[1].glowCount == 1
      && settled[0].glowCount == 0 && settled[1].glowCount == 1
  {
  }

  /**
   * A picture of frame 0 that loads after the visitor has moved on to frame 1 (both the
   * pre-highlight and the effect's re-highlight done) gives frame 0 a glow beside frame
   * 1's. No further highlight follows, because the index does not change.
   */
  lemma LateImageLoadLeavesTwoGlows(n: nat)
    requires n >= 2
    ensures var moved := Highlighted(Highlighted(Highlighted(Layout(n), 0), 1), 1);
      var loaded := AfterImageLoad(moved, 0);
      GlowsAtMostOnce(moved) && loaded[0].glowCount == 1 && loaded[1].glowCount == 1
      && loaded[1].targetScale == HighlightScale && loaded[0].targetScale == NormalScale
  {
  }

  /**
   * The walk-through of three paintings: showing frame 2 and then frame 0 leaves frame
   * 0 glowing and enlarged, frame 2 back at scale 1 without glow, and the spotlight on
   * frame 0.
   */
  lemma BackAndForthScenario(spots: seq<Spotlight>)
    requires |spots| > 0
    ensures var frames := Highlighted(Highlighted(Layout(3), 2), 0);
      var light := RetargetSpotlight(RetargetSpotlight(spots, Layout(3), 2), Highlighted(Layout(3), 2), 0);
      frames[0].glowCount == 1 && frames[0].targetScale == HighlightScale
      && frames[2].glowCount == 0 && frames[2].targetScale == NormalScale
      && light[0].x == FrameX(0, 3) && light[0].targetX == FrameX(0, 3)
  {
  }

  // ---------------------------------------------------------------------------
  // The component
  // ---------------------------------------------------------------------------

  predicate NoEmptyCategory(catalog: map<string, seq<Artwork>>) {
    forall c :: c in catalog ==> |catalog[c]| > 0
  }

  /**
   * The component's state: the React state fields, `artworkFramesRef.current` and the
   * spotlights among `scene.children` (oldest first: lights are never removed).
   */
  class Exhibition {
    /** The `artworks` table, fixed for the component's lifetime. */
    const catalog: map<string, seq<Artwork>>

    var exhibitionState: ExhibitionState
    var selectedCategory: Option<string>
    var currentArtworkIndex: int
    var showArtworkInfo: bool
    var frames: array<Frame>
    var spotlights: seq<Spotlight>

    /**
     * A selected category is in the table, the frames are that category's, and the index
     * is inside it (or 0 for a category with no artworks); frame i always shows artwork
     * i at FrameX(i, n).
     */
    ghost predicate Valid()
      reads this, frames
    {
      && 0 <= currentArtworkIndex
      && (exhibitionState == ExhibitionHall ==> selectedCategory.Some?)
      && (selectedCategory.Some? ==>
            && selectedCategory.value in catalog
            && frames.Length == |catalog[selectedCategory.value]|
            && (currentArtworkIndex == 0 || currentArtworkIndex < frames.Length))
      && (forall i :: 0 <= i < frames.Length ==>
            frames[i].artworkIndex == i && frames[i].x == FrameX(i, frames.Length))
    }

    /** The mounted component before any interaction (state at lines 127-131). */
    constructor (catalog: map<string, seq<Artwork>>)
      ensures Valid() && fresh(frames)
      ensures this.catalog == catalog
      ensures exhibitionState == Entrance && selectedCategory == None && currentArtworkIndex == 0
      ensures !showArtworkInfo && frames.Length == 0 && spotlights == []
    {
      this.catalog := catalog;
      exhibitionState := Entrance;
      selectedCategory := None;
      currentArtworkIndex := 0;
      showArtworkInfo := false;
      frames := new Frame[0];
      spotlights := [];
    }

    /** startTour: on to the category choice. */
    method StartTour()
      requires Valid()
      modifies this`exhibitionState
      ensures Valid()
      ensures exhibitionState == CategorySelection
    {
      exhibitionState := CategorySelection;
    }

    /** returnToCategorySelection: back to the choice, no category, panel closed; frames stay. */
    method ReturnToCategorySelection()
      requires Valid()
      modifies this`exhibitionState, this`selectedCategory, this`showArtworkInfo
      ensures Valid()
      ensures exhibitionState == CategorySelection && selectedCategory == None && !showArtworkInfo
    {
      exhibitionState := CategorySelection;
      selectedCategory := None;
      showArtworkInfo := false;
    }

    /** toggleArtworkInfo. */
    method ToggleArtworkInfo()
      requires Valid()
      modifies this`showArtworkInfo
      ensures Valid()
      ensures showArtworkInfo == !old(showArtworkInfo)
    {
      showArtworkInfo := !showArtworkInfo;
    }

    /**
     * handleCategorySelect: select the category, show its first artwork in the hall with
     * the panel closed, add a spotlight aimed at the first frame, and lay out one new
     * frame per artwork.
     */
    method HandleCategorySelect(categoryId: string)
      requires Valid() && categoryId in catalog
      modifies this
      ensures Valid() && fresh(frames)
      ensures selectedCategory == Some(categoryId) && currentArtworkIndex == 0
      ensures exhibitionState == ExhibitionHall && !showArtworkInfo
      ensures frames[..] == Layout(|catalog[categoryId]|)
      ensures spotlights == old(spotlights) +
        [Spotlight(FrameX(0, |catalog[categoryId]|), FrameX(0, |catalog[categoryId]|))]
    {
      selectedCategory := Some(categoryId);
      currentArtworkIndex := 0;
      exhibitionState := ExhibitionHall;
      showArtworkInfo := false;

      var selectedArtworks := catalog[categoryId];
      var totalArtworks := |selectedArtworks|;
      var firstArtworkPosX := FrameX(0, totalArtworks);
      spotlights := spotlights + [Spotlight(firstArtworkPosX, firstArtworkPosX)];

      var created := new Frame[totalArtworks];
      for index := 0 to totalArtworks
        modifies created
        invariant forall j :: 0 <= j < index ==> created[j] == Layout(totalArtworks)[j]
      {
        var posX := FrameX(index, totalArtworks);
        var scale := if index == 0 then HighlightScale else NormalScale;
        created[index] := Frame(posX, index, scale, 0, false);
      }
      assert created[..] == Layout(totalArtworks);
      frames := created;
    }

    /**
     * updateArtworkHighlight: nothing without frames or without a selected category;
     * otherwise every frame is highlighted or reset and the first spotlight follows
     * frame newIndex.
     */
    method UpdateArtworkHighlight(newIndex: int)
      requires Valid()
      modifies this`spotlights, frames
      ensures Valid()
      ensures frames.Length == 0 || !IsSelected(selectedCategory) ==>
        frames[..] == old(frames[..]) && spotlights == old(spotlights)
      ensures frames.Length > 0 && IsSelected(selectedCategory) ==>
        frames[..] == Highlighted(old(frames[..]), newIndex)
        && spotlights == RetargetSpotlight(old(spotlights), old(frames[..]), newIndex)
    {
      if frames.Length == 0 || !IsSelected(selectedCategory) {
        return;
      }
      var i := 0;
      while i < frames.Length
        invariant 0 <= i <= frames.Length
        invariant forall j :: 0 <= j < i ==> frames[j] == HighlightedFrame(old(frames[j]), j == newIndex)
        invariant forall j :: i <= j < frames.Length ==> frames[j] == old(frames[j])
        invariant spotlights ==
          if 0 <= newIndex < i then RetargetSpotlight(old(spotlights), old(frames[..]), newIndex)
          else old(spotlights)
      {
        var frame := frames[i];
        var isCurrentArtwork := i == newIndex;
        var scale := if isCurrentArtwork then HighlightScale else NormalScale;
        var glows := frame.glowCount;
        if isCurrentArtwork && glows == 0 {
          glows := 1;
        } else if !isCurrentArtwork && glows > 0 {
          glows := glows - 1;
        }
        frames[i] := frame.(targetScale := scale, glowCount := glows);
        if isCurrentArtwork && |spotlights| > 0 {
          spotlights := spotlights[0 := Spotlight(frame.x, frame.x)];
        }
        i := i + 1;
      }
      assert frames[..] == Highlighted(old(frames[..]), newIndex);
    }

    /** highlightCurrentArtwork: highlight the frame of the current index. */
    method HighlightCurrentArtwork()
      requires Valid()
      modifies this`spotlights, frames
      ensures Valid()
      ensures frames.Length > 0 && IsSelected(selectedCategory) ==>
        frames[..] == Highlighted(old(frames[..]), currentArtworkIndex)
        && spotlights == RetargetSpotlight(old(spotlights), old(frames[..]), currentArtworkIndex)
      ensures frames.Length == 0 || !IsSelected(selectedCategory) ==>
        frames[..] == old(frames[..]) && spotlights == old(spotlights)
    {
      UpdateArtworkHighlight(currentArtworkIndex);
    }

    /**
     * The effect on [currentArtworkIndex, exhibitionState, selectedCategory], once its
     * 50 ms timer fires: in the hall with a selected category, highlight the current frame.
     */
    method HighlightEffect()
      requires Valid()
      modifies this`spotlights, frames
      ensures Valid()
      ensures exhibitionState == ExhibitionHall && IsSelected(selectedCategory) && frames.Length > 0 ==>
        frames[..] == Highlighted(old(frames[..]), currentArtworkIndex)
        && spotlights == RetargetSpotlight(old(spotlights), old(frames[..]), currentArtworkIndex)
      ensures !(exhibitionState == ExhibitionHall && IsSelected(selectedCategory) && frames.Length > 0) ==>
        frames[..] == old(frames[..]) && spotlights == old(spotlights)
    {
      if exhibitionState == ExhibitionHall && IsSelected(selectedCategory) {
        HighlightCurrentArtwork();
      }
    }

    /** The guard of goToNextArtwork: a category is selected and the current artwork is not its last. */
    ghost predicate CanGoNext()
      reads this
    {
      IsSelected(selectedCategory) && selectedCategory.value in catalog
      && currentArtworkIndex < |catalog[selectedCategory.value]| - 1
    }

    /** The guard of goToPrevArtwork: a category is selected and the current artwork is not the first. */
    ghost predicate CanGoPrev()
      reads this
    {
      IsSelected(selectedCategory) && currentArtworkIndex > 0
    }

    /**
     * goToNextArtwork: when allowed, highlight the next frame first, then advance the
     * index and open the panel; otherwise nothing changes.
     */
    method GoToNextArtwork()
      requires Valid()
      modifies this`currentArtworkIndex, this`showArtworkInfo, this`spotlights, frames
      ensures Valid()
      ensures old(CanGoNext()) ==>
        currentArtworkIndex == old(currentArtworkIndex) + 1 && showArtworkInfo
        && frames[..] == Highlighted(old(frames[..]), currentArtworkIndex)
        && spotlights == RetargetSpotlight(old(spotlights), old(frames[..]), currentArtworkIndex)
      ensures !old(CanGoNext()) ==>
        currentArtworkIndex == old(currentArtworkIndex) && showArtworkInfo == old(showArtworkInfo)
        && frames[..] == old(frames[..]) && spotlights == old(spotlights)
    {
      if !IsSelected(selectedCategory) {
        return;
      }
      var artworksInCategory := catalog[selectedCategory.value];
      if currentArtworkIndex < |artworksInCategory| - 1 {
        var nextIndex := currentArtworkIndex + 1;
        UpdateArtworkHighlight(nextIndex);
        currentArtworkIndex := nextIndex;
        showArtworkInfo := true;
      }
    }

    /**
     * goToPrevArtwork: when allowed, highlight the previous frame first, then step the
     * index back and open the panel; otherwise nothing changes.
     */
    method GoToPrevArtwork()
      requires Valid()
      modifies this`currentArtworkIndex, this`showArtworkInfo, this`spotlights, frames
      ensures Valid()
      ensures old(CanGoPrev()) ==>
        currentArtworkIndex == old(currentArtworkIndex) - 1 && showArtworkInfo
        && frames[..] == Highlighted(old(frames[..]), currentArtworkIndex)
        && spotlights == RetargetSpotlight(old(spotlights), old(frames[..]), currentArtworkIndex)
      ensures !old(CanGoPrev()) ==>
        currentArtworkIndex == old(currentArtworkIndex) && showArtworkInfo == old(showArtworkInfo)
        && frames[..] == old(frames[..]) && spotlights == old(spotlights)
    {
      if !IsSelected(selectedCategory) || currentArtworkIndex <= 0 {
        return;
      }
      var prevIndex := currentArtworkIndex - 1;
      UpdateArtworkHighlight(prevIndex);
      currentArtworkIndex := prevIndex;
      showArtworkInfo := true;
    }

    /** img.onload for the picture of frame i (an asynchronous event of its own). */
    method OnImageLoad(i: nat)
      requires Valid() && i < frames.Length
      modifies frames
      ensures Valid()
      ensures frames[..] == AfterImageLoad(old(frames[..]), i)
    {
      var frame := frames[i];
      frames[i] := frame.(hasArt := true);
      if i == 0 {
        frames[i] := frames[i].(glowCount := frames[i].glowCount + 1);
      }
    }

    /**
     * With no empty category, every valid state keeps the index inside the selected
     * category: the info panel's lookups and the "n / total" counter are in range.
     */
    lemma IndexInRange()
      requires Valid() && NoEmptyCategory(catalog) && selectedCategory.Some?
      ensures 0 <= currentArtworkIndex < |catalog[selectedCategory.value]|
      ensures currentArtworkIndex < frames.Length
    {
    }
  }

  /** The category buttons of the selection overlay (`artCategories`). */
  const CategoryIds: seq<string> := ["sculptures", "paintings", "digital"]

  /** The component's own `artworks` table. */
  const SourceCatalog: map<string, seq<Artwork>> := map[
    "sculptures" := [
      Artwork("sc1", "David", "Michelangelo", "1501-1504",
        "https://images.unsplash.com/photo-1612264348081-b3842a7bc2a3?q=80&w=1920",
        "One of the most recognized sculptures in art history, representing the biblical hero David."),
      Artwork("sc2", "The Thinker", "Auguste Rodin", "1880",
        "https://images.unsplash.com/photo-1599281546043-88ebe9611bd1?q=80&w=1920",
        "A bronze sculpture depicting a nude male figure in deep contemplation."),
      Artwork("sc3", "Venus de Milo", "Alexandros of Antioch", "~130-100 BC",
        "https://images.unsplash.com/photo-1610016302534-6f67f1c968d8?q=80&w=1920",
        "An ancient Greek statue and one of the most famous works of ancient Greek sculpture.")
    ],
    "paintings" := [
      Artwork("pt1", "Starry Night", "Vincent van Gogh", "1889",
        "https://upload.wikimedia.org/wikipedia/commons/thumb/e/ea/Van_Gogh_-_Starry_Night_-_Google_Art_Project.jpg/1920px-Van_Gogh_-_Starry_Night_-_Google_Art_Project.jpg",
        "One of Van Gogh's most famous works, depicting a night scene with a swirling sky and a quiet village."),
      Artwork("pt2", "The Persistence of Memory", "Salvador Dalí", "1931",
        "https://uploads6.wikiart.org/images/salvador-dali/the-persistence-of-memory-1931.jpg",
        "A surrealist masterpiece featuring melting clocks in a dreamlike landscape."),
      Artwork("pt3", "Guernica", "Pablo Picasso", "1937",
        "https://upload.wikimedia.org/wikipedia/en/7/74/PicassoGuernica.jpg",
        "A powerful anti-war statement depicting the bombing of Guernica during the Spanish Civil War.")
    ],
    "digital" := [
      Artwork("dg1", "Everydays: The First 5000 Days", "Beeple (Mike Winkelmann)", "2021",
        "https://news.artnet.com/app/news-upload/2021/03/Beeple-Everydays-—-The-First-5000-Days-2007-—-2021-1536x877.jpg",
        "A digital collage of 5,000 images created over 13 years, famous for being sold as an NFT."),
      Artwork("dg2", "Genesis", "Refik Anadol", "2018",
        "https://images.squarespace-cdn.com/content/v1/5d54aa43f2d1fa0001ea4d52/1626127273618-OPWQYFBWV8EFNJNX25AM/refik-anadol-machine-hallucinations-nature-dreams-visualization-02.jpeg",
        "An AI data sculpture using machine learning algorithms to create mesmerizing visualizations."),
      Artwork("dg3", "Quantum Memories", "Refik Anadol", "2020",
        "https://images.squarespace-cdn.com/content/v1/5d54aa43f2d1fa0001ea4d52/1619735186441-Z8VBAXFV84J1K87Q8FJI/refik-anadol-quantum-memories-installation-view-03.jpeg",
        "A data-driven artwork exploring the intersection of quantum computing and human consciousness.")
    ]
  ]

  /** Every category button leads to a category of three artworks, and no category is empty. */
  lemma SourceCatalogCoversCategories()
    ensures forall j :: 0 <= j < |CategoryIds| ==>
      CategoryIds[j] in SourceCatalog && |SourceCatalog[CategoryIds[j]]| == 3
    ensures NoEmptyCategory(SourceCatalog)
  {
  }
}
