/**
 * The global zustand store of src/store/useStore.ts: three fields and one setter per
 * field. `set` merges a partial state, so each action replaces its own field and keeps
 * the other two. The store's state as a value is StoreState; the store object is Store.
 */
module UseStore {
  import opened Wrappers
  import opened ArtworkTypes

  /** The data part of the store (the actions are the methods of Store). */
  datatype StoreState = StoreState(isDarkMode: bool, viewedArtworks: seq<Artwork>, currentExhibition: Option<int>)

  /** Light mode, nothing viewed, no exhibition. */
  const InitialState := StoreState(false, [], None)

  /** The state after `setDarkMode(isDark)`: the flag is isDark, the rest as before. */
  function WithDarkMode(s: StoreState, isDark: bool): (r: StoreState)
    ensures r.isDarkMode == isDark
    ensures r.viewedArtworks == s.viewedArtworks && r.currentExhibition == s.currentExhibition
  {
    s.(isDarkMode := isDark)
  }

  /**
   * The state after `addViewedArtwork(artwork)`: the history grows by one, keeps every
   * earlier entry in place and ends with artwork; the other fields stay.
   */
  function WithViewedArtwork(s: StoreState, artwork: Artwork): (r: StoreState)
    ensures |r.viewedArtworks| == |s.viewedArtworks| + 1
    ensures r.viewedArtworks[..|s.viewedArtworks|] == s.viewedArtworks
    ensures r.viewedArtworks[|s.viewedArtworks|] == artwork
    ensures r.isDarkMode == s.isDarkMode && r.currentExhibition == s.currentExhibition
  {
    s.(viewedArtworks := s.viewedArtworks + [artwork])
  }

  /** The state after `setCurrentExhibition(id)`, null included: the exhibition is id, the rest as before. */
  function WithCurrentExhibition(s: StoreState, id: Option<int>): (r: StoreState)
    ensures r.currentExhibition == id
    ensures r.isDarkMode == s.isDarkMode && r.viewedArtworks == s.viewedArtworks
  {
    s.(currentExhibition := id)
  }

  /** Setting the mode twice to the same value is setting it once. */
  lemma DarkModeIdempotent(s: StoreState, isDark: bool)
    ensures WithDarkMode(WithDarkMode(s, isDark), isDark) == WithDarkMode(s, isDark)
  {
  }

  /** Only the last setDarkMode counts. */
  lemma DarkModeLastWins(s: StoreState, first: bool, second: bool)
    ensures WithDarkMode(WithDarkMode(s, first), second) == WithDarkMode(s, second)
  {
  }

  /** Setting the exhibition twice to the same id is setting it once. */
  lemma CurrentExhibitionIdempotent(s: StoreState, id: Option<int>)
    ensures WithCurrentExhibition(WithCurrentExhibition(s, id), id) == WithCurrentExhibition(s, id)
  {
  }

  /** Each action writes its own field, so actions on different fields commute. */
  lemma ActionsOnDistinctFieldsCommute(s: StoreState, isDark: bool, artwork: Artwork, id: Option<int>)
    ensures WithDarkMode(WithViewedArtwork(s, artwork), isDark) == WithViewedArtwork(WithDarkMode(s, isDark), artwork)
    ensures WithDarkMode(WithCurrentExhibition(s, id), isDark) == WithCurrentExhibition(WithDarkMode(s, isDark), id)
    ensures WithViewedArtwork(WithCurrentExhibition(s, id), artwork) == WithCurrentExhibition(WithViewedArtwork(s, artwork), id)
  {
  }

  /** Viewing the same artwork twice records it twice: the history is a list, not a set. */
  lemma ViewingTwiceRecordsTwice(s: StoreState, artwork: Artwork)
    ensures var r := WithViewedArtwork(WithViewedArtwork(s, artwork), artwork);
      r.viewedArtworks == s.viewedArtworks + [artwork, artwork]
  {
  }

  /** The state after a series of addViewedArtwork calls, in order. */
  function WithViewedArtworks(s: StoreState, artworks: seq<Artwork>): StoreState
    decreases |artworks|
  {
    if artworks == [] then s else WithViewedArtworks(WithViewedArtwork(s, artworks[0]), artworks[1..])
  }

  /** A series of views appends exactly those artworks, in viewing order, and touches nothing else. */
  lemma {:induction false} ViewedArtworksInOrder(s: StoreState, artworks: seq<Artwork>)
    ensures WithViewedArtworks(s, artworks).viewedArtworks == s.viewedArtworks + artworks
    ensures WithViewedArtworks(s, artworks).isDarkMode == s.isDarkMode
    ensures WithViewedArtworks(s, artworks).currentExhibition == s.currentExhibition
    decreases |artworks|
  {
    if artworks != [] {
      ViewedArtworksInOrder(WithViewedArtwork(s, artworks[0]), artworks[1..]);
      assert s.viewedArtworks + [artworks[0]] + artworks[1..] == s.viewedArtworks + artworks;
    }
  }

  /** The store object: its fields change only through its three actions. */
  class Store {
    var isDarkMode: bool
    var viewedArtworks: seq<Artwork>
    var currentExhibition: Option<int>

    /** The fields as a StoreState value. */
    function State(): StoreState
      reads this
    {
      StoreState(isDarkMode, viewedArtworks, currentExhibition)
    }

    /** `create(...)`: the store starts in InitialState. */
    constructor ()
      ensures State() == InitialState
    {
      isDarkMode := false;
      viewedArtworks := [];
      currentExhibition := None;
    }

    /** `setDarkMode`. */
    method SetDarkMode(isDark: bool)
      modifies this`isDarkMode
      ensures isDarkMode == isDark
      ensures State() == WithDarkMode(old(State()), isDark)
    {
      isDarkMode := isDark;
    }

    /** `addViewedArtwork`. */
    method AddViewedArtwork(artwork: Artwork)
      modifies this`viewedArtworks
      ensures viewedArtworks == old(viewedArtworks) + [artwork]
      ensures State() == WithViewedArtwork(old(State()), artwork)
    {
      viewedArtworks := viewedArtworks + [artwork];
    }

    /** `setCurrentExhibition`. */
    method SetCurrentExhibition(id: Option<int>)
      modifies this`currentExhibition
      ensures currentExhibition == id
      ensures State() == WithCurrentExhibition(old(State()), id)
    {
      currentExhibition := id;
    }
  }
}
