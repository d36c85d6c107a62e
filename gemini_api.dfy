/**
 * getGeminiResponse in src/utils/geminiApi.ts with the HTTP exchange abstracted to
 * its outcome: the text of the reply, or one of two fixed apologies.
 */
module GeminiResponse {
  import opened TextUtil

  /** How the `fetch` in getGeminiResponse ended. */
  datatype ApiOutcome =
    | Answered(text: string)   // response.ok: the first candidate's text
    | NotOk                    // the service answered with an error status
    | Threw                    // fetch or JSON decoding threw

  const NotOkReply: string := "Sorry, I could not generate a response at this time."
  const ThrownReply: string := "Sorry, an error occurred while generating content."

  /** The reply for an error status, cut in two (one literal equality per lemma keeps each proof small). */
  lemma NotOkReplyHalves()
    ensures NotOkReply == "Sorry, I could not generate" + " a response at this time."
  {
  }

  /** The reply for a thrown error, cut in two. */
  lemma ThrownReplyHalves()
    ensures ThrownReply == "Sorry, an error occurred while" + " generating content."
  {
  }

  /** A literal piece, equal to two digit-free parts, is digit-free. */
  lemma NoDigitsPiece(a: string, b: string, piece: string)
    requires NoDigits(a) && NoDigits(b) && piece == a + b
    ensures NoDigits(piece)
  {
    NoDigitsAppend(a, b);
  }

  /** The reply for an error status holds no digit. */
  lemma NotOkReplyHasNoDigits()
    ensures NoDigits(NotOkReply)
  {
    NoDigitsPiece("Sorry, I could", " not generate", "Sorry, I could not generate");
    NoDigitsPiece(" a response at", " this time.", " a response at this time.");
    NoDigitsAppend("Sorry, I could not generate", " a response at this time.");
    NotOkReplyHalves();
  }

  /** The reply for a thrown error holds no digit. */
  lemma ThrownReplyHasNoDigits()
    ensures NoDigits(ThrownReply)
  {
    NoDigitsPiece("Sorry, an error", " occurred while", "Sorry, an error occurred while");
    NoDigitsPiece(" generating", " content.", " generating content.");
    NoDigitsAppend("Sorry, an error occurred while", " generating content.");
    ThrownReplyHalves();
  }

  /**
   * getGeminiResponse with the network call abstracted: the reply text on success, a
   * fixed apology otherwise. A failure never surfaces as an exception, and the apology
   * carries no digit, so no artwork number can be read out of it.
   */
  function ResponseText(outcome: ApiOutcome): (reply: string)
    ensures outcome.Answered? ==> reply == outcome.text
    ensures !outcome.Answered? ==> NoDigits(reply) && DigitRuns(reply) == []
  {
    NotOkReplyHasNoDigits();
    ThrownReplyHasNoDigits();
    DigitRunsEmptyIff(NotOkReply);
    DigitRunsEmptyIff(ThrownReply);
    match outcome
    case Answered(text) => text
    case NotOk => NotOkReply
    case Threw => ThrownReply
  }
}

/**
 * Post-processing of the generative-text replies in src/utils/geminiApi.ts: the
 * candidate list offered to the model, the numbered listing put into the prompt, and
 * the mapping of the numbers found in the free-text reply back to artwork ids.
 * The HTTP request itself is not modelled: its outcome is a parameter.
 */
module GeminiApi {
  import opened TextUtil
  import opened GeminiResponse

  /** An entry of `availableArtworks` (the search variant ignores `image`). */
  datatype ArtworkInfo = ArtworkInfo(
    id: string, title: string, artist: string, year: string, description: string, image: string)

  /** The artwork the visitor is looking at (`currentArtwork`). */
  datatype FocusArtwork = FocusArtwork(title: string, artist: string, year: string, description: string)

  // ---------------------------------------------------------------------------
  // Candidates and the numbered listing
  // ---------------------------------------------------------------------------

  /**
   * `availableArtworks.filter(art => art.title !== currentArtwork.title)`: every entry
   * whose title differs is kept as often as it occurs, every entry with the current
   * title is dropped (order: OtherArtworksAppend).
   */
  function OtherArtworks(current: FocusArtwork, available: seq<ArtworkInfo>): (others: seq<ArtworkInfo>)
    ensures forall j :: 0 <= j < |others| ==> others[j].title != current.title
    ensures |others| <= |available|
  {
    if available == [] then []
    else
      (if available[0].title != current.title then [available[0]] else []) + OtherArtworks(current, available[1..])
  }

  /** Every entry with another title is kept as often as it occurs; those with the current title are all dropped. */
  lemma {:induction false} OtherArtworksCounts(current: FocusArtwork, available: seq<ArtworkInfo>, a: ArtworkInfo)
    ensures multiset(OtherArtworks(current, available))[a] ==
      if a.title == current.title then 0 else multiset(available)[a]
    decreases |available|
  {
    if available != [] {
      assert available == [available[0]] + available[1..];
      OtherArtworksCounts(current, available[1..], a);
    }
  }

  /** The filter keeps the relative order: it distributes over concatenation. */
  lemma {:induction false} OtherArtworksAppend(current: FocusArtwork, a: seq<ArtworkInfo>, b: seq<ArtworkInfo>)
    ensures OtherArtworks(current, a + b) == OtherArtworks(current, a) + OtherArtworks(current, b)
    decreases |a|
  {
    if a == [] {
      assert a + b == b;
    } else {
      var ab := a + b;
      assert ab[0] == a[0];
      assert ab[1..] == a[1..] + b;
      var head := if a[0].title != current.title then [a[0]] else [];
      assert OtherArtworks(current, ab) == head + OtherArtworks(current, ab[1..]);
      assert OtherArtworks(current, a) == head + OtherArtworks(current, a[1..]);
      OtherArtworksAppend(current, a[1..], b);
    }
  }

  /** The fields a search line shows hold no newline. */
  predicate NoNewline(a: ArtworkInfo) {
    '\n' !in a.title && '\n' !in a.artist && '\n' !in a.year && '\n' !in a.description
  }

  /** The fields a recommendation line shows, the description cut to 100 characters, hold no newline. */
  predicate ExcerptNoNewline(a: ArtworkInfo) {
    '\n' !in a.title && '\n' !in a.artist && '\n' !in a.year && '\n' !in Prefix(a.description, 100)
  }

  /** A newline-free artwork has a newline-free excerpt. */
  lemma NoNewlineExcerpt(a: ArtworkInfo)
    requires NoNewline(a)
    ensures ExcerptNoNewline(a)
  {
    var e := Prefix(a.description, 100);
    forall j | 0 <= j < |e| ensures e[j] != '\n' {
      assert e[j] == a.description[j];
    }
  }

  /**
   * Line `number` of the recommendation listing: `N. title by artist (year): excerpt...`,
   * where the excerpt is the first 100 characters of the description, right before `...`.
   */
  function RecommendationLine(number: nat, a: ArtworkInfo): (line: string)
    ensures |line| > |NatToString(number)| + 2
    ensures line[..|NatToString(number)| + 2] == NatToString(number) + ". "
    ensures line[|line| - 3..] == "..."
    ensures var e := Prefix(a.description, 100);
      |line| >= |e| + 3 && line[|line| - 3 - |e|..|line| - 3] == e
    ensures ExcerptNoNewline(a) ==> '\n' !in line
  {
    var opening := NatToString(number) + ". ";
    var mid := a.title + " by " + a.artist + " (" + a.year + "): ";
    var e := Prefix(a.description, 100);
    var line := opening + (mid + e + "...");
    assert line[..|opening|] == opening;
    assert line == (opening + mid) + e + "...";
    line
  }

  /** Line `number` of the search listing: `N. title by artist (year): description`. */
  function SearchLine(number: nat, a: ArtworkInfo): (line: string)
    ensures |line| > |NatToString(number)| + 2
    ensures line[..|NatToString(number)| + 2] == NatToString(number) + ". "
    ensures NoNewline(a) ==> '\n' !in line
  {
    var opening := NatToString(number) + ". ";
    var line := opening + (a.title + " by " + a.artist + " (" + a.year + "): " + a.description);
    assert line[..|opening|] == opening;
    line
  }

  /**
   * `otherArtworks.map((art, index) => line(index + 1, art)).join('\n')`: no candidate,
   * no text; otherwise, when no shown field holds a newline, its lines are exactly the
   * numbered candidate lines, in candidate order.
   */
  function RecommendationListing(others: seq<ArtworkInfo>): (listing: string)
    ensures others == [] ==> listing == ""
    ensures |others| > 0 && (forall j :: 0 <= j < |others| ==> ExcerptNoNewline(others[j])) ==>
      Split(listing, '\n') == seq(|others|, k requires 0 <= k < |others| => RecommendationLine(k + 1, others[k]))
  {
    var lines := seq(|others|, k requires 0 <= k < |others| => RecommendationLine(k + 1, others[k]));
    if |others| > 0 && (forall j :: 0 <= j < |others| ==> ExcerptNoNewline(others[j])) then
      assert forall j :: 0 <= j < |lines| ==> '\n' !in lines[j];
      SplitJoin(lines, '\n');
      Join(lines, '\n')
    else
      Join(lines, '\n')
  }

  /** The same for the search prompt, over all available artworks. */
  function SearchListing(available: seq<ArtworkInfo>): (listing: string)
    ensures available == [] ==> listing == ""
    ensures |available| > 0 && (forall j :: 0 <= j < |available| ==> NoNewline(available[j])) ==>
      Split(listing, '\n') == seq(|available|, k requires 0 <= k < |available| => SearchLine(k + 1, available[k]))
  {
    var lines := seq(|available|, k requires 0 <= k < |available| => SearchLine(k + 1, available[k]));
    if |available| > 0 && (forall j :: 0 <= j < |available| ==> NoNewline(available[j])) then
      assert forall j :: 0 <= j < |lines| ==> '\n' !in lines[j];
      SplitJoin(lines, '\n');
      Join(lines, '\n')
    else
      Join(lines, '\n')
  }

  // ---------------------------------------------------------------------------
  // From the reply back to artwork ids
  // ---------------------------------------------------------------------------

  /** Run `run` names candidate number DecimalValue(run), counted from 1, and that one has id `id`. */
  predicate Picks(candidates: seq<ArtworkInfo>, run: string, id: string)
    requires AllDigits(run)
  {
    1 <= DecimalValue(run) <= |candidates| && candidates[DecimalValue(run) - 1].id == id
  }

  /**
   * `index = parseInt(numStr) - 1; index >= 0 && index < candidates.length ?
   * candidates[index].id : ''`. The exact integer stands for parseInt's double: a run
   * too long to be exact is far out of range either way.
   */
  function IdForRun(candidates: seq<ArtworkInfo>, run: string): (id: string)
    requires AllDigits(run)
    ensures 1 <= DecimalValue(run) <= |candidates| ==> Picks(candidates, run, id)
    ensures !(1 <= DecimalValue(run) <= |candidates|) ==> id == ""
  {
    var index := DecimalValue(run) - 1;
    if 0 <= index < |candidates| then candidates[index].id else ""
  }

  predicate AllRunsDigits(runs: seq<string>) {
    forall j :: 0 <= j < |runs| ==> AllDigits(runs[j])
  }

  /** `.map(numStr => ...)` over the runs, position by position. */
  function IdsForRuns(candidates: seq<ArtworkInfo>, runs: seq<string>): (ids: seq<string>)
    requires AllRunsDigits(runs)
    ensures |ids| == |runs|
    ensures forall j :: 0 <= j < |runs| ==> ids[j] == IdForRun(candidates, runs[j])
  {
    seq(|runs|, j requires 0 <= j < |runs| => IdForRun(candidates, runs[j]))
  }

  /** The mapping is position by position: it distributes over concatenation. */
  lemma IdsForRunsAppend(candidates: seq<ArtworkInfo>, a: seq<string>, b: seq<string>)
    requires AllRunsDigits(a) && AllRunsDigits(b)
    ensures AllRunsDigits(a + b)
    ensures IdsForRuns(candidates, a + b) == IdsForRuns(candidates, a) + IdsForRuns(candidates, b)
  {
    assert forall j :: 0 <= j < |a + b| ==> (a + b)[j] == if j < |a| then a[j] else b[j - |a|];
  }

  /** `.filter(id => id !== '')`: the empty ids dropped, every other one kept as often as it occurs. */
  function NonEmptyIds(ids: seq<string>): (kept: seq<string>)
    ensures |kept| <= |ids|
    ensures forall j :: 0 <= j < |kept| ==> kept[j] != ""
    ensures forall x :: x != "" ==> multiset(kept)[x] == multiset(ids)[x]
  {
    if ids == [] then []
    else
      assert ids == [ids[0]] + ids[1..];
      (if ids[0] != "" then [ids[0]] else []) + NonEmptyIds(ids[1..])
  }

  /** An id survives the filter exactly when it is not empty. */
  lemma NonEmptyIdsMembers(ids: seq<string>)
    ensures forall x :: x in NonEmptyIds(ids) <==> x in ids && x != ""
  {
    var kept := NonEmptyIds(ids);
    forall x ensures x in kept <==> x in ids && x != "" {
      if x in kept {
        assert multiset(kept)[x] > 0;
      }
      if x in ids && x != "" {
        assert multiset(ids)[x] > 0;
      }
    }
  }

  lemma {:induction false} NonEmptyIdsAppend(a: seq<string>, b: seq<string>)
    ensures NonEmptyIds(a + b) == NonEmptyIds(a) + NonEmptyIds(b)
    decreases |a|
  {
    if a == [] {
      assert a + b == b;
    } else {
      assert (a + b)[0] == a[0];
      assert (a + b)[1..] == a[1..] + b;
      NonEmptyIdsAppend(a[1..], b);
    }
  }

  /** Each empty id shortens the result: a dropped position is not filled from later ones. */
  lemma {:induction false} NonEmptyIdsShorter(ids: seq<string>, j: nat)
    requires j < |ids| && ids[j] == ""
    ensures |NonEmptyIds(ids)| < |ids|
    decreases |ids|
  {
    if j > 0 {
      NonEmptyIdsShorter(ids[1..], j - 1);
    }
  }

  function Min(a: nat, b: nat): nat {
    if a < b then a else b
  }

  /**
   * `runs.slice(0, limit).map(...).filter(id => id !== '')`: at most `limit` ids, each
   * picked by one of the first `limit` runs; every valid one of those runs contributes.
   */
  function SelectIds(candidates: seq<ArtworkInfo>, runs: seq<string>, limit: nat): (ids: seq<string>)
    requires AllRunsDigits(runs)
    ensures |ids| <= limit && |ids| <= |runs|
    ensures forall x :: x in ids ==>
      x != "" && exists j :: 0 <= j < Min(limit, |runs|) && Picks(candidates, runs[j], x)
    ensures forall j :: 0 <= j < Min(limit, |runs|) && IdForRun(candidates, runs[j]) != "" ==>
      IdForRun(candidates, runs[j]) in ids
  {
    var taken := runs[..Min(limit, |runs|)];
    var mapped := IdsForRuns(candidates, taken);
    NonEmptyIdsMembers(mapped);
    assert forall j :: 0 <= j < |taken| ==> taken[j] == runs[j];
    NonEmptyIds(mapped)
  }

  /** Only the first `limit` runs matter: truncation comes before the validity filter. */
  lemma SelectIdsIgnoresLaterRuns(candidates: seq<ArtworkInfo>, runs: seq<string>, limit: nat)
    requires AllRunsDigits(runs)
    ensures SelectIds(candidates, runs, limit) == SelectIds(candidates, runs[..Min(limit, |runs|)], limit)
  {
    var m := Min(limit, |runs|);
    assert runs[..m][..Min(limit, m)] == runs[..m];
  }

  /** Ids come out in the order their numbers occur in the reply. */
  lemma SelectIdsInReplyOrder(candidates: seq<ArtworkInfo>, a: seq<string>, b: seq<string>, limit: nat)
    requires AllRunsDigits(a) && AllRunsDigits(b) && |a| + |b| <= limit
    ensures AllRunsDigits(a + b)
    ensures SelectIds(candidates, a + b, limit) == SelectIds(candidates, a, limit) + SelectIds(candidates, b, limit)
  {
    assert AllRunsDigits(a + b) by {
      forall j | 0 <= j < |a + b| ensures AllDigits((a + b)[j]) {
        if j >= |a| { assert (a + b)[j] == b[j - |a|]; }
      }
    }
    var ab := a + b;
    assert ab[..Min(limit, |ab|)] == ab;
    assert a[..Min(limit, |a|)] == a;
    assert b[..Min(limit, |b|)] == b;
    IdsForRunsAppend(candidates, a, b);
    NonEmptyIdsAppend(IdsForRuns(candidates, a), IdsForRuns(candidates, b));
  }

  /** One run gives its candidate's id, or nothing when it is out of range. */
  lemma SelectIdsSingleRun(candidates: seq<ArtworkInfo>, run: string, limit: nat)
    requires AllDigits(run) && limit >= 1
    ensures AllRunsDigits([run])
    ensures SelectIds(candidates, [run], limit) ==
      if IdForRun(candidates, run) == "" then [] else [IdForRun(candidates, run)]
  {
    assert [run][..Min(limit, 1)] == [run];
    var mapped := IdsForRuns(candidates, [run]);
    assert mapped == [IdForRun(candidates, run)];
    assert mapped[1..] == [];
  }

  /** An invalid number among the first `limit` runs costs a place: nothing later replaces it. */
  lemma InvalidEarlyRunIsNotReplaced(candidates: seq<ArtworkInfo>, runs: seq<string>, limit: nat, j: nat)
    requires AllRunsDigits(runs)
    requires j < limit && j < |runs| && IdForRun(candidates, runs[j]) == ""
    ensures |SelectIds(candidates, runs, limit)| < limit
  {
    var taken := runs[..Min(limit, |runs|)];
    var mapped := IdsForRuns(candidates, taken);
    assert mapped[j] == IdForRun(candidates, runs[j]);
    NonEmptyIdsShorter(mapped, j);
  }

  /** A number repeated in the reply gives its id twice: there is no deduplication. */
  lemma RepeatedNumberRepeatsId(candidates: seq<ArtworkInfo>, run: string)
    requires AllDigits(run) && IdForRun(candidates, run) != ""
    ensures AllRunsDigits([run, run])
    ensures SelectIds(candidates, [run, run], 2) == [IdForRun(candidates, run), IdForRun(candidates, run)]
  {
    SelectIdsInReplyOrder(candidates, [run], [run], 2);
    assert [run] + [run] == [run, run];
    SelectIdsSingleRun(candidates, run, 2);
  }

  // ---------------------------------------------------------------------------
  // The two operations
  // ---------------------------------------------------------------------------

  /**
   * getSimilarArtworkRecommendations once the reply is known: no candidates, no
   * recommendation; otherwise at most the first two numbers of the reply, each mapped
   * to a candidate other than the current artwork.
   */
  function Recommendations(current: FocusArtwork, available: seq<ArtworkInfo>, reply: string): (ids: seq<string>)
    ensures |ids| <= 2
    ensures OtherArtworks(current, available) == [] ==> ids == []
    ensures NoDigits(reply) ==> ids == []
    ensures forall x :: x in ids ==>
      x != "" && exists a :: a in available && a.title != current.title && a.id == x
  {
    var others := OtherArtworks(current, available);
    if |others| == 0 then []
    else
      var ids := SelectIds(others, DigitRuns(reply), 2);
      DigitRunsEmptyIff(reply);
      CandidateIdsComeFrom(others, DigitRuns(reply), 2);
      assert forall a :: a in others ==> a in available && a.title != current.title by {
        forall a | a in others ensures a in available && a.title != current.title {
          OtherArtworksCounts(current, available, a);
          assert multiset(others)[a] > 0;
        }
      }
      ids
  }

  /** Every id that SelectIds returns is the id of some candidate. */
  lemma CandidateIdsComeFrom(candidates: seq<ArtworkInfo>, runs: seq<string>, limit: nat)
    requires AllRunsDigits(runs)
    ensures forall x :: x in SelectIds(candidates, runs, limit) ==>
      exists a :: a in candidates && a.id == x
  {
    forall x | x in SelectIds(candidates, runs, limit) ensures exists a :: a in candidates && a.id == x {
      var j :| 0 <= j < Min(limit, |runs|) && Picks(candidates, runs[j], x);
      assert candidates[DecimalValue(runs[j]) - 1] in candidates;
    }
  }

  /**
   * searchArtworksByDescription once the reply is known: at most the first three
   * numbers of the reply, each mapped to an available artwork.
   */
  function SearchResults(available: seq<ArtworkInfo>, reply: string): (ids: seq<string>)
    ensures |ids| <= 3
    ensures available == [] ==> ids == []
    ensures NoDigits(reply) ==> ids == []
    ensures forall x :: x in ids ==> x != "" && exists a :: a in available && a.id == x
  {
    DigitRunsEmptyIff(reply);
    CandidateIdsComeFrom(available, DigitRuns(reply), 3);
    var ids := SelectIds(available, DigitRuns(reply), 3);
    assert ids != [] ==> ids[0] in ids;
    ids
  }

  /** The whole of getSimilarArtworkRecommendations: on a failed request the answer is []. */
  function GetSimilarArtworkRecommendations(
    current: FocusArtwork, available: seq<ArtworkInfo>, outcome: ApiOutcome): (ids: seq<string>)
    ensures !outcome.Answered? ==> ids == []
    ensures outcome.Answered? ==> ids == Recommendations(current, available, outcome.text)
  {
    Recommendations(current, available, ResponseText(outcome))
  }

  /** The whole of searchArtworksByDescription: on a failed request the answer is []. */
  function SearchArtworksByDescription(available: seq<ArtworkInfo>, outcome: ApiOutcome): (ids: seq<string>)
    ensures !outcome.Answered? ==> ids == []
    ensures outcome.Answered? ==> ids == SearchResults(available, outcome.text)
  {
    SearchResults(available, ResponseText(outcome))
  }

  // ---------------------------------------------------------------------------
  // The numbering of the listing agrees with the mapping back
  // ---------------------------------------------------------------------------

  /** A reply that is exactly the number k names candidate k and nothing else. */
  lemma NumberSelectsItsLine(candidates: seq<ArtworkInfo>, k: nat, limit: nat)
    requires 1 <= k <= |candidates| && limit >= 1
    ensures DigitRuns(NatToString(k)) == [NatToString(k)]
    ensures IdForRun(candidates, NatToString(k)) == candidates[k - 1].id
    ensures SelectIds(candidates, DigitRuns(NatToString(k)), limit) ==
      if candidates[k - 1].id == "" then [] else [candidates[k - 1].id]
  {
    DigitRunsOfDigits(NatToString(k));
    SelectIdsSingleRun(candidates, NatToString(k), limit);
  }

  /**
   * Line k (from 1) of the recommendation listing describes candidate k, opens with
   * the number k, and that number maps back to exactly that candidate's id.
   */
  lemma RecommendationListingNumbering(others: seq<ArtworkInfo>, k: nat)
    requires 1 <= k <= |others|
    requires forall j :: 0 <= j < |others| ==> ExcerptNoNewline(others[j])
    ensures |Split(RecommendationListing(others), '\n')| == |others|
    ensures Split(RecommendationListing(others), '\n')[k - 1] == RecommendationLine(k, others[k - 1])
    ensures RecommendationLine(k, others[k - 1])[..|NatToString(k)| + 2] == NatToString(k) + ". "
    ensures IdForRun(others, NatToString(k)) == others[k - 1].id
  {
    var lines := seq(|others|, j requires 0 <= j < |others| => RecommendationLine(j + 1, others[j]));
    assert Split(RecommendationListing(others), '\n') == lines;
    assert lines[k - 1] == RecommendationLine(k, others[k - 1]);
    NumberSelectsItsLine(others, k, 2);
  }

  /** The same agreement for the search listing. */
  lemma SearchListingNumbering(available: seq<ArtworkInfo>, k: nat)
    requires 1 <= k <= |available|
    requires forall j :: 0 <= j < |available| ==> NoNewline(available[j])
    ensures |Split(SearchListing(available), '\n')| == |available|
    ensures Split(SearchListing(available), '\n')[k - 1] == SearchLine(k, available[k - 1])
    ensures SearchLine(k, available[k - 1])[..|NatToString(k)| + 2] == NatToString(k) + ". "
    ensures IdForRun(available, NatToString(k)) == available[k - 1].id
  {
    var lines := seq(|available|, j requires 0 <= j < |available| => SearchLine(j + 1, available[j]));
    assert Split(SearchListing(available), '\n') == lines;
    assert lines[k - 1] == SearchLine(k, available[k - 1]);
    NumberSelectsItsLine(available, k, 3);
  }

  /** "i,j" holds exactly the two runs i and j. */
  lemma TwoNumberReplyRuns(i: nat, j: nat)
    ensures DigitRuns(NatToString(i) + "," + NatToString(j)) == [NatToString(i)] + [NatToString(j)]
  {
    var si, sj := NatToString(i), NatToString(j);
    assert si + "," + sj == si + [','] + sj;
    DigitRunsSeparated(si, ',', sj);
    DigitRunsOfDigits(si);
    DigitRunsOfDigits(sj);
  }

  /** The reply the prompt asks for, "i,j", selects candidates i and j, in that order. */
  lemma TwoNumberReplySelectsBoth(candidates: seq<ArtworkInfo>, i: nat, j: nat)
    requires 1 <= i <= |candidates| && 1 <= j <= |candidates|
    requires candidates[i - 1].id != "" && candidates[j - 1].id != ""
    ensures SelectIds(candidates, DigitRuns(NatToString(i) + "," + NatToString(j)), 2)
      == [candidates[i - 1].id, candidates[j - 1].id]
  {
    var si, sj := NatToString(i), NatToString(j);
    TwoNumberReplyRuns(i, j);
    NumberSelectsItsLine(candidates, i, 2);
    NumberSelectsItsLine(candidates, j, 2);
    SelectIdsInReplyOrder(candidates, [si], [sj], 2);
    SelectIdsSingleRun(candidates, si, 2);
    SelectIdsSingleRun(candidates, sj, 2);
  }

  /** So a reply "i,j" recommends the i-th and j-th other artworks, in that order. */
  lemma TwoNumberReply(current: FocusArtwork, available: seq<ArtworkInfo>, i: nat, j: nat)
    requires var others := OtherArtworks(current, available);
      1 <= i <= |others| && 1 <= j <= |others| && others[i - 1].id != "" && others[j - 1].id != ""
    ensures var others := OtherArtworks(current, available);
      Recommendations(current, available, NatToString(i) + "," + NatToString(j))
        == [others[i - 1].id, others[j - 1].id]
  {
    TwoNumberReplySelectsBoth(OtherArtworks(current, available), i, j);
  }
}
