/**
 * The similarity scorer: `fuzzy_match_score` combines the title and artist
 * similarities of a wanted track and an audio file into one weighted score.
 *
 * Scores are integers in tenths of a point: the source's `0.8 * title + 0.2 * artist`
 * becomes `8 * title + 2 * artist`, exact and in `0..1000`.
 */
module Scoring {
  import opened Options
  import opened Text

  /** A similarity value on the 0..100 scale, as the library's `fuzz.ratio` returns. */
  type Percent = x: int | 0 <= x <= 100

  /**
   * The string similarity `fuzz.ratio`. Its implementation lives in a library and is
   * not modelled; every operation takes it as a parameter, and all that is known of
   * it is that it stays within 0..100.
   */
  type Ratio = (string, string) -> Percent

  /** Weights, in tenths: the title counts 0.8, the artist 0.2. */
  const TitleWeight: int := 8
  const ArtistWeight: int := 2

  /** The largest combined score, 100 points in tenths. */
  const MaxScore: int := 1000

  /** A combined score in tenths of a point. */
  type Tenths = x: int | 0 <= x <= MaxScore

  /**
   * The weighted combination, in tenths of a point. It is a weighted mean, so it
   * lies between ten times the smaller and ten times the larger of the two inputs.
   */
  function CombinedScore(titleScore: Percent, artistScore: Percent): (r: int)
    ensures 0 <= r <= MaxScore
    ensures titleScore <= artistScore ==> 10 * titleScore <= r <= 10 * artistScore
    ensures artistScore <= titleScore ==> 10 * artistScore <= r <= 10 * titleScore
    ensures r == MaxScore <==> titleScore == 100 && artistScore == 100
    ensures r == 0 <==> titleScore == 0 && artistScore == 0
  {
    TitleWeight * titleScore + ArtistWeight * artistScore
  }

  /** Raising either similarity never lowers the combined score. */
  lemma CombinedScoreMonotone(t1: Percent, a1: Percent, t2: Percent, a2: Percent)
    requires t1 <= t2 && a1 <= a2
    ensures CombinedScore(t1, a1) <= CombinedScore(t2, a2)
  {
  }

  /**
   * The title dominates: at the default threshold of 70 an artist match alone can
   * never be accepted (a title similarity below 63 always fails), while a title
   * similarity of 88 or more is accepted whatever the artist.
   */
  lemma TitleDominates(t: Percent, a: Percent)
    ensures t < 63 ==> CombinedScore(t, a) < 700
    ensures t >= 88 ==> CombinedScore(t, a) >= 700
  {
  }

  /** `fuzzy_match_score`: both fields are normalized before they are compared. */
  function FuzzyMatchScore(ratio: Ratio, trackTitle: Option<string>, trackArtist: Option<string>,
                           fileTitle: Option<string>, fileArtist: Option<string>): (r: int)
    ensures 0 <= r <= MaxScore
  {
    var titleScore := ratio(NormalizeString(trackTitle), NormalizeString(fileTitle));
    var artistScore := ratio(NormalizeString(trackArtist), NormalizeString(fileArtist));
    CombinedScore(titleScore, artistScore)
  }

  /**
   * The full 100 points exactly when both similarities are 100, and 0 exactly when
   * both are 0.
   */
  lemma FullAndZeroScores(ratio: Ratio, trackTitle: Option<string>, trackArtist: Option<string>,
                          fileTitle: Option<string>, fileArtist: Option<string>)
    ensures var titleScore := ratio(NormalizeString(trackTitle), NormalizeString(fileTitle));
            var artistScore := ratio(NormalizeString(trackArtist), NormalizeString(fileArtist));
            var r := FuzzyMatchScore(ratio, trackTitle, trackArtist, fileTitle, fileArtist);
            && (r == MaxScore <==> titleScore == 100 && artistScore == 100)
            && (r == 0 <==> titleScore == 0 && artistScore == 0)
  {
  }

  /**
   * Under the assumption that `fuzz.ratio` gives identical texts 100, a file whose
   * tags equal the track's title and artist scores the full 100 points.
   */
  lemma IdenticalFieldsScoreFull(ratio: Ratio, title: string, artist: string)
    requires forall s :: ratio(s, s) == 100
    ensures FuzzyMatchScore(ratio, Some(title), Some(artist), Some(title), Some(artist)) == MaxScore
  {
    var ti := NormalizeString(Some(title));
    var ar := NormalizeString(Some(artist));
    assert ratio(ti, ti) == 100 && ratio(ar, ar) == 100;
  }

  /** A missing tag scores exactly like an empty one; it is not an error. */
  lemma AbsentTagScoresAsEmpty(ratio: Ratio, trackTitle: Option<string>, trackArtist: Option<string>,
                               fileTitle: Option<string>, fileArtist: Option<string>)
    ensures FuzzyMatchScore(ratio, trackTitle, trackArtist, None, fileArtist)
         == FuzzyMatchScore(ratio, trackTitle, trackArtist, Some(""), fileArtist)
    ensures FuzzyMatchScore(ratio, trackTitle, trackArtist, fileTitle, None)
         == FuzzyMatchScore(ratio, trackTitle, trackArtist, fileTitle, Some(""))
  {
  }

  /**
   * The score sees only the normalized fields: case and surrounding whitespace of
   * any of the four inputs make no difference.
   */
  lemma ScoreSeesOnlyNormalized(ratio: Ratio, trackTitle: Option<string>, trackArtist: Option<string>,
                                fileTitle: Option<string>, fileArtist: Option<string>)
    ensures FuzzyMatchScore(ratio, trackTitle, trackArtist, fileTitle, fileArtist)
         == FuzzyMatchScore(ratio, Some(NormalizeString(trackTitle)), Some(NormalizeString(trackArtist)),
                            Some(NormalizeString(fileTitle)), Some(NormalizeString(fileArtist)))
  {
    NormalizeIdempotent(trackTitle);
    NormalizeIdempotent(trackArtist);
    NormalizeIdempotent(fileTitle);
    NormalizeIdempotent(fileArtist);
  }
}
