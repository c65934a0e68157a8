/**
 * Scenarios for the assignment engine: an exact match end to end, the tie-break,
 * and a case where the greedy order leaves a track unmatched although another
 * assignment would have matched both.
 */
module Scenarios {
  import opened Options
  import opened Text
  import opened Scoring
  import opened Matching

  /** A single track against a single file that scores full marks takes that file. */
  lemma SingleFullScoreDecision<P>(score: Scorer<P>, t: Track, f: AudioFile<P>, threshold: int)
    requires score(t, f) == MaxScore
    requires threshold <= 100
    ensures Decide(score, t, [f], {}, threshold) == Accept(Match(t, f, MaxScore), 0)
  {
    assert Available([f], {}, 0);
  }

  /** One wanted track and one file that scores full marks: the track is matched with that file. */
  lemma SingleFullScoreMatches<P>(score: Scorer<P>, t: Track, f: AudioFile<P>, threshold: int)
    requires score(t, f) == MaxScore
    requires threshold <= 100
    ensures Run(score, [t], [f], threshold) == State([Match(t, f, MaxScore)], [], {f.path})
  {
    RunAppend(score, [], t, [f], threshold);
    assert [] + [t] == [t];
    SingleFullScoreDecision(score, t, f, threshold);
  }

  /**
   * The exact-tags case end to end: with any similarity that gives identical texts
   * 100, a file whose tags spell the track's title and artist is matched to it with
   * the full 100 points.
   */
  lemma ExactTagsMatch<P>(ratio: Ratio, t: Track, path: P, threshold: int)
    requires forall s :: ratio(s, s) == 100
    requires threshold <= 100
    ensures var f := AudioFile(path, Some(t.title), Some(t.artist));
            MatchTracks(ratio, [t], [f], threshold) == ([Match(t, f, MaxScore)], [])
  {
    var f := AudioFile(path, Some(t.title), Some(t.artist));
    IdenticalFieldsScoreFull(ratio, t.title, t.artist);
    assert FuzzyScorer(ratio)(t, f) == MaxScore;
    SingleFullScoreMatches(FuzzyScorer(ratio), t, f, threshold);
  }

  /**
   * Tie-break: when an earlier available file scores the same as a later one, the
   * later one is never chosen, neither as the match nor as the best unmatched file.
   */
  lemma EqualScoreKeepsEarlier<P>(score: Scorer<P>, t: Track, files: seq<AudioFile<P>>, used: set<P>, j: nat, k: nat)
    requires j < k < |files|
    requires Available(files, used, j) && Available(files, used, k)
    requires score(t, files[j]) == score(t, files[k])
    ensures BestCandidate(score, t, files, used).index != Some(k)
  {
  }

  /** The first track of the greedy scenario takes the file it prefers. */
  lemma GreedyFirstDecision<P>(score: Scorer<P>, tx: Track, f1: AudioFile<P>, f2: AudioFile<P>, threshold: int)
    requires score(tx, f1) > score(tx, f2) && Acceptable(score(tx, f1), threshold)
    ensures Decide(score, tx, [f1, f2], {}, threshold) == Accept(Match(tx, f1, score(tx, f1)), 0)
  {
    assert Available([f1, f2], {}, 0);
  }

  /** With the first file's path used, the second track sees only the second file. */
  lemma GreedySecondDecision<P>(score: Scorer<P>, ty: Track, f1: AudioFile<P>, f2: AudioFile<P>, threshold: int)
    requires f1.path != f2.path
    requires 0 < score(ty, f2) < 10 * threshold
    ensures Decide(score, ty, [f1, f2], {f1.path}, threshold) == Reject(Miss(ty, Some(f2), score(ty, f2)), Some(1))
  {
    var files := [f1, f2];
    assert forall k :: Available(files, {f1.path}, k) ==> k == 1;
    assert Available(files, {f1.path}, 1);
  }

  /** The loop state after the first track of the greedy scenario. */
  lemma GreedyAfterFirst<P>(score: Scorer<P>, tx: Track, f1: AudioFile<P>, f2: AudioFile<P>, threshold: int)
    requires score(tx, f1) > score(tx, f2) && Acceptable(score(tx, f1), threshold)
    ensures Run(score, [tx], [f1, f2], threshold) == State([Match(tx, f1, score(tx, f1))], [], {f1.path})
  {
    RunAppend(score, [], tx, [f1, f2], threshold);
    assert [] + [tx] == [tx];
    GreedyFirstDecision(score, tx, f1, f2, threshold);
  }

  /** The second iteration of the greedy scenario leaves the second track unmatched. */
  lemma GreedySecondStep<P>(score: Scorer<P>, ty: Track, f1: AudioFile<P>, f2: AudioFile<P>, threshold: int, first: State<P>)
    requires f1.path != f2.path
    requires 0 < score(ty, f2) < 10 * threshold
    requires first.used == {f1.path}
    ensures Step(score, [f1, f2], threshold, first, ty)
         == State(first.matched, first.unmatched + [Miss(ty, Some(f2), score(ty, f2))], {f1.path})
  {
    GreedySecondDecision(score, ty, f1, f2, threshold);
  }

  /**
   * Greedy, not optimal. The first track prefers file 1 to file 2 though both pass;
   * the second track passes only with file 1. The first track claims file 1, and the
   * second is left with file 2 below the threshold and stays unmatched, although
   * assigning file 2 to the first track and file 1 to the second would match both.
   */
  lemma GreedyStrandsLaterTrack<P>(score: Scorer<P>, tx: Track, ty: Track, f1: AudioFile<P>, f2: AudioFile<P>, threshold: int)
    requires f1.path != f2.path
    requires score(tx, f1) > score(tx, f2) >= 10 * threshold
    requires score(tx, f2) > 0
    requires score(ty, f1) >= 10 * threshold
    requires 0 < score(ty, f2) < 10 * threshold
    ensures Run(score, [tx, ty], [f1, f2], threshold)
         == State([Match(tx, f1, score(tx, f1))], [Miss(ty, Some(f2), score(ty, f2))], {f1.path})
  {
    RunTwo(score, tx, ty, [f1, f2], threshold);
    GreedyAfterFirst(score, tx, f1, f2, threshold);
    GreedySecondStep(score, ty, f1, f2, threshold, Run(score, [tx], [f1, f2], threshold));
    assert [] + [Miss(ty, Some(f2), score(ty, f2))] == [Miss(ty, Some(f2), score(ty, f2))];
  }

  /** Two tracks: the second iteration runs on the state the first one left. */
  lemma RunTwo<P>(score: Scorer<P>, tx: Track, ty: Track, files: seq<AudioFile<P>>, threshold: int)
    ensures Run(score, [tx, ty], files, threshold) == Step(score, files, threshold, Run(score, [tx], files, threshold), ty)
  {
    RunAppend(score, [tx], ty, files, threshold);
    assert [tx] + [ty] == [tx, ty];
  }
}
