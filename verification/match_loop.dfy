/**
 * `match_tracks` as the source writes it: an outer loop over the tracks and, per
 * track, an inner loop over the files that skips used paths and keeps the first
 * strictly higher score. The loops take the scorer as a parameter; the source's
 * is `FuzzyScorer(ratio)`.
 */
module MatchLoop {
  import opened Options
  import opened Scoring
  import opened Matching

  /** The inner loop: the first unused file with the highest positive score, starting from no file and 0. */
  method FindBest<P(==)>(score: Scorer<P>, track: Track, files: seq<AudioFile<P>>, usedFiles: set<P>)
    returns (bestIndex: Option<nat>, bestScore: int)
    ensures Choice(bestIndex, bestScore) == BestCandidate(score, track, files, usedFiles)
    ensures ChoiceFits(score, track, files, usedFiles, |files|, Choice(bestIndex, bestScore))
  {
    bestIndex := None;
    bestScore := 0;
    for i := 0 to |files|
      invariant ChoiceFits(score, track, files, usedFiles, i, Choice(bestIndex, bestScore))
      invariant BestFrom(score, track, files, usedFiles, i, Choice(bestIndex, bestScore))
             == BestCandidate(score, track, files, usedFiles)
    {
      AdvanceFits(score, track, files, usedFiles, i, Choice(bestIndex, bestScore));
      if files[i].path in usedFiles {
        continue;
      }
      var s := score(track, files[i]);
      if s > bestScore {
        bestScore := s;
        bestIndex := Some(i);
      }
    }
  }

  /** Both loops; the result is the one the fold `Run` defines. */
  method MatchTracksLoop<P(==)>(score: Scorer<P>, tracks: seq<Track>, files: seq<AudioFile<P>>, threshold: int)
    returns (matched: seq<Match<P>>, unmatched: seq<Miss<P>>)
    ensures matched == Run(score, tracks, files, threshold).matched
    ensures unmatched == Run(score, tracks, files, threshold).unmatched
    ensures |matched| + |unmatched| == |tracks|
    ensures Exclusive(matched)
    ensures forall i :: 0 <= i < |matched| ==> Acceptable(matched[i].score, threshold)
  {
    matched := [];
    unmatched := [];
    var usedFiles: set<P> := {};
    for n := 0 to |tracks|
      invariant State(matched, unmatched, usedFiles) == Run(score, tracks[..n], files, threshold)
    {
      var track := tracks[n];
      RunKeepsInvariant(score, tracks[..n], files, threshold);
      TrackSeesRemainingPool(score, tracks, files, threshold, n);
      var bestIndex, bestScore := FindBest(score, track, files, usedFiles);
      var decision := Decide(score, track, files, usedFiles, threshold);
      if bestScore >= 10 * threshold && bestIndex.Some? {
        var m := Match(track, files[bestIndex.value], bestScore);
        assert decision == Accept(m, bestIndex.value);
        matched := matched + [m];
        usedFiles := usedFiles + {m.file.path};
      } else {
        var bestFile := if bestIndex.Some? then Some(files[bestIndex.value]) else None;
        assert decision == Reject(Miss(track, bestFile, bestScore), bestIndex);
        unmatched := unmatched + [Miss(track, bestFile, bestScore)];
      }
    }
    assert tracks[..|tracks|] == tracks;
    RunKeepsInvariant(score, tracks, files, threshold);
    InterleavesCounts(MatchedTracks(matched), MissedTracks(unmatched), tracks);
  }
}
