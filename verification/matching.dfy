/**
 * The assignment engine `match_tracks`: wanted tracks are taken in input order;
 * each one is matched to the first unused audio file with the highest positive
 * score, provided that score reaches the threshold, and a matched file's path is
 * never offered to a later track.
 */
module Matching {
  import opened Options
  import opened Scoring

  /** A wanted track as read from one CSV row: trimmed title and artist, and the row's text. */
  datatype Track = Track(title: string, artist: string, row: string)

  /**
   * A scanned audio file. The path is opaque; only equality on it is used. Title
   * and artist are absent when the tags could not be read.
   */
  datatype AudioFile<P> = AudioFile(path: P, title: Option<string>, artist: Option<string>)

  /** An entry of `matched`; the score is in tenths of a point. */
  datatype Match<P> = Match(track: Track, file: AudioFile<P>, score: int)

  /** An entry of `unmatched`: the best file seen, if any, and its score in tenths. */
  datatype Miss<P> = Miss(track: Track, bestMatch: Option<AudioFile<P>>, bestScore: int)

  /** The threshold `match_tracks` uses when none is given, in whole points. */
  const DefaultThreshold: int := 70

  /**
   * How the engine scores a track against a file, in tenths. The engine is stated
   * for any such function; `match_tracks` uses `FuzzyScorer`.
   */
  type Scorer<!P> = (Track, AudioFile<P>) -> Tenths

  /** `fuzzy_match_score` of the track's title and artist against the file's tags. */
  function FuzzyScorer<P>(ratio: Ratio): Scorer<P> {
    (t: Track, f: AudioFile<P>) => FuzzyMatchScore(ratio, Some(t.title), Some(t.artist), f.title, f.artist)
  }

  /** A score is accepted when it is positive and reaches the threshold (given in whole points). */
  predicate Acceptable(score: int, threshold: int) {
    score > 0 && score >= 10 * threshold
  }

  /** files[k] is in the pool: its path has not been claimed yet. */
  predicate Available<P(==)>(files: seq<AudioFile<P>>, used: set<P>, k: int) {
    0 <= k < |files| && files[k].path !in used
  }

  /**
   * Among the available files of files[..n], files[k] has a positive score, no
   * available file scores higher, and every available file before it scores lower.
   */
  predicate FirstBestIn<P(==)>(score: Scorer<P>, t: Track, files: seq<AudioFile<P>>, used: set<P>, n: int, k: int) {
    && 0 <= k < n <= |files|
    && files[k].path !in used
    && score(t, files[k]) > 0
    && (forall j :: 0 <= j < n && Available(files, used, j) ==> score(t, files[j]) <= score(t, files[k]))
    && (forall j :: 0 <= j < k && Available(files, used, j) ==> score(t, files[j]) < score(t, files[k]))
  }

  /** No available file of files[..n] has a positive score (this includes an empty pool). */
  predicate NoPositiveIn<P(==)>(score: Scorer<P>, t: Track, files: seq<AudioFile<P>>, used: set<P>, n: int) {
    && 0 <= n <= |files|
    && forall j :: 0 <= j < n && Available(files, used, j) ==> score(t, files[j]) == 0
  }

  /** The state of the search for one track: `best_match` (as an index) and `best_score`. */
  datatype Choice = Choice(index: Option<nat>, score: int)

  /** The choice is the right one for files[..n]. */
  predicate ChoiceFits<P(==)>(score: Scorer<P>, t: Track, files: seq<AudioFile<P>>, used: set<P>, n: int, c: Choice) {
    match c.index
    case Some(k) => FirstBestIn(score, t, files, used, n, k) && c.score == score(t, files[k])
    case None => c.score == 0 && NoPositiveIn(score, t, files, used, n)
  }

  /** One pass of the inner loop: skip a used file, otherwise replace the best only on a strictly higher score. */
  function Advance<P(==)>(score: Scorer<P>, t: Track, files: seq<AudioFile<P>>, used: set<P>, i: nat, acc: Choice): Choice
    requires i < |files|
  {
    if files[i].path in used then acc
    else
      var s := score(t, files[i]);
      if s > acc.score then Choice(Some(i), s) else acc
  }

  /** One pass of the inner loop keeps the choice right for the files seen so far. */
  lemma AdvanceFits<P>(score: Scorer<P>, t: Track, files: seq<AudioFile<P>>, used: set<P>, i: nat, acc: Choice)
    requires i < |files|
    requires ChoiceFits(score, t, files, used, i, acc)
    ensures ChoiceFits(score, t, files, used, i + 1, Advance(score, t, files, used, i, acc))
  {
    var s := score(t, files[i]);
    if files[i].path in used {
      SkipFits(score, t, files, used, i, acc);
    } else if s > acc.score {
      ReplaceFits(score, t, files, used, i, acc);
    } else {
      KeepFits(score, t, files, used, i, acc);
    }
  }

  lemma SkipFits<P>(score: Scorer<P>, t: Track, files: seq<AudioFile<P>>, used: set<P>, i: nat, acc: Choice)
    requires i < |files| && files[i].path in used
    requires ChoiceFits(score, t, files, used, i, acc)
    ensures ChoiceFits(score, t, files, used, i + 1, acc)
  {
    assert !Available(files, used, i);
  }

  lemma ReplaceFits<P>(score: Scorer<P>, t: Track, files: seq<AudioFile<P>>, used: set<P>, i: nat, acc: Choice)
    requires i < |files| && files[i].path !in used
    requires ChoiceFits(score, t, files, used, i, acc)
    requires score(t, files[i]) > acc.score
    ensures ChoiceFits(score, t, files, used, i + 1, Choice(Some(i), score(t, files[i])))
  {
    assert forall j :: 0 <= j < i && Available(files, used, j) ==> score(t, files[j]) <= acc.score;
  }

  lemma KeepFits<P>(score: Scorer<P>, t: Track, files: seq<AudioFile<P>>, used: set<P>, i: nat, acc: Choice)
    requires i < |files| && files[i].path !in used
    requires ChoiceFits(score, t, files, used, i, acc)
    requires score(t, files[i]) <= acc.score
    ensures ChoiceFits(score, t, files, used, i + 1, acc)
  {
  }

  /** The inner loop of `match_tracks` from file i on. */
  function BestFrom<P(==)>(score: Scorer<P>, t: Track, files: seq<AudioFile<P>>, used: set<P>, i: nat, acc: Choice): (c: Choice)
    requires i <= |files|
    requires ChoiceFits(score, t, files, used, i, acc)
    ensures ChoiceFits(score, t, files, used, |files|, c)
    decreases |files| - i
  {
    if i == |files| then acc
    else
      AdvanceFits(score, t, files, used, i, acc);
      BestFrom(score, t, files, used, i + 1, Advance(score, t, files, used, i, acc))
  }

  /**
   * The best unused candidate for a track: the search starts with no file and a best
   * score of 0, so it ends with no file exactly when no unused file scores above 0.
   */
  function BestCandidate<P(==)>(score: Scorer<P>, t: Track, files: seq<AudioFile<P>>, used: set<P>): (c: Choice)
    ensures ChoiceFits(score, t, files, used, |files|, c)
    ensures c.index.None? <==> NoPositiveIn(score, t, files, used, |files|)
    ensures 0 <= c.score <= MaxScore
  {
    BestFrom(score, t, files, used, 0, Choice(None, 0))
  }

  /** There is only one first best file. */
  lemma FirstBestUnique<P>(score: Scorer<P>, t: Track, files: seq<AudioFile<P>>, used: set<P>, n: int, k1: int, k2: int)
    requires FirstBestIn(score, t, files, used, n, k1) && FirstBestIn(score, t, files, used, n, k2)
    ensures k1 == k2
  {
  }

  /**
   * The outcome for one track. `taken` is the position in the file list of the
   * file matched; `seen` is that of the best file seen when the track is not matched.
   */
  datatype Decision<P> = Accept(m: Match<P>, taken: nat) | Reject(miss: Miss<P>, seen: Option<nat>)

  /** The body of the outer loop of `match_tracks` for one track, given the used paths. */
  function Decide<P(==)>(score: Scorer<P>, t: Track, files: seq<AudioFile<P>>, used: set<P>, threshold: int): (d: Decision<P>)
    ensures d.Accept? <==> exists k :: Available(files, used, k) && Acceptable(score(t, files[k]), threshold)
    ensures d.Accept? ==>
      && d.m.track == t
      && FirstBestIn(score, t, files, used, |files|, d.taken)
      && d.m.file == files[d.taken] && d.m.score == score(t, files[d.taken])
      && Acceptable(d.m.score, threshold) && d.m.score <= MaxScore
      && d.m.file in files && d.m.file.path !in used
    ensures d.Reject? ==>
      && d.miss.track == t
      && (d.seen.None? <==> NoPositiveIn(score, t, files, used, |files|))
      && (d.seen.None? ==> d.miss.bestMatch.None? && d.miss.bestScore == 0)
      && (d.seen.Some? ==>
            && FirstBestIn(score, t, files, used, |files|, d.seen.value)
            && d.miss.bestMatch == Some(files[d.seen.value]) && d.miss.bestScore == score(t, files[d.seen.value])
            && d.miss.bestScore < 10 * threshold)
      && MissDiagnostic(d.miss, files, threshold)
  {
    var c := BestCandidate(score, t, files, used);
    if c.score >= 10 * threshold && c.index.Some? then
      Accept(Match(t, files[c.index.value], c.score), c.index.value)
    else
      Reject(Miss(t, if c.index.Some? then Some(files[c.index.value]) else None, c.score), c.index)
  }

  /** The tracks of the matched entries, in order. */
  function MatchedTracks<P>(ms: seq<Match<P>>): (ts: seq<Track>)
    ensures |ts| == |ms|
    ensures forall i :: 0 <= i < |ms| ==> ts[i] == ms[i].track
  {
    seq(|ms|, i requires 0 <= i < |ms| => ms[i].track)
  }

  /** The tracks of the unmatched entries, in order. */
  function MissedTracks<P>(us: seq<Miss<P>>): (ts: seq<Track>)
    ensures |ts| == |us|
    ensures forall i :: 0 <= i < |us| ==> ts[i] == us[i].track
  {
    seq(|us|, i requires 0 <= i < |us| => us[i].track)
  }

  /** zs is xs and ys merged, each keeping its own order: every element of zs comes from exactly one of them. */
  predicate Interleaves<T(==)>(xs: seq<T>, ys: seq<T>, zs: seq<T>)
    decreases |zs|
  {
    if zs == [] then xs == [] && ys == []
    else
      || (xs != [] && xs[|xs| - 1] == zs[|zs| - 1] && Interleaves(xs[..|xs| - 1], ys, zs[..|zs| - 1]))
      || (ys != [] && ys[|ys| - 1] == zs[|zs| - 1] && Interleaves(xs, ys[..|ys| - 1], zs[..|zs| - 1]))
  }

  /** An interleaving loses and duplicates nothing. */
  lemma {:induction false} InterleavesCounts<T>(xs: seq<T>, ys: seq<T>, zs: seq<T>)
    requires Interleaves(xs, ys, zs)
    ensures |xs| + |ys| == |zs|
    ensures multiset(xs) + multiset(ys) == multiset(zs)
    decreases |zs|
  {
    if zs != [] {
      var zl := zs[..|zs| - 1];
      MultisetSnoc(zs);
      if xs != [] && xs[|xs| - 1] == zs[|zs| - 1] && Interleaves(xs[..|xs| - 1], ys, zl) {
        InterleavesCounts(xs[..|xs| - 1], ys, zl);
        MultisetSnoc(xs);
      } else {
        InterleavesCounts(xs, ys[..|ys| - 1], zl);
        MultisetSnoc(ys);
      }
    }
  }

  lemma MultisetSnoc<T>(xs: seq<T>)
    requires xs != []
    ensures multiset(xs) == multiset(xs[..|xs| - 1]) + multiset{xs[|xs| - 1]}
  {
    assert xs == xs[..|xs| - 1] + [xs[|xs| - 1]];
  }

  /** The paths claimed by matched entries. */
  function PathsOf<P>(ms: seq<Match<P>>): (paths: set<P>)
    ensures forall i :: 0 <= i < |ms| ==> ms[i].file.path in paths
    ensures forall p :: p in paths ==> exists i :: 0 <= i < |ms| && ms[i].file.path == p
  {
    set i | 0 <= i < |ms| :: ms[i].file.path
  }

  /** No path appears in two matched entries. */
  predicate Exclusive<P(==)>(ms: seq<Match<P>>) {
    forall i, j :: 0 <= i < j < |ms| ==> ms[i].file.path != ms[j].file.path
  }

  /** What an unmatched entry carries: a file exactly when its score is positive, and then one below the threshold. */
  predicate MissDiagnostic<P(==)>(x: Miss<P>, files: seq<AudioFile<P>>, threshold: int) {
    && (x.bestMatch.None? <==> x.bestScore == 0)
    && (x.bestMatch.Some? ==> x.bestMatch.value in files && 0 < x.bestScore < 10 * threshold && x.bestScore <= MaxScore)
  }

  /** The loop state of `match_tracks`: the two result lists and the set of used paths. */
  datatype State<P> = State(matched: seq<Match<P>>, unmatched: seq<Miss<P>>, used: set<P>)

  /**
   * One iteration of the outer loop: exactly one of the lists grows by one entry
   * for the track, and the used set grows only when the track is matched, by a
   * path that was not used before.
   */
  function Step<P(==)>(score: Scorer<P>, files: seq<AudioFile<P>>, threshold: int, s: State<P>, t: Track): (s': State<P>)
    ensures
      || (&& s'.unmatched == s.unmatched
          && |s'.matched| == |s.matched| + 1
          && s'.matched[..|s.matched|] == s.matched
          && s'.matched[|s.matched|].track == t
          && s'.matched[|s.matched|].file.path !in s.used
          && s'.used == s.used + {s'.matched[|s.matched|].file.path})
      || (&& s'.matched == s.matched
          && |s'.unmatched| == |s.unmatched| + 1
          && s'.unmatched[..|s.unmatched|] == s.unmatched
          && s'.unmatched[|s.unmatched|].track == t
          && s'.used == s.used)
  {
    match Decide(score, t, files, s.used, threshold)
    case Accept(m, _) => State(s.matched + [m], s.unmatched, s.used + {m.file.path})
    case Reject(x, _) => State(s.matched, s.unmatched + [x], s.used)
  }

  /** What holds of the loop state after the tracks so far; `Run` keeps it. */
  predicate RunInvariant<P(==)>(tracks: seq<Track>, files: seq<AudioFile<P>>, threshold: int, s: State<P>) {
    && Interleaves(MatchedTracks(s.matched), MissedTracks(s.unmatched), tracks)
    && s.used == PathsOf(s.matched)
    && Exclusive(s.matched)
    && (forall i :: 0 <= i < |s.matched| ==>
          Acceptable(s.matched[i].score, threshold) && s.matched[i].score <= MaxScore && s.matched[i].file in files)
    && (forall i :: 0 <= i < |s.unmatched| ==> MissDiagnostic(s.unmatched[i], files, threshold))
  }

  /** `match_tracks` run over the tracks in order, starting with no used paths: the state after the loop. */
  function Run<P(==)>(score: Scorer<P>, tracks: seq<Track>, files: seq<AudioFile<P>>, threshold: int): (s: State<P>)
    decreases |tracks|
  {
    if tracks == [] then
      State([], [], {})
    else
      Step(score, files, threshold, Run(score, tracks[..|tracks| - 1], files, threshold), tracks[|tracks| - 1])
  }

  /** Every state the loop passes through satisfies `RunInvariant`. */
  lemma {:induction false} RunKeepsInvariant<P>(score: Scorer<P>, tracks: seq<Track>, files: seq<AudioFile<P>>, threshold: int)
    ensures RunInvariant(tracks, files, threshold, Run(score, tracks, files, threshold))
    decreases |tracks|
  {
    if tracks == [] {
      RunStarts(files, threshold);
    } else {
      RunKeepsInvariant(score, tracks[..|tracks| - 1], files, threshold);
      StepKeeps(score, tracks, files, threshold, Run(score, tracks[..|tracks| - 1], files, threshold));
    }
  }

  lemma RunStarts<P>(files: seq<AudioFile<P>>, threshold: int)
    ensures RunInvariant([], files, threshold, State([], [], {}))
  {
    assert MatchedTracks<P>([]) == [];
    assert MissedTracks<P>([]) == [];
  }

  lemma InterleavesAppendLeft<T>(xs: seq<T>, ys: seq<T>, zs: seq<T>, z: T)
    requires Interleaves(xs, ys, zs)
    ensures Interleaves(xs + [z], ys, zs + [z])
  {
    assert (xs + [z])[..|xs|] == xs;
    assert (zs + [z])[..|zs|] == zs;
  }

  lemma InterleavesAppendRight<T>(xs: seq<T>, ys: seq<T>, zs: seq<T>, z: T)
    requires Interleaves(xs, ys, zs)
    ensures Interleaves(xs, ys + [z], zs + [z])
  {
    assert (ys + [z])[..|ys|] == ys;
    assert (zs + [z])[..|zs|] == zs;
  }

  /** One iteration keeps the invariant. */
  lemma StepKeeps<P>(score: Scorer<P>, tracks: seq<Track>, files: seq<AudioFile<P>>, threshold: int, prev: State<P>)
    requires tracks != []
    requires RunInvariant(tracks[..|tracks| - 1], files, threshold, prev)
    ensures RunInvariant(tracks, files, threshold, Step(score, files, threshold, prev, tracks[|tracks| - 1]))
  {
    var prefix := tracks[..|tracks| - 1];
    var t := tracks[|tracks| - 1];
    assert prefix + [t] == tracks;
    match Decide(score, t, files, prev.used, threshold)
    case Accept(m, _) => AcceptKeeps(prefix, files, threshold, prev, t, m);
    case Reject(x, _) => RejectKeeps(prefix, files, threshold, prev, t, x);
  }

  lemma AcceptKeeps<P>(tracks: seq<Track>, files: seq<AudioFile<P>>, threshold: int, prev: State<P>, t: Track, m: Match<P>)
    requires RunInvariant(tracks, files, threshold, prev)
    requires m.track == t && m.file.path !in prev.used && m.file in files
    requires Acceptable(m.score, threshold) && m.score <= MaxScore
    ensures RunInvariant(tracks + [t], files, threshold, State(prev.matched + [m], prev.unmatched, prev.used + {m.file.path}))
  {
    MatchedAppend(prev.matched, prev.unmatched, tracks, m);
    PathsOfAppend(prev.matched, m);
    ExclusiveAppend(prev.matched, m);
    AcceptedAppend(prev.matched, m, files, threshold);
  }

  lemma MatchedAppend<P>(ms: seq<Match<P>>, xs: seq<Miss<P>>, tracks: seq<Track>, m: Match<P>)
    requires Interleaves(MatchedTracks(ms), MissedTracks(xs), tracks)
    ensures Interleaves(MatchedTracks(ms + [m]), MissedTracks(xs), tracks + [m.track])
  {
    assert MatchedTracks(ms + [m]) == MatchedTracks(ms) + [m.track];
    InterleavesAppendLeft(MatchedTracks(ms), MissedTracks(xs), tracks, m.track);
  }

  lemma AcceptedAppend<P>(ms: seq<Match<P>>, m: Match<P>, files: seq<AudioFile<P>>, threshold: int)
    requires forall i :: 0 <= i < |ms| ==> Acceptable(ms[i].score, threshold) && ms[i].score <= MaxScore && ms[i].file in files
    requires Acceptable(m.score, threshold) && m.score <= MaxScore && m.file in files
    ensures forall i :: 0 <= i < |ms + [m]| ==>
      Acceptable((ms + [m])[i].score, threshold) && (ms + [m])[i].score <= MaxScore && (ms + [m])[i].file in files
  {
    var ms' := ms + [m];
    assert forall i :: 0 <= i < |ms| ==> ms'[i] == ms[i];
  }

  lemma PathsOfAppend<P>(ms: seq<Match<P>>, m: Match<P>)
    ensures PathsOf(ms + [m]) == PathsOf(ms) + {m.file.path}
  {
    var ms' := ms + [m];
    assert forall i :: 0 <= i < |ms| ==> ms'[i] == ms[i];
    assert ms'[|ms|] == m;
  }

  lemma ExclusiveAppend<P>(ms: seq<Match<P>>, m: Match<P>)
    requires Exclusive(ms) && m.file.path !in PathsOf(ms)
    ensures Exclusive(ms + [m])
  {
    var ms' := ms + [m];
    assert forall i :: 0 <= i < |ms| ==> ms'[i] == ms[i];
  }

  lemma RejectKeeps<P>(tracks: seq<Track>, files: seq<AudioFile<P>>, threshold: int, prev: State<P>, t: Track, x: Miss<P>)
    requires RunInvariant(tracks, files, threshold, prev)
    requires x.track == t && MissDiagnostic(x, files, threshold)
    ensures RunInvariant(tracks + [t], files, threshold, State(prev.matched, prev.unmatched + [x], prev.used))
  {
    MissedAppend(prev.matched, prev.unmatched, tracks, x);
    DiagnosedAppend(prev.unmatched, x, files, threshold);
  }

  lemma MissedAppend<P>(ms: seq<Match<P>>, xs: seq<Miss<P>>, tracks: seq<Track>, x: Miss<P>)
    requires Interleaves(MatchedTracks(ms), MissedTracks(xs), tracks)
    ensures Interleaves(MatchedTracks(ms), MissedTracks(xs + [x]), tracks + [x.track])
  {
    assert MissedTracks(xs + [x]) == MissedTracks(xs) + [x.track];
    InterleavesAppendRight(MatchedTracks(ms), MissedTracks(xs), tracks, x.track);
  }

  lemma DiagnosedAppend<P>(xs: seq<Miss<P>>, x: Miss<P>, files: seq<AudioFile<P>>, threshold: int)
    requires forall i :: 0 <= i < |xs| ==> MissDiagnostic(xs[i], files, threshold)
    requires MissDiagnostic(x, files, threshold)
    ensures forall i :: 0 <= i < |xs + [x]| ==> MissDiagnostic((xs + [x])[i], files, threshold)
  {
    var xs' := xs + [x];
    assert forall i :: 0 <= i < |xs| ==> xs'[i] == xs[i];
  }

  /** `match_tracks`: the matched and the unmatched entries. */
  function MatchTracks<P(==)>(ratio: Ratio, tracks: seq<Track>, files: seq<AudioFile<P>>, threshold: int)
    : (r: (seq<Match<P>>, seq<Miss<P>>))
    ensures |r.0| + |r.1| == |tracks|
    ensures Interleaves(MatchedTracks(r.0), MissedTracks(r.1), tracks)
    ensures Exclusive(r.0)
    ensures forall i :: 0 <= i < |r.0| ==> Acceptable(r.0[i].score, threshold) && r.0[i].file in files
    ensures forall i :: 0 <= i < |r.1| ==> MissDiagnostic(r.1[i], files, threshold)
  {
    var s := Run(FuzzyScorer(ratio), tracks, files, threshold);
    RunKeepsInvariant(FuzzyScorer(ratio), tracks, files, threshold);
    InterleavesCounts(MatchedTracks(s.matched), MissedTracks(s.unmatched), tracks);
    (s.matched, s.unmatched)
  }

  /** Appending a track runs one more iteration on the state left by the others. */
  lemma RunAppend<P>(score: Scorer<P>, tracks: seq<Track>, t: Track, files: seq<AudioFile<P>>, threshold: int)
    ensures Run(score, tracks + [t], files, threshold) == Step(score, files, threshold, Run(score, tracks, files, threshold), t)
  {
    assert (tracks + [t])[..|tracks|] == tracks;
  }

  /**
   * No backtracking: handling further tracks never revisits earlier outcomes. The
   * state after a prefix of the tracks is a prefix of the final state.
   */
  lemma {:induction false} NoBacktracking<P>(score: Scorer<P>, tracks: seq<Track>, files: seq<AudioFile<P>>, threshold: int, n: nat)
    requires n <= |tracks|
    ensures var before := Run(score, tracks[..n], files, threshold);
            var after := Run(score, tracks, files, threshold);
            && before.matched <= after.matched
            && before.unmatched <= after.unmatched
            && before.used <= after.used
    decreases |tracks|
  {
    if n == |tracks| {
      assert tracks[..n] == tracks;
    } else {
      var prefix := tracks[..|tracks| - 1];
      assert prefix[..n] == tracks[..n];
      NoBacktracking(score, prefix, files, threshold, n);
    }
  }

  /**
   * Track n is decided against the pool left by the earlier tracks: the files whose
   * paths no earlier match claimed. An unmatched track leaves the pool as it was.
   */
  lemma TrackSeesRemainingPool<P>(score: Scorer<P>, tracks: seq<Track>, files: seq<AudioFile<P>>, threshold: int, n: nat)
    requires n < |tracks|
    ensures var before := Run(score, tracks[..n], files, threshold);
            var after := Run(score, tracks[..n + 1], files, threshold);
            match Decide(score, tracks[n], files, PathsOf(before.matched), threshold)
            case Accept(m, _) =>
              after == State(before.matched + [m], before.unmatched, PathsOf(before.matched) + {m.file.path})
            case Reject(x, _) =>
              after == State(before.matched, before.unmatched + [x], PathsOf(before.matched))
  {
    assert tracks[..n + 1][..n] == tracks[..n];
    RunKeepsInvariant(score, tracks[..n], files, threshold);
  }

  /**
   * Greedy in input order: in the final result, the entry for track n is exactly the
   * decision for that track against the files not claimed by tracks 0..n-1.
   */
  lemma GreedyInInputOrder<P>(score: Scorer<P>, tracks: seq<Track>, files: seq<AudioFile<P>>, threshold: int, n: nat)
    requires n < |tracks|
    ensures var before := Run(score, tracks[..n], files, threshold);
            var after := Run(score, tracks, files, threshold);
            match Decide(score, tracks[n], files, PathsOf(before.matched), threshold)
            case Accept(m, _) => |before.matched| < |after.matched| && after.matched[|before.matched|] == m
            case Reject(x, _) => |before.unmatched| < |after.unmatched| && after.unmatched[|before.unmatched|] == x
  {
    TrackSeesRemainingPool(score, tracks, files, threshold, n);
    NoBacktracking(score, tracks, files, threshold, n + 1);
  }
}
