# Playlist matching engine, modelled in Dafny

`create_playlist.py` builds an M3U playlist from a CSV list of wanted tracks.
It matches each track against the audio files found on disk, and it does this
by comparing tags. This project models the matching core of that script and
proves what it guarantees. The core has three parts:

- `normalize_string`: an absent tag becomes `""`. A present text is lowercased
  and has its surrounding whitespace stripped.
- `fuzzy_match_score`: the library similarity `fuzz.ratio` is applied to the
  normalized title and to the normalized artist. The two results are weighted
  0.8 and 0.2.
- `match_tracks`: a greedy one-to-one assignment, made in track order. For each
  track, the inner loop skips files whose path is already used. It keeps the
  first file whose score is strictly higher than the best so far, starting from
  no file and a best score of 0. The track is matched when that best score is
  at least the threshold and a file was found. In that case the file's path is
  added to the used set. Otherwise the track goes to `unmatched`, together with
  the best file and score seen.

Files:

- `options.dfy` holds `Option`.
- `text.dfy` (module `Text`) holds lowercasing, strip and `normalize_string`.
- `scoring.dfy` (module `Scoring`) holds the weighted score.
- `matching.dfy` (module `Matching`) holds the records and the engine. The engine
  is written as a pure left fold over the tracks, and it threads the set of used
  paths through that fold.
- `match_loop.dfy` (module `MatchLoop`) holds the two nested loops as the script
  writes them, for any scorer. They are proved equal to the fold.
- `examples.dfy` (module `Scenarios`) holds worked scenarios.

Modelling choices:

- **Scores.** Scores are integers in tenths of a point. `0.8·t + 0.2·a` becomes
  `8·t + 2·a`, in `0..1000`. The threshold stays in whole points, as the
  script's `--threshold` is an `int`, and it is compared as `10·threshold`.
- **The scorer.** The engine is stated for any scoring function
  `(Track, AudioFile) -> 0..1000`, called `Scorer`. The script's scorer is
  `FuzzyScorer(ratio)`, where `ratio` is a parameter that stands for
  `fuzz.ratio`. All that is known of `ratio` is that it returns an integer in
  `0..100`.
- **Paths.** A path is any type with equality.
- **Records.** A track is the record built at create_playlist.py:86-90: title,
  artist and row. A file is the record built at create_playlist.py:66-70: path,
  plus an optional title and artist.

## Model

| member | source | states |
|---|---|---|
| Text.NormalizeString | create_playlist.py:37-41 | An absent value gives `""`. Every result has no whitespace at either end and no upper-case letter. |
| Text.NormalizeKeepsMiddle | create_playlist.py:37-41 | A present text keeps exactly its characters after the leading whitespace and before the trailing whitespace. Each kept character is lowercased; everything dropped is whitespace. |
| Text.NormalizeFixed | create_playlist.py:37-41 | A text comes out unchanged if and only if it is already lower-case and has no surrounding whitespace. |
| Text.NormalizeIdempotent | create_playlist.py:37-41 | Normalizing a normalized value changes nothing. |
| Text.Lower | create_playlist.py:41 | `lower()` maps each character on its own, keeps the length, leaves no upper-case letter, and is the identity on lower-case text. |
| Text.Strip | create_playlist.py:41 | `strip()` returns a contiguous slice of its input. Only whitespace lies before and after that slice, and the slice neither starts nor ends with whitespace. |
| Text.StripUnique | create_playlist.py:41 | Whitespace around a text that has none at its ends is removed exactly, so the result is that text. |
| Text.StripIdempotent | create_playlist.py:41 | Stripping twice is stripping once. |
| Text.StripKeepsLowercase | create_playlist.py:41 | Stripping a lower-case text leaves it lower-case, so normalizing by lowering then stripping yields lower-case text. |
| Scoring.CombinedScore | create_playlist.py:47-53 | The weighted score lies between ten times the smaller and ten times the larger similarity, so it is in 0..1000. It is 1000 exactly when both similarities are 100, and 0 exactly when both are 0. |
| Scoring.CombinedScoreMonotone | create_playlist.py:47-53 | Raising either similarity never lowers the score. |
| Scoring.TitleDominates | create_playlist.py:47-53 | At the default threshold of 70, a title similarity below 63 always fails and one of 88 or more always passes, whatever the artist. |
| Scoring.FuzzyMatchScore | create_playlist.py:44-55 | The score of two tag pairs is in 0..1000. |
| Scoring.FullAndZeroScores | create_playlist.py:44-55 | The score is full exactly when both normalized comparisons give 100. It is 0 exactly when both give 0. |
| Scoring.IdenticalFieldsScoreFull | create_playlist.py:44-55 | If `fuzz.ratio` gives identical texts 100, then a file whose tags equal the track's title and artist gets the full score. |
| Scoring.AbsentTagScoresAsEmpty | create_playlist.py:37-50 | A missing file tag scores exactly like an empty one. |
| Scoring.ScoreSeesOnlyNormalized | create_playlist.py:44-50 | The score depends only on the normalized texts, so case and surrounding whitespace never matter. |
| Matching.BestCandidate | create_playlist.py:103-121 | The inner search returns the first unused file whose score is positive and maximal among unused files; every earlier unused file scores strictly less. It returns no file exactly when no unused file scores above 0, and its score is that file's score, or 0. |
| Matching.FirstBestUnique | create_playlist.py:103-121 | Only one file is the first best. |
| Matching.Decide | create_playlist.py:103-135 | A track is accepted if and only if some unused file has a positive score of at least the threshold, so the boundary is inclusive. If accepted, it takes the first best file with that file's score. If rejected, the entry carries the first best file below the threshold, or no file with score 0 exactly when no unused file scored above 0. The decision also records the position of that file in the file list. |
| Matching.Step | create_playlist.py:123-135 | One iteration appends the track to exactly one list and leaves the other unchanged. A match adds a path that was unused before. A miss leaves the used set unchanged. |
| Matching.RunKeepsInvariant | create_playlist.py:100-135 | After any prefix of the tracks: the tracks of the two lists interleave to give the input tracks in order; the used set is exactly the matched paths; no path is matched twice; each match is acceptable and its file is one of the files; each miss carries a consistent diagnostic. |
| Matching.InterleavesCounts | create_playlist.py:102-135 | An interleaving loses and duplicates no track: the lengths add up and the multisets add up. |
| Matching.MatchTracks | create_playlist.py:96-137 | Every track is classified exactly once, and both outputs keep input order. No file path is matched twice. Every match has a positive score of at least the threshold. Every miss has a file exactly when its best score is positive, and that score is below the threshold. |
| Matching.RunAppend | create_playlist.py:102-135 | Adding a track at the end runs one more iteration on the state the earlier tracks left. |
| Matching.NoBacktracking | create_playlist.py:102-135 | The state after a prefix of the tracks is a prefix of the final state, so later tracks never undo earlier outcomes. |
| Matching.TrackSeesRemainingPool | create_playlist.py:100-135 | Track n is decided against exactly the files that the earlier matches did not claim. A miss leaves that pool as it was for track n+1. |
| Matching.GreedyInInputOrder | create_playlist.py:102-135 | In the final result, the entry for track n is the decision for that track against the files left by tracks 0..n-1. |
| MatchLoop.FindBest | create_playlist.py:103-121 | The inner loop with its `continue` and strict `>` computes the first best candidate that `BestCandidate` characterises. |
| MatchLoop.MatchTracksLoop | create_playlist.py:96-137 | For any scorer, the two nested loops return exactly the lists of the fold `Run`; with `FuzzyScorer(ratio)` that is `MatchTracks`. Hence the counts add up, no path repeats, and every match passes the threshold. |
| Scenarios.ExactTagsMatch | create_playlist.py:44-137 | If `fuzz.ratio` gives identical texts 100, a single track and a file carrying its exact title and artist are matched with the full score, and nothing is unmatched. |
| Scenarios.EqualScoreKeepsEarlier | create_playlist.py:118-121 | When an earlier unused file scores the same as a later one, the later one is never chosen. |
| Scenarios.GreedyStrandsLaterTrack | create_playlist.py:102-135 | Greedy, not optimal: the first track claims the file it prefers, and the second track is left unmatched, although swapping the files would match both. |

## Left out

- `get_audio_metadata`, `scan_audio_files`, `read_csv_tracks`, `create_m3u_playlist`, `create_unmatched_report` and `main` (create_playlist.py:16-34, 58-93, 140-230) are tag parsing, directory traversal, CSV reading, file writing and argument handling. They are I/O, and the model starts from the records they produce.
- `fuzz.ratio` is a foreign library routine. It is a parameter of type `(string, string) -> 0..100` and nothing more is assumed of it. `IdenticalFieldsScoreFull` and `ExactTagsMatch` state "identical texts score 100" as an explicit precondition.
- Text.Lower: `str.lower()` is modelled for the upper-case letters of Basic Latin and Latin-1 Supplement (A–Z, À–Þ except ×). Other scripts, and multi-character lowerings such as `İ`, are treated as unchanged.
- Text.IsSpace is the set of characters that Python's `str.isspace` accepts. `strip()` with no arguments removes exactly these.
- Scoring.CombinedScore: floating-point rounding is not modelled; scores are exact tenths. For integer similarities and whole-number thresholds, the float comparisons `score >= threshold` and `score > 0` agree with the exact ones. One case does not agree: equal exact scores can differ in the last bit. For example, 0.8·63 + 0.2·98 gives 70.0 but 0.8·82 + 0.2·22 gives 70.00000000000001. The script can therefore prefer a later file in such a near-tie where the model keeps the earlier one, and the reported score can differ in the last digit.
- The comment at create_playlist.py:52 says the weights are 60/40, but the code uses 0.8/0.2. The model follows the code.
- `best_file` and `best_match` always hold the same file in the script, so the model keeps one of them.
- Console output (`print`) is left out.

