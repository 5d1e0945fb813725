# wordvec: a Dafny model of the word-embedding Lexicon

This project models the `Lexicon` class of `wordvec.py`. The class is a table of pre-computed word
embeddings. It is built from a text file with one line per word: the first whitespace token is the
word and the remaining tokens are the vector. It offers an exact lookup, `get_vector`, and a
nearest-neighbour query with optional analogy arithmetic, `find_nearest_words`, which finds the
words nearest to word + plus − minus.

The model has six modules:

- `Wrappers` (`wrappers.dfy`): `Option` and `Result`.
- `Sequences` (`sequences.dfy`): distinct word lists and their sets, shared by the table and the ranking.
- `Vectors` (`vectors.dfy`): the elementwise `+=` / `-=` that numpy performs on a stored vector.
- `Records` (`records.dfy`): turning split lines into (word, vector) records, and the
  insertion-ordered dictionary they fill. A later record for a word replaces its vector, and the word
  keeps its first position.
- `Ranking` (`ranking.dfy`): the pure half of the query. It scores every row, zips the words with
  their scores in row order, sorts stably by score, filters out excluded words and slices with
  Python's `[0:n]`.
- `WordVec` (`wordvec.dfy`): the state that the source changes in place.
  - The class `Lexicon` holds `keys` (insertion order) and `vecs` (the dictionary).
  - The class `WordSet` is the caller's exclusion set.
  - `FindNearestWords` reproduces the source's side effects. The caller's set gains `plus` and
    `minus`. The lexicon's stored vector for the query word becomes the shifted target, because
    `+=` and `-=` act on the array that `get_vector` returns. The scores still come from the rows
    copied before the shift.

Collaborators that cannot be seen are parameters:

- The distance is `dist: (Vector, Vector) -> real`, applied once per row in row order. That is what
  the batch branch of `euclidean_distance` amounts to.
- The string-to-float conversion is `toReal: string -> Option<real>`. `None` stands for the
  `ValueError` that `astype(float)` raises.

## Behaviour of the code that the model keeps

- The query adds truthy `plus` and `minus` to the caller's own exclusion set, not to a copy
  (wordvec.py:148-157).
- The query shifts the query word's stored vector in place (wordvec.py:153, 156):
  `WordVec.ShiftSucceeds` states the new vector. When `minus` is the query word itself, the in-place
  `-=` leaves the zero vector rather than word + plus − minus.
- `[0:n]` with `n < 0` drops the last `-n` pairs (wordvec.py:172): `Ranking.RankLength` states both
  signs of `n`.
- Vector dimensions are never checked when the table is built, so `FindNearestWords` requires them to
  be equal instead (see Left out). `WordVec.LoadSameDimension` shows that a file whose lines all have
  the same number of tokens meets this requirement.

## Model

| member | source | states |
|---|---|---|
| `Records.ParseFields` | wordvec.py:93-96 | the fields convert exactly when every field is a number; the vector has one entry per field, in order; otherwise the error names the first bad field |
| `Records.ParseLine` | wordvec.py:89-96 | a blank line fails with `NoWord` (IndexError at `row_vector[0]`); otherwise the word is the first token and the vector is the remaining tokens converted, in order, or `BadNumber` |
| `Records.ParseLines` | wordvec.py:86-99 | either one record per line, or the index of the first malformed line with every earlier line well formed (the index is the model's own; Python's exceptions carry none) |
| `Records.KeyOrderWords` | wordvec.py:86-99 | `KeyOrder` (the dictionary's key order) holds every word of the records exactly once, and the same words as `Table` (the dictionary's contents) |
| `Records.TableLastWins` | wordvec.py:96 | in `Table`, a repeated word stores the vector of its last record |
| `Records.KeyOrderGrows` | wordvec.py:96 | storing further records never moves a key already stored: `KeyOrder` of a prefix of the records is a prefix of `KeyOrder` of all of them |
| `Records.KeyOrderFirstPosition` | wordvec.py:96 | a word's position in `KeyOrder` is fixed by its first record: after the distinct words stored before it |
| `Records.TableDimension` | wordvec.py:93-96 | records of one dimension give a `Table` of that dimension |
| `WordVec.LoadSameDimension` | wordvec.py:86-99 | lines that all have the same number of tokens and parse give a `Table` whose vectors share one dimension, which `FindNearestWords` requires |
| `WordVec.Lexicon.constructor` | wordvec.py:74-99 | storing the records first to last gives keys `KeyOrder(records)` and entries `Table(records)`, with distinct keys that match the entries |
| `WordVec.Lexicon.Store` | wordvec.py:96 | a dictionary assignment: a new word is appended to the key order, a known word keeps its place, and the entry is overwritten |
| `WordVec.Load` | wordvec.py:74-99 | a malformed line gives that error and no lexicon; otherwise a new lexicon holding the parsed records |
| `WordVec.Lexicon.GetVector` | wordvec.py:103-109 | exactly the stored vector of the word, or `KeyError(word)` when the word is absent |
| `WordVec.WordSet.Add` | wordvec.py:154 | `set.add`: the set gains exactly the word |
| `Vectors.SubUndoesAdd` | wordvec.py:153-156 | over exact reals, the elementwise `-=` undoes the elementwise `+=` of the same vector, so `plus == minus` gives back the query vector; this is a fact about the real-number model, not about IEEE floats |
| `Vectors.SubSelf` | wordvec.py:156 | a vector minus itself is the zero vector |
| `WordVec.ShiftFailures` | wordvec.py:148-157 | `ShiftTarget` (the analogy phase) fails with a KeyError exactly when word, truthy plus or truthy minus is absent, and it names the first absent one. A missing word or plus changes nothing; a missing minus keeps the plus shift and the plus exclusion |
| `WordVec.ShiftSucceeds` | wordvec.py:148-157 | when `ShiftTarget` succeeds, only the query word's entry changes; the exclusions gain exactly the truthy analogy words; the target is word + plus − minus elementwise, or zero when minus is the query word |
| `WordVec.Lexicon.ShiftInPlace` | wordvec.py:148-157 | the stored vectors, the caller's exclusion set and the failed lookup become exactly those of `ShiftTarget` on the state before the call; the keys do not change |
| `WordVec.Lexicon.FindNearestWords` | wordvec.py:143-174 | the result or KeyError is `FindNearest` of the state before the call; the stored vectors and the caller's exclusion set become those left by the analogy phase; the keys do not change |
| `WordVec.FindNearestAnswers` | wordvec.py:143-174 | the answers of `FindNearest` (the whole query on the state before it) are non-decreasing in score; no answer is in `exclude_w` or is a truthy plus or minus; each answer is a vocabulary word scored against its own row, taken from `RowsOf`, the pre-shift copy of the rows in key order (lines 144-145, 160) |
| `WordVec.FindNearestLength` | wordvec.py:122-124 | for `n ≥ 0`, `FindNearest` gives min(n, number of words neither excluded nor analogy words) answers; `n = 0` gives none and a short vocabulary is not an error |
| `Ranking.Scores` | wordvec.py:195-208 | the batch distance has one score per row, in row order, equal to the per-pair distance |
| `Ranking.Zip` | wordvec.py:163 | the i-th pair is the i-th key with the i-th score |
| `Ranking.SortPermutes` | wordvec.py:166 | `SortByScore` returns a permutation of its input |
| `Ranking.SortIsSorted` | wordvec.py:166 | the result of `SortByScore` is non-decreasing in score |
| `Ranking.SortIsStable` | wordvec.py:166 | in `SortByScore`, the pairs of any one score keep their input order (`sorted` is stable) |
| `Ranking.InsertWithScore` | wordvec.py:166 | `Insert`, one step of `SortByScore`, puts the new pair in front of the pairs with the same score and leaves their relative order alone |
| `Ranking.KeepMembers` | wordvec.py:169 | a pair survives `Keep` (the exclusion filter) exactly when it was present and its word is not excluded |
| `Ranking.KeepSort` | wordvec.py:166-169 | `Keep` after `SortByScore` is the same as `SortByScore` after `Keep` |
| `Ranking.KeepZipLength` | wordvec.py:163-169 | over distinct keys, `Keep` keeps one pair for each key that is not excluded |
| `Ranking.WithScorePrefix` | wordvec.py:172 | the pairs of one score in a prefix are a prefix of the pairs of that score |
| `Ranking.TakeFirst` | wordvec.py:172 | Python's `[0:n]`: a prefix of length min(n, len) for `n ≥ 0`, and max(0, len + n) for `n < 0` |
| `Ranking.FilterKeys` | wordvec.py:169 | the kept keys are exactly the keys that are not excluded |
| `Ranking.KeepScored` | wordvec.py:160-169 | filtering the scored list equals scoring only the non-excluded keys against their own rows |
| `Ranking.RankExcludeFirst` | wordvec.py:160-172 | for `Rank` (the whole pipeline), excluding words before scoring and sorting gives the same answer as excluding them after: the ranking equals scoring, sorting and slicing only the non-excluded keys and their rows |
| `Ranking.RankSorted` | wordvec.py:160-172 | the result of `Rank` is non-decreasing in score |
| `Ranking.RankMembers` | wordvec.py:160-172 | every pair `Rank` returns is (key i, score of row i) for some i, and its word is not excluded |
| `Ranking.RankLength` | wordvec.py:169-172 | over distinct keys the length of `Rank` is min(n, number of non-excluded keys) for `n ≥ 0`, and max(0, that number + n) for `n < 0` |
| `Ranking.RankNearest` | wordvec.py:160-172 | `Rank` is a top n: a non-excluded word missing from it scores at least as much as every returned word |
| `Ranking.RankStable` | wordvec.py:166-172 | in `Rank`, ties keep vocabulary order: the returned pairs of one score are a prefix of the non-excluded pairs of that score, in vocabulary order |

## Left out

- `parse_args`, `main` and logging (wordvec.py:41-67, 215-239): command-line, logging and output plumbing.
- File I/O (`open`, `readline`) and `str.split` (wordvec.py:83-89): `Load` takes the lines already split into tokens.
- The conversion of a field to a float is the parameter `toReal`. Which strings parse, and to which value, is not modelled.
- `euclidean_distance` (wordvec.py:177-210) is the parameter `dist`. Its L2 norms, `sqrt`, division, [0, 2] range, NaN on zero vectors, and single-vector branch are not modelled. `find_nearest_words` only uses it on the whole row matrix, which the model reflects as one score per row, in row order.
- Floating point: vectors and scores are exact reals. NaN scores, which make Python's sort order unspecified, cannot arise in the model.
- `WordVec.Lexicon.FindNearestWords` requires all stored vectors to share one dimension. The source never checks this; with ragged vectors numpy either raises `ValueError` or broadcasts, and neither is modelled.
- `WordVec.Load` parses all lines before storing any record, while the source stores each line as it parses it. The two differ only in the partly built dictionary, which an exception makes unreachable.
- `WordVec.Lexicon.GetVector` returns the stored vector by value. In the source the caller gets the dictionary's own array (wordvec.py:109), so a caller that keeps it sees later in-place shifts and can change the table through it; that sharing is modelled only for the shift `find_nearest_words` itself performs.
- `Records.ParseLines`: the line index in `MalformedLine` is the model's own addition; the source's IndexError and ValueError carry no line number.
- Python's dynamic typing: `exclude_w` is taken to be a set of strings and `plus`/`minus` to be strings or `None`.
