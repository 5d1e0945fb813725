/** The `Lexicon` of wordvec.py: an insertion-ordered table from word to embedding vector, its exact
    lookup, and the nearest-neighbour / analogy query, which shifts the stored vector of the query word
    in place and adds the analogy words to the caller's own exclusion set. */
module WordVec {
  import opened Wrappers
  import opened Vectors
  import opened Sequences
  import opened Ranking
  import opened Records

  /** Python's `KeyError` from `self.word_emb_dict[word]`. */
  datatype LookupError = KeyError(word: string)

  /** Python truthiness of an optional word: `None` and `""` are both false. */
  predicate Truthy(w: Option<string>)
  {
    w.Some? && w.value != ""
  }

  /** The words that `exclusions.add` receives for an optional analogy term. */
  function Added(w: Option<string>): set<string>
  {
    if Truthy(w) then {w.value} else {}
  }

  /** Every stored vector has one dimension, so numpy's `+=`, `-=` and the row matrix are defined. */
  predicate SameDimension(m: map<string, Vector>)
  {
    forall u, w :: u in m && w in m ==> |m[u]| == |m[w]|
  }

  /** Replacing one stored vector by one of the same dimension keeps the dimensions equal. */
  lemma SameDimensionUpdate(m: map<string, Vector>, w: string, v: Vector)
    requires SameDimension(m) && w in m && |v| == |m[w]|
    ensures SameDimension(m[w := v])
  {
  }

  /** `np.array(list(self.word_emb_dict.values()))`: the stored vectors in key order. */
  function RowsOf(keys: seq<string>, vecs: map<string, Vector>): (rows: seq<Vector>)
    requires forall k :: k in keys ==> k in vecs
    ensures |rows| == |keys|
    ensures forall i :: 0 <= i < |keys| ==> rows[i] == vecs[keys[i]]
  {
    seq(|keys|, i requires 0 <= i < |keys| => vecs[keys[i]])
  }

  // ---------------------------------------------------------------------------------------------
  // The analogy phase (lines 148-157)

  /** What lines 148-157 leave behind: the stored vectors (the query word's is the target), the
      exclusion set, and the word whose lookup raised `KeyError`, if one did. */
  datatype Shift = Shift(vecs: map<string, Vector>, excluded: set<string>, unknown: Option<string>)

  /** `target = get_vector(word)`, then `target += get_vector(plus)` and `target -= get_vector(minus)` on
      the stored array itself, each followed by `exclusions.add`. A failed lookup stops the sequence
      and keeps the effects of the steps before it. */
  function ShiftTarget(vecs: map<string, Vector>, ex: set<string>, word: string,
                       plus: Option<string>, minus: Option<string>): (s: Shift)
    requires SameDimension(vecs)
    ensures s.vecs.Keys == vecs.Keys && SameDimension(s.vecs)
    ensures s.unknown.None? ==> word in vecs
  {
    if word !in vecs then Shift(vecs, ex, Some(word))
    else if Truthy(plus) && plus.value !in vecs then Shift(vecs, ex, Some(plus.value))
    else
      var v1 := if Truthy(plus) then vecs[word := Add(vecs[word], vecs[plus.value])] else vecs;
      var ex1 := ex + Added(plus);
      if Truthy(minus) && minus.value !in v1 then Shift(v1, ex1, Some(minus.value))
      else if Truthy(minus) then Shift(v1[word := Sub(v1[word], v1[minus.value])], ex1 + {minus.value}, None)
      else Shift(v1, ex1, None)
  }

  /** A lookup fails exactly when one of the words is absent, and the error names the first absent one
      in the order word, plus, minus. Before the query word and `plus` are found nothing has changed;
      a missing `minus` leaves the `plus` shift and its exclusion in place. */
  lemma ShiftFailures(vecs: map<string, Vector>, ex: set<string>, word: string,
                      plus: Option<string>, minus: Option<string>)
    requires SameDimension(vecs)
    ensures var s := ShiftTarget(vecs, ex, word, plus, minus);
      (s.unknown.Some? <==> word !in vecs || (Truthy(plus) && plus.value !in vecs)
                            || (Truthy(minus) && minus.value !in vecs)) &&
      (word !in vecs ==> s == Shift(vecs, ex, Some(word))) &&
      (word in vecs && Truthy(plus) && plus.value !in vecs ==> s == Shift(vecs, ex, Some(plus.value))) &&
      (word in vecs && (Truthy(plus) ==> plus.value in vecs) && Truthy(minus) && minus.value !in vecs ==>
         s.unknown == Some(minus.value) && s.excluded == ex + Added(plus) &&
         s.vecs == if Truthy(plus) then vecs[word := Add(vecs[word], vecs[plus.value])] else vecs)
  {
  }

  /** On success only the query word's vector changes, the exclusions gain exactly the analogy
      words, and the target is word + plus - minus elementwise, using the vectors as they were;
      when `minus` is the query word itself, the in-place `-=` leaves the zero vector instead. */
  lemma ShiftSucceeds(vecs: map<string, Vector>, ex: set<string>, word: string,
                      plus: Option<string>, minus: Option<string>)
    requires SameDimension(vecs)
    requires ShiftTarget(vecs, ex, word, plus, minus).unknown.None?
    ensures var s := ShiftTarget(vecs, ex, word, plus, minus);
      word in vecs && (Truthy(plus) ==> plus.value in vecs) && (Truthy(minus) ==> minus.value in vecs) &&
      s.excluded == ex + Added(plus) + Added(minus) &&
      (forall w :: w in vecs && w != word ==> s.vecs[w] == vecs[w]) &&
      |s.vecs[word]| == |vecs[word]| &&
      (Truthy(minus) && minus.value == word ==> s.vecs[word] == Zeros(|vecs[word]|)) &&
      (!(Truthy(minus) && minus.value == word) ==>
         forall i :: 0 <= i < |vecs[word]| ==>
           s.vecs[word][i] == vecs[word][i] + (if Truthy(plus) then vecs[plus.value][i] else 0.0)
                                            - (if Truthy(minus) then vecs[minus.value][i] else 0.0))
  {
    if Truthy(minus) && minus.value == word {
      var v1 := if Truthy(plus) then vecs[word := Add(vecs[word], vecs[plus.value])] else vecs;
      SubSelf(v1[word]);
    }
  }

  // ---------------------------------------------------------------------------------------------
  // The whole query as a function of the state it starts from

  /** The result `find_nearest_words` returns or the `KeyError` it raises: rows and keys are taken
      before the shift, the target after it. */
  function FindNearest(keys: seq<string>, vecs: map<string, Vector>, ex: set<string>, word: string,
                       n: int, plus: Option<string>, minus: Option<string>, dist: Distance)
    : (r: Result<seq<Pair>, LookupError>)
    requires forall k :: k in keys ==> k in vecs
    requires SameDimension(vecs)
    ensures r.Ok? ==> |r.value| <= |keys|
  {
    var s := ShiftTarget(vecs, ex, word, plus, minus);
    if s.unknown.Some? then Err(KeyError(s.unknown.value))
    else Ok(Rank(keys, RowsOf(keys, vecs), s.vecs[word], s.excluded, n, dist))
  }

  /** Ranked answers: non-decreasing in score, none of them excluded or an analogy word, each word
      of the vocabulary scored against its row as it was before the shift. */
  lemma FindNearestAnswers(keys: seq<string>, vecs: map<string, Vector>, ex: set<string>, word: string,
                           n: int, plus: Option<string>, minus: Option<string>, dist: Distance)
    requires forall k :: k in keys ==> k in vecs
    requires SameDimension(vecs)
    requires FindNearest(keys, vecs, ex, word, n, plus, minus, dist).Ok?
    ensures var r := FindNearest(keys, vecs, ex, word, n, plus, minus, dist).value;
            var target := ShiftTarget(vecs, ex, word, plus, minus).vecs[word];
      SortedByScore(r) &&
      forall p :: p in r ==> p.0 in keys && p.0 !in ex && p.0 !in Added(plus) && p.0 !in Added(minus) &&
                             p.1 == dist(target, vecs[p.0])
  {
    var s := ShiftTarget(vecs, ex, word, plus, minus);
    ShiftSucceeds(vecs, ex, word, plus, minus);
    var rows := RowsOf(keys, vecs);
    RankSorted(keys, rows, s.vecs[word], s.excluded, n, dist);
    RankMembers(keys, rows, s.vecs[word], s.excluded, n, dist);
  }

  /** For distinct keys and `n >= 0` there are min(n, number of words neither excluded nor an analogy
      word) answers: `n = 0` gives none and running short of words is not an error. */
  lemma FindNearestLength(keys: seq<string>, vecs: map<string, Vector>, ex: set<string>, word: string,
                          n: int, plus: Option<string>, minus: Option<string>, dist: Distance)
    requires forall k :: k in keys ==> k in vecs
    requires SameDimension(vecs) && DistinctKeys(keys) && n >= 0
    requires FindNearest(keys, vecs, ex, word, n, plus, minus, dist).Ok?
    ensures |FindNearest(keys, vecs, ex, word, n, plus, minus, dist).value|
         == Min(n, |KeySet(keys) - (ex + Added(plus) + Added(minus))|)
  {
    var s := ShiftTarget(vecs, ex, word, plus, minus);
    ShiftSucceeds(vecs, ex, word, plus, minus);
    RankLength(keys, RowsOf(keys, vecs), s.vecs[word], s.excluded, n, dist);
  }

  // ---------------------------------------------------------------------------------------------
  // The objects

  /** A Python `set` of words, as an object: the caller's exclusion set, which the query updates. */
  class WordSet {
    var elems: set<string>

    constructor (init: set<string>)
      ensures elems == init
    {
      elems := init;
    }

    /** `set.add` */
    method Add(w: string)
      modifies this
      ensures elems == old(elems) + {w}
    {
      elems := elems + {w};
    }
  }

  class Lexicon {
    /** The dictionary's keys, in insertion order. */
    var keys: seq<string>
    /** The dictionary's entries. */
    var vecs: map<string, Vector>

    ghost predicate Valid()
      reads this
    {
      DistinctKeys(keys) && forall w :: w in keys <==> w in vecs
    }

    /** Lines 76-99: store every record, first to last, into an empty insertion-ordered dictionary. */
    constructor (records: seq<Record>)
      ensures Valid()
      ensures keys == KeyOrder(records) && vecs == Table(records)
    {
      keys := [];
      vecs := map[];
      new;
      var i := 0;
      while i < |records|
        invariant 0 <= i <= |records|
        invariant Valid()
        invariant keys == KeyOrder(records[..i]) && vecs == Table(records[..i])
      {
        assert records[..i + 1][..i] == records[..i];
        Store(records[i].word, records[i].vector);
        i := i + 1;
      }
      assert records[..i] == records;
    }

    /** `self.word_emb_dict[word] = vector`: a new word goes last, a known one keeps its place. */
    method Store(word: string, vector: Vector)
      requires Valid()
      modifies this
      ensures Valid()
      ensures keys == InsertKey(old(keys), word) && vecs == old(vecs)[word := vector]
    {
      if word !in vecs {
        keys := keys + [word];
      }
      vecs := vecs[word := vector];
    }

    /** `get_vector`: the value of the stored vector, or `KeyError` for an absent word. */
    function GetVector(word: string): (r: Result<Vector, LookupError>)
      reads this
      ensures r.Ok? <==> word in vecs
      ensures r.Ok? ==> r.value == vecs[word]
      ensures r.Err? ==> r.error == KeyError(word)
    {
      if word in vecs then Ok(vecs[word]) else Err(KeyError(word))
    }

    /** Lines 148-157 of `find_nearest_words`: look up the query word, then shift its stored vector
        in place by `plus` and `minus` and add them to the caller's exclusion set. Returns the word
        whose lookup raised `KeyError`, if one did; the effects of the steps before it remain. */
    method ShiftInPlace(word: string, exclude: WordSet, plus: Option<string>, minus: Option<string>)
      returns (unknown: Option<string>)
      requires Valid() && SameDimension(vecs)
      modifies this, exclude
      ensures Valid() && keys == old(keys)
      ensures var s := ShiftTarget(old(vecs), old(exclude.elems), word, plus, minus);
              vecs == s.vecs && exclude.elems == s.excluded && unknown == s.unknown
    {
      var target := GetVector(word);
      if target.Err? {
        return Some(word);
      }
      if Truthy(plus) {
        var p := GetVector(plus.value);
        if p.Err? {
          return Some(plus.value);
        }
        SameDimensionUpdate(vecs, word, Add(vecs[word], p.value));
        vecs := vecs[word := Add(vecs[word], p.value)];
        exclude.Add(plus.value);
      }
      ghost var v1, ex1 := vecs, exclude.elems;
      assert v1 == if Truthy(plus) then old(vecs)[word := Add(old(vecs)[word], old(vecs)[plus.value])] else old(vecs);
      assert ex1 == old(exclude.elems) + Added(plus);
      if Truthy(minus) {
        var m := GetVector(minus.value);
        if m.Err? {
          return Some(minus.value);
        }
        vecs := vecs[word := Sub(vecs[word], m.value)];
        exclude.Add(minus.value);
      }
      unknown := None;
    }

    /** `find_nearest_words`. The exclusion set is the caller's object and gains the analogy words;
        the stored vector of `word` becomes the target; nothing else in the table changes. */
    method FindNearestWords(word: string, exclude: WordSet, dist: Distance, nameonly n: int := 5,
                            nameonly plus: Option<string> := None, nameonly minus: Option<string> := None)
      returns (r: Result<seq<Pair>, LookupError>)
      requires Valid() && SameDimension(vecs)
      modifies this, exclude
      ensures Valid() && SameDimension(vecs) && keys == old(keys)
      ensures r == FindNearest(old(keys), old(vecs), old(exclude.elems), word, n, plus, minus, dist)
      ensures vecs == ShiftTarget(old(vecs), old(exclude.elems), word, plus, minus).vecs
      ensures exclude.elems == ShiftTarget(old(vecs), old(exclude.elems), word, plus, minus).excluded
    {
      var snapshotKeys := keys;
      var snapshotRows := RowsOf(keys, vecs);
      var unknown := ShiftInPlace(word, exclude, plus, minus);
      if unknown.Some? {
        return Err(KeyError(unknown.value));
      }
      r := Ok(Rank(snapshotKeys, snapshotRows, vecs[word], exclude.elems, n, dist));
    }
  }

  /** `Lexicon(file)` on the file's lines, each already split on whitespace: either the first
      malformed line, with no table, or a new table holding the parsed records. */
  method Load(lines: seq<seq<string>>, toReal: string -> Option<real>) returns (r: Result<Lexicon, LoadError>)
    ensures ParseLines(lines, toReal).Err? ==> r == Err(ParseLines(lines, toReal).error)
    ensures ParseLines(lines, toReal).Ok? ==>
              r.Ok? && fresh(r.value) && r.value.Valid() &&
              r.value.keys == KeyOrder(ParseLines(lines, toReal).value) &&
              r.value.vecs == Table(ParseLines(lines, toReal).value)
  {
    match ParseLines(lines, toReal)
    case Err(e) =>
      r := Err(e);
    case Ok(records) =>
      var lexicon := new Lexicon(records);
      r := Ok(lexicon);
  }

  /** A file whose lines all have the same number of tokens loads into a table of one dimension, so
      the lexicon that `Load` returns meets the precondition of `FindNearestWords`. */
  lemma LoadSameDimension(lines: seq<seq<string>>, toReal: string -> Option<real>)
    requires forall i, j :: 0 <= i < |lines| && 0 <= j < |lines| ==> |lines[i]| == |lines[j]|
    requires ParseLines(lines, toReal).Ok?
    ensures SameDimension(Table(ParseLines(lines, toReal).value))
  {
    var rs := ParseLines(lines, toReal).value;
    if lines != [] {
      var d := |lines[0]| - 1;
      forall i | 0 <= i < |rs| ensures |rs[i].vector| == d {
        assert ParseLine(lines[i], toReal) == Ok(rs[i]);
      }
      TableDimension(rs, d);
    }
  }
}
