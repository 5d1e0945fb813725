/** Construction of the table from the embedding file's lines (`Lexicon.__init__`): each line, already
    split on whitespace, gives a word (its first token) and a vector (the rest, converted to floats);
    the records then go into an insertion-ordered dictionary, where a later record for a word replaces
    the vector but not the word's position. */
module Records {
  import opened Wrappers
  import opened Vectors
  import opened Sequences

  datatype Record = Record(word: string, vector: Vector)

  /** `row_vector[0]` on a blank line raises IndexError; `astype(float)` on a field that is not a
      number raises ValueError naming that field. */
  datatype LineError = NoWord | BadNumber(field: string)

  /** The first line that failed, counted from 0, and why. */
  datatype LoadError = MalformedLine(line: nat, reason: LineError)

  /** `np.array(fields).astype(float)`, with the conversion of one string to a float as a parameter
      that may reject the string. */
  function ParseFields(fields: seq<string>, toReal: string -> Option<real>): (r: Result<Vector, string>)
    ensures r.Ok? <==> forall i :: 0 <= i < |fields| ==> toReal(fields[i]).Some?
    ensures r.Ok? ==> |r.value| == |fields| &&
                      forall i :: 0 <= i < |fields| ==> r.value[i] == toReal(fields[i]).value
    ensures r.Err? ==> exists i :: 0 <= i < |fields| && fields[i] == r.error && toReal(fields[i]).None? &&
                                   forall j :: 0 <= j < i ==> toReal(fields[j]).Some?
  {
    if fields == [] then Ok([])
    else match toReal(fields[0])
      case None => Err(fields[0])
      case Some(x) =>
        match ParseFields(fields[1..], toReal)
        case Ok(v) => Ok([x] + v)
        case Err(f) => Err(f)
  }

  /** One line: the word is the first token and the vector is the remaining tokens, in order. */
  function ParseLine(tokens: seq<string>, toReal: string -> Option<real>): (r: Result<Record, LineError>)
    ensures tokens == [] <==> r == Err(NoWord)
    ensures r.Ok? <==> tokens != [] && forall i :: 1 <= i < |tokens| ==> toReal(tokens[i]).Some?
    ensures r.Ok? ==> r.value.word == tokens[0] && |r.value.vector| == |tokens| - 1 &&
                      forall i :: 1 <= i < |tokens| ==> r.value.vector[i - 1] == toReal(tokens[i]).value
  {
    if tokens == [] then Err(NoWord)
    else match ParseFields(tokens[1..], toReal)
      case Ok(v) => Ok(Record(tokens[0], v))
      case Err(f) => Err(BadNumber(f))
  }

  /** All lines in file order; the first malformed line stops construction. */
  function ParseLines(lines: seq<seq<string>>, toReal: string -> Option<real>): (r: Result<seq<Record>, LoadError>)
    ensures r.Ok? ==> |r.value| == |lines| &&
                      forall i :: 0 <= i < |lines| ==> ParseLine(lines[i], toReal) == Ok(r.value[i])
    ensures r.Err? ==> r.error.line < |lines| &&
                       ParseLine(lines[r.error.line], toReal) == Err(r.error.reason) &&
                       forall i :: 0 <= i < r.error.line ==> ParseLine(lines[i], toReal).Ok?
  {
    if lines == [] then Ok([])
    else match ParseLine(lines[0], toReal)
      case Err(e) => Err(MalformedLine(0, e))
      case Ok(rec) =>
        match ParseLines(lines[1..], toReal)
        case Ok(rs) => Ok([rec] + rs)
        case Err(MalformedLine(k, e)) => Err(MalformedLine(k + 1, e))
  }

  // ---------------------------------------------------------------------------------------------
  // The insertion-ordered dictionary the records are stored into

  /** Key order after `d[w] = v`: a new key goes last, an existing key stays where it is. */
  function InsertKey(keys: seq<string>, w: string): (r: seq<string>)
    ensures keys <= r && w in r
  {
    if w in keys then keys else keys + [w]
  }

  /** The dictionary's key order after storing every record, first to last. */
  function KeyOrder(rs: seq<Record>): (keys: seq<string>)
  {
    if rs == [] then [] else InsertKey(KeyOrder(rs[..|rs| - 1]), rs[|rs| - 1].word)
  }

  /** The dictionary's contents after storing every record, first to last. */
  function Table(rs: seq<Record>): (m: map<string, Vector>)
  {
    if rs == [] then map[] else Table(rs[..|rs| - 1])[rs[|rs| - 1].word := rs[|rs| - 1].vector]
  }

  predicate Mentions(rs: seq<Record>, w: string)
  {
    exists i :: 0 <= i < |rs| && rs[i].word == w
  }

  /** The keys are exactly the words of the records, once each, and they are the table's keys. */
  lemma {:induction false} KeyOrderWords(rs: seq<Record>)
    ensures DistinctKeys(KeyOrder(rs))
    ensures forall w :: w in KeyOrder(rs) <==> w in Table(rs)
    ensures forall w :: w in Table(rs) <==> Mentions(rs, w)
  {
    if rs != [] {
      var init := rs[..|rs| - 1];
      var last := rs[|rs| - 1];
      KeyOrderWords(init);
      forall w ensures Mentions(rs, w) <==> Mentions(init, w) || w == last.word {
        if Mentions(rs, w) {
          var i :| 0 <= i < |rs| && rs[i].word == w;
          if i < |rs| - 1 { assert init[i].word == w; }
        }
        if Mentions(init, w) {
          var i :| 0 <= i < |init| && init[i].word == w;
          assert rs[i].word == w;
        }
      }
      var k := KeyOrder(init);
      if last.word !in k {
        forall i, j | 0 <= i < j < |k + [last.word]| ensures (k + [last.word])[i] != (k + [last.word])[j] {
          if j == |k| { assert (k + [last.word])[i] == k[i]; }
        }
      }
    }
  }

  /** Last one wins: the stored vector of a word is that of its last record. */
  lemma {:induction false} TableLastWins(rs: seq<Record>, i: nat)
    requires i < |rs|
    requires forall j :: i < j < |rs| ==> rs[j].word != rs[i].word
    ensures rs[i].word in Table(rs) && Table(rs)[rs[i].word] == rs[i].vector
  {
    if i < |rs| - 1 {
      var init := rs[..|rs| - 1];
      forall j | i < j < |init| ensures init[j].word != init[i].word {
        assert init[j] == rs[j];
      }
      TableLastWins(init, i);
    }
  }

  /** Storing more records never moves a key that is already there. */
  lemma {:induction false} KeyOrderGrows(rs: seq<Record>, k: nat)
    requires k <= |rs|
    ensures KeyOrder(rs[..k]) <= KeyOrder(rs)
    decreases |rs|
  {
    if k < |rs| {
      var init := rs[..|rs| - 1];
      assert init[..k] == rs[..k];
      KeyOrderGrows(init, k);
    } else {
      assert rs[..k] == rs;
    }
  }

  /** A word sits at the position it had when it was first stored: after the distinct words that
      occur before its first record. */
  lemma {:induction false} KeyOrderFirstPosition(rs: seq<Record>, i: nat)
    requires i < |rs|
    requires forall j :: 0 <= j < i ==> rs[j].word != rs[i].word
    ensures |KeyOrder(rs[..i])| < |KeyOrder(rs)|
    ensures KeyOrder(rs)[|KeyOrder(rs[..i])|] == rs[i].word
  {
    var before := rs[..i];
    KeyOrderWords(before);
    assert !Mentions(before, rs[i].word);
    assert rs[..i + 1][..i] == before;
    assert KeyOrder(rs[..i + 1]) == KeyOrder(before) + [rs[i].word];
    KeyOrderGrows(rs, i + 1);
  }

  /** Records whose vectors all have one dimension give a table whose vectors all have it. */
  lemma {:induction false} TableDimension(rs: seq<Record>, d: nat)
    requires forall i :: 0 <= i < |rs| ==> |rs[i].vector| == d
    ensures forall w :: w in Table(rs) ==> |Table(rs)[w]| == d
  {
    if rs != [] {
      var init := rs[..|rs| - 1];
      assert forall i :: 0 <= i < |init| ==> init[i] == rs[i];
      TableDimension(init, d);
    }
  }
}
