/**
 The evaluator `correct`: one score record per key of the produced outputs, in
 their iteration order; a record scores true exactly when the reference holds
 the same key with an equal value. Reference keys that the outputs lack are
 never scored.
 */
module Evaluator {
  import opened Dicts

  /** One `{"key": key, "score": score}` record of the returned list. */
  datatype ScoreRecord = ScoreRecord(key: string, score: bool)

  /** The reference holds `key`, and its value there equals `value`. */
  predicate Matches<V(==)>(reference: seq<(string, V)>, key: string, value: V) {
    HasKey(reference, key) && Get(reference, key) == value
  }

  /** The list `correct` returns, as a function of the two mappings. */
  function Scores<V(==)>(outputs: seq<(string, V)>, reference: seq<(string, V)>): seq<ScoreRecord> {
    seq(|outputs|, i requires 0 <= i < |outputs| => ScoreRecord(outputs[i].0, Matches(reference, outputs[i].0, outputs[i].1)))
  }

  /**
   The scoring loop of `correct`. `inputs` is accepted and ignored, as in the
   source. The result is a list of records, not the `bool` the source's
   annotation names.
   */
  method Correct<I, V(==)>(inputs: Dict<I>, outputs: Dict<V>, referenceOutputs: Dict<V>)
    returns (results: seq<ScoreRecord>)
    ensures |results| == |outputs|
    ensures forall i | 0 <= i < |outputs| :: results[i].key == outputs[i].0
    ensures forall i | 0 <= i < |outputs| :: results[i].score <==> outputs[i] in referenceOutputs
    ensures forall i | 0 <= i < |outputs| :: !HasKey(referenceOutputs, outputs[i].0) ==> !results[i].score
    ensures results == Scores(outputs, referenceOutputs)
  {
    results := [];
    for n := 0 to |outputs|
      invariant results == Scores(outputs[..n], referenceOutputs)
    {
      var (key, value) := outputs[n];
      if !HasKey(referenceOutputs, key) || value != Get(referenceOutputs, key) {
        results := results + [ScoreRecord(key, false)];
      } else {
        results := results + [ScoreRecord(key, true)];
      }
    }
    assert outputs[..|outputs|] == outputs;
    forall i | 0 <= i < |outputs|
      ensures results[i].score <==> outputs[i] in referenceOutputs
    {
      LookupIffEntry(referenceOutputs, outputs[i].0, outputs[i].1);
    }
  }

  /** A record's key comes from the outputs: keys only the reference has never appear. */
  lemma ScoredKeysAreOutputKeys<V>(outputs: seq<(string, V)>, reference: seq<(string, V)>, key: string)
    requires !HasKey(outputs, key)
    ensures forall r | r in Scores(outputs, reference) :: r.key != key
  {
  }

  /** Extra reference entries whose keys the outputs lack do not change any score. */
  lemma ReferenceOnlyKeysIgnored<V>(outputs: seq<(string, V)>, reference: seq<(string, V)>, extra: seq<(string, V)>)
    requires forall i | 0 <= i < |outputs| :: !HasKey(extra, outputs[i].0)
    ensures Scores(outputs, reference + extra) == Scores(outputs, reference)
  {
    forall i | 0 <= i < |outputs|
      ensures Matches(reference + extra, outputs[i].0, outputs[i].1) == Matches(reference, outputs[i].0, outputs[i].1)
    {
      AppendLookup(reference, extra, outputs[i].0);
    }
  }

  /** Looking a key up in `a + b`, when `b` lacks it, is looking it up in `a`. */
  lemma AppendLookup<V>(a: seq<(string, V)>, b: seq<(string, V)>, key: string)
    requires !HasKey(b, key)
    ensures HasKey(a + b, key) == HasKey(a, key)
    ensures HasKey(a, key) ==> Get(a + b, key) == Get(a, key)
  {
    if HasKey(a + b, key) {
      var i :| 0 <= i < |a + b| && (a + b)[i].0 == key;
    }
    if HasKey(a, key) {
      var i := IndexOf(a, key);
      assert (a + b)[i].0 == key;
    }
  }

  /** Every record scores true exactly when each produced entry is an entry of the reference. */
  lemma AllTrueIffContained<V>(outputs: seq<(string, V)>, reference: Dict<V>)
    ensures (forall r | r in Scores(outputs, reference) :: r.score) <==> (forall p | p in outputs :: p in reference)
  {
    var s := Scores(outputs, reference);
    forall i | 0 <= i < |outputs|
      ensures s[i].score <==> outputs[i] in reference
    {
      LookupIffEntry(reference, outputs[i].0, outputs[i].1);
    }
    if forall r | r in s :: r.score {
      forall p | p in outputs ensures p in reference {
        var i :| 0 <= i < |outputs| && outputs[i] == p;
        assert s[i] in s;
      }
    }
  }

  /**
   A matching phone number scores true and a date one day off scores false;
   the reference's extra key is not scored.
   */
  lemma PhoneAndDateExample()
    ensures Scores([("answer_1", "0987654321"), ("answer_2", "2024-02-07")],
                   [("answer_1", "0987654321"), ("answer_2", "2024-02-06"), ("answer_3", "B")])
         == [ScoreRecord("answer_1", true), ScoreRecord("answer_2", false)]
  {
    var reference := [("answer_1", "0987654321"), ("answer_2", "2024-02-06"), ("answer_3", "B")];
    assert reference[0].0 == "answer_1";
    assert reference[1].0 == "answer_2";
    assert reference[0].0 != "answer_2";
  }
}
