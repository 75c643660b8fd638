/** Indexing and set operations together: what an intersection over indexed
    terms finds. */
module Search {
  import opened KvStore
  import opened Indexer
  import opened SetOps

  /** A document indexed under two of its terms, as `IndexDocument` leaves
      it, is in their intersection. */
  lemma IndexedWordsFound(s: Store, docid: DocId, words: set<string>, a: string, b: string, sid: string)
    requires a in words && b in words
    requires FreshId(AddToPostings(s, docid, words), sid)
    ensures var r := Intersect(Conn(AddToPostings(s, docid, words), []), sid, [a, b]);
      r.Done? && docid in Members(r.conn.store, WrittenKey(sid))
  {
    var indexed := AddToPostings(s, docid, words);
    assert docid in Members(indexed, PostingKey([a, b][0]));
    assert docid in Members(indexed, PostingKey([a, b][1]));
  }

  /** An intersection with a term nobody indexed is empty. */
  lemma UnindexedTermFindsNothing(s: Store, names: seq<string>, missing: nat, sid: string)
    requires missing < |names| && PostingKey(names[missing]) !in s.sets
    requires FreshId(s, sid)
    ensures var r := Intersect(Conn(s, []), sid, names);
      r.Done? && Members(r.conn.store, WrittenKey(sid)) == {}
  {
    var r := Intersect(Conn(s, []), sid, names);
    assert Members(s, PostingKey(names[missing])) == {};
  }

  /** With the corrected key, results chain: the union of `a` and `other`,
      intersected with `b` by passing the union's id as a name, holds a
      document indexed under both `a` and `b`. */
  lemma ChainedQueryFinds(s: Store, docid: DocId, words: set<string>, a: string, other: string, b: string,
                          sid1: string, sid2: string)
    requires a in words && b in words && b != sid1
    requires FreshId(AddToPostings(s, docid, words), sid1)
    requires var first := SetCommonCorrected(Conn(AddToPostings(s, docid, words), []), SetOp.Union, [a, other], DefaultTtl, true, sid1);
      FreshId(first.conn.store, sid2)
    ensures var first := SetCommonCorrected(Conn(AddToPostings(s, docid, words), []), SetOp.Union, [a, other], DefaultTtl, true, sid1);
      var second := SetCommonCorrected(first.conn, Inter, [sid1, b], DefaultTtl, true, sid2);
      second.Done? && docid in Members(second.conn.store, ResultKey(sid2))
  {
    var indexed := AddToPostings(s, docid, words);
    var start := Conn(indexed, []);
    CorrectedComposable(start, SetOp.Union, [a, other], DefaultTtl, sid1);
    EvaluateUnion(indexed, [a, other], docid);
    assert docid in Members(indexed, PostingKey([a, other][0]));
    assert docid in Members(indexed, PostingKey(b));
  }
}
