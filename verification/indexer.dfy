/** `index_document`: add a document id to the posting set of every term of
    its content, in one batch. */
module Indexer {
  import opened Tokenizer
  import opened KvStore

  /** The posting-set keys of a set of terms. */
  function PostingKeys(words: set<string>): set<Key> {
    set w | w in words :: PostingKey(w)
  }

  /** Reference definition of indexing: `docid` joins the posting set of every
      word in `words`, nothing else changes, and no time-to-live is touched. */
  function AddToPostings(s: Store, docid: DocId, words: set<string>): (r: Store)
    ensures r.ttls == s.ttls
    ensures forall w :: w in words ==> Members(r, PostingKey(w)) == Members(s, PostingKey(w)) + {docid}
    ensures r.sets - PostingKeys(words) == s.sets - PostingKeys(words)
    ensures forall k :: Members(s, k) <= Members(r, k)
  {
    var keys := PostingKeys(words);
    Store(map k | k in s.sets.Keys + keys :: if k in keys then Members(s, k) + {docid} else s.sets[k], s.ttls)
  }

  /** Indexing no words leaves the store as it was. */
  lemma AddToNoPostings(s: Store, docid: DocId)
    ensures AddToPostings(s, docid, {}) == s
  {
    assert PostingKeys({}) == {};
    assert AddToPostings(s, docid, {}).sets == s.sets;
  }

  /** Queuing one more `SADD` extends the indexed words by one. */
  lemma AddOnePosting(s: Store, docid: DocId, words: set<string>, w: string)
    ensures Apply(AddToPostings(s, docid, words), SAdd(PostingKey(w), docid)).store
         == AddToPostings(s, docid, words + {w})
  {
    var before := AddToPostings(s, docid, words);
    var after := Apply(before, SAdd(PostingKey(w), docid)).store;
    var expected := AddToPostings(s, docid, words + {w});
    assert PostingKeys(words + {w}) == PostingKeys(words) + {PostingKey(w)};
    assert after.sets.Keys == expected.sets.Keys;
    forall k | k in after.sets
      ensures after.sets[k] == expected.sets[k]
    {
      if k != PostingKey(w) && k !in PostingKeys(words) {
        assert k !in PostingKeys(words + {w});
      }
    }
  }

  /** A pipeline that indexes `queued`, extended by the `SADD` of `w`,
      indexes `queued + {w}`. */
  lemma QueueOnePosting(s: Store, docid: DocId, pipeline: seq<Command>, queued: set<string>, w: string)
    requires Exec(s, pipeline).store == AddToPostings(s, docid, queued)
    ensures Exec(s, pipeline + [SAdd(PostingKey(w), docid)]).store == AddToPostings(s, docid, queued + {w})
  {
    ExecAppend(s, pipeline, SAdd(PostingKey(w), docid));
    AddOnePosting(s, docid, queued, w);
  }

  /** The body of `index_document` once the terms are known: queue one
      `SADD idx:<w> docid` per term `w`, in whatever order the term set is
      walked, submit the batch, and return the number of replies. */
  method SubmitPostings(s: Store, docid: DocId, words: set<string>) returns (count: nat, s': Store)
    ensures count == |words|
    ensures s' == AddToPostings(s, docid, words)
  {
    var pipeline: seq<Command> := [];
    var queued: set<string> := {};
    AddToNoPostings(s, docid);
    while queued != words
      invariant queued <= words
      invariant |pipeline| == |queued|
      invariant Exec(s, pipeline).store == AddToPostings(s, docid, queued)
      decreases |words - queued|
    {
      var w :| w in words - queued;
      var command := SAdd(PostingKey(w), docid);
      QueueOnePosting(s, docid, pipeline, queued, w);
      pipeline := pipeline + [command];
      queued := queued + {w};
    }
    var result := Exec(s, pipeline);
    count := |result.replies|;
    s' := result.store;
  }

  /** `index_document(conn, docid, content)`: the number of terms of the
      content, and the store with `docid` in each of their posting sets. */
  method IndexDocument(s: Store, docid: DocId, content: string) returns (count: nat, s': Store)
    ensures count == |Tokenize(content)|
    ensures s' == AddToPostings(s, docid, Tokenize(content))
    ensures forall w :: w in Tokenize(content) ==> docid in Members(s', PostingKey(w))
  {
    count, s' := SubmitPostings(s, docid, Tokenize(content));
  }

  /** Indexing is idempotent: adding the same document under the same words a
      second time changes nothing. */
  lemma IndexingTwiceIsIndexingOnce(s: Store, docid: DocId, words: set<string>)
    ensures AddToPostings(AddToPostings(s, docid, words), docid, words) == AddToPostings(s, docid, words)
  {
    var once := AddToPostings(s, docid, words);
    var twice := AddToPostings(once, docid, words);
    assert twice.sets.Keys == once.sets.Keys;
    forall k | k in once.sets
      ensures twice.sets[k] == once.sets[k]
    {
    }
  }
}
