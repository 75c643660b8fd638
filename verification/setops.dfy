/** `_set_common` and its three wrappers `intersect`, `union` and
    `difference`: combine the sets named by `names` into a new set under a
    fresh id, record an expiry, and return the id. */
module SetOps {
  import opened KvStore

  /** The default time-to-live of a result, in seconds. */
  const DefaultTtl: int := 30

  /** The connection the operations are given: the store, and the commands
      already queued on it when it is a pipeline whose submission the caller
      controls. */
  datatype Conn = Conn(store: Store, queued: seq<Command>)

  /** `pipeline.execute()` on the caller's pipeline: the queued commands take
      effect in order and the queue is emptied. */
  function Submit(c: Conn): (r: Conn)
    ensures r.queued == []
    ensures c.queued == [] ==> r.store == c.store
  {
    Conn(Exec(c.store, c.queued).store, [])
  }

  // ---------------------------------------------------------------------------
  // Result ids and keys
  // ---------------------------------------------------------------------------

  /** A lower-case hexadecimal digit. */
  predicate IsHexDigit(c: char) {
    ('0' <= c <= '9') || ('a' <= c <= 'f')
  }

  /** The text of a random UUID: 32 lower-case hex digits in groups of
      8-4-4-4-12 separated by hyphens. */
  predicate IsUuidText(sid: string) {
    && |sid| == 36
    && forall i :: 0 <= i < |sid| ==>
         if i == 8 || i == 13 || i == 18 || i == 23 then sid[i] == '-' else IsHexDigit(sid[i])
  }

  /** The key the set-operation command stores its result under:
      `'idx' + sid`, with no colon. */
  function WrittenKey(sid: string): Key {
    "idx" + sid
  }

  /** The key the expiry is recorded on, which is also the key an operand name
      `sid` is read from: `'idx:' + sid`. */
  function ResultKey(sid: string): Key {
    PostingKey(sid)
  }

  /** The id stands for a fresh random UUID: its text has the UUID form and
      neither key derived from it is in use. */
  predicate FreshId(s: Store, sid: string) {
    && IsUuidText(sid)
    && WrittenKey(sid) !in s.sets && WrittenKey(sid) !in s.ttls
    && ResultKey(sid) !in s.sets && ResultKey(sid) !in s.ttls
  }

  /** Operand names mapped through the prefix. */
  function OperandKeys(names: seq<string>): (keys: seq<Key>)
    ensures |keys| == |names|
    ensures forall i :: 0 <= i < |names| ==> keys[i] == PostingKey(names[i])
  {
    if names == [] then [] else [PostingKey(names[0])] + OperandKeys(names[1..])
  }

  /** The set that `op` computes over the sets named by `names`. */
  function Evaluate(s: Store, op: SetOp, names: seq<string>): set<DocId>
    requires names != []
  {
    Combine(op, Members(s, PostingKey(names[0])), Lookup(s, OperandKeys(names[1..])))
  }

  /** The sets named by `names`, as the store reads them. */
  lemma OperandSets(s: Store, names: seq<string>)
    requires names != []
    ensures forall i :: 1 <= i < |names| ==>
      Lookup(s, OperandKeys(names[1..]))[i - 1] == Members(s, PostingKey(names[i]))
  {
  }

  /** An intersection holds what every named set holds. */
  lemma EvaluateInter(s: Store, names: seq<string>, x: DocId)
    requires names != []
    ensures x in Evaluate(s, Inter, names) <==>
      forall i :: 0 <= i < |names| ==> x in Members(s, PostingKey(names[i]))
  {
    var rest := Lookup(s, OperandKeys(names[1..]));
    InterMembers(Members(s, PostingKey(names[0])), rest, x);
    OperandSets(s, names);
  }

  /** A union holds what any named set holds. */
  lemma EvaluateUnion(s: Store, names: seq<string>, x: DocId)
    requires names != []
    ensures x in Evaluate(s, SetOp.Union, names) <==>
      exists i :: 0 <= i < |names| && x in Members(s, PostingKey(names[i]))
  {
    var rest := Lookup(s, OperandKeys(names[1..]));
    UnionMembers(Members(s, PostingKey(names[0])), rest, x);
    OperandSets(s, names);
    if x in Evaluate(s, SetOp.Union, names) && x !in Members(s, PostingKey(names[0])) {
      var j :| 0 <= j < |rest| && x in rest[j];
      assert x in Members(s, PostingKey(names[j + 1]));
    }
    if exists i :: 0 <= i < |names| && x in Members(s, PostingKey(names[i])) {
      var i :| 0 <= i < |names| && x in Members(s, PostingKey(names[i]));
      if i > 0 {
        assert x in rest[i - 1];
      }
    }
  }

  /** A difference holds what the first named set holds and no other does. */
  lemma EvaluateDiff(s: Store, names: seq<string>, x: DocId)
    requires names != []
    ensures x in Evaluate(s, Diff, names) <==>
      && x in Members(s, PostingKey(names[0]))
      && forall i :: 1 <= i < |names| ==> x !in Members(s, PostingKey(names[i]))
  {
    var rest := Lookup(s, OperandKeys(names[1..]));
    DiffMembers(Members(s, PostingKey(names[0])), rest, x);
    OperandSets(s, names);
  }

  // ---------------------------------------------------------------------------
  // _set_common
  // ---------------------------------------------------------------------------

  /** What a call returns: the id, and the connection afterwards; or, for an
      empty list of names, a failure before anything is queued, since the
      store's set-operation commands need at least one source key. */
  datatype SetOpResult = Done(sid: string, conn: Conn) | NoOperands

  /** The two commands of one call: the set operation storing at `dest`, then
      the expiry of `expireKey`. */
  function SetOpCommands(op: SetOp, names: seq<string>, ttl: int, dest: Key, expireKey: Key): seq<Command>
    requires names != []
  {
    [SetOpStore(op, dest, PostingKey(names[0]), OperandKeys(names[1..])), Expire(expireKey, ttl)]
  }

  /** With `execute`, the commands are submitted at once as a batch of their
      own; without it, they are appended to the caller's pipeline. */
  function Issue(conn: Conn, cmds: seq<Command>, execute: bool): Conn {
    if execute then Conn(Exec(conn.store, cmds).store, conn.queued)
    else Conn(conn.store, conn.queued + cmds)
  }

  /** `_set_common(conn, method, names, ttl, execute)` as written, with `sid`
      standing for the fresh `uuid4` it draws: the result is stored under
      `'idx' + sid`, the expiry is set on `'idx:' + sid`, and `sid` is
      returned. */
  function SetCommon(conn: Conn, op: SetOp, names: seq<string>, ttl: int, execute: bool, sid: string): (r: SetOpResult)
    requires FreshId(conn.store, sid)
    ensures r.NoOperands? <==> names == []
    ensures r.Done? ==> r.sid == sid
    ensures r.Done? && execute ==>
      && r.conn.queued == conn.queued
      && r.conn.store.sets == Put(conn.store.sets, WrittenKey(sid), Evaluate(conn.store, op, names))
      && r.conn.store.ttls == conn.store.ttls
    ensures r.Done? && !execute ==>
      && r.conn.store == conn.store
      && |r.conn.queued| == |conn.queued| + 2
      && r.conn.queued[..|conn.queued|] == conn.queued
      && r.conn.queued[|conn.queued|..] == SetOpCommands(op, names, ttl, WrittenKey(sid), ResultKey(sid))
  {
    if names == [] then NoOperands
    else
      var cmds := SetOpCommands(op, names, ttl, WrittenKey(sid), ResultKey(sid));
      var conn' := Issue(conn, cmds, execute);
      assert conn'.queued[..|conn.queued|] == conn.queued;
      assert conn'.queued[|conn.queued|..] == cmds || execute;
      var mid := Apply(conn.store, cmds[0]).store;
      assert Exec(conn.store, cmds).store == Exec(mid, cmds[1..]).store;
      assert Exec(mid, cmds[1..]).store == Apply(mid, cmds[1]).store;
      Done(sid, conn')
  }

  /** `intersect(conn, items, ttl=30, _execute=True)`. */
  function Intersect(conn: Conn, sid: string, names: seq<string>, ttl: int := DefaultTtl, execute: bool := true): (r: SetOpResult)
    requires FreshId(conn.store, sid)
    ensures r == SetCommon(conn, Inter, names, ttl, execute, sid)
    ensures r.Done? && execute ==> forall x :: x in Members(r.conn.store, WrittenKey(sid)) <==>
      forall i :: 0 <= i < |names| ==> x in Members(conn.store, PostingKey(names[i]))
  {
    var r := SetCommon(conn, Inter, names, ttl, execute, sid);
    assert r.Done? && execute ==> forall x :: x in Members(r.conn.store, WrittenKey(sid)) <==>
      forall i :: 0 <= i < |names| ==> x in Members(conn.store, PostingKey(names[i])) by {
      if r.Done? && execute {
        forall x {
          EvaluateInter(conn.store, names, x);
        }
      }
    }
    r
  }

  /** `union(conn, items, ttl=30, _execute=True)`. */
  function Union(conn: Conn, sid: string, names: seq<string>, ttl: int := DefaultTtl, execute: bool := true): (r: SetOpResult)
    requires FreshId(conn.store, sid)
    ensures r == SetCommon(conn, SetOp.Union, names, ttl, execute, sid)
    ensures r.Done? && execute ==> forall x :: x in Members(r.conn.store, WrittenKey(sid)) <==>
      exists i :: 0 <= i < |names| && x in Members(conn.store, PostingKey(names[i]))
  {
    var r := SetCommon(conn, SetOp.Union, names, ttl, execute, sid);
    assert r.Done? && execute ==> forall x :: x in Members(r.conn.store, WrittenKey(sid)) <==>
      exists i :: 0 <= i < |names| && x in Members(conn.store, PostingKey(names[i])) by {
      if r.Done? && execute {
        forall x {
          EvaluateUnion(conn.store, names, x);
        }
      }
    }
    r
  }

  /** `difference(conn, items, ttl=30, _execute=True)`. */
  function Difference(conn: Conn, sid: string, names: seq<string>, ttl: int := DefaultTtl, execute: bool := true): (r: SetOpResult)
    requires FreshId(conn.store, sid)
    ensures r == SetCommon(conn, Diff, names, ttl, execute, sid)
    ensures r.Done? && execute ==> forall x :: x in Members(r.conn.store, WrittenKey(sid)) <==>
      && x in Members(conn.store, PostingKey(names[0]))
      && forall i :: 1 <= i < |names| ==> x !in Members(conn.store, PostingKey(names[i]))
  {
    var r := SetCommon(conn, Diff, names, ttl, execute, sid);
    assert r.Done? && execute ==> forall x :: x in Members(r.conn.store, WrittenKey(sid)) <==>
      && x in Members(conn.store, PostingKey(names[0]))
      && forall i :: 1 <= i < |names| ==> x !in Members(conn.store, PostingKey(names[i])) by {
      if r.Done? && execute {
        forall x {
          EvaluateDiff(conn.store, names, x);
        }
      }
    }
    r
  }

  /** Queuing the two commands on an empty pipeline and submitting it has the
      same effect as running them at once. */
  lemma DeferredThenSubmitted(conn: Conn, op: SetOp, names: seq<string>, ttl: int, sid: string)
    requires FreshId(conn.store, sid) && names != [] && conn.queued == []
    ensures Submit(SetCommon(conn, op, names, ttl, false, sid).conn) == SetCommon(conn, op, names, ttl, true, sid).conn
  {
    var cmds := SetOpCommands(op, names, ttl, WrittenKey(sid), ResultKey(sid));
    assert conn.queued + cmds == cmds;
  }

  /** With `execute=False` on a pipeline that already holds commands, submitting
      it later runs those commands first and then the call's two commands, as
      if the earlier commands were submitted and the call executed at once. */
  lemma DeferredOnSharedPipeline(conn: Conn, op: SetOp, names: seq<string>, ttl: int, sid: string)
    requires FreshId(conn.store, sid) && names != []
    requires FreshId(Submit(conn).store, sid)
    ensures Submit(SetCommon(conn, op, names, ttl, false, sid).conn)
         == SetCommon(Submit(conn), op, names, ttl, true, sid).conn
  {
    var cmds := SetOpCommands(op, names, ttl, WrittenKey(sid), ResultKey(sid));
    ExecConcat(conn.store, conn.queued, cmds);
  }

  // ---------------------------------------------------------------------------
  // The key mismatch of `_set_common`
  // ---------------------------------------------------------------------------

  /** The key a result is written under is never the key of any name: it has
      a hex digit where every `idx:` key has its colon. */
  lemma WrittenKeyIsNoName(sid: string, name: string)
    requires IsUuidText(sid)
    ensures WrittenKey(sid) != PostingKey(name)
  {
    assert WrittenKey(sid)[3] == sid[0];
    assert PostingKey(name)[3] == ':';
  }

  /** As written, a result cannot be used again and never expires: it sits
      under a key that no operand name reaches and that gets no time-to-live,
      the expiry is sent to a key that does not exist and so does nothing, and
      the returned id, given back as a name, reads that empty key. */
  lemma ResultNotComposable(conn: Conn, op: SetOp, names: seq<string>, ttl: int, sid: string)
    requires FreshId(conn.store, sid) && names != []
    ensures var out := SetCommon(conn, op, names, ttl, true, sid).conn.store;
      && Members(out, WrittenKey(sid)) == Evaluate(conn.store, op, names)
      && (forall n :: PostingKey(n) != WrittenKey(sid))
      && WrittenKey(sid) !in out.ttls
      && ResultKey(sid) !in out.sets
      && ResultKey(sid) !in out.ttls
      && (forall op2 :: Evaluate(out, op2, [sid]) == {})
  {
    forall n
      ensures PostingKey(n) != WrittenKey(sid)
    {
      WrittenKeyIsNoName(sid, n);
    }
    WrittenKeyIsNoName(sid, sid);
  }

  /** `_set_common` with the result stored under `'idx:' + sid`, the key that
      gets the expiry and that the returned id is read from as a name. */
  function SetCommonCorrected(conn: Conn, op: SetOp, names: seq<string>, ttl: int, execute: bool, sid: string): (r: SetOpResult)
    requires FreshId(conn.store, sid)
    ensures r.NoOperands? <==> names == []
    ensures r.Done? ==> r.sid == sid
    ensures r.Done? && execute ==>
      && r.conn.queued == conn.queued
      && r.conn.store.sets == Put(conn.store.sets, ResultKey(sid), Evaluate(conn.store, op, names))
      && r.conn.store.ttls == if Evaluate(conn.store, op, names) == {} then conn.store.ttls
                              else conn.store.ttls[ResultKey(sid) := ttl]
    ensures r.Done? && !execute ==>
      && r.conn.store == conn.store
      && r.conn.queued == conn.queued + SetOpCommands(op, names, ttl, ResultKey(sid), ResultKey(sid))
  {
    if names == [] then NoOperands
    else
      var cmds := SetOpCommands(op, names, ttl, ResultKey(sid), ResultKey(sid));
      var conn' := Issue(conn, cmds, execute);
      var mid := Apply(conn.store, cmds[0]).store;
      assert Exec(conn.store, cmds).store == Exec(mid, cmds[1..]).store;
      assert Exec(mid, cmds[1..]).store == Apply(mid, cmds[1]).store;
      Done(sid, conn')
  }

  /** Corrected, results compose: the returned id, given back as a name, reads
      exactly the result, the expiry is on the key that holds it, and a further
      intersection with another name combines the result with that name's
      set. */
  lemma CorrectedComposable(conn: Conn, op: SetOp, names: seq<string>, ttl: int, sid: string)
    requires FreshId(conn.store, sid) && names != []
    ensures var out := SetCommonCorrected(conn, op, names, ttl, true, sid).conn.store;
      && Members(out, ResultKey(sid)) == Evaluate(conn.store, op, names)
      && (Evaluate(conn.store, op, names) != {} ==> ResultKey(sid) in out.ttls && out.ttls[ResultKey(sid)] == ttl)
      && (forall op2 :: Evaluate(out, op2, [sid]) == Evaluate(conn.store, op, names))
      && (forall n :: n != sid ==>
            Evaluate(out, Inter, [sid, n]) == Evaluate(conn.store, op, names) * Members(conn.store, PostingKey(n)))
  {
    var out := SetCommonCorrected(conn, op, names, ttl, true, sid).conn.store;
    forall n | n != sid
      ensures Evaluate(out, Inter, [sid, n]) == Evaluate(conn.store, op, names) * Members(conn.store, PostingKey(n))
    {
      assert PostingKey(n) != ResultKey(sid) by {
        if PostingKey(n) == PostingKey(sid) {
          PostingKeyInjective(n, sid);
        }
      }
      assert [sid, n][1..] == [n];
      assert OperandKeys([n]) == [PostingKey(n)];
      assert Lookup(out, [PostingKey(n)]) == [Members(out, PostingKey(n))];
      assert Members(out, PostingKey(n)) == Members(conn.store, PostingKey(n));
      var a, b := Members(out, ResultKey(sid)), Members(out, PostingKey(n));
      assert Combine(Inter, a, [b]) == Combine(Inter, a * b, []);
    }
  }

  /** The first id of the example below is UUID text. */
  lemma FirstSampleId(sid: string)
    requires sid == "11111111-1111-4111-8111-111111111111"
    ensures IsUuidText(sid) && sid[1] == '1'
  {
  }

  /** The second id of the example below is UUID text. */
  lemma SecondSampleId(sid: string)
    requires sid == "00000000-0000-4000-8000-000000000000"
    ensures IsUuidText(sid) && sid[1] == '0'
  {
  }

  /** A concrete instance of the mismatch: with `d1` indexed under `a`, the
      union of `a` holds `d1`, but the union of the id it returns holds
      nothing. */
  lemma NotComposableExample(sid1: string, sid2: string)
    requires sid1 == "11111111-1111-4111-8111-111111111111"
    requires sid2 == "00000000-0000-4000-8000-000000000000"
    ensures var start := Conn(Store(map[PostingKey("a") := {"d1"}], map[]), []);
      var first := Union(start, sid1, ["a"]);
      && first.Done? && first.sid == sid1
      && Members(first.conn.store, WrittenKey(sid1)) == {"d1"}
      && FreshId(first.conn.store, sid2)
      && var second := Union(first.conn, sid2, [sid1]);
         second.Done? && Members(second.conn.store, WrittenKey(sid2)) == {}
  {
    FirstSampleId(sid1);
    SecondSampleId(sid2);
    var start := Conn(Store(map[PostingKey("a") := {"d1"}], map[]), []);
    WrittenKeyIsNoName(sid1, "a");
    assert ResultKey(sid1) != PostingKey("a") by {
      assert ResultKey(sid1)[4] == sid1[0];
    }
    assert FreshId(start.store, sid1);
    var first := Union(start, sid1, ["a"]);
    ResultNotComposable(start, SetOp.Union, ["a"], DefaultTtl, sid1);
    assert Evaluate(start.store, SetOp.Union, ["a"]) == {"d1"};
    WrittenKeyIsNoName(sid2, "a");
    WrittenKeyIsNoName(sid2, sid1);
    assert WrittenKey(sid2)[4] != WrittenKey(sid1)[4];
    assert ResultKey(sid2)[5] != ResultKey(sid1)[5];
    assert ResultKey(sid2) != PostingKey("a") by {
      assert ResultKey(sid2)[4] == sid2[0];
    }
    assert FreshId(first.conn.store, sid2);
  }
}
