/** An in-memory model of the key-value store the index lives in: named sets
    of document ids, a recorded time-to-live per key, the commands the code
    sends, and atomic execution of a batch of them. */
module KvStore {

  type DocId = string
  type Key = string

  /** Every key the code reads: posting sets are `idx:<term>` and an operand
      name `n` is looked up at `idx:<n>`. */
  const IndexPrefix: string := "idx:"

  /** The key under which the name `name` is stored and looked up. */
  function PostingKey(name: string): (k: Key)
    ensures |k| == |IndexPrefix| + |name| && k[..|IndexPrefix|] == IndexPrefix
    ensures k[|IndexPrefix|..] == name
  {
    IndexPrefix + name
  }

  /** Different names are stored under different keys. */
  lemma PostingKeyInjective(n1: string, n2: string)
    requires PostingKey(n1) == PostingKey(n2)
    ensures n1 == n2
  {
    assert n1 == PostingKey(n1)[|IndexPrefix|..];
  }

  /** The three store-side set operations: `SINTERSTORE`, `SUNIONSTORE`,
      `SDIFFSTORE`. */
  datatype SetOp = Inter | Union | Diff

  /** The commands the code queues. A set-operation command names its first
      source key apart from the rest, since the store needs at least one. */
  datatype Command =
    | SAdd(key: Key, member: DocId)
    | SetOpStore(op: SetOp, dest: Key, first: Key, rest: seq<Key>)
    | Expire(key: Key, ttl: int)

  /** The store: the named sets, and the time-to-live last recorded per key. */
  datatype Store = Store(sets: map<Key, set<DocId>>, ttls: map<Key, int>)

  /** The members of the set at `k`; a missing key reads as the empty set. */
  function Members(s: Store, k: Key): set<DocId> {
    if k in s.sets then s.sets[k] else {}
  }

  /** The members of the sets at `keys`, in order. */
  function Lookup(s: Store, keys: seq<Key>): (r: seq<set<DocId>>)
    ensures |r| == |keys|
    ensures forall i :: 0 <= i < |keys| ==> r[i] == Members(s, keys[i])
  {
    if keys == [] then [] else [Members(s, keys[0])] + Lookup(s, keys[1..])
  }

  /** One step of a set operation, folding in the next source. */
  function Step(op: SetOp, acc: set<DocId>, next: set<DocId>): set<DocId> {
    match op
    case Inter => acc * next
    case Union => acc + next
    case Diff => acc - next
  }

  /** A set operation over a first source `acc` and further sources `rest`,
      folded left to right as the store does. */
  function Combine(op: SetOp, acc: set<DocId>, rest: seq<set<DocId>>): set<DocId>
    decreases |rest|
  {
    if rest == [] then acc else Combine(op, Step(op, acc, rest[0]), rest[1..])
  }

  /** `SINTERSTORE`: the members common to every source. */
  lemma {:induction false} InterMembers(acc: set<DocId>, rest: seq<set<DocId>>, x: DocId)
    ensures x in Combine(Inter, acc, rest) <==> x in acc && forall i :: 0 <= i < |rest| ==> x in rest[i]
    decreases |rest|
  {
    if rest != [] {
      InterMembers(acc * rest[0], rest[1..], x);
      assert forall i :: 1 <= i < |rest| ==> rest[i] == rest[1..][i - 1];
    }
  }

  /** `SUNIONSTORE`: the members of any source. */
  lemma {:induction false} UnionMembers(acc: set<DocId>, rest: seq<set<DocId>>, x: DocId)
    ensures x in Combine(Union, acc, rest) <==> x in acc || exists i :: 0 <= i < |rest| && x in rest[i]
    decreases |rest|
  {
    if rest != [] {
      UnionMembers(acc + rest[0], rest[1..], x);
      if x in Combine(Union, acc, rest) && x !in acc && x !in rest[0] {
        var i :| 0 <= i < |rest[1..]| && x in rest[1..][i];
        assert x in rest[i + 1];
      }
      if exists i :: 0 <= i < |rest| && x in rest[i] {
        var i :| 0 <= i < |rest| && x in rest[i];
        if i > 0 {
          assert x in rest[1..][i - 1];
        }
      }
    }
  }

  /** `SDIFFSTORE`: the members of the first source that are in no other. */
  lemma {:induction false} DiffMembers(acc: set<DocId>, rest: seq<set<DocId>>, x: DocId)
    ensures x in Combine(Diff, acc, rest) <==> x in acc && forall i :: 0 <= i < |rest| ==> x !in rest[i]
    decreases |rest|
  {
    if rest != [] {
      DiffMembers(acc - rest[0], rest[1..], x);
      assert forall i :: 1 <= i < |rest| ==> rest[i] == rest[1..][i - 1];
    }
  }

  /** Reading a key after `Put`: the stored members at `k`, the old ones
      elsewhere. */
  lemma PutReads(sets: map<Key, set<DocId>>, ttls: map<Key, int>, k: Key, members: set<DocId>, j: Key)
    ensures Members(Store(Put(sets, k, members), ttls), j) == if j == k then members else Members(Store(sets, ttls), j)
  {
  }

  /** The store after one command, and the command's reply. */
  datatype Applied = Applied(store: Store, reply: int)

  /** The sets with `k` holding `members`; an empty set is no key at all. */
  function Put(sets: map<Key, set<DocId>>, k: Key, members: set<DocId>): map<Key, set<DocId>> {
    if members == {} then sets - {k} else sets[k := members]
  }

  /** One command. `SADD` replies 1 when the member is new and 0 otherwise. A
      set-operation command overwrites `dest`, dropping its time-to-live (an
      empty result deletes `dest`), and replies the size of the result.
      `EXPIRE` records the time-to-live and replies 1 when the key exists, and
      does nothing and replies 0 when it does not. */
  function Apply(s: Store, c: Command): Applied {
    match c
    case SAdd(k, m) =>
      Applied(Store(s.sets[k := Members(s, k) + {m}], s.ttls), if m in Members(s, k) then 0 else 1)
    case SetOpStore(op, dest, first, rest) =>
      var result := Combine(op, Members(s, first), Lookup(s, rest));
      Applied(Store(Put(s.sets, dest, result), s.ttls - {dest}), |result|)
    case Expire(k, ttl) =>
      if k in s.sets then Applied(Store(s.sets, s.ttls[k := ttl]), 1) else Applied(s, 0)
  }

  /** The store after a batch, and one reply per command. */
  datatype Executed = Executed(store: Store, replies: seq<int>)

  /** A batch submitted at once: its commands take effect in order. */
  function Exec(s: Store, cmds: seq<Command>): (r: Executed)
    ensures |r.replies| == |cmds|
    decreases |cmds|
  {
    if cmds == [] then Executed(s, [])
    else
      var first := Apply(s, cmds[0]);
      var rest := Exec(first.store, cmds[1..]);
      Executed(rest.store, [first.reply] + rest.replies)
  }

  /** A batch with one more command ends where the shorter batch plus that
      command ends. */
  lemma {:induction false} ExecAppend(s: Store, cmds: seq<Command>, c: Command)
    ensures Exec(s, cmds + [c]).store == Apply(Exec(s, cmds).store, c).store
    decreases |cmds|
  {
    if cmds != [] {
      assert (cmds + [c])[1..] == cmds[1..] + [c];
      ExecAppend(Apply(s, cmds[0]).store, cmds[1..], c);
    }
  }

  /** Two batches one after the other act as their concatenation. */
  lemma {:induction false} ExecConcat(s: Store, a: seq<Command>, b: seq<Command>)
    ensures Exec(s, a + b).store == Exec(Exec(s, a).store, b).store
    decreases |a|
  {
    if a != [] {
      assert (a + b)[1..] == a[1..] + b;
      ExecConcat(Apply(s, a[0]).store, a[1..], b);
    } else {
      assert a + b == b;
    }
  }
}
