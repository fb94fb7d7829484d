/**
 * The exploration topic queue of code-explainer (`src/code_explainer/topics.py`).
 *
 * A queue is an ordered sequence of `Topic` records persisted per output
 * directory. Every operation loads the whole sequence, changes it and saves
 * it again; `TopicStore.persisted` stands for the contents of `topics.json`
 * (`None` while that file does not exist).
 */
module Topics {
  import opened Wrappers

  const PENDING: string := "pending"
  const DONE: string := "done"
  const SKIPPED: string := "skipped"

  /** `TOPIC_KINDS` */
  const TOPIC_KINDS: set<string> := {"file", "function", "repo", "diff", "general"}

  /**
   * One queued exploration topic. Like the Python dataclass, `kind` and
   * `status` are plain strings; `added` is the creation timestamp, which no
   * operation changes.
   */
  datatype Topic = Topic(
    title: string,
    kind: string,
    target: string,
    source: string,
    status: string,
    added: string)

  predicate IsPending(t: Topic)
  {
    t.status == PENDING
  }

  /** The set of targets already queued: `{t.target for t in queue}`. */
  function Targets(q: seq<Topic>): set<string>
  {
    set t | t in q :: t.target
  }

  /** No two entries of the queue share a target. */
  predicate DistinctTargets(q: seq<Topic>)
  {
    forall i, j :: 0 <= i < j < |q| ==> q[i].target != q[j].target
  }

  /** The queue with entry `k` given status `s` and nothing else changed. */
  function Mark(q: seq<Topic>, k: nat, s: string): (r: seq<Topic>)
    requires k < |q|
    ensures |r| == |q| && r[k].status == s
    ensures r[k] == q[k].(status := s)
    ensures forall j :: 0 <= j < |q| && j != k ==> r[j] == q[j]
  {
    q[k := q[k].(status := s)]
  }

  // ---------------------------------------------------------------------
  // add_topics
  // ---------------------------------------------------------------------

  lemma TargetsAppend(q: seq<Topic>, t: Topic)
    ensures Targets(q + [t]) == Targets(q) + {t.target}
  {
    assert t in q + [t];
    forall x | x in Targets(q) ensures x in Targets(q + [t]) {
      var u :| u in q && u.target == x;
      assert u in q + [t];
    }
  }

  /**
   * The queue `add_topics` builds: the batch is read in order and each topic
   * is appended unless its target is already among the targets seen so far.
   */
  function AddAll(q: seq<Topic>, batch: seq<Topic>): (r: seq<Topic>)
    ensures |q| <= |r| <= |q| + |batch|
    ensures r[..|q|] == q
    decreases |batch|
  {
    if batch == [] then q
    else
      var prev := AddAll(q, batch[..|batch| - 1]);
      var t := batch[|batch| - 1];
      if t.target in Targets(prev) then prev
      else
        assert (prev + [t])[..|q|] == prev[..|q|];
        prev + [t]
  }

  /** Batch topic `i` is new: its target is neither queued nor used by an earlier topic of the batch. */
  predicate Fresh(q: seq<Topic>, batch: seq<Topic>, i: nat)
    requires i < |batch|
  {
    && batch[i].target !in Targets(q)
    && forall j :: 0 <= j < i ==> batch[j].target != batch[i].target
  }

  /** The topics among the first `n` of the batch that are `Fresh`, in batch order. */
  function Admitted(q: seq<Topic>, batch: seq<Topic>, n: nat): seq<Topic>
    requires n <= |batch|
  {
    if n == 0 then []
    else Admitted(q, batch, n - 1) + (if Fresh(q, batch, n - 1) then [batch[n - 1]] else [])
  }

  /** The targets of the first `n` topics of the batch. */
  function BatchTargets(batch: seq<Topic>, n: nat): set<string>
    requires n <= |batch|
  {
    set j | 0 <= j < n :: batch[j].target
  }

  /** `AddAll` over the first `n` batch topics, unfolded one step. */
  lemma AddAllStep(q: seq<Topic>, batch: seq<Topic>, n: nat)
    requires 0 < n <= |batch|
    ensures var prev := AddAll(q, batch[..n - 1]);
      AddAll(q, batch[..n]) == if batch[n - 1].target in Targets(prev) then prev else prev + [batch[n - 1]]
  {
    var b := batch[..n];
    assert b[..|b| - 1] == batch[..n - 1];
    assert b[|b| - 1] == batch[n - 1];
  }

  lemma BatchTargetsStep(batch: seq<Topic>, n: nat)
    requires 0 < n <= |batch|
    ensures BatchTargets(batch, n) == BatchTargets(batch, n - 1) + {batch[n - 1].target}
  {
    forall x | x in BatchTargets(batch, n) ensures x in BatchTargets(batch, n - 1) + {batch[n - 1].target} {
      var j :| 0 <= j < n && batch[j].target == x;
      if j < n - 1 { assert x in BatchTargets(batch, n - 1); }
    }
    forall x | x in BatchTargets(batch, n - 1) ensures x in BatchTargets(batch, n) {
      var j :| 0 <= j < n - 1 && batch[j].target == x;
    }
  }

  /** `Fresh` in terms of the targets seen before position `i`. */
  lemma FreshIff(q: seq<Topic>, batch: seq<Topic>, i: nat)
    requires i < |batch|
    ensures Fresh(q, batch, i) <==> batch[i].target !in Targets(q) + BatchTargets(batch, i)
  {
    if batch[i].target in BatchTargets(batch, i) {
      var j :| 0 <= j < i && batch[j].target == batch[i].target;
    }
    forall j | 0 <= j < i ensures batch[j].target in BatchTargets(batch, i) { }
  }

  /** After the first `n` batch topics the queue's targets are the old ones plus those `n` targets. */
  lemma {:induction false} AddAllTargets(q: seq<Topic>, batch: seq<Topic>, n: nat)
    requires n <= |batch|
    ensures Targets(AddAll(q, batch[..n])) == Targets(q) + BatchTargets(batch, n)
  {
    if n == 0 {
      assert batch[..0] == [];
      assert BatchTargets(batch, 0) == {};
    } else {
      AddAllTargets(q, batch, n - 1);
      AddAllStep(q, batch, n);
      BatchTargetsStep(batch, n);
      TargetsAppend(AddAll(q, batch[..n - 1]), batch[n - 1]);
    }
  }

  lemma {:induction false} AddAllPrefix(q: seq<Topic>, batch: seq<Topic>, n: nat)
    requires n <= |batch|
    ensures AddAll(q, batch[..n]) == q + Admitted(q, batch, n)
  {
    if n == 0 {
      assert batch[..0] == [];
    } else {
      AddAllPrefix(q, batch, n - 1);
      AddAllTargets(q, batch, n - 1);
      FreshIff(q, batch, n - 1);
      if Fresh(q, batch, n - 1) {
        AdmitFresh(q, batch, n);
      } else {
        AdmitKnown(q, batch, n);
      }
    }
  }

  /** One step of `AddAllPrefix` for a new target. */
  lemma AdmitFresh(q: seq<Topic>, batch: seq<Topic>, n: nat)
    requires 0 < n <= |batch| && Fresh(q, batch, n - 1)
    requires AddAll(q, batch[..n - 1]) == q + Admitted(q, batch, n - 1)
    requires batch[n - 1].target !in Targets(AddAll(q, batch[..n - 1]))
    ensures AddAll(q, batch[..n]) == q + Admitted(q, batch, n)
  {
    AddAllStep(q, batch, n);
    var t := batch[n - 1];
    assert Admitted(q, batch, n) == Admitted(q, batch, n - 1) + [t];
    assert q + Admitted(q, batch, n) == (q + Admitted(q, batch, n - 1)) + [t];
  }

  /** One step of `AddAllPrefix` for a target seen before. */
  lemma AdmitKnown(q: seq<Topic>, batch: seq<Topic>, n: nat)
    requires 0 < n <= |batch| && !Fresh(q, batch, n - 1)
    requires AddAll(q, batch[..n - 1]) == q + Admitted(q, batch, n - 1)
    requires batch[n - 1].target in Targets(AddAll(q, batch[..n - 1]))
    ensures AddAll(q, batch[..n]) == q + Admitted(q, batch, n)
  {
    AddAllStep(q, batch, n);
  }

  /**
   * `add_topics` yields the old queue followed by exactly the batch topics
   * whose target is neither queued nor used earlier in the batch, in batch
   * order; the targets afterwards are the old targets plus all batch targets.
   */
  lemma AddAllAdmits(q: seq<Topic>, batch: seq<Topic>)
    ensures AddAll(q, batch) == q + Admitted(q, batch, |batch|)
    ensures Targets(AddAll(q, batch)) == Targets(q) + BatchTargets(batch, |batch|)
  {
    AddAllPrefix(q, batch, |batch|);
    AddAllTargets(q, batch, |batch|);
    assert batch[..|batch|] == batch;
  }

  lemma {:induction false} AdmittedShort(q: seq<Topic>, batch: seq<Topic>, n: nat, k: nat)
    requires k < n <= |batch|
    requires !Fresh(q, batch, k)
    ensures |Admitted(q, batch, n)| < n
  {
    AdmittedAtMost(q, batch, n - 1);
    if k < n - 1 {
      AdmittedShort(q, batch, n - 1, k);
    }
  }

  lemma {:induction false} AdmittedAtMost(q: seq<Topic>, batch: seq<Topic>, n: nat)
    requires n <= |batch|
    ensures |Admitted(q, batch, n)| <= n
  {
    if n > 0 { AdmittedAtMost(q, batch, n - 1); }
  }

  /**
   * Two topics of one batch with the same target: the later one is dropped,
   * so fewer topics are added than were given.
   */
  lemma BatchDuplicateDropped(q: seq<Topic>, batch: seq<Topic>, i: nat, j: nat)
    requires i < j < |batch| && batch[i].target == batch[j].target
    ensures |AddAll(q, batch)| - |q| < |batch|
  {
    AddAllAdmits(q, batch);
    assert !Fresh(q, batch, j);
    AdmittedShort(q, batch, |batch|, j);
  }

  /** A queue whose targets are distinct keeps them distinct through `add_topics`. */
  lemma AddAllKeepsDistinct(q: seq<Topic>, batch: seq<Topic>)
    requires DistinctTargets(q)
    ensures DistinctTargets(AddAll(q, batch))
  {
    AddAllDistinctPrefix(q, batch, |batch|);
    assert batch[..|batch|] == batch;
  }

  lemma {:induction false} AddAllDistinctPrefix(q: seq<Topic>, batch: seq<Topic>, n: nat)
    requires DistinctTargets(q) && n <= |batch|
    ensures DistinctTargets(AddAll(q, batch[..n]))
  {
    if n > 0 {
      AddAllDistinctPrefix(q, batch, n - 1);
      var b := batch[..n];
      assert b[..|b| - 1] == batch[..n - 1];
      var prev := AddAll(q, batch[..n - 1]);
      var t := b[|b| - 1];
      if t.target !in Targets(prev) {
        var r := prev + [t];
        forall i, j | 0 <= i < j < |r| ensures r[i].target != r[j].target {
          if j == |prev| { assert r[i] in prev; }
        }
      }
    }
  }

  /** A batch whose every target is already queued adds nothing. */
  lemma {:induction false} AddAllKnown(q: seq<Topic>, batch: seq<Topic>)
    requires forall t :: t in batch ==> t.target in Targets(q)
    ensures AddAll(q, batch) == q
    decreases |batch|
  {
    if batch != [] {
      var init := batch[..|batch| - 1];
      forall t | t in init ensures t.target in Targets(q) { assert t in batch; }
      AddAllKnown(q, init);
      assert batch[|batch| - 1] in batch;
    }
  }

  // ---------------------------------------------------------------------
  // pending positions, pending_count
  // ---------------------------------------------------------------------

  /** The positions of the pending entries, in stored order: the `pending` list of `skip_topic`. */
  function PendingPositions(q: seq<Topic>): (pp: seq<nat>)
    ensures forall i :: 0 <= i < |pp| ==> pp[i] < |q| && IsPending(q[pp[i]])
    ensures forall i, j :: 0 <= i < j < |pp| ==> pp[i] < pp[j]
  {
    if q == [] then []
    else
      var n := |q| - 1;
      var prev := PendingPositions(q[..n]);
      assert forall k :: 0 <= k < n ==> q[..n][k] == q[k];
      if IsPending(q[n]) then prev + [n] else prev
  }

  /** Every pending entry's position is in the pending list. */
  lemma {:induction false} PendingComplete(q: seq<Topic>, k: nat)
    requires k < |q| && IsPending(q[k])
    ensures k in PendingPositions(q)
    decreases |q|
  {
    var n := |q| - 1;
    if k < n {
      assert q[..n][k] == q[k];
      PendingComplete(q[..n], k);
    }
  }

  /** `PendingPositions` of a queue with one more entry at the end. */
  lemma PendingSnoc(p: seq<Topic>, t: Topic)
    ensures PendingPositions(p + [t]) == PendingPositions(p) + if IsPending(t) then [|p|] else []
  {
    assert (p + [t])[..|p|] == p;
  }

  /**
   * `sum(1 for t in queue if t.status == "pending")`: at most the queue's
   * length, and zero exactly when no entry is pending.
   */
  function CountPending(q: seq<Topic>): (c: nat)
    ensures c <= |q|
    ensures c == 0 <==> forall k :: 0 <= k < |q| ==> !IsPending(q[k])
  {
    if q == [] then 0
    else
      var n := |q| - 1;
      assert forall k :: 0 <= k < n ==> q[..n][k] == q[k];
      CountPending(q[..n]) + (if IsPending(q[n]) then 1 else 0)
  }

  /** The count of pending entries is the length of the pending-position list. */
  lemma {:induction false} CountIsPending(q: seq<Topic>)
    ensures CountPending(q) == |PendingPositions(q)|
    decreases |q|
  {
    if q != [] { CountIsPending(q[..|q| - 1]); }
  }

  lemma MarkSnoc(p: seq<Topic>, t: Topic, k: nat, s: string)
    requires k < |p|
    ensures Mark(p + [t], k, s) == Mark(p, k, s) + [t]
  {
    var r := Mark(p + [t], k, s);
    assert |r| == |p| + 1;
    forall i | 0 <= i < |p| && i != k ensures r[i] == p[i] { assert (p + [t])[i] == p[i]; }
  }

  /** Marking the last entry, when it is pending, drops the last pending position. */
  lemma MarkLastPending(p: seq<Topic>, t: Topic, s: string)
    requires IsPending(t) && s != PENDING
    ensures PendingPositions(Mark(p + [t], |p|, s)) == PendingPositions(p)
  {
    var r := Mark(p + [t], |p|, s);
    assert r == p + [t.(status := s)] by {
      assert |r| == |p| + 1;
      forall i | 0 <= i < |p| ensures r[i] == p[i] { assert (p + [t])[i] == p[i]; }
    }
    PendingSnoc(p, t.(status := s));
  }

  /**
   * Giving the `j`-th pending entry any non-pending status removes exactly
   * that position from the pending list.
   */
  lemma {:induction false} MarkRemovesPending(q: seq<Topic>, j: nat, s: string)
    requires j < |PendingPositions(q)| && s != PENDING
    ensures var pp := PendingPositions(q);
      PendingPositions(Mark(q, pp[j], s)) == pp[..j] + pp[j + 1..]
    decreases |q|, 1
  {
    var pp := PendingPositions(q);
    var n := |q| - 1;
    var p, t := q[..n], q[n];
    assert q == p + [t];
    PendingSnoc(p, t);
    if pp[j] == n {
      MarkLastRemoves(p, t, j, s);
    } else {
      MarkEarlierRemoves(p, t, j, s);
    }
  }

  lemma MarkLastRemoves(p: seq<Topic>, t: Topic, j: nat, s: string)
    requires s != PENDING
    requires j < |PendingPositions(p + [t])| && PendingPositions(p + [t])[j] == |p|
    ensures var pp := PendingPositions(p + [t]);
      PendingPositions(Mark(p + [t], |p|, s)) == pp[..j] + pp[j + 1..]
  {
    var pp := PendingPositions(p + [t]);
    PendingSnoc(p, t);
    var prev := PendingPositions(p);
    assert IsPending(t) by { assert (p + [t])[|p|] == t; }
    MarkLastPending(p, t, s);
    assert j == |prev|;
    assert pp[..j] + pp[j + 1..] == prev;
  }

  lemma {:induction false} MarkEarlierRemoves(p: seq<Topic>, t: Topic, j: nat, s: string)
    requires s != PENDING
    requires j < |PendingPositions(p + [t])| && PendingPositions(p + [t])[j] != |p|
    ensures var pp := PendingPositions(p + [t]);
      PendingPositions(Mark(p + [t], pp[j], s)) == pp[..j] + pp[j + 1..]
    decreases |p| + 1, 0
  {
    var pp := PendingPositions(p + [t]);
    var k := pp[j];
    PendingSnoc(p, t);
    var prev := PendingPositions(p);
    var tail: seq<nat> := if IsPending(t) then [|p|] else [];
    assert pp == prev + tail;
    assert j < |prev|;
    assert prev[j] == k;
    MarkRemovesPending(p, j, s);
    MarkSnoc(p, t, k, s);
    PendingSnoc(Mark(p, k, s), t);
    assert pp[..j] == prev[..j];
    assert pp[j + 1..] == prev[j + 1..] + tail;
  }

  lemma MarkKeepsTargets(q: seq<Topic>, k: nat, s: string)
    requires k < |q|
    ensures Targets(Mark(q, k, s)) == Targets(q)
    ensures DistinctTargets(q) ==> DistinctTargets(Mark(q, k, s))
  {
    var r := Mark(q, k, s);
    forall x | x in Targets(q) ensures x in Targets(r) {
      var i :| 0 <= i < |q| && q[i].target == x;
      assert r[i].target == x;
    }
    forall x | x in Targets(r) ensures x in Targets(q) {
      var i :| 0 <= i < |r| && r[i].target == x;
      assert q[i].target == x;
    }
  }

  // ---------------------------------------------------------------------
  // pop_next
  // ---------------------------------------------------------------------

  /**
   * What `pop_next` returns and the queue it leaves: `None` and the queue
   * unchanged exactly when nothing is pending; otherwise an entry marked
   * `done`, in a queue of the same length.
   */
  function PopResult(q: seq<Topic>): (r: (Option<Topic>, seq<Topic>))
    ensures |r.1| == |q|
    ensures r.0.None? <==> PendingPositions(q) == []
    ensures r.0.None? ==> r.1 == q
    ensures r.0.Some? ==> r.0.value.status == DONE
  {
    var pp := PendingPositions(q);
    if pp == [] then (None, q)
    else (Some(q[pp[0]].(status := DONE)), Mark(q, pp[0], DONE))
  }

  /** `n` successive `pop_next` calls: the values returned, in call order, and the queue left. */
  function PopMany(q: seq<Topic>, n: nat): (seq<Option<Topic>>, seq<Topic>)
  {
    if n == 0 then ([], q)
    else
      var (popped, rest) := PopMany(q, n - 1);
      var (x, rest') := PopResult(rest);
      (popped + [x], rest')
  }

  /** One `pop_next` on a queue with a pending entry: it returns the first one, marked `done`, and takes it off the pending list. */
  lemma PopOne(q: seq<Topic>)
    requires PendingPositions(q) != []
    ensures var pp := PendingPositions(q);
      var (x, rest) := PopResult(q);
      && x == Some(q[pp[0]].(status := DONE))
      && PendingPositions(rest) == pp[1..]
      && |rest| == |q|
      && (forall i :: 1 <= i < |pp| ==> rest[pp[i]] == q[pp[i]])
  {
    var pp := PendingPositions(q);
    MarkRemovesPending(q, 0, DONE);
    assert pp[..0] + pp[1..] == pp[1..];
  }

  /** `PopMany` unfolded once. */
  lemma PopManyStep(q: seq<Topic>, n: nat)
    requires 0 < n
    ensures var (popped, rest) := PopMany(q, n - 1);
      PopMany(q, n) == (popped + [PopResult(rest).0], PopResult(rest).1)
  {
  }

  /** The queue left after the `n`-th of a run of pops. */
  lemma {:induction false} PopManyRest(q: seq<Topic>, n: nat)
    requires n <= |PendingPositions(q)|
    ensures var rest := PopMany(q, n).1;
      var pp := PendingPositions(q);
      && PendingPositions(rest) == pp[n..]
      && |rest| == |q|
      && (forall i :: n <= i < |pp| ==> rest[pp[i]] == q[pp[i]])
  {
    if n > 0 {
      PopManyRest(q, n - 1);
      var pp := PendingPositions(q);
      var rest := PopMany(q, n - 1).1;
      PopManyStep(q, n);
      PopOne(rest);
      var rp := PendingPositions(rest);
      assert rp == pp[n - 1..];
      assert rp[1..] == pp[n..];
      forall i | n <= i < |pp| ensures PopMany(q, n).1[pp[i]] == q[pp[i]] {
        assert rp[i - (n - 1)] == pp[i];
      }
    }
  }

  /** The `n`-th of a run of pops returns the `n`-th pending entry, marked `done`. */
  lemma PopNext(q: seq<Topic>, n: nat)
    requires 0 < n <= |PendingPositions(q)|
    ensures PopMany(q, n).0 == PopMany(q, n - 1).0 + [Some(q[PendingPositions(q)[n - 1]].(status := DONE))]
  {
    PopManyStep(q, n);
    PopManyRest(q, n - 1);
    var pp := PendingPositions(q);
    var rest := PopMany(q, n - 1).1;
    PopOne(rest);
    assert PendingPositions(rest)[0] == pp[n - 1];
    assert rest[pp[n - 1]] == q[pp[n - 1]];
  }

  /**
   * Popping `n` times from a queue with at least `n` pending entries returns
   * the first `n` pending entries in stored order, each marked `done`.
   */
  lemma {:induction false} PopInOrder(q: seq<Topic>, n: nat)
    requires n <= |PendingPositions(q)|
    ensures var popped := PopMany(q, n).0;
      var pp := PendingPositions(q);
      && |popped| == n
      && (forall i :: 0 <= i < n ==> popped[i] == Some(q[pp[i]].(status := DONE)))
  {
    if n > 0 {
      PopInOrder(q, n - 1);
      PopNext(q, n);
      PoppedSnoc(PopMany(q, n - 1).0, q, PendingPositions(q));
    }
  }

  /** A list of popped values that matches the pending entries, extended by the next one. */
  lemma PoppedSnoc(before: seq<Option<Topic>>, q: seq<Topic>, pp: seq<nat>)
    requires |before| < |pp| && forall i :: 0 <= i < |pp| ==> pp[i] < |q|
    requires forall i :: 0 <= i < |before| ==> before[i] == Some(q[pp[i]].(status := DONE))
    ensures var popped := before + [Some(q[pp[|before|]].(status := DONE))];
      forall i :: 0 <= i < |popped| ==> popped[i] == Some(q[pp[i]].(status := DONE))
  {
  }

  /**
   * With `N` pending entries, `N` pops return them all in stored order and
   * the next pop returns nothing and leaves the queue as it is.
   */
  lemma DrainQueue(q: seq<Topic>)
    ensures var pp := PendingPositions(q);
      var (popped, rest) := PopMany(q, |pp|);
      && |popped| == |pp|
      && (forall i :: 0 <= i < |pp| ==> popped[i] == Some(q[pp[i]].(status := DONE)))
      && CountPending(rest) == 0
      && PopResult(rest) == (None, rest)
  {
    var pp := PendingPositions(q);
    PopInOrder(q, |pp|);
    PopManyRest(q, |pp|);
    CountIsPending(PopMany(q, |pp|).1);
  }

  // ---------------------------------------------------------------------
  // skip_topic
  // ---------------------------------------------------------------------

  /**
   * A skip lowers the pending count by one and removes exactly the skipped
   * position from the pending list.
   */
  lemma SkipLowersCount(q: seq<Topic>, index: nat)
    requires index < |PendingPositions(q)|
    ensures var pp := PendingPositions(q);
      var r := Mark(q, pp[index], SKIPPED);
      && CountPending(r) == CountPending(q) - 1
      && PendingPositions(r) == pp[..index] + pp[index + 1..]
  {
    var pp := PendingPositions(q);
    MarkRemovesPending(q, index, SKIPPED);
    CountIsPending(q);
    CountIsPending(Mark(q, pp[index], SKIPPED));
  }

  /** Skipping pending index 0 twice skips the first two pending entries, not the same one. */
  lemma SkipFirstTwice(q: seq<Topic>)
    requires |PendingPositions(q)| >= 2
    ensures var pp := PendingPositions(q);
      var once := Mark(q, pp[0], SKIPPED);
      && PendingPositions(once) == pp[1..]
      && PendingPositions(Mark(once, pp[1], SKIPPED)) == pp[2..]
  {
    var pp := PendingPositions(q);
    MarkRemovesPending(q, 0, SKIPPED);
    var once := Mark(q, pp[0], SKIPPED);
    assert PendingPositions(once)[0] == pp[1];
    MarkRemovesPending(once, 0, SKIPPED);
    assert pp[1..][1..] == pp[2..];
  }

  /** The store behind one output directory: the contents of its `topics.json`. */
  class TopicStore {
    var persisted: Option<seq<Topic>>

    /** A store over an output directory whose queue file holds `contents` (or is absent). */
    constructor (contents: Option<seq<Topic>>)
      ensures persisted == contents
    {
      persisted := contents;
    }

    /** `load_queue`: the stored sequence, empty when nothing was ever saved. */
    function Load(): (q: seq<Topic>)
      reads this
      ensures persisted.None? ==> q == []
      ensures persisted.Some? ==> q == persisted.value
    {
      match persisted
      case None => []
      case Some(q) => q
    }

    /** `save_queue`: replace the stored sequence. */
    method Save(q: seq<Topic>)
      modifies this
      ensures persisted == Some(q) && Load() == q
    {
      persisted := Some(q);
    }

    /** `add_topics` */
    method AddTopics(topics: seq<Topic>) returns (added: nat)
      modifies this
      ensures added == |AddAll(old(Load()), topics)| - |old(Load())|
      ensures added <= |topics|
      ensures added > 0 ==> persisted == Some(AddAll(old(Load()), topics))
      ensures added == 0 ==> persisted == old(persisted)
      ensures added == 0 ==> AddAll(old(Load()), topics) == old(Load())
    {
      var queue := Load();
      ghost var q0 := queue;
      var existingTargets := set t | t in queue :: t.target;
      added := 0;
      for i := 0 to |topics|
        invariant queue == AddAll(q0, topics[..i])
        invariant existingTargets == Targets(queue)
        invariant added == |queue| - |q0|
        invariant persisted == old(persisted)
      {
        var topic := topics[i];
        assert topics[..i + 1][..i] == topics[..i];
        if topic.target !in existingTargets {
          TargetsAppend(queue, topic);
          queue := queue + [topic];
          existingTargets := existingTargets + {topic.target};
          added := added + 1;
        }
      }
      assert topics[..|topics|] == topics;
      assert added == 0 ==> queue == queue[..|q0|];
      if added > 0 {
        Save(queue);
      }
    }

    /** `pop_next` */
    method PopNext() returns (r: Option<Topic>)
      modifies this
      ensures (r, Load()) == PopResult(old(Load()))
      ensures r.None? ==> persisted == old(persisted)
      ensures r.Some? ==> persisted.Some?
    {
      var queue := Load();
      for i := 0 to |queue|
        invariant forall j :: 0 <= j < i ==> !IsPending(queue[j])
      {
        if queue[i].status == PENDING {
          ghost var pp := PendingPositions(queue);
          PendingComplete(queue, i);
          ghost var m :| 0 <= m < |pp| && pp[m] == i;
          assert pp[0] <= pp[m];
          assert IsPending(queue[pp[0]]);
          var topic := queue[i].(status := DONE);
          queue := queue[i := topic];
          Save(queue);
          return Some(topic);
        }
      }
      r := None;
    }

    /** `skip_topic`: `index` counts pending entries only. */
    method SkipTopic(index: int) returns (ok: bool)
      modifies this
      ensures var pp := PendingPositions(old(Load()));
        && ok == (0 <= index < |pp|)
        && (ok ==> persisted == Some(Mark(old(Load()), pp[index], SKIPPED)))
        && (!ok ==> persisted == old(persisted))
    {
      var queue := Load();
      var pending := PendingIndices(queue);
      if index < 0 || index >= |pending| {
        return false;
      }
      queue := queue[pending[index] := queue[pending[index]].(status := SKIPPED)];
      Save(queue);
      ok := true;
    }

    /** `pending_count` */
    function PendingCount(): (n: nat)
      reads this
      ensures n == |PendingPositions(Load())|
      ensures persisted.None? ==> n == 0
    {
      CountIsPending(Load());
      CountPending(Load())
    }
  }

  /** `[i for i, t in enumerate(queue) if t.status == "pending"]` */
  method PendingIndices(queue: seq<Topic>) returns (pending: seq<nat>)
    ensures pending == PendingPositions(queue)
  {
    pending := [];
    for i := 0 to |queue|
      invariant pending == PendingPositions(queue[..i])
    {
      assert queue[..i + 1][..i] == queue[..i];
      if queue[i].status == PENDING {
        pending := pending + [i];
      }
    }
    assert queue[..|queue|] == queue;
  }

}
