/**
 Deadlines indexed twice: by key, and in buckets by deadline. The double index
 against the plain map it stands for.
 */
module DeadlineQueues {
  import opened Wrappers

  datatype Index<!Key> = Index(deadlines: map<Key, int>, order: map<int, set<Key>>)

  /** Takes a key out of its bucket, and the bucket out when that empties it. */
  function Unordered<Key>(order: map<int, set<Key>>, key: Key, deadline: int): map<int, set<Key>> {
    if deadline !in order then order
    else
      var rest := order[deadline] - {key};
      if rest == {} then order - {deadline} else order[deadline := rest]
  }

  function Ordered<Key>(order: map<int, set<Key>>, key: Key, deadline: int): map<int, set<Key>> {
    order[deadline := (if deadline in order then order[deadline] else {}) + {key}]
  }

  function Upsert<Key>(q: Index<Key>, key: Key, deadline: int): Index<Key> {
    if key in q.deadlines && q.deadlines[key] == deadline then q
    else
      var order := if key in q.deadlines then Unordered(q.order, key, q.deadlines[key]) else q.order;
      Index(q.deadlines[key := deadline], Ordered(order, key, deadline))
  }

  function Erase<Key>(q: Index<Key>, key: Key): Index<Key> {
    if key !in q.deadlines then q
    else Index(q.deadlines - {key}, Unordered(q.order, key, q.deadlines[key]))
  }

  // ---------- The two indexes agree ----------

  ghost predicate InBucket<Key>(q: Index<Key>, key: Key, deadline: int) {
    deadline in q.order && key in q.order[deadline]
  }

  ghost predicate Due<Key>(q: Index<Key>, key: Key, deadline: int) {
    key in q.deadlines && q.deadlines[key] == deadline
  }

  /** Each key is in exactly one bucket, that of its deadline; no bucket is empty. */
  ghost predicate Agree<Key(!new)>(q: Index<Key>) {
    && (forall key: Key, deadline: int :: InBucket(q, key, deadline) <==> Due(q, key, deadline))
    && (forall deadline: int | deadline in q.order :: exists key :: InBucket(q, key, deadline))
  }

  lemma EmptyAgrees<Key(!new)>()
    ensures Agree<Key>(Index(map[], map[]))
  {}

  /** Some element of a set. */
  lemma Witness<T>(s: set<T>) returns (x: T)
    requires s != {}
    ensures x in s
  {
    x :| x in s;
  }

  /** Taking a key from its bucket leaves the other places of all keys, and no empty bucket. */
  lemma UnorderedKeeps<Key(!new)>(q: Index<Key>, order: map<int, set<Key>>, key: Key, was: int)
    requires Agree(q) && Due(q, key, was) && order == Unordered(q.order, key, was)
    ensures forall k: Key, d: int :: (d in order && k in order[d]) <==> (k != key && Due(q, k, d))
    ensures forall d: int | d in order :: exists k :: d in order && k in order[d]
  {
    forall k: Key, d: int
      ensures (d in order && k in order[d]) <==> (k != key && Due(q, k, d))
    {
      assert InBucket(q, k, d) <==> Due(q, k, d);
      assert InBucket(q, key, was);
      var rest := q.order[was] - {key};
      if d == was && InBucket(q, k, d) && k != key {
        assert k in rest;
      }
      assert rest != {} ==> order == q.order[was := rest];
    }
    forall d: int | d in order
      ensures exists k :: d in order && k in order[d]
    {
      assert InBucket(q, key, was);
      if d == was {
        var k := Witness(order[d]);
      } else {
        var k :| InBucket(q, k, d);
        assert k in order[d];
      }
    }
  }

  lemma UpsertAgrees<Key(!new)>(q: Index<Key>, key: Key, deadline: int)
    requires Agree(q)
    ensures Agree(Upsert(q, key, deadline)) && Upsert(q, key, deadline).deadlines == q.deadlines[key := deadline]
  {
    var t := Upsert(q, key, deadline);
    if t != q {
      if key in q.deadlines {
        UnorderedKeeps(q, Unordered(q.order, key, q.deadlines[key]), key, q.deadlines[key]);
      }
      forall k: Key, d: int
        ensures InBucket(t, k, d) <==> Due(t, k, d)
      {
        assert InBucket(q, k, d) <==> Due(q, k, d);
      }
      forall d: int | d in t.order
        ensures exists k :: InBucket(t, k, d)
      {
        if d == deadline {
          assert InBucket(t, key, d);
        } else if key !in q.deadlines {
          var k :| InBucket(q, k, d);
          assert InBucket(t, k, d);
        } else {
          var order := Unordered(q.order, key, q.deadlines[key]);
          var k :| d in order && k in order[d];
          assert InBucket(t, k, d);
        }
      }
    }
  }

  lemma EraseAgrees<Key(!new)>(q: Index<Key>, key: Key)
    requires Agree(q)
    ensures Agree(Erase(q, key)) && Erase(q, key).deadlines == q.deadlines - {key}
  {
    var t := Erase(q, key);
    if key in q.deadlines {
      UnorderedKeeps(q, t.order, key, q.deadlines[key]);
      forall k: Key, d: int
        ensures InBucket(t, k, d) <==> Due(t, k, d)
      {
        assert InBucket(q, k, d) <==> Due(q, k, d);
      }
      forall d: int | d in t.order
        ensures exists k :: InBucket(t, k, d)
      {
        var k :| d in t.order && k in t.order[d];
        assert InBucket(t, k, d);
      }
    }
  }

  // ---------- Runs ----------

  datatype Operation<Key> = Put(key: Key, deadline: int) | Drop(key: Key) | Clear

  function Apply<Key>(q: Index<Key>, op: Operation<Key>): Index<Key> {
    match op
    case Put(key, deadline) => Upsert(q, key, deadline)
    case Drop(key) => Erase(q, key)
    case Clear => Index(map[], map[])
  }

  function ApplyPlain<Key>(m: map<Key, int>, op: Operation<Key>): map<Key, int> {
    match op
    case Put(key, deadline) => m[key := deadline]
    case Drop(key) => m - {key}
    case Clear => map[]
  }

  function Run<Key>(q: Index<Key>, ops: seq<Operation<Key>>): Index<Key>
    decreases |ops|
  {
    if ops == [] then q else Run(Apply(q, ops[0]), ops[1..])
  }

  function RunPlain<Key>(m: map<Key, int>, ops: seq<Operation<Key>>): map<Key, int>
    decreases |ops|
  {
    if ops == [] then m else RunPlain(ApplyPlain(m, ops[0]), ops[1..])
  }

  /** Every run keeps the indexes in agreement and refines the plain map. */
  lemma {:induction false} RefinesPlainMap<Key(!new)>(q: Index<Key>, ops: seq<Operation<Key>>)
    requires Agree(q)
    ensures Agree(Run(q, ops)) && Run(q, ops).deadlines == RunPlain(q.deadlines, ops)
    decreases |ops|
  {
    hide Agree, Upsert, Erase;
    if ops != [] {
      match ops[0] {
        case Put(key, deadline) => UpsertAgrees(q, key, deadline);
        case Drop(key) => EraseAgrees(q, key);
        case Clear => EmptyAgrees<Key>();
      }
      RefinesPlainMap(Apply(q, ops[0]), ops[1..]);
    }
  }

  // ---------- The earliest deadline ----------

  /** No key is due before it, and some key is due then; nothing exactly when there are no keys. */
  ghost predicate IsNext<Key(!new)>(q: Index<Key>, next: Option<int>) {
    match next
    case None => q.deadlines == map[]
    case Some(deadline) =>
      && (exists key :: Due(q, key, deadline))
      && (forall key, other :: Due(q, key, other) ==> deadline <= other)
  }

  /** The first key of the ordered index is the next deadline. */
  lemma FirstBucketIsNext<Key(!new)>(q: Index<Key>, first: int)
    requires Agree(q) && first in q.order
    requires forall deadline: int | deadline in q.order :: first <= deadline
    ensures IsNext(q, Some(first))
  {
    var key :| InBucket(q, key, first);
    assert Due(q, key, first);
    forall other, deadline | Due(q, other, deadline)
      ensures first <= deadline
    {
      assert InBucket(q, other, deadline);
    }
  }

  lemma NoBucketNoNext<Key(!new)>(q: Index<Key>)
    requires Agree(q) && q.order == map[]
    ensures IsNext(q, None)
  {
    forall key | key in q.deadlines
      ensures false
    {
      NothingDue(q, key, q.deadlines[key]);
    }
  }

  lemma NothingDue<Key(!new)>(q: Index<Key>, key: Key, deadline: int)
    requires Agree(q) && q.order == map[]
    ensures !Due(q, key, deadline)
  {
    assert !InBucket(q, key, deadline);
  }

  class DeadlineQueue<Key(==, !new)> {
    var deadlines: map<Key, int>
    var order: map<int, set<Key>>

    function View(): Index<Key>
      reads this
    {
      Index(deadlines, order)
    }

    constructor ()
      ensures View() == Index(map[], map[])
    {
      deadlines, order := map[], map[];
    }

    method EraseFromOrder(key: Key, deadline: int)
      modifies this`order
      ensures order == Unordered(old(order), key, deadline)
    {
      if deadline in order {
        order := order[deadline := order[deadline] - {key}];
        if order[deadline] == {} {
          order := order - {deadline};
        }
      }
    }

    method Put(key: Key, deadline: int)
      modifies this
      ensures View() == Upsert(old(View()), key, deadline)
    {
      if key in deadlines {
        if deadlines[key] == deadline {
          return;
        }
        EraseFromOrder(key, deadlines[key]);
      }
      deadlines := deadlines[key := deadline];
      order := Ordered(order, key, deadline);
    }

    method Drop(key: Key) returns (erased: bool)
      modifies this
      ensures View() == Erase(old(View()), key) && erased == (key in old(deadlines))
    {
      if key !in deadlines {
        return false;
      }
      EraseFromOrder(key, deadlines[key]);
      deadlines := deadlines - {key};
      return true;
    }

    method Clear()
      modifies this
      ensures View() == Index(map[], map[])
    {
      deadlines, order := map[], map[];
    }

    /** The ordered index hands out its least key first. */
    method NextDeadline() returns (next: Option<int>)
      requires Agree(View())
      ensures IsNext(View(), next)
    {
      var rest := order.Keys;
      if rest == {} {
        assert order == map[];
        NoBucketNoNext(View());
        return None;
      }
      ghost var any := Witness(rest);
      var first :| first in rest;
      rest := rest - {first};
      while rest != {}
        invariant rest <= order.Keys && first in order
        invariant forall deadline: int | deadline in order && deadline !in rest :: first <= deadline
      {
        any := Witness(rest);
        var deadline :| deadline in rest;
        rest := rest - {deadline};
        if deadline < first {
          first := deadline;
        }
      }
      FirstBucketIsNext(View(), first);
      return Some(first);
    }
  }
}
