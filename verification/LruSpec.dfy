/** What an LRU shard does (lru/lru.go), on plain recency lists: newest first. */
module LruSpec {
  import opened Lists

  datatype Entry<V> = Entry(key: string, val: V, created: int)

  type Recency<V> = seq<Entry<V>>

  /** Capacity and time to live of a shard; ttl <= 0 switches expiry off. */
  datatype Config = Config(cap: int, ttl: int)

  /** Position of a key, or the length when it is absent. */
  function Find<V>(l: Recency<V>, key: string): (i: nat)
    ensures i <= |l|
    ensures i < |l| ==> l[i].key == key
    ensures forall j :: 0 <= j < i ==> l[j].key != key
  {
    if |l| == 0 || l[0].key == key then 0 else 1 + Find(l[1..], key)
  }

  predicate Expired<V>(c: Config, e: Entry<V>, now: int) {
    c.ttl > 0 && now - e.created > c.ttl
  }

  /** A hit moves to the front; an expired entry is dropped and counts as a miss. */
  function Get<V>(c: Config, l: Recency<V>, key: string, now: int): (Recency<V>, Option<V>)
  {
    var i := Find(l, key);
    if i == |l| then (l, None)
    else if Expired(c, l[i], now) then (Cut(l, i), None)
    else ([l[i]] + Cut(l, i), Some(l[i].val))
  }

  /** Overwrite in place of the old entry, or insert and evict the oldest on overflow. */
  function Set<V>(c: Config, l: Recency<V>, key: string, val: V, now: int): (Recency<V>, Option<Entry<V>>)
  {
    var i := Find(l, key);
    if i < |l| then
      ([Entry(key, val, if c.ttl > 0 then now else l[i].created)] + Cut(l, i), None)
    else
      var l' := [Entry(key, val, if c.ttl > 0 then now else 0)] + l;
      if |l'| > c.cap then (l'[..|l'| - 1], Some(l'[|l'| - 1])) else (l', None)
  }

  function Del<V>(l: Recency<V>, key: string): Recency<V>
  {
    var i := Find(l, key);
    if i < |l| then Cut(l, i) else l
  }

  /** The entries a walk reports: newest first, expired ones skipped. */
  function Fresh<V>(c: Config, l: Recency<V>, now: int): Recency<V>
  {
    if |l| == 0 then []
    else (if Expired(c, l[0], now) then [] else [l[0]]) + Fresh(c, l[1..], now)
  }

  ghost predicate DistinctKeys<V>(l: Recency<V>)
  {
    forall i, j :: 0 <= i < j < |l| ==> l[i].key != l[j].key
  }

  lemma FindUnique<V>(l: Recency<V>, key: string, i: nat)
    requires DistinctKeys(l) && i < |l| && l[i].key == key
    ensures Find(l, key) == i
  {}

  lemma {:induction false} FindAt<V>(l: Recency<V>, key: string, i: nat)
    requires i <= |l| && (i < |l| ==> l[i].key == key) && forall j :: 0 <= j < i ==> l[j].key != key
    ensures Find(l, key) == i
  {
    if i > 0 { FindAt(l[1..], key, i - 1); }
  }

  // ---------------------------------------------------------------- traces

  datatype Op<V> = OpGet(key: string, now: int) | OpSet(key: string, val: V, now: int) | OpDel(key: string)

  function Step<V>(c: Config, l: Recency<V>, o: Op<V>): (Recency<V>, Option<V>)
  {
    match o
    case OpGet(k, now) => Get(c, l, k, now)
    case OpSet(k, v, now) => (Set(c, l, k, v, now).0, None)
    case OpDel(k) => (Del(l, k), None)
  }

  function Run<V>(c: Config, ops: seq<Op<V>>): Recency<V>
  {
    if |ops| == 0 then [] else Step(c, Run(c, ops[..|ops| - 1]), ops[|ops| - 1]).0
  }

  /** What an operation gives back: a hit or a miss, or the entry handed to the eviction callback. */
  datatype Reply<V> = Looked(res: Option<V>) | Stored(evicted: Option<Entry<V>>) | Deleted

  function ReplyTo<V>(c: Config, l: Recency<V>, o: Op<V>): Reply<V>
  {
    match o
    case OpGet(k, now) => Looked(Get(c, l, k, now).1)
    case OpSet(k, v, now) => Stored(Set(c, l, k, v, now).1)
    case OpDel(_) => Deleted
  }

  function Replies<V>(c: Config, ops: seq<Op<V>>): seq<Reply<V>>
  {
    if |ops| == 0 then []
    else Replies(c, ops[..|ops| - 1]) + [ReplyTo(c, Run(c, ops[..|ops| - 1]), ops[|ops| - 1])]
  }

  /** The shard invariant: distinct keys, never more entries than a positive capacity. */
  ghost predicate Sound<V>(c: Config, l: Recency<V>)
  {
    && DistinctKeys(l) && |l| <= (if c.cap < 0 then 0 else c.cap)
    && (c.ttl <= 0 ==> forall i :: 0 <= i < |l| ==> l[i].created == 0)
  }

  lemma StepSound<V>(c: Config, l: Recency<V>, o: Op<V>)
    requires Sound(c, l)
    ensures Sound(c, Step(c, l, o).0)
  {
    var i := Find(l, o.key);
    if i < |l| { CutKeys(l, i); }
  }

  lemma CutKeys<V>(l: Recency<V>, i: nat)
    requires DistinctKeys(l) && i < |l|
    ensures DistinctKeys(Cut(l, i))
    ensures forall j :: 0 <= j < |l| - 1 ==> Cut(l, i)[j].key != l[i].key
  {
    var w := Cut(l, i);
    assert forall j :: 0 <= j < |w| ==> w[j] == l[if j < i then j else j + 1];
  }

  // ---------------------------------------------------------------- order of last use

  /** Position, from one, of the last get or set of a key in a trace; zero if there is none. */
  function LastUse<V>(ops: seq<Op<V>>, key: string): (n: nat)
    ensures n <= |ops|
  {
    if |ops| == 0 then 0
    else if !ops[|ops| - 1].OpDel? && ops[|ops| - 1].key == key then |ops|
    else LastUse(ops[..|ops| - 1], key)
  }

  ghost predicate ByLastUse<V>(ops: seq<Op<V>>, l: Recency<V>)
  {
    forall i, j :: 0 <= i < j < |l| ==> LastUse(ops, l[i].key) > LastUse(ops, l[j].key)
  }

  lemma CutByLastUse<V>(ops: seq<Op<V>>, l: Recency<V>, i: nat)
    requires ByLastUse(ops, l) && i < |l|
    ensures ByLastUse(ops, Cut(l, i))
  {
    var w := Cut(l, i);
    assert forall j :: 0 <= j < |w| ==> w[j] == l[if j < i then j else j + 1];
  }

  /** An operation on some other key changes nothing; the key it uses becomes the latest. */
  lemma NextByLastUse<V>(ops: seq<Op<V>>, m: Recency<V>, e: Entry<V>)
    requires |ops| > 0 && ByLastUse(ops[..|ops| - 1], m)
    requires forall i :: 0 <= i < |m| ==> m[i].key != ops[|ops| - 1].key
    ensures ByLastUse(ops, m)
    ensures !ops[|ops| - 1].OpDel? && e.key == ops[|ops| - 1].key ==> ByLastUse(ops, [e] + m)
  {
    assert forall i :: 0 <= i < |m| ==> LastUse(ops, m[i].key) == LastUse(ops[..|ops| - 1], m[i].key);
  }

  /** The recency list is the order of last use: any trace leaves the entries by latest get or set. */
  lemma {:induction false} RecencyOrder<V>(c: Config, ops: seq<Op<V>>)
    ensures Sound(c, Run(c, ops)) && ByLastUse(ops, Run(c, ops))
  {
    if |ops| > 0 {
      var before, o := ops[..|ops| - 1], ops[|ops| - 1];
      RecencyOrder(c, before);
      var l := Run(c, before);
      StepSound(c, l, o);
      var i, l' := Find(l, o.key), Run(c, ops);
      if i < |l| {
        CutByLastUse(before, l, i);
        CutKeys(l, i);
      }
      var m := if i < |l| then Cut(l, i) else l;
      if |l'| > 0 { NextByLastUse(ops, m, l'[0]); }
    }
  }

  /** So what an overflowing set throws out is the entry used longest ago. */
  lemma EvictsLeastRecent<V>(c: Config, ops: seq<Op<V>>, key: string, val: V, now: int)
    requires c.cap >= 1
    ensures var l, e := Run(c, ops), Set(c, Run(c, ops), key, val, now).1;
            (e.Some? <==> Find(l, key) == |l| && |l| == c.cap)
            && (e.Some? ==> e.value in l && e.value.key != key)
            && (e.Some? ==> forall x <- l :: x != e.value ==> LastUse(ops, x.key) > LastUse(ops, e.value.key))
  {
    RecencyOrder(c, ops);
  }

  // ---------------------------------------------------------------- stack inclusion

  /** s can be obtained from l by leaving entries out. */
  predicate Within<V(==)>(s: Recency<V>, l: Recency<V>)
    decreases |l|
  {
    if |s| == 0 then true
    else if |l| == 0 then false
    else if s[0] == l[0] then Within(s[1..], l[1..])
    else Within(s, l[1..])
  }

  lemma {:induction false} WithinTail<V>(s: Recency<V>, l: Recency<V>)
    requires Within(s, l) && |s| > 0
    ensures Within(s[1..], l)
    decreases |l|, 0
  {
    if s[0] == l[0] {
      WithinCons(s[1..], l[1..], l[0]);
      assert l == [l[0]] + l[1..];
    } else {
      WithinTail(s, l[1..]);
      WithinCons(s[1..], l[1..], l[0]);
      assert l == [l[0]] + l[1..];
    }
  }

  lemma {:induction false} WithinCons<V>(s: Recency<V>, l: Recency<V>, x: Entry<V>)
    requires Within(s, l)
    ensures Within(s, [x] + l)
    decreases |l|, 1
  {
    var m := [x] + l;
    assert m[1..] == l;
    if |s| > 0 && s[0] == x { WithinTail(s, l); }
  }

  lemma {:induction false} WithinRefl<V>(s: Recency<V>)
    ensures Within(s, s)
  {
    if |s| > 0 { WithinRefl(s[1..]); }
  }

  lemma {:induction false} WithinMember<V>(s: Recency<V>, l: Recency<V>, i: nat) returns (j: nat)
    requires Within(s, l) && i < |s|
    ensures j < |l| && l[j] == s[i]
    decreases |l|
  {
    if s[0] == l[0] {
      if i == 0 { return 0; }
      j := WithinMember(s[1..], l[1..], i - 1);
    } else {
      j := WithinMember(s, l[1..], i);
    }
    j := j + 1;
  }

  lemma {:induction false} WithinLength<V>(s: Recency<V>, l: Recency<V>)
    requires Within(s, l)
    ensures |s| <= |l|
    decreases |l|
  {
    if |s| > 0 {
      if s[0] == l[0] { WithinLength(s[1..], l[1..]); } else { WithinLength(s, l[1..]); }
    }
  }

  /** Dropping the oldest entry of both lists. */
  lemma {:induction false} WithinDropBoth<V>(s: Recency<V>, l: Recency<V>)
    requires Within(s, l) && |s| > 0
    ensures |l| > 0 && Within(s[..|s| - 1], l[..|l| - 1])
    decreases |l|
  {
    var s', l' := s[..|s| - 1], l[..|l| - 1];
    if |s| > 1 {
      WithinLength(s, l);
      if s[0] == l[0] {
        WithinDropBoth(s[1..], l[1..]);
        assert s'[1..] == s[1..][..|s| - 2] && l'[1..] == l[1..][..|l| - 2];
      } else {
        WithinLength(s, l[1..]);
        WithinDropBoth(s, l[1..]);
        assert l'[1..] == l[1..][..|l| - 2];
      }
    }
  }

  /** Dropping the oldest entry of the shorter list only. */
  lemma {:induction false} WithinDropOne<V>(s: Recency<V>, l: Recency<V>)
    requires Within(s, l) && |s| > 0
    ensures Within(s[..|s| - 1], l)
    decreases |l|
  {
    var s' := s[..|s| - 1];
    if |s| > 1 {
      if s[0] == l[0] {
        WithinDropOne(s[1..], l[1..]);
        assert s'[1..] == s[1..][..|s| - 2];
      } else {
        WithinDropOne(s, l[1..]);
      }
    }
  }

  function Drop<V>(l: Recency<V>, key: string): Recency<V>
  {
    if |l| == 0 then []
    else (if l[0].key == key then [] else [l[0]]) + Drop(l[1..], key)
  }

  lemma {:induction false} WithinDrop<V>(s: Recency<V>, l: Recency<V>, key: string)
    requires Within(s, l)
    ensures Within(Drop(s, key), Drop(l, key))
    decreases |l|
  {
    if |s| > 0 {
      if s[0] == l[0] {
        WithinDrop(s[1..], l[1..], key);
        if l[0].key != key {
          assert Drop(s, key)[1..] == Drop(s[1..], key) && Drop(l, key)[1..] == Drop(l[1..], key);
        } else {
          assert Drop(s, key) == Drop(s[1..], key) && Drop(l, key) == Drop(l[1..], key);
        }
      } else {
        WithinDrop(s, l[1..], key);
        if l[0].key != key {
          WithinCons(Drop(s, key), Drop(l[1..], key), l[0]);
        } else {
          assert Drop(l, key) == Drop(l[1..], key);
        }
      }
    }
  }

  /** With distinct keys, dropping a key removes the one entry that has it. */
  lemma {:induction false} DropIsDel<V>(l: Recency<V>, key: string)
    requires DistinctKeys(l)
    ensures Drop(l, key) == Del(l, key)
    decreases |l|
  {
    if |l| > 0 {
      var i, rest := Find(l, key), l[1..];
      if i == 0 {
        DropAbsent(rest, key);
      } else {
        DropIsDel(rest, key);
        CutTail(l, i);
      }
    }
  }

  lemma CutTail<V>(l: Recency<V>, i: nat)
    requires 1 <= i <= |l|
    ensures i < |l| ==> Cut(l, i) == [l[0]] + Cut(l[1..], i - 1)
    ensures l == [l[0]] + l[1..]
  {}

  lemma {:induction false} DropAbsent<V>(l: Recency<V>, key: string)
    requires forall i :: 0 <= i < |l| ==> l[i].key != key
    ensures Drop(l, key) == l
  {
    if |l| > 0 {
      DropAbsent(l[1..], key);
      assert l == [l[0]] + l[1..];
    }
  }

  lemma WithinDel<V>(s: Recency<V>, l: Recency<V>, key: string)
    requires Within(s, l) && DistinctKeys(s) && DistinctKeys(l)
    ensures Within(Del(s, key), Del(l, key))
  {
    WithinDrop(s, l, key);
    DropIsDel(s, key);
    DropIsDel(l, key);
  }

  /** A key in the smaller shard has the very same entry in the larger one. */
  lemma SameEntry<V>(s: Recency<V>, l: Recency<V>, key: string)
    requires Within(s, l) && DistinctKeys(l) && Find(s, key) < |s|
    ensures Find(l, key) < |l| && l[Find(l, key)] == s[Find(s, key)]
  {
    var j := WithinMember(s, l, Find(s, key));
    FindUnique(l, key, j);
  }

  /** The smaller shard lies within the larger one, which is ahead by no more than the difference of
      the capacities. */
  ghost predicate Included<V>(c: Config, d: Config, s: Recency<V>, l: Recency<V>)
  {
    Sound(c, s) && Sound(d, l) && Within(s, l) && |l| - |s| <= d.cap - c.cap
  }

  lemma GetIncluded<V>(c: Config, d: Config, s: Recency<V>, l: Recency<V>, key: string, now: int)
    requires Included(c, d, s, l) && c.ttl == d.ttl && 1 <= c.cap <= d.cap
    ensures var (s', a), (l', b) := Get(c, s, key, now), Get(d, l, key, now);
            Within(s', l') && |l'| - |s'| <= d.cap - c.cap && (a.Some? ==> b == a)
  {
    WithinDel(s, l, key);
    if Find(s, key) < |s| {
      SameEntry(s, l, key);
      var e := l[Find(l, key)];
      WithinFront(Del(s, key), Del(l, key), e);
      HitShape(c, s, key, now);
      HitShape(d, l, key, now);
    } else if Find(l, key) < |l| {
      HitShape(d, l, key, now);
      WithinCons(s, Del(l, key), l[Find(l, key)]);
    }
  }

  /** Get on a present key, in terms of Del. */
  lemma HitShape<V>(c: Config, l: Recency<V>, key: string, now: int)
    requires Find(l, key) < |l|
    ensures var e := l[Find(l, key)];
            Get(c, l, key, now) == if Expired(c, e, now) then (Del(l, key), None) else ([e] + Del(l, key), Some(e.val))
    ensures |Del(l, key)| == |l| - 1
  {}

  lemma WithinFront<V>(s: Recency<V>, l: Recency<V>, e: Entry<V>)
    requires Within(s, l)
    ensures Within([e] + s, [e] + l)
  {
    assert ([e] + s)[1..] == s && ([e] + l)[1..] == l;
  }

  lemma SetIncluded<V>(c: Config, d: Config, s: Recency<V>, l: Recency<V>, key: string, val: V, now: int)
    requires Included(c, d, s, l) && c.ttl == d.ttl && 1 <= c.cap <= d.cap
    ensures var s', l' := Set(c, s, key, val, now).0, Set(d, l, key, val, now).0;
            Within(s', l') && |l'| - |s'| <= d.cap - c.cap
  {
    var e := Entry(key, val, if c.ttl > 0 then now else 0);
    WithinDel(s, l, key);
    WithinFront(Del(s, key), Del(l, key), e);
    if Find(s, key) < |s| {
      SameEntry(s, l, key);
    } else {
      var s1, l1 := [e] + s, [e] + Del(l, key);
      WithinDropBoth(s1, l1);
      WithinDropOne(s1, l1);
    }
  }

  lemma DelIncluded<V>(c: Config, d: Config, s: Recency<V>, l: Recency<V>, key: string)
    requires Included(c, d, s, l) && c.ttl == d.ttl && 1 <= c.cap <= d.cap
    ensures Within(Del(s, key), Del(l, key)) && |Del(l, key)| - |Del(s, key)| <= d.cap - c.cap
  {
    WithinDel(s, l, key);
    if Find(s, key) < |s| { SameEntry(s, l, key); }
  }

  /** Main theorem (stack inclusion): over any trace, with or without expiry, the recency list of a
      smaller shard is a subsequence of that of a larger one. */
  lemma {:induction false} StackInclusion<V>(c: Config, d: Config, ops: seq<Op<V>>)
    requires c.ttl == d.ttl && 1 <= c.cap <= d.cap
    ensures Included(c, d, Run(c, ops), Run(d, ops))
  {
    if |ops| > 0 {
      var before, o := ops[..|ops| - 1], ops[|ops| - 1];
      StackInclusion(c, d, before);
      var s, l := Run(c, before), Run(d, before);
      StepSound(c, s, o);
      StepSound(d, l, o);
      match o
      case OpGet(k, now) => GetIncluded(c, d, s, l, k, now);
      case OpSet(k, v, now) => SetIncluded(c, d, s, l, k, v, now);
      case OpDel(k) => DelIncluded(c, d, s, l, k);
    }
  }

  /** Hence every hit of the smaller shard is a hit of the larger one, with the same value. */
  lemma HitsCarryOver<V>(c: Config, d: Config, ops: seq<Op<V>>, key: string, now: int)
    requires c.ttl == d.ttl && 1 <= c.cap <= d.cap
    requires Get(c, Run(c, ops), key, now).1.Some?
    ensures Get(d, Run(d, ops), key, now).1 == Get(c, Run(c, ops), key, now).1
  {
    StackInclusion(c, d, ops);
    GetIncluded(c, d, Run(c, ops), Run(d, ops), key, now);
  }

  /** What was just set is found at once exactly when the capacity is positive. */
  lemma SetThenGet<V>(c: Config, l: Recency<V>, key: string, val: V, now: int)
    requires Sound(c, l)
    ensures Get(c, Set(c, l, key, val, now).0, key, now).1 == if c.cap >= 1 then Some(val) else None
  {
    var l' := Set(c, l, key, val, now).0;
    if c.cap >= 1 { FindAt(l', key, 0); } else { FindAt(l', key, |l'|); }
  }

  /** The last set of a key, and when, if no delete came after it. */
  function LastSet<V>(ops: seq<Op<V>>, key: string): Option<(V, int)>
  {
    if |ops| == 0 then None
    else match ops[|ops| - 1]
      case OpSet(k, v, now) => if k == key then Some((v, now)) else LastSet(ops[..|ops| - 1], key)
      case OpDel(k) => if k == key then None else LastSet(ops[..|ops| - 1], key)
      case OpGet(_, _) => LastSet(ops[..|ops| - 1], key)
  }

  ghost predicate FromLastSet<V>(c: Config, ops: seq<Op<V>>, e: Entry<V>)
  {
    var s := LastSet(ops, e.key);
    s.Some? && s.value.0 == e.val && (c.ttl > 0 ==> s.value.1 == e.created)
  }

  /** Every entry a trace leaves behind is what the last set of its key stored. */
  lemma {:induction false} HoldsLastSet<V>(c: Config, ops: seq<Op<V>>)
    ensures forall e <- Run(c, ops) :: FromLastSet(c, ops, e)
  {
    if |ops| > 0 {
      var before, o := ops[..|ops| - 1], ops[|ops| - 1];
      HoldsLastSet(c, before);
      RecencyOrder(c, before);
      var l := Run(c, before);
      forall e | e in Run(c, ops) ensures FromLastSet(c, ops, e) {
        StepOrigin(c, l, o, e);
        if e in l { assert FromLastSet(c, before, e); }
      }
    }
  }

  /** Where an entry comes from that is there after one operation. */
  lemma StepOrigin<V>(c: Config, l: Recency<V>, o: Op<V>, e: Entry<V>)
    requires DistinctKeys(l) && e in Step(c, l, o).0
    ensures (e in l && (o.OpGet? || e.key != o.key))
         || (o.OpSet? && e.key == o.key && e.val == o.val && (c.ttl > 0 ==> e.created == o.now))
  {
    var i := Find(l, o.key);
    if i < |l| { CutKeys(l, i); }
  }

  /** A hit returns exactly what the last set stored, never a value older than the time to live and
      never one that was deleted. */
  lemma HitIsLastSet<V>(c: Config, ops: seq<Op<V>>, key: string, now: int)
    requires Get(c, Run(c, ops), key, now).1.Some?
    ensures var s := LastSet(ops, key);
            && s.Some? && Get(c, Run(c, ops), key, now).1 == Some(s.value.0)
            && (c.ttl > 0 ==> now - s.value.1 <= c.ttl)
  {
    HoldsLastSet(c, ops);
    var l := Run(c, ops);
    assert FromLastSet(c, ops, l[Find(l, key)]);
  }
}
