/** The bump allocator (arena/arena.go): concurrent allocation as a transition system, and the
    sequential object with snapshots. */
module Arena {
  /** A slice cut from chunk number `chunk`: bytes [off, off + len), capacity up to end. */
  datatype Slice = Slice(chunk: nat, off: nat, len: nat, end: nat)

  /** (n + 7) &^ 7 */
  function RoundUp8(n: nat): (r: nat)
    ensures r % 8 == 0 && n <= r < n + 8
  {
    (n + 7) / 8 * 8
  }

  predicate Apart(a: Slice, b: Slice) {
    a.chunk != b.chunk || a.end <= b.off || b.end <= a.off
  }

  /** Inside its chunk, at an 8-aligned offset, with room for what was asked. */
  predicate Placed(a: Slice, csz: nat) {
    a.off % 8 == 0 && a.off + a.len <= a.end <= csz && a.end == a.off + RoundUp8(a.len)
  }

  // ---------------------------------------------------------------- concurrent allocation

  datatype Pc =
    | Idle
    | Top(n: nat)                              // about to load cur
    | HaveChunk(n: nat, c: nat)                // about to load its offset
    | HaveOff(n: nat, c: nat, off: nat)        // about to compare-and-swap the offset
    | Recheck(n: nat, c: nat)                  // chunk exhausted, about to look at cur again
    | Switch(n: nat, c: nat)                   // about to install a new chunk

  /** `offs[c]` is the offset of chunk c; `made` lists the slices handed out so far. */
  datatype State = State(csz: nat, offs: seq<nat>, cur: nat, threads: seq<Pc>, made: seq<Slice>)

  ghost predicate Init(s: State)
  {
    && s.offs == [0] && s.cur == 0 && s.made == []
    && forall t :: 0 <= t < |s.threads| ==> s.threads[t] == Idle
  }

  datatype Label =
    | Alloc(t: nat, n: int) | LoadCur(t: nat) | LoadOff(t: nat) | CasOff(t: nat) | LookAgain(t: nat) | CasCur(t: nat)
    | Reset(t: nat) | Snap(t: nat)

  predicate Enabled(s: State, l: Label)
  {
    && l.t < |s.threads|
    && var pc := s.threads[l.t];
       match l
       case Alloc(_, _) => pc == Idle
       case LoadCur(_) => pc.Top?
       case LoadOff(_) => pc.HaveChunk? && pc.c < |s.offs|
       case CasOff(_) => pc.HaveOff? && pc.c < |s.offs|
       case LookAgain(_) => pc.Recheck?
       case CasCur(_) => pc.Switch?
       case Reset(_) => pc == Idle
       case Snap(_) => pc == Idle
  }

  function Go(s: State, t: nat, pc: Pc): State
    requires t < |s.threads|
  {
    s.(threads := s.threads[t := pc])
  }

  function Apply(s: State, l: Label): State
    requires Enabled(s, l)
  {
    var t, pc := l.t, s.threads[l.t];
    match l
    case Alloc(_, n) => if n <= 0 || n > s.csz then s else Go(s, t, Top(n))
    case LoadCur(_) => Go(s, t, HaveChunk(pc.n, s.cur))
    case LoadOff(_) => Go(s, t, HaveOff(pc.n, pc.c, s.offs[pc.c]))
    case CasOff(_) =>
      var end := pc.off + RoundUp8(pc.n);
      if end > s.csz then Go(s, t, Recheck(pc.n, pc.c))
      else if s.offs[pc.c] == pc.off
      then Go(s, t, Idle).(offs := s.offs[pc.c := end], made := s.made + [Slice(pc.c, pc.off, pc.n, end)])
      else Go(s, t, Top(pc.n))
    case LookAgain(_) => Go(s, t, if s.cur != pc.c then Top(pc.n) else Switch(pc.n, pc.c))
    case CasCur(_) =>
      if s.cur == pc.c then Go(s, t, Top(pc.n)).(offs := s.offs + [0], cur := |s.offs|)
      else Go(s, t, Top(pc.n))
    case Reset(_) => s.(offs := s.offs + [0], cur := |s.offs|)
    case Snap(_) => s
  }

  ghost predicate PcOk(s: State, pc: Pc)
  {
    && (pc.HaveChunk? || pc.HaveOff? || pc.Recheck? || pc.Switch? ==> pc.c < |s.offs|)
    && (pc.HaveOff? ==> pc.off % 8 == 0)
  }

  ghost predicate SliceOk(s: State, a: Slice) {
    a.chunk < |s.offs| && Placed(a, s.csz) && a.end <= s.offs[a.chunk]
  }

  ghost predicate Inv(s: State)
  {
    && s.cur < |s.offs|
    && (forall c :: 0 <= c < |s.offs| ==> s.offs[c] % 8 == 0)
    && (forall t :: 0 <= t < |s.threads| ==> PcOk(s, s.threads[t]))
    && (forall i :: 0 <= i < |s.made| ==> SliceOk(s, s.made[i]))
    && (forall i, j :: 0 <= i < j < |s.made| ==> Apart(s.made[i], s.made[j]))
  }

  /** A step that cuts nothing; it may bring in a new chunk. */
  lemma QuietStep(s: State, s': State)
    requires Inv(s) && |s'.threads| == |s.threads| && s' == s.(threads := s'.threads, offs := s'.offs, cur := s'.cur)
    requires s'.offs in {s.offs, s.offs + [0]} && s'.cur < |s'.offs|
    requires forall t :: 0 <= t < |s.threads| ==> s'.threads[t] == s.threads[t] || PcOk(s', s'.threads[t])
    ensures Inv(s')
  {
    forall t | 0 <= t < |s'.threads| ensures PcOk(s', s'.threads[t]) { assert PcOk(s, s.threads[t]); }
    forall i | 0 <= i < |s'.made| ensures SliceOk(s', s'.made[i]) { assert SliceOk(s, s.made[i]); }
  }

  /** Winning the swap of the offset. */
  lemma CutStep(s: State, t: nat)
    requires Inv(s) && Enabled(s, CasOff(t)) && s.offs[s.threads[t].c] == s.threads[t].off
    requires s.threads[t].off + RoundUp8(s.threads[t].n) <= s.csz
    ensures Inv(Apply(s, CasOff(t)))
  {
    var s' := Apply(s, CasOff(t));
    assert PcOk(s, s.threads[t]);
    forall u | 0 <= u < |s'.threads| ensures PcOk(s', s'.threads[u]) { assert PcOk(s, s.threads[u]); }
    forall i | 0 <= i < |s'.made| ensures SliceOk(s', s'.made[i]) {
      if i < |s.made| { assert SliceOk(s, s.made[i]); }
    }
    forall i, j | 0 <= i < j < |s'.made| ensures Apart(s'.made[i], s'.made[j]) {
      assert SliceOk(s, s.made[i]);
      if j < |s.made| { assert Apart(s.made[i], s.made[j]); }
    }
  }

  lemma StepInv(s: State, l: Label)
    requires Inv(s) && Enabled(s, l)
    ensures Inv(Apply(s, l))
  {
    var t, pc := l.t, s.threads[l.t];
    assert PcOk(s, pc);
    if l.CasOff? && pc.off + RoundUp8(pc.n) <= s.csz && s.offs[pc.c] == pc.off {
      CutStep(s, t);
    } else {
      QuietStep(s, Apply(s, l));
    }
  }

  ghost predicate Next(s: State, e: State)
  {
    exists l :: Enabled(s, l) && e == Apply(s, l)
  }

  lemma NextInv(s: State, e: State)
    requires Inv(s) && Next(s, e)
    ensures Inv(e)
  {
    var l :| Enabled(s, l) && e == Apply(s, l);
    StepInv(s, l);
  }

  ghost predicate ReachableIn(n: nat, e: State)
  {
    if n == 0 then Init(e) else exists m :: ReachableIn(n - 1, m) && Next(m, e)
  }

  /** Some run of any length from an initial state ends in e. */
  ghost predicate Reachable(e: State)
  {
    exists n: nat :: ReachableIn(n, e)
  }

  lemma {:induction false} RunInv(n: nat, e: State)
    requires ReachableIn(n, e)
    ensures Inv(e)
  {
    if n > 0 {
      var m :| ReachableIn(n - 1, m) && Next(m, e);
      RunInv(n - 1, m);
      NextInv(m, e);
    }
  }

  /** Main theorem: over every interleaving of Alloc, Snap and Reset the slices handed out are
      pairwise disjoint, inside their chunk and 8-aligned. */
  lemma SlicesDisjoint(e: State, i: nat, j: nat)
    requires Reachable(e) && i < |e.made| && j < |e.made|
    ensures Placed(e.made[i], e.csz)
    ensures i != j ==> Apart(e.made[i], e.made[j])
  {
    var n: nat :| ReachableIn(n, e);
    RunInv(n, e);
    assert SliceOk(e, e.made[i]);
    if i < j { assert Apart(e.made[i], e.made[j]); }
    if j < i { assert Apart(e.made[j], e.made[i]); }
  }

  // ---------------------------------------------------------------- does Alloc end?

  /** The next step of a thread inside Alloc. */
  function Move(s: State, t: nat): State
    requires t < |s.threads|
  {
    var pc := s.threads[t];
    var l := match pc
      case Idle => Snap(t)
      case Top(_) => LoadCur(t)
      case HaveChunk(_, _) => LoadOff(t)
      case HaveOff(_, _, _) => CasOff(t)
      case Recheck(_, _) => LookAgain(t)
      case Switch(_, _) => CasCur(t);
    if Enabled(s, l) then Apply(s, l) else s
  }

  /** Inside Alloc that is the only step the thread can take, and it can always take it. */
  lemma MoveIsTheStep(s: State, t: nat)
    requires Inv(s) && t < |s.threads| && s.threads[t] != Idle
    ensures exists l: Label :: l.t == t && Enabled(s, l)
    ensures forall l: Label :: l.t == t && Enabled(s, l) ==> Apply(s, l) == Move(s, t)
  {
    assert PcOk(s, s.threads[t]);
    assert Enabled(s, LoadCur(t)) || Enabled(s, LoadOff(t)) || Enabled(s, CasOff(t)) || Enabled(s, LookAgain(t))
        || Enabled(s, CasCur(t));
  }

  /** The state after k steps of one thread while the others stand still. */
  function Alone(s: State, t: nat, k: nat): (e: State)
    requires t < |s.threads|
    ensures |e.threads| == |s.threads| && e.csz == s.csz
  {
    if k == 0 then s else Move(Alone(s, t, k - 1), t)
  }

  /** The slice that an undisturbed Alloc cuts: from the current chunk if it has room, else from the start
      of a new one. */
  function NextSlice(s: State, n: nat): Slice
    requires s.cur < |s.offs|
  {
    if s.offs[s.cur] + RoundUp8(n) <= s.csz then Slice(s.cur, s.offs[s.cur], n, s.offs[s.cur] + RoundUp8(n))
    else Slice(|s.offs|, 0, n, RoundUp8(n))
  }

  /** Main theorem: an Alloc of n bytes that runs by itself, from any state, ends exactly when n is out of
      range, and then nothing happens, or n rounded up to 8 fits a chunk, and then it makes one slice, of the
      current chunk if that has room. Otherwise it installs new chunks for ever, although n itself may fit. */
  lemma AllocEnds(s: State, t: nat, n: int)
    requires Inv(s) && t < |s.threads| && s.threads[t] == Idle
    ensures var a := Apply(s, Alloc(t, n));
            && (n <= 0 || n > s.csz ==> a == s)
            && (0 < n <= s.csz ==> (RoundUp8(n) <= s.csz <==> exists k: nat :: Alone(a, t, k).threads[t] == Idle))
            && (0 < n && RoundUp8(n) <= s.csz ==>
                exists k: nat :: Alone(a, t, k).threads[t] == Idle && Alone(a, t, k).made == s.made + [NextSlice(s, n)])
  {
    if 0 < n <= s.csz {
      var a := Go(s, t, Top(n));
      if RoundUp8(n) <= s.csz {
        var k := EndsSoon(a, t, n);
        assert a == Apply(s, Alloc(t, n)) && NextSlice(a, n) == NextSlice(s, n);
        assert Alone(Apply(s, Alloc(t, n)), t, k).threads[t] == Idle;
      } else {
        forall k: nat ensures Alone(a, t, k).threads[t] != Idle { NeverEnds(a, t, n, k); }
      }
    }
  }

  /** Three steps from the top of the loop either cut the slice or find the chunk exhausted. */
  lemma FromTop(a: State, t: nat, n: nat)
    requires t < |a.threads| && a.threads[t] == Top(n) && a.cur < |a.offs|
    ensures var b := Move(Move(Move(a, t), t), t);
            if a.offs[a.cur] + RoundUp8(n) <= a.csz
            then b.threads[t] == Idle && b.made == a.made + [NextSlice(a, n)] && |b.offs| == |a.offs|
            else b == Go(a, t, Recheck(n, a.cur))
  {
    var c := Move(a, t);
    assert c == Go(a, t, HaveChunk(n, a.cur));
    var d := Move(c, t);
    assert d == Go(a, t, HaveOff(n, a.cur, a.offs[a.cur]));
  }

  /** Two more put an empty chunk in the place of the exhausted one. */
  lemma FromRecheck(a: State, t: nat, n: nat)
    requires t < |a.threads| && a.threads[t] == Recheck(n, a.cur)
    ensures Move(Move(a, t), t) == Go(a, t, Top(n)).(offs := a.offs + [0], cur := |a.offs|)
  {
    assert Move(a, t) == Go(a, t, Switch(n, a.cur));
  }

  lemma ThreeMore(s: State, t: nat, k: nat)
    requires t < |s.threads|
    ensures Alone(s, t, k + 2) == Move(Move(Alone(s, t, k), t), t)
    ensures Alone(s, t, k + 3) == Move(Move(Move(Alone(s, t, k), t), t), t)
  {
    assert Alone(s, t, k + 1) == Move(Alone(s, t, k), t);
    assert Alone(s, t, k + 2) == Move(Alone(s, t, k + 1), t);
  }

  lemma CutFrom(s: State, t: nat, n: nat, k: nat) returns (k': nat)
    requires t < |s.threads| && var a := Alone(s, t, k);
             a.threads[t] == Top(n) && a.cur < |a.offs| && a.offs[a.cur] + RoundUp8(n) <= a.csz
    ensures var a, e := Alone(s, t, k), Alone(s, t, k');
            e.threads[t] == Idle && e.made == a.made + [NextSlice(a, n)] && |e.offs| == |a.offs|
  {
    k' := k + 3;
    ThreeMore(s, t, k);
    FromTop(Alone(s, t, k), t, n);
  }

  lemma SwitchFrom(s: State, t: nat, n: nat, k: nat) returns (k': nat)
    requires t < |s.threads| && var a := Alone(s, t, k);
             a.threads[t] == Top(n) && a.cur < |a.offs| && a.offs[a.cur] + RoundUp8(n) > a.csz
    ensures var a := Alone(s, t, k);
            Alone(s, t, k') == Go(a, t, Top(n)).(offs := a.offs + [0], cur := |a.offs|)
  {
    var j := k + 3;
    ThreeMore(s, t, k);
    FromTop(Alone(s, t, k), t, n);
    k' := j + 2;
    ThreeMore(s, t, j);
    FromRecheck(Alone(s, t, j), t, n);
  }

  lemma EndsSoon(s: State, t: nat, n: nat) returns (k: nat)
    requires t < |s.threads| && s.threads[t] == Top(n) && RoundUp8(n) <= s.csz && s.cur < |s.offs|
    ensures var e := Alone(s, t, k);
            e.threads[t] == Idle && e.made == s.made + [NextSlice(s, n)]
  {
    k := 0;
    assert Alone(s, t, k) == s;
    if s.offs[s.cur] + RoundUp8(n) > s.csz {
      k := SwitchFrom(s, t, n, 0);
      FreshSlice(s, Alone(s, t, k), t, n);
    }
    k := CutFrom(s, t, n, k);
  }

  lemma FreshSlice(s: State, b: State, t: nat, n: nat)
    requires t < |s.threads| && s.cur < |s.offs| && s.offs[s.cur] + RoundUp8(n) > s.csz && RoundUp8(n) <= s.csz
    requires b == Go(s, t, Top(n)).(offs := s.offs + [0], cur := |s.offs|)
    ensures b.cur < |b.offs| && b.offs[b.cur] == 0 && NextSlice(b, n) == NextSlice(s, n) && b.made == s.made
    ensures b.threads[t] == Top(n) && b.csz == s.csz
  {}

  lemma StillBusy(s: State, t: nat, n: nat)
    requires t < |s.threads| && s.threads[t] != Idle && s.threads[t].n == n && RoundUp8(n) > s.csz
    ensures Move(s, t).threads[t] != Idle && Move(s, t).threads[t].n == n
  {}

  lemma {:induction false} NeverEnds(s: State, t: nat, n: nat, k: nat)
    requires t < |s.threads| && s.threads[t] == Top(n) && RoundUp8(n) > s.csz
    ensures var pc := Alone(s, t, k).threads[t];
            pc != Idle && pc.n == n
  {
    if k > 0 {
      NeverEnds(s, t, n, k - 1);
      StillBusy(Alone(s, t, k - 1), t, n);
    }
  }

  /** The smallest such case: 9 bytes of a 10-byte chunk. */
  lemma NineOfTen(k: nat)
    ensures Alone(State(10, [0], 0, [Top(9)], []), 0, k).threads[0] != Idle
  {
    NeverEnds(State(10, [0], 0, [Top(9)], []), 0, 9, k);
  }

  // ---------------------------------------------------------------- one goroutine, with snapshots

  datatype Snapshot = Snapshot(chk: nat, off: nat)

  datatype Memory = Nothing | Heap(len: nat) | Cut(slice: Slice) | Looping

  /** Slices that a snapshot protects: those in its chunk end before its offset. */
  ghost predicate Covers(sp: Snapshot, csz: nat, live: seq<Slice>)
  {
    && sp.off % 8 == 0 && sp.off <= csz + 7
    && (forall i :: 0 <= i < |live| ==> Placed(live[i], csz) && (live[i].chunk == sp.chk ==> live[i].end <= sp.off))
    && (forall i, j :: 0 <= i < j < |live| ==> Apart(live[i], live[j]))
  }

  /** `offs` holds the offset of every chunk made so far; `live` lists the slices still in force. */
  class Allocator {
    const csz: nat
    var offs: seq<nat>
    var cur: nat
    ghost var live: seq<Slice>

    ghost predicate Valid()
      reads this
    {
      && cur < |offs| && (forall c :: 0 <= c < |offs| ==> offs[c] % 8 == 0)
      && (forall i :: 0 <= i < |live| ==> live[i].chunk < |offs|)
      && Covers(Snapshot(cur, offs[cur]), csz, live)
    }

    constructor (chunkSize: int)
      ensures Valid() && live == []
      ensures 1 <= csz <= 67108864 && (1 <= chunkSize <= 67108864 ==> csz == chunkSize)
      ensures (chunkSize <= 0 ==> csz == 65536) && (chunkSize > 67108864 ==> csz == 67108864)
    {
      csz := if chunkSize <= 0 then 65536 else if chunkSize > 67108864 then 67108864 else chunkSize;
      offs, cur, live := [0], 0, [];
    }

    /** A new slice never overlaps one still in force. The loop is watched for `patience` chunk switches;
        one is enough, unless the rounded size does not fit a chunk, and then no number is. */
    method Alloc(n: int, patience: nat) returns (m: Memory)
      requires Valid()
      modifies this
      ensures Valid() && |old(offs)| <= |offs| <= |old(offs)| + patience
      ensures n <= 0 ==> m == Nothing
      ensures n > csz ==> m == Heap(n)
      ensures n <= 0 || n > csz ==> live == old(live) && offs == old(offs) && cur == old(cur)
      ensures 0 < n <= csz && RoundUp8(n) > csz ==> m == Looping && |offs| == |old(offs)| + patience
      ensures 0 < n <= csz && RoundUp8(n) <= csz ==> m.Cut? || (m == Looping && patience == 0)
      ensures m.Cut? ==> m.slice.len == n && live == old(live) + [m.slice] && |offs| <= |old(offs)| + 1
      ensures m == Looping ==> live == old(live)
      ensures m.Cut? ==>
                var off, aligned := old(offs[cur]), RoundUp8(n);
                m.slice == if off + aligned <= csz then Slice(old(cur), off, n, off + aligned)
                           else Slice(|old(offs)|, 0, n, aligned)
    {
      if n <= 0 { return Nothing; }
      if n > csz { return Heap(n); }
      var aligned := RoundUp8(n);
      var k := 0;
      while true
        invariant Valid() && live == old(live)
        invariant k <= patience && |offs| == |old(offs)| + k && (k > 0 ==> offs[cur] == 0)
        invariant k > 1 ==> aligned > csz
        invariant k == 0 ==> cur == old(cur) && offs == old(offs)
        invariant k == 1 ==> cur == |old(offs)| && old(offs[cur]) + aligned > csz
        decreases patience - k
      {
        m := CutHere(n, aligned);
        if m.Cut? { return; }
        if k == patience { return Looping; }
        Reset();
        k := k + 1;
      }
    }

    /** One turn of the loop on the current chunk. */
    method CutHere(n: nat, aligned: nat) returns (m: Memory)
      requires Valid() && n > 0 && aligned == RoundUp8(n)
      modifies this
      ensures Valid() && cur == old(cur) && |offs| == |old(offs)|
      ensures var off := old(offs[cur]);
              if off + aligned <= csz then m == Cut(Slice(cur, off, n, off + aligned)) && live == old(live) + [m.slice]
              else m == Nothing && offs == old(offs) && live == old(live)
    {
      var off := offs[cur];
      var end := off + aligned;
      if end > csz { return Nothing; }
      var slice := Slice(cur, off, n, end);
      offs := offs[cur := end];
      live := live + [slice];
      return Cut(slice);
    }

    method Reset()
      requires Valid()
      modifies this
      ensures Valid() && live == old(live) && offs == old(offs) + [0] && cur == |old(offs)|
    {
      cur := |offs|;
      offs := offs + [0];
    }

    method Snap() returns (sp: Snapshot)
      requires Valid()
      ensures sp == Snapshot(cur, offs[cur]) && sp.chk < |offs| && Covers(sp, csz, live)
    {
      sp := Snapshot(cur, offs[cur]);
    }

    /** Back to a snapshot: the slices that were in force then are in force again, so everything
        allocated from now on stays clear of all of them. */
    method Restore(sp: Snapshot, ghost kept: seq<Slice>)
      requires Valid() && sp.chk < |offs| && Covers(sp, csz, kept)
      requires forall i :: 0 <= i < |kept| ==> kept[i].chunk < |offs|
      modifies this
      ensures Valid() && live == kept && cur == sp.chk && offs == old(offs)[sp.chk := sp.off]
    {
      offs := offs[sp.chk := sp.off];
      cur := sp.chk;
      live := kept;
    }
  }

  /** What a caller may do between and after save points; Restore(k) goes back to the k-th snapshot taken
      so far, if there is one. */
  datatype Op = Allocate(n: int) | StartAfresh | TakeSnap | GoBack(k: nat)

  /** How many requests get a slice of a chunk. */
  function Slices(ops: seq<Op>, csz: nat): nat {
    if |ops| == 0 then 0
    else
      var o := ops[|ops| - 1];
      Slices(ops[..|ops| - 1], csz) + if o.Allocate? && 0 < o.n && RoundUp8(o.n) <= csz then 1 else 0
  }

  /** The slices of base are in force and stay so on a return to any of the snapshots. */
  ghost predicate Kept(a: Allocator, snaps: seq<Snapshot>, kept: seq<seq<Slice>>, base: seq<Slice>)
    reads a
  {
    && a.Valid() && base <= a.live && |snaps| == |kept|
    && forall k :: 0 <= k < |snaps| ==> base <= kept[k] && Restorable(a, snaps[k], kept[k])
  }

  ghost predicate Restorable(a: Allocator, sp: Snapshot, kept: seq<Slice>)
    reads a
  {
    sp.chk < |a.offs| && Covers(sp, a.csz, kept) && forall i :: 0 <= i < |kept| ==> kept[i].chunk < |a.offs|
  }

  /** Any work whatever on the arena: every slice it is given is clear of base. */
  method Work(a: Allocator, ops: seq<Op>, snaps: seq<Snapshot>, ghost kept: seq<seq<Slice>>, ghost base: seq<Slice>)
    returns (made: seq<Slice>, snaps': seq<Snapshot>, ghost kept': seq<seq<Slice>>)
    requires Kept(a, snaps, kept, base)
    modifies a
    ensures Kept(a, snaps', kept', base) && snaps <= snaps' && kept <= kept'
    ensures forall i, j :: 0 <= i < |base| && 0 <= j < |made| ==> Apart(base[i], made[j])
    ensures |made| == Slices(ops, a.csz)
  {
    made, snaps', kept' := [], snaps, kept;
    for i := 0 to |ops|
      invariant Kept(a, snaps', kept', base) && snaps <= snaps' && kept <= kept'
      invariant forall i, j :: 0 <= i < |base| && 0 <= j < |made| ==> Apart(base[i], made[j])
      invariant |made| == Slices(ops[..i], a.csz)
    {
      assert ops[..i + 1][..i] == ops[..i];
      match ops[i] {
        case Allocate(n) =>
          var m := Cautious(a, n, snaps', kept', base);
          if m.Cut? { made := made + [m.slice]; }
        case StartAfresh =>
          a.Reset();
        case TakeSnap =>
          var sp := a.Snap();
          snaps', kept' := snaps' + [sp], kept' + [a.live];
        case GoBack(k) =>
          if k < |snaps'| { a.Restore(snaps'[k], kept'[k]); }
      }
    }
    assert ops[..|ops|] == ops;
  }

  /** Alloc beside slices and snapshots that are to survive. */
  method Cautious(a: Allocator, n: int, ghost snaps: seq<Snapshot>, ghost kept: seq<seq<Slice>>, ghost base: seq<Slice>)
    returns (m: Memory)
    requires Kept(a, snaps, kept, base)
    modifies a
    ensures Kept(a, snaps, kept, base) && (m.Cut? <==> 0 < n && RoundUp8(n) <= a.csz)
    ensures m.Cut? ==> forall i :: 0 <= i < |base| ==> Apart(base[i], m.slice)
  {
    m := a.Alloc(n, 1);
    if m.Cut? {
      assert a.live[|a.live| - 1] == m.slice;
      assert forall i :: 0 <= i < |base| ==> base[i] == a.live[i];
    }
  }

  /** A save point: slices made before Snap are disjoint from all made after Restore, whatever was done
      in between and is done afterwards: allocations, resets, further snapshots and returns to them. */
  method SavePoint(a: Allocator, between: seq<Op>, after: seq<Op>) returns (made: seq<Slice>)
    requires a.Valid()
    modifies a
    ensures a.Valid() && |made| == Slices(after, a.csz)
    ensures forall i, j :: 0 <= i < |old(a.live)| && 0 <= j < |made| ==> Apart(old(a.live)[i], made[j])
  {
    ghost var base := a.live;
    var sp := a.Snap();
    var dropped, snaps, kept := Work(a, between, [sp], [base], base);
    assert snaps[0] == sp && kept[0] == base;
    a.Restore(sp, base);
    made, snaps, kept := Work(a, after, snaps, kept, base);
  }
}
