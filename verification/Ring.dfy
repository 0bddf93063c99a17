/** The growing ring byte buffer (ring/ring.go): unsigned cursors that wrap at the word size, a
    power-of-two capacity, two-segment copies, refining a byte queue. */
module Ring {
  import opened Arith
  import opened Lists
  import Bits

  type Byte = Bits.Byte

  // ---------------------------------------------------------------- powers of two

  lemma {:induction false} Pow2Divides(a: nat, b: nat)
    requires IsPow2(a) && IsPow2(b) && a <= b
    ensures a > 0 && b % a == 0
  {
    if a > 1 {
      Pow2Divides(a / 2, b / 2);
      var q := b / 2 / (a / 2);
      assert b / 2 == q * (a / 2);
      assert b == q * a by { assert a == 2 * (a / 2) && b == 2 * (b / 2); }
      DivModIs(b, a, q, 0);
    } else {
      DivModIs(b, 1, b, 0);
    }
  }

  // ---------------------------------------------------------------- indices

  /** (x + i) % c without a division, for one lap. */
  lemma Step(x: nat, i: nat, c: nat)
    requires c > 0 && i <= c
    ensures (x + i) % c == if x % c + i < c then x % c + i else x % c + i - c
  {
    var q, s := x / c, x % c;
    assert x == q * c + s;
    if s + i < c {
      DivModIs(x + i, c, q, s + i);
    } else {
      assert (q + 1) * c == q * c + c;
      DivModIs(x + i, c, q + 1, s + i - c);
    }
  }

  /** Reducing a cursor modulo the word size does not move its index. */
  lemma Wrap(x: nat, m: nat, c: nat)
    requires c > 0 && m > 0 && m % c == 0
    ensures x % m % c == x % c
  {
    var q, t, k := x / m, m / c, x % m;
    assert x == q * m + k && m == t * c;
    assert k == k / c * c + k % c;
    assert q * m == (q * t) * c by { assert q * (t * c) == (q * t) * c; }
    assert (q * t + k / c) * c == (q * t) * c + k / c * c;
    DivModIs(x, c, q * t + k / c, k % c);
  }

  // ---------------------------------------------------------------- windows

  /** n bytes of the ring starting at cursor r. */
  function Window(b: seq<Byte>, r: nat, n: nat): (s: seq<Byte>)
    requires n > 0 ==> |b| > 0
    ensures |s| == n
  {
    seq(n, i requires 0 <= i < n => b[(r + i) % |b|])
  }

  /** At most a lap of the ring is two straight pieces. */
  lemma TwoPieces(b: seq<Byte>, r: nat, n: nat)
    requires |b| > 0 && n <= |b|
    ensures var s := r % |b|;
            Window(b, r, n) == if s + n <= |b| then b[s..s + n] else b[s..] + b[..n - (|b| - s)]
  {
    var s, c := r % |b|, |b|;
    var t := if s + n <= c then b[s..s + n] else b[s..] + b[..n - (c - s)];
    forall i | 0 <= i < n ensures Window(b, r, n)[i] == t[i] { Step(r, i, c); }
  }

  lemma WindowAtZero(b: seq<Byte>, n: nat)
    requires 0 < |b| && n <= |b|
    ensures Window(b, 0, n) == b[..n]
  {
    forall i | 0 <= i < n ensures Window(b, 0, n)[i] == b[i] {
      DivModIs(i, |b|, 0, i);
    }
  }

  lemma WindowDrop(b: seq<Byte>, r: nat, n: nat, k: nat)
    requires (n > 0 ==> |b| > 0) && k <= n
    ensures Window(b, r + k, n - k) == Window(b, r, n)[k..]
    ensures Window(b, r, k) == Window(b, r, n)[..k]
  {
    forall i | 0 <= i < n - k ensures Window(b, r + k, n - k)[i] == Window(b, r, n)[k..][i] {
      assert r + k + i == r + (k + i);
    }
  }

  lemma WindowWrap(b: seq<Byte>, r: nat, n: nat, m: nat)
    requires (n > 0 ==> |b| > 0) && m > 0 && (|b| > 0 ==> m % |b| == 0)
    ensures Window(b, r % m, n) == Window(b, r, n)
  {
    forall i | 0 <= i < n ensures Window(b, r % m, n)[i] == Window(b, r, n)[i] {
      Wrap(r, m, |b|);
      SumIndex(r % m, r, i, |b|);
    }
  }

  lemma SumIndex(x: nat, y: nat, i: nat, c: nat)
    requires c > 0 && x % c == y % c
    ensures (x + i) % c == (y + i) % c
  {
    var q, s := (x % c + i) / c, (x % c + i) % c;
    assert x % c + i == q * c + s;
    assert x == x / c * c + x % c && y == y / c * c + y % c;
    assert (x / c + q) * c == x / c * c + q * c && (y / c + q) * c == y / c * c + q * c;
    DivModIs(x + i, c, x / c + q, s);
    DivModIs(y + i, c, y / c + q, s);
  }

  /** Stepping the cursor back by one puts the byte there in front. */
  lemma Prepend(b: seq<Byte>, x: nat, n: nat, m: nat)
    requires |b| > 0 && m > 0 && m % |b| == 0
    ensures Window(b, x, n + 1) == [b[x % |b|]] + Window(b, (x + 1) % m, n)
  {
    WindowWrap(b, x + 1, n, m);
    WindowDrop(b, x, n + 1, 1);
    var v := Window(b, x, n + 1);
    assert v == [v[0]] + v[1..];
  }

  /** b' is b with p copied in from index s on, wrapping around at the end. */
  ghost predicate Stored(b: seq<Byte>, b': seq<Byte>, s: nat, p: seq<Byte>)
  {
    && |b'| == |b|
    && forall j :: 0 <= j < |b| ==>
         b'[j] == if s <= j < s + |p| then p[j - s] else if j + |b| < s + |p| && s <= j + |b| then p[j + |b| - s] else b[j]
  }

  /** Copying p in right behind n readable bytes appends it, if it fits. */
  lemma StoredAppends(b: seq<Byte>, b': seq<Byte>, r: nat, n: nat, p: seq<Byte>)
    requires |b| > 0 && n + |p| <= |b| && Stored(b, b', (r + n) % |b|, p)
    ensures Window(b', r, n + |p|) == Window(b, r, n) + p
  {
    forall k | 0 <= k < n + |p| ensures Window(b', r, n + |p|)[k] == (Window(b, r, n) + p)[k] {
      if k < n { KeptAt(b, b', r, n, p, k); } else { StoredAt(b, b', r, n, p, k); }
    }
  }

  lemma KeptAt(b: seq<Byte>, b': seq<Byte>, r: nat, n: nat, p: seq<Byte>, k: nat)
    requires |b| > 0 && n + |p| <= |b| && Stored(b, b', (r + n) % |b|, p) && k < n
    ensures b'[(r + k) % |b|] == b[(r + k) % |b|]
  {
    assert r + k + (n - k) == r + n;
    Step(r + k, n - k, |b|);
    Untouched(b, b', (r + n) % |b|, p, (r + k) % |b|, n - k);
  }

  lemma StoredAt(b: seq<Byte>, b': seq<Byte>, r: nat, n: nat, p: seq<Byte>, k: nat)
    requires |b| > 0 && n + |p| <= |b| && Stored(b, b', (r + n) % |b|, p) && n <= k < n + |p|
    ensures b'[(r + k) % |b|] == p[k - n]
  {
    assert r + n + (k - n) == r + k;
    Step(r + n, k - n, |b|);
    Touched(b, b', (r + n) % |b|, p, (r + k) % |b|, k - n);
  }

  /** A cell d places before the first one written, with d + |p| at most a lap, keeps its byte. */
  lemma Untouched(b: seq<Byte>, b': seq<Byte>, s: nat, p: seq<Byte>, j: nat, d: nat)
    requires Stored(b, b', s, p) && j < |b| && s < |b| && 0 < d && d + |p| <= |b|
    requires s == if j + d < |b| then j + d else j + d - |b|
    ensures b'[j] == b[j]
  {}

  /** The cell i places after the first one written holds p[i]. */
  lemma Touched(b: seq<Byte>, b': seq<Byte>, s: nat, p: seq<Byte>, j: nat, i: nat)
    requires Stored(b, b', s, p) && j < |b| && s < |b| && i < |p| <= |b|
    requires j == if s + i < |b| then s + i else s + i - |b|
    ensures b'[j] == p[i]
  {}

  // ---------------------------------------------------------------- the buffer

  /** A zero-copy segment: `len` bytes of the underlying array from `start`. */
  datatype Segment = Segment(start: nat, len: nat)

  class Buffer {
    const modulus: nat      // the word size: cursors are unsigned and wrap at it
    var buf: array<Byte>
    var r: nat
    var w: nat
    var readPrev: nat
    var hasUnread: bool

    /** w - r in unsigned arithmetic. */
    function Len(): (n: int)
      reads this
    {
      if w >= r then w - r else w + modulus - r
    }

    ghost predicate Valid()
      reads this
    {
      && modulus >= 256 && IsPow2(modulus) && r < modulus && w < modulus && readPrev < modulus
      && (if buf.Length == 0 then r == w == 0 else IsPow2(buf.Length) && buf.Length < modulus)
      && Len() <= buf.Length
      && (r == w ==> r == 0)
    }

    /** The readable bytes: the queue that the buffer implements. */
    ghost function Content(): (q: seq<Byte>)
      requires Valid()
      reads this, buf
      ensures |q| == Len()
    {
      Window(buf[..], r, Len())
    }

    /** x & mask */
    function Index(x: nat): (i: nat)
      reads this
      ensures buf.Length > 0 ==> i < buf.Length
    {
      if buf.Length == 0 then 0 else x % buf.Length
    }

    lemma Divides()
      requires Valid() && buf.Length > 0
      ensures modulus % buf.Length == 0
    {
      Pow2Divides(buf.Length, modulus);
    }

    /** `New`; `modulus` is the platform's 2^32 or 2^64. */
    constructor (capacity: int, modulus: nat)
      requires IsPow2(modulus) && modulus >= 256 && 4 * capacity <= modulus
      ensures Valid() && Content() == [] && fresh(buf) && this.modulus == modulus && buf.Length >= capacity
      ensures IsPow2(buf.Length) && buf.Length >= 64 && (buf.Length > 64 ==> buf.Length < 2 * capacity)
    {
      var sz := 64;
      assert IsPow2(64);
      while sz < capacity
        invariant IsPow2(sz) && 64 <= sz && (sz == 64 || sz < 2 * capacity)
      {
        Pow2Double(sz);
        sz := 2 * sz;
      }
      this.modulus := modulus;
      buf := new Byte[sz](_ => 0);
      r, w, readPrev, hasUnread := 0, 0, 0, false;
    }

    method Reset()
      requires Valid()
      modifies this
      ensures Valid() && Content() == [] && buf == old(buf) && hasUnread == old(hasUnread)
    {
      r, w := 0, 0;
    }

    /** Move the read cursor over k bytes and normalise an empty buffer to r = w = 0. */
    method Skip(k: nat)
      requires Valid() && k <= Len()
      modifies this`r, this`w
      ensures Valid() && Content() == old(Content())[k..]
      ensures r == w == 0 || (r == (old(r) + k) % modulus && w == old(w))
      ensures k == old(Len()) <==> r == w
    {
      ghost var n := Len();
      ghost var b := buf[..];
      if buf.Length > 0 {
        Divides();
        WindowDrop(b, r, n, k);
        WindowWrap(b, r + k, n - k, modulus);
      }
      WrapSum(r, k, modulus);
      r := (r + k) % modulus;
      if r == w {
        r, w := 0, 0;
      }
    }

    /** Copy the first n readable bytes out, in one or two pieces. */
    method CopyOut(n: nat) returns (p: seq<Byte>)
      requires Valid() && n <= Len()
      ensures p == Content()[..n]
    {
      if n == 0 { return []; }
      var start := Index(r);
      Front(n);
      var stop := if start + n < buf.Length then start + n else buf.Length;
      p := buf[start..stop];
      if |p| < n { p := p + buf[..n - |p|]; }
    }

    /** `grow`: double the capacity until `need` more bytes fit. */
    method Grow(need: int)
      requires Valid() && 4 * (Len() + need) <= modulus
      modifies this
      ensures Valid() && Content() == old(Content()) && Len() + need <= buf.Length
      ensures (buf == old(buf) && r == old(r) && w == old(w)) || fresh(buf)
      ensures buf == old(buf) <==> old(buf.Length - Len()) >= need
      ensures buf != old(buf) ==> Snug(old(buf.Length), old(Len()), need, buf.Length)
      ensures hasUnread == old(hasUnread)
    {
      if buf.Length - Len() >= need { return; }
      var newCap := NewCapacity(buf.Length, Len(), need, modulus);
      MoveTo(newCap);
    }

    /** Copy the content to the start of a larger array. */
    method MoveTo(newCap: nat)
      requires Valid() && IsPow2(newCap) && Len() <= newCap < modulus
      modifies this`buf, this`r, this`w
      ensures Valid() && Content() == old(Content()) && buf.Length == newCap && fresh(buf)
    {
      var n := Len();
      var data := CopyOut(n);
      var newBuf := new Byte[newCap](i => if 0 <= i < |data| then data[i] else 0);
      assert newBuf[..n] == data;
      WindowAtZero(newBuf[..], n);
      buf, r, w := newBuf, 0, n;
    }

    // -------------------------------------------------------------- copying interface

    method Write(p: seq<Byte>) returns (n: nat)
      requires Valid() && 4 * (Len() + |p|) <= modulus
      modifies this, buf
      ensures Valid() && Content() == old(Content()) + p && n == |p| && !hasUnread
      ensures buf == old(buf) || fresh(buf)
    {
      hasUnread := false;
      Grow(|p|);
      n := |p|;
      if n == 0 { return; }
      ghost var b := buf[..];
      ghost var len := Len();
      Ends();
      StoreWrapped(Index(w), p);
      StoredAppends(b, buf[..], r, len, p);
      Advance(n);
    }

    /** Copy p in from index s on, in one or two pieces. */
    method StoreWrapped(s: nat, p: seq<Byte>)
      requires s < buf.Length && |p| <= buf.Length
      modifies buf
      ensures Stored(old(buf[..]), buf[..], s, p)
    {
      var first := if |p| < buf.Length - s then |p| else buf.Length - s;
      StoreAt(s, p[..first]);
      StoreAt(0, p[first..]);
    }

    method WriteByte(c: Byte)
      requires Valid() && 4 * (Len() + 1) <= modulus
      modifies this, buf
      ensures Valid() && Content() == old(Content()) + [c] && !hasUnread
      ensures buf == old(buf) || fresh(buf)
    {
      hasUnread := false;
      Grow(1);
      ghost var b := buf[..];
      ghost var len := Len();
      Ends();
      buf[Index(w)] := c;
      StoredAppends(b, buf[..], r, len, [c]);
      Advance(1);
    }

    /** Stepping back to readPrev gains one byte: r has moved on from there by one, or the read emptied
        the buffer. */
    ghost predicate Rewindable()
      reads this
    {
      buf.Length > 0 && modulus > 0 && (r == w == 0 || (r == (readPrev + 1) % modulus && Len() < buf.Length))
    }

    /** The state right after ReadByte returned c: that byte is still in place in front of r. */
    ghost predicate JustRead(c: Byte)
      reads this, buf
    {
      hasUnread && Rewindable() && buf[Index(readPrev)] == c
    }

    /** None is io.EOF. */
    method ReadByte() returns (c: Option<Byte>)
      requires Valid()
      modifies this
      ensures Valid() && buf == old(buf)
      ensures old(Content()) == [] ==> c == None && Content() == [] && !hasUnread
      ensures old(Content()) != [] ==> c == Some(old(Content())[0]) && Content() == old(Content())[1..] && JustRead(c.value)
    {
      if r == w {
        hasUnread := false;
        return None;
      }
      readPrev := r;
      c := Some(buf[Index(r)]);
      hasUnread := true;
      Skip(1);
    }

    /** With the flag down it reports io.ErrNoProgress. With the flag up it steps back, and that puts one
        byte in front of the queue exactly if the buffer is rewindable; directly after ReadByte it is,
        and the byte is the one that was read. */
    method UnreadByte() returns (ok: bool)
      requires Valid()
      modifies this
      ensures buf == old(buf) && ok == old(hasUnread) && !hasUnread
      ensures !ok ==> Valid() && Content() == old(Content())
      ensures ok ==> (old(Rewindable()) <==> Valid() && |Content()| == old(Len()) + 1 && Content()[1..] == old(Content()))
      ensures forall c :: old(JustRead(c)) ==> Valid() && Content() == [c] + old(Content())
    {
      if !hasUnread { return false; }
      hasUnread := false;
      ghost var n, was := Len(), Rewindable();
      WrapSum(readPrev, 1, modulus);
      if was {
        Divides();
        Prepend(buf[..], readPrev, n, modulus);
      }
      if r == 0 && w == 0 {
        r := readPrev;
        w := (readPrev + 1) % modulus;
      } else {
        r := readPrev;
      }
      assert was ==> Len() == n + 1;
      return true;
    }

    /** Read into a destination of length n; None is io.EOF. */
    method Read(n: nat) returns (p: Option<seq<Byte>>)
      requires Valid()
      modifies this
      ensures Valid() && buf == old(buf)
      ensures old(Content()) == [] ==> p == None && unchanged(this)
      ensures old(Content()) != [] ==> !hasUnread
      ensures old(Content()) != [] ==>
                var k := if n < |old(Content())| then n else |old(Content())|;
                p == Some(old(Content())[..k]) && Content() == old(Content())[k..]
    {
      if Len() == 0 { return None; }
      hasUnread := false;
      var k := if n > Len() then Len() else n;
      var q := CopyOut(k);
      Skip(k);
      return Some(q);
    }

    method Peek(n: nat) returns (p: seq<Byte>)
      requires Valid()
      ensures p == Content()[..if n < |Content()| then n else |Content()|]
    {
      var k := if n > Len() then Len() else n;
      p := CopyOut(k);
    }

    method Discard(n: nat)
      requires Valid()
      modifies this
      ensures Valid() && buf == old(buf)
      ensures Content() == old(Content())[if n < |old(Content())| then n else |old(Content())|..]
      ensures if n == 0 || old(Content()) == [] then unchanged(this) else !hasUnread
    {
      var k := if n > Len() then Len() else n;
      if k > 0 { hasUnread := false; }
      Skip(k);
    }

    // -------------------------------------------------------------- zero-copy interface

    ghost function Bytes(s: Segment): seq<Byte>
      requires s.start + s.len <= buf.Length
      reads this, buf
    {
      buf[s.start..s.start + s.len]
    }

    ghost predicate Within(s: Segment)
      reads this
    {
      s.start + s.len <= buf.Length
    }

    /** The indices of both cursors, and what lies between them. */
    method Locate(k: nat) returns (s: nat, e: nat)
      requires Valid() && buf.Length > 0 && k <= Len()
      ensures s < buf.Length && e == if s + Len() < buf.Length then s + Len() else s + Len() - buf.Length
      ensures Content()[..k] == if s + k <= buf.Length then buf[s..s + k] else buf[s..] + buf[..k - (buf.Length - s)]
    {
      Cursors();
      Front(k);
      s, e := Index(r), Index(w);
    }

    method PeekSegments() returns (s1: Segment, s2: Segment)
      requires Valid()
      ensures Within(s1) && Within(s2) && Bytes(s1) + Bytes(s2) == Content()
    {
      if r == w { return Segment(0, 0), Segment(0, 0); }
      var start, end := Locate(Len());
      assert Content() == Content()[..Len()];
      if start < end {
        assert Bytes(Segment(start, end - start)) + Bytes(Segment(0, 0)) == buf[start..end];
        return Segment(start, end - start), Segment(0, 0);
      }
      assert Bytes(Segment(start, buf.Length - start)) == buf[start..] && Bytes(Segment(0, end)) == buf[..end];
      return Segment(start, buf.Length - start), Segment(0, end);
    }

    /** At most n readable bytes from the front of the queue, in one or two segments. */
    method ReadableSegments(n: int) returns (s1: Segment, s2: Segment)
      requires Valid()
      ensures Within(s1) && Within(s2)
      ensures Bytes(s1) + Bytes(s2) == Content()[..if n <= 0 then 0 else if n < |Content()| then n else |Content()|]
    {
      var avail := Len();
      if n <= 0 || avail == 0 { return Segment(0, 0), Segment(0, 0); }
      var k := if n > avail then avail else n;
      var rStart, wStart := Locate(k);
      var firstLen := buf.Length - rStart;
      if rStart < wStart || k <= firstLen {
        s1, s2 := Segment(rStart, k), Segment(0, 0);
        assert rStart + k <= buf.Length;
        assert Bytes(s1) + Bytes(s2) == buf[rStart..rStart + k];
        return;
      }
      s1 := Segment(rStart, firstLen);
      var remain := k - firstLen;
      s2 := Segment(0, 0);
      if wStart > 0 {
        if remain > wStart { remain := wStart; }
        s2 := Segment(0, remain);
      }
      assert s2.len == k - firstLen;
      assert Bytes(s1) == buf[rStart..] && Bytes(s2) == buf[..k - firstLen];
    }

    /** False stands for the panic on an out-of-range argument. */
    method CommitRead(n: int) returns (ok: bool)
      requires Valid()
      modifies this
      ensures Valid() && buf == old(buf) && ok == (0 <= n <= |old(Content())|) && hasUnread == old(hasUnread)
      ensures Content() == if ok then old(Content())[n..] else old(Content())
    {
      if n < 0 || n > Len() { return false; }
      Skip(n);
      return true;
    }

    /** The whole free space in write order: s1 starts at the write cursor, and s2, if any, continues
        at index 0 after s1 reached the end of the array. */
    method WritableSegments(need: int) returns (s1: Segment, s2: Segment)
      requires Valid() && 4 * (Len() + need) <= modulus
      modifies this
      ensures Valid() && Content() == old(Content()) && (buf == old(buf) || fresh(buf)) && hasUnread == old(hasUnread)
      ensures Within(s1) && Within(s2) && s1.len + s2.len == buf.Length - Len() >= need
      ensures s1.len > 0 ==> s1.start == Index(w)
      ensures s2.len > 0 ==> s2.start == 0 && s1.start + s1.len == buf.Length
      ensures s2.len > 0 ==> s1.len > 0
    {
      Grow(need);
      var free := buf.Length - Len();
      if free == 0 { return Segment(0, 0), Segment(0, 0); }
      var wStart, rStart := Index(w), Index(r);
      Cursors();
      if r == w {
        AtZero();
        return Segment(0, free), Segment(0, 0);
      }
      if wStart < rStart { return Segment(wStart, rStart - wStart), Segment(0, 0); }
      s1 := Segment(wStart, buf.Length - wStart);
      s2 := if rStart > 0 then Segment(0, rStart) else Segment(0, 0);
    }

    lemma AtZero()
      requires Valid() && buf.Length > 0 && w == 0
      ensures Index(w) == 0
    {
      DivModIs(0, buf.Length, 0, 0);
    }

    /** False stands for the panic on an out-of-range argument. */
    method CommitWrite(n: int) returns (ok: bool)
      requires Valid()
      modifies this`w
      ensures Valid() && buf == old(buf) && ok == (0 <= n <= buf.Length - old(Len()))
      ensures !ok ==> Content() == old(Content())
      ensures ok ==> Content() == Window(buf[..], r, old(Len()) + n)
    {
      if n < 0 || n > buf.Length - Len() { return false; }
      if buf.Length > 0 { Advance(n); }
      return true;
    }

    /** What a caller does with writable segments: fill s1, then s2. */
    method FillSegments(s1: Segment, s2: Segment, p: seq<Byte>)
      requires Within(s1) && Within(s2) && |p| <= s1.len + s2.len <= buf.Length
      requires s2.len > 0 ==> s2.start == 0 && s1.start + s1.len == buf.Length
      modifies buf
      ensures Stored(old(buf[..]), buf[..], s1.start, p)
    {
      var first := if |p| < s1.len then |p| else s1.len;
      StoreAt(s1.start, p[..first]);
      if first < |p| { StoreAt(s2.start, p[first..]); }
    }

    method FillAndCommit(s1: Segment, s2: Segment, p: seq<Byte>)
      requires Valid() && buf.Length > 0 && s1.start == Index(w)
      requires Within(s1) && Within(s2) && |p| <= s1.len + s2.len == buf.Length - Len()
      requires s2.len > 0 ==> s2.start == 0 && s1.start + s1.len == buf.Length
      modifies this`w, buf
      ensures Valid() && Content() == old(Content()) + p
    {
      ghost var b := buf[..];
      Ends();
      FillSegments(s1, s2, p);
      StoredAppends(b, buf[..], r, Len(), p);
      var ok := CommitWrite(|p|);
    }

    /** Filling the writable segments in order and committing is the same as Write. */
    method WriteInPlace(p: seq<Byte>)
      requires Valid() && 4 * (Len() + |p|) <= modulus
      modifies this, buf
      ensures Valid() && Content() == old(Content()) + p
      ensures (buf == old(buf) || fresh(buf)) && hasUnread == old(hasUnread)
    {
      var s1, s2 := WritableSegments(|p|);
      if |p| > 0 { FillAndCommit(s1, s2, p); }
    }

    /** Where the cursors point, in plain terms. */
    lemma Cursors()
      requires Valid() && buf.Length > 0
      ensures Index(w) == if Index(r) + Len() < buf.Length then Index(r) + Len() else Index(r) + Len() - buf.Length
    {
      Ends();
      Step(r, Len(), buf.Length);
    }

    /** The first k readable bytes are one or two straight pieces of the array. */
    lemma Front(k: nat)
      requires Valid() && buf.Length > 0 && k <= Len()
      ensures Content()[..k] == if Index(r) + k <= buf.Length then buf[Index(r)..Index(r) + k]
                                else buf[Index(r)..] + buf[..k - (buf.Length - Index(r))]
    {
      TwoPieces(buf[..], r, k);
      WindowDrop(buf[..], r, Len(), k);
    }

    /** The write cursor is the read cursor plus the length. */
    lemma Ends()
      requires Valid() && buf.Length > 0
      ensures Index(w) == (r + Len()) % buf.Length
    {
      Divides();
      WrapSum(r, Len(), modulus);
      Wrap(r + Len(), modulus, buf.Length);
    }

    /** Copy p into the array from index i. */
    method StoreAt(i: nat, p: seq<Byte>)
      requires i + |p| <= buf.Length
      modifies buf
      ensures forall j :: 0 <= j < buf.Length ==> buf[j] == if i <= j < i + |p| then p[j - i] else old(buf[j])
    {
      for k := 0 to |p|
        invariant forall j :: 0 <= j < buf.Length ==> buf[j] == if i <= j < i + k then p[j - i] else old(buf[j])
      {
        buf[i + k] := p[k];
      }
    }

    /** Move the write cursor over n freshly stored bytes. */
    method Advance(n: nat)
      requires Valid() && buf.Length > 0 && Len() + n <= buf.Length
      modifies this`w
      ensures Valid() && Content() == Window(buf[..], r, old(Len()) + n) && Len() == old(Len()) + n
    {
      WrapSum(w, n, modulus);
      w := (w + n) % modulus;
    }
  }

  // ---------------------------------------------------------------- whole sessions

  /** What UnreadByte would do to the queue: refuse, put a byte back, or step back to a place that other
      operations have since made meaningless. */
  datatype Undo = Refuse | PutBack(c: Byte) | Stale

  /** The queue that a buffer stands for. */
  datatype Queue = Queue(q: seq<Byte>, undo: Undo)

  datatype Op =
    | Put(p: seq<Byte>) | PutByte(c: Byte) | PutInPlace(p: seq<Byte>)
    | Take(n: nat) | TakeByte | Untake | TakeInPlace(max: int)
    | Look(n: nat) | LookAll | Drop(n: nat) | Clear

  datatype Answer = Done(ok: bool) | Got(p: seq<Byte>) | Eof

  function Clip(n: int, len: nat): (k: nat)
    ensures k <= len
  {
    if n <= 0 then 0 else if n < len then n else len
  }

  /** The zero-copy commits and Reset leave the flag of UnreadByte as it is. */
  function Spoil(u: Undo): Undo {
    if u.PutBack? then Stale else u
  }

  function Serve(s: Queue, o: Op): (Queue, Answer)
  {
    match o
    case Put(p) => (Queue(s.q + p, Refuse), Done(true))
    case PutByte(c) => (Queue(s.q + [c], Refuse), Done(true))
    case PutInPlace(p) => (Queue(s.q + p, Spoil(s.undo)), Done(true))
    case Take(n) =>
      if s.q == [] then (s, Eof)
      else (Queue(s.q[Clip(n, |s.q|)..], Refuse), Got(s.q[..Clip(n, |s.q|)]))
    case TakeByte => if s.q == [] then (Queue([], Refuse), Eof) else (Queue(s.q[1..], PutBack(s.q[0])), Got(s.q[..1]))
    case Untake => if s.undo.PutBack? then (Queue([s.undo.c] + s.q, Refuse), Done(true)) else (s, Done(false))
    case TakeInPlace(n) => (Queue(s.q[Clip(n, |s.q|)..], Spoil(s.undo)), Got(s.q[..Clip(n, |s.q|)]))
    case Look(n) => (s, Got(s.q[..Clip(n, |s.q|)]))
    case LookAll => (s, Got(s.q))
    case Drop(n) => (if Clip(n, |s.q|) == 0 then s else Queue(s.q[Clip(n, |s.q|)..], Refuse), Done(true))
    case Clear => (Queue([], Spoil(s.undo)), Done(true))
  }

  function Added(o: Op): seq<Byte> {
    match o
    case Put(p) => p
    case PutByte(c) => [c]
    case PutInPlace(p) => p
    case _ => []
  }

  /** The queue after a session, and what it answered. */
  function End(s: Queue, ops: seq<Op>): Queue {
    if |ops| == 0 then s else Serve(End(s, ops[..|ops| - 1]), ops[|ops| - 1]).0
  }

  function Answers(s: Queue, ops: seq<Op>): seq<Answer> {
    if |ops| == 0 then [] else
      Answers(s, ops[..|ops| - 1]) + [Serve(End(s, ops[..|ops| - 1]), ops[|ops| - 1]).1]
  }

  /** Every operation is allowed where it is taken. */
  predicate Fits(s: Queue, ops: seq<Op>, modulus: nat) {
    |ops| > 0 ==>
      Fits(s, ops[..|ops| - 1], modulus) && Allowed(End(s, ops[..|ops| - 1]), ops[|ops| - 1], modulus)
  }

  lemma {:induction false} FitsBefore(s: Queue, ops: seq<Op>, i: nat, modulus: nat)
    requires i < |ops| && Fits(s, ops, modulus)
    ensures Allowed(End(s, ops[..i]), ops[i], modulus)
  {
    var n := |ops| - 1;
    if i < n {
      FitsBefore(s, ops[..n], i, modulus);
      assert ops[..n][..i] == ops[..i];
    }
  }

  /** What is held at one time fits the word size, and UnreadByte is not called when it is meaningless. */
  predicate Allowed(s: Queue, o: Op, modulus: nat) {
    4 * (|s.q| + |Added(o)|) <= modulus && (o.Untake? ==> s.undo != Stale)
  }

  ghost predicate Stands(b: Buffer, s: Queue)
    reads b, b.buf
  {
    && b.Valid() && b.Content() == s.q
    && (s.undo.Refuse? ==> !b.hasUnread) && (s.undo.PutBack? ==> b.JustRead(s.undo.c))
  }

  method DoWrite(b: Buffer, o: Op, ghost s: Queue) returns (a: Answer)
    requires Stands(b, s) && Allowed(s, o, b.modulus) && (o.Put? || o.PutByte? || o.PutInPlace?)
    modifies b, b.buf
    ensures (b.buf == old(b.buf) || fresh(b.buf)) && Stands(b, Serve(s, o).0) && a == Serve(s, o).1
  {
    if o.Put? {
      var n := b.Write(o.p);
    } else if o.PutByte? {
      b.WriteByte(o.c);
    } else {
      b.WriteInPlace(o.p);
    }
    a := Done(true);
  }

  /** Read out both segments, then commit them. */
  method ReadInPlace(b: Buffer, n: int) returns (p: seq<Byte>)
    requires b.Valid()
    modifies b
    ensures b.Valid() && b.buf == old(b.buf) && b.hasUnread == old(b.hasUnread)
    ensures var k := Clip(n, |old(b.Content())|);
            p == old(b.Content())[..k] && b.Content() == old(b.Content())[k..]
  {
    var s1, s2 := b.ReadableSegments(n);
    p := b.buf[s1.start..s1.start + s1.len] + b.buf[s2.start..s2.start + s2.len];
    var ok := b.CommitRead(s1.len + s2.len);
  }

  method DoRead(b: Buffer, o: Op, ghost s: Queue) returns (a: Answer)
    requires Stands(b, s) && (o.Take? || o.TakeByte? || o.TakeInPlace?)
    modifies b
    ensures b.buf == old(b.buf) && Stands(b, Serve(s, o).0) && a == Serve(s, o).1
  {
    if o.Take? {
      var r := b.Read(o.n);
      a := if r.Some? then Got(r.value) else Eof;
    } else if o.TakeByte? {
      var c := b.ReadByte();
      a := if c.Some? then Got([c.value]) else Eof;
    } else {
      var p := ReadInPlace(b, o.max);
      a := Got(p);
    }
  }

  method DoOther(b: Buffer, o: Op, ghost s: Queue) returns (a: Answer)
    requires Stands(b, s) && Allowed(s, o, b.modulus) && (o.Untake? || o.Look? || o.LookAll? || o.Drop? || o.Clear?)
    modifies b
    ensures b.buf == old(b.buf) && Stands(b, Serve(s, o).0) && a == Serve(s, o).1
  {
    match o {
      case Untake =>
        var ok := b.UnreadByte();
        a := Done(ok);
      case Look(n) =>
        var p := b.Peek(n);
        a := Got(p);
      case LookAll =>
        var s1, s2 := b.PeekSegments();
        a := Got(b.buf[s1.start..s1.start + s1.len] + b.buf[s2.start..s2.start + s2.len]);
      case Drop(n) =>
        b.Discard(n);
        a := Done(true);
      case Clear =>
        b.Reset();
        a := Done(true);
    }
  }

  method Do(b: Buffer, o: Op, ghost s: Queue) returns (a: Answer, ghost s': Queue)
    requires Stands(b, s) && Allowed(s, o, b.modulus)
    modifies b, b.buf
    ensures (b.buf == old(b.buf) || fresh(b.buf)) && Stands(b, s') && (s', a) == Serve(s, o)
  {
    s' := Serve(s, o).0;
    if o.Put? || o.PutByte? || o.PutInPlace? {
      a := DoWrite(b, o, s);
    } else if o.Take? || o.TakeByte? || o.TakeInPlace? {
      a := DoRead(b, o, s);
    } else {
      a := DoOther(b, o, s);
    }
  }

  lemma OneMore(s: Queue, ops: seq<Op>, i: nat)
    requires i < |ops|
    ensures End(s, ops[..i + 1]) == Serve(End(s, ops[..i]), ops[i]).0
    ensures Answers(s, ops[..i + 1]) == Answers(s, ops[..i]) + [Serve(End(s, ops[..i]), ops[i]).1]
  {
    assert ops[..i + 1][..i] == ops[..i];
  }

  /** Main theorem (refinement): over any session, of any length and however often the cursors wrap, the
      buffer answers every operation as the byte queue does and stands for that queue at the end. All
      that is asked is that what is held at one time fits the word size. */
  method Session(b: Buffer, ops: seq<Op>, ghost s: Queue) returns (answers: seq<Answer>)
    requires Stands(b, s) && Fits(s, ops, b.modulus)
    modifies b, b.buf
    ensures Stands(b, End(s, ops)) && answers == Answers(s, ops)
  {
    answers := [];
    ghost var now := s;
    for i := 0 to |ops|
      invariant Stands(b, now) && (b.buf == old(b.buf) || fresh(b.buf))
      invariant now == End(s, ops[..i]) && answers == Answers(s, ops[..i])
    {
      FitsBefore(s, ops, i, b.modulus);
      OneMore(s, ops, i);
      var a;
      a, now := Do(b, ops[i], now);
      answers := answers + [a];
    }
    assert ops[..|ops|] == ops;
  }

  /** Two bytes in, then one out and one in, k times over: the queue never runs empty, so the cursors are
      never set back. */
  function Churn(x: Byte, k: nat): seq<Op> {
    if k == 0 then [Put([x, x])] else Churn(x, k - 1) + [TakeByte] + [PutByte(x)]
  }

  lemma Snoc(s: Queue, ops: seq<Op>, o: Op, modulus: nat)
    ensures End(s, ops + [o]) == Serve(End(s, ops), o).0
    ensures Fits(s, ops + [o], modulus) <==> Fits(s, ops, modulus) && Allowed(End(s, ops), o, modulus)
    ensures Written(ops + [o]) == Written(ops) + Added(o)
  {
    assert (ops + [o])[..|ops|] == ops;
  }

  lemma ChurnOnce(s: Queue, ops: seq<Op>, x: Byte, modulus: nat)
    requires modulus >= 16 && Fits(s, ops, modulus) && End(s, ops).q == [x, x]
    ensures var r := ops + [TakeByte] + [PutByte(x)];
            Fits(s, r, modulus) && End(s, r).q == [x, x] && |Written(r)| == |Written(ops)| + 1
  {
    var a := ops + [TakeByte];
    TakeOne(s, ops, x, modulus);
    PutOne(s, a, x, modulus);
  }

  lemma TakeOne(s: Queue, ops: seq<Op>, x: Byte, modulus: nat)
    requires modulus >= 16 && Fits(s, ops, modulus) && End(s, ops).q == [x, x]
    ensures var a := ops + [TakeByte]; Fits(s, a, modulus) && End(s, a).q == [x] && Written(a) == Written(ops)
  {
    Snoc(s, ops, TakeByte, modulus);
  }

  lemma PutOne(s: Queue, ops: seq<Op>, x: Byte, modulus: nat)
    requires modulus >= 16 && Fits(s, ops, modulus) && End(s, ops).q == [x]
    ensures var a := ops + [PutByte(x)]; Fits(s, a, modulus) && End(s, a).q == [x, x] && |Written(a)| == |Written(ops)| + 1
  {
    Snoc(s, ops, PutByte(x), modulus);
  }

  lemma ChurnStart(x: Byte, modulus: nat)
    requires modulus >= 16
    ensures var s, r := Queue([], Refuse), [Put([x, x])];
            Fits(s, r, modulus) && End(s, r).q == [x, x] && |Written(r)| == 2
  {
    Snoc(Queue([], Refuse), [], Put([x, x]), modulus);
    assert [] + [Put([x, x])] == [Put([x, x])];
  }

  /** What a session may write in all is not bounded by the word size. */
  lemma {:induction false} Endless(x: Byte, k: nat, modulus: nat)
    requires modulus >= 16
    ensures Fits(Queue([], Refuse), Churn(x, k), modulus) && |Written(Churn(x, k))| == k + 2
    ensures End(Queue([], Refuse), Churn(x, k)).q == [x, x]
  {
    if k == 0 {
      ChurnStart(x, modulus);
    } else {
      Endless(x, k - 1, modulus);
      ChurnOnce(Queue([], Refuse), Churn(x, k - 1), x, modulus);
    }
  }

  function Written(ops: seq<Op>): seq<Byte> {
    if |ops| == 0 then [] else Written(ops[..|ops| - 1]) + Added(ops[|ops| - 1])
  }

  /** The bytes handed out for good. */
  function Taken(s: Queue, ops: seq<Op>): seq<Byte> {
    if |ops| == 0 then [] else
      Taken(s, ops[..|ops| - 1]) + TakenBy(End(s, ops[..|ops| - 1]), ops[|ops| - 1])
  }

  function TakenBy(s: Queue, o: Op): seq<Byte> {
    var a := Serve(s, o).1;
    if (o.Take? || o.TakeByte? || o.TakeInPlace?) && a.Got? then a.p else []
  }

  /** Conservation: unless bytes are put back or thrown away, the bytes taken followed by those still
      queued are the bytes there at the start followed by the bytes written. */
  lemma {:induction false} Conserved(s: Queue, ops: seq<Op>)
    requires forall j :: 0 <= j < |ops| ==> !ops[j].Untake? && !ops[j].Drop? && !ops[j].Clear?
    ensures s.q + Written(ops) == Taken(s, ops) + End(s, ops).q
  {
    if |ops| > 0 {
      var before, o := ops[..|ops| - 1], ops[|ops| - 1];
      Conserved(s, before);
      var c := End(s, before);
      Balance(c, o);
      Chain(s.q, Written(before), Added(o), Taken(s, before), c.q, TakenBy(c, o), End(s, ops).q);
    }
  }

  lemma Balance(s: Queue, o: Op)
    requires !o.Untake? && !o.Drop? && !o.Clear?
    ensures s.q + Added(o) == TakenBy(s, o) + Serve(s, o).0.q
  {}

  lemma Chain(a: seq<Byte>, w: seq<Byte>, d: seq<Byte>, out: seq<Byte>, c: seq<Byte>, got: seq<Byte>, c': seq<Byte>)
    requires a + w == out + c && c + d == got + c'
    ensures a + (w + d) == (out + got) + c'
  {
    assert a + (w + d) == (a + w) + d == out + (c + d) == (out + got) + c';
  }

  /** The doubling loop of `grow`; a zero-value buffer starts from 64. */
  method NewCapacity(capacity: nat, len: nat, need: int, modulus: nat) returns (c: nat)
    requires modulus >= 256 && 4 * (len + need) <= modulus && capacity < modulus
    requires capacity == 0 || IsPow2(capacity)
    ensures IsPow2(c) && capacity <= c < modulus && len + need <= c && Snug(capacity, len, need, c)
  {
    c := if capacity == 0 then 64 else capacity;
    assert IsPow2(64);
    while c - len < need
      invariant IsPow2(c) && capacity <= c < modulus && Snug(capacity, len, need, c)
    {
      Pow2Double(c);
      c := 2 * c;
    }
  }

  /** No larger than it has to be: the old capacity, or 64 for none, or less than twice what is needed. */
  predicate Snug(capacity: nat, len: nat, need: int, c: nat) {
    c == capacity || (capacity == 0 && c == 64) || c < 2 * (len + need)
  }

  /** Adding to a cursor wraps at most once. */
  lemma WrapSum(x: nat, k: nat, m: nat)
    requires x < m && k <= m
    ensures (x + k) % m == if x + k < m then x + k else x + k - m
  {
    DivModIs(x, m, 0, x);
    Step(x, k, m);
  }
}
