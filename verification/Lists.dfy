/** What the models share: optional values, taking one element out of a list, and feeding a list to a
    callback. */
module Lists {
  datatype Option<+A> = None | Some(value: A)

  /** The list without its i-th element. */
  function Cut<A>(s: seq<A>, i: nat): seq<A>
    requires i < |s|
  {
    s[..i] + s[i + 1..]
  }

  lemma CutAt<A>(s: seq<A>, i: nat, j: nat)
    requires i < |s| && j < |s| - 1
    ensures Cut(s, i)[j] == s[if j < i then j else j + 1]
  {}

  ghost predicate AllDistinct<A>(s: seq<A>)
  {
    forall j, k :: 0 <= j < k < |s| ==> s[j] != s[k]
  }

  lemma CutMisses<A>(s: seq<A>, i: nat)
    requires i < |s| && AllDistinct(s)
    ensures s[i] !in Cut(s, i) && AllDistinct(Cut(s, i))
  {
    forall j | 0 <= j < |s| - 1 ensures Cut(s, i)[j] != s[i] {
      CutAt(s, i, j);
    }
  }

  // ---------------------------------------------------------------- callbacks

  /** A callback may keep state and stop the walk, so it is a function of everything it has been given
      so far. */
  type Callback<!A> = seq<A> -> bool

  /** Hand `es` one by one to the callback after `acc`, until it returns false. */
  function Feed<A>(acc: seq<A>, es: seq<A>, fn: Callback<A>): (seq<A>, bool)
    decreases |es|
  {
    if |es| == 0 then (acc, true)
    else
      var acc' := acc + [es[0]];
      if fn(acc') then Feed(acc', es[1..], fn) else (acc', false)
  }

  lemma {:induction false} FeedAppend<A>(acc: seq<A>, a: seq<A>, b: seq<A>, fn: Callback<A>)
    ensures Feed(acc, a + b, fn) ==
            var r := Feed(acc, a, fn); if r.1 then Feed(r.0, b, fn) else r
    decreases |a|
  {
    if |a| == 0 {
      assert a + b == b;
    } else {
      assert (a + b)[1..] == a[1..] + b;
      if fn(acc + [a[0]]) { FeedAppend(acc + [a[0]], a[1..], b, fn); }
    }
  }

  /** What a callback sees is a prefix of the list, cut right after its first refusal. */
  lemma {:induction false} FeedIsPrefix<A>(acc: seq<A>, es: seq<A>, fn: Callback<A>) returns (k: nat)
    ensures k <= |es| && Feed(acc, es, fn).0 == acc + es[..k]
    ensures Feed(acc, es, fn).1 ==> k == |es|
    ensures !Feed(acc, es, fn).1 ==> k > 0 && !fn(acc + es[..k])
    ensures forall j :: 1 <= j <= k && (j < k || Feed(acc, es, fn).1) ==> fn(acc + es[..j])
    decreases |es|
  {
    if |es| == 0 { return 0; }
    var acc' := acc + [es[0]];
    assert acc + es[..1] == acc';
    if !fn(acc') { return 1; }
    var k' := FeedIsPrefix(acc', es[1..], fn);
    k := k' + 1;
    assert forall j :: 1 <= j <= |es| ==> acc + es[..j] == acc' + es[1..][..j - 1];
  }

  /** The walk so far: the first i elements have been accepted. */
  ghost predicate Fed<A>(es: seq<A>, fn: Callback<A>, i: nat)
  {
    i <= |es| && Feed([], es, fn) == Feed(es[..i], es[i..], fn)
  }

  lemma FedStep<A>(es: seq<A>, fn: Callback<A>, i: nat)
    requires Fed(es, fn, i) && i < |es|
    ensures es[..i] + [es[i]] == es[..i + 1]
    ensures fn(es[..i + 1]) ==> Fed(es, fn, i + 1)
    ensures !fn(es[..i + 1]) ==> Feed([], es, fn) == (es[..i + 1], false)
  {
    assert es[i..][1..] == es[i + 1..] && es[..i] + [es[i]] == es[..i + 1];
  }

  lemma FedEnds<A>(es: seq<A>, fn: Callback<A>)
    ensures Fed(es, fn, 0)
    ensures Fed(es, fn, |es|) ==> Feed([], es, fn) == (es, true)
  {
    assert es[..0] == [] && es[0..] == es && es[..|es|] == es && es[|es|..] == [];
  }

  /** Calls a callback with the elements of a list until it refuses. */
  method Visit<A>(es: seq<A>, fn: Callback<A>) returns (seen: seq<A>, go: bool)
    ensures (seen, go) == Feed([], es, fn)
  {
    FedEnds(es, fn);
    for i := 0 to |es|
      invariant Fed(es, fn, i)
    {
      FedStep(es, fn, i);
      if !fn(es[..i + 1]) { return es[..i + 1], false; }
    }
    return es, true;
  }
}
