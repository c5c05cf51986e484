/** The filter-and-advance step inside `poll_logs`: which records of a page
    are forwarded, and what the watermark becomes. */
module Dedup {
  import opened Json

  /** A record of the page together with the integer its `index` field holds. */
  datatype Entry = Entry(index: int, record: Record)

  function Last(es: seq<Entry>): Entry
    requires |es| > 0
  {
    es[|es| - 1]
  }

  function Max(a: int, b: int): (m: int)
    ensures m >= a && m >= b && (m == a || m == b)
  {
    if a >= b then a else b
  }

  /** The entries the loop forwards when the watermark read at the start of
      the cycle is `w`: those with an index strictly above `w`, in page order. */
  function Select(es: seq<Entry>, w: int): (out: seq<Entry>)
    ensures |out| <= |es|
    ensures forall e :: e in out ==> e in es && e.index > w
    ensures forall e :: e in es && e.index > w ==> e in out
    decreases |es|
  {
    if |es| == 0 then []
    else
      var front := es[..|es| - 1];
      assert es == front + [Last(es)];
      Select(front, w) + (if Last(es).index > w then [Last(es)] else [])
  }

  /** `new_last_index` after the loop: starting from `w`, the running maximum
      over the indices of the forwarded entries. It is the largest of `w` and
      those indices. */
  function Advance(es: seq<Entry>, w: int): (nw: int)
    ensures nw >= w
    ensures forall i :: 0 <= i < |es| && es[i].index > w ==> es[i].index <= nw
    ensures nw == w || exists i :: 0 <= i < |es| && es[i].index > w && es[i].index == nw
    decreases |es|
  {
    if |es| == 0 then w
    else
      var front := es[..|es| - 1];
      assert forall i :: 0 <= i < |front| ==> front[i] == es[i];
      var m := Advance(front, w);
      if Last(es).index > w then Max(m, Last(es).index) else m
  }

  /** The watermark moves exactly when some entry is forwarded. */
  lemma AdvanceMovesIff(es: seq<Entry>, w: int)
    ensures Advance(es, w) != w <==> |Select(es, w)| > 0
  {
    var out := Select(es, w);
    if |out| > 0 {
      assert out[0] in out;
    } else {
      forall i | 0 <= i < |es|
        ensures es[i].index <= w
      {
        assert es[i] in es;
      }
    }
  }

  /** Replaying a page after its watermark has been advanced forwards nothing. */
  lemma ReplayForwardsNothing(es: seq<Entry>, w: int)
    ensures Select(es, Advance(es, w)) == []
  {
    var nw := Advance(es, w);
    SelectNoneAbove(es, nw);
  }

  /** A page none of whose entries is above the watermark forwards nothing. */
  lemma {:induction false} SelectNoneAbove(es: seq<Entry>, w: int)
    requires forall i :: 0 <= i < |es| ==> es[i].index <= w
    ensures Select(es, w) == []
    decreases |es|
  {
    if |es| > 0 {
      SelectNoneAbove(es[..|es| - 1], w);
    }
  }

  /** Filtering again against the same watermark changes nothing. */
  lemma {:induction false} SelectIdempotent(es: seq<Entry>, w: int)
    ensures Select(Select(es, w), w) == Select(es, w)
    decreases |es|
  {
    if |es| > 0 {
      var front := es[..|es| - 1];
      var out := Select(es, w);
      SelectIdempotent(front, w);
      SelectAppend(Select(front, w), if Last(es).index > w then [Last(es)] else [], w);
    }
  }

  /** Filtering distributes over concatenation of pages. */
  lemma {:induction false} SelectAppend(a: seq<Entry>, b: seq<Entry>, w: int)
    ensures Select(a + b, w) == Select(a, w) + Select(b, w)
    decreases |b|
  {
    if |b| == 0 {
      assert a + b == a;
    } else {
      var bf := b[..|b| - 1];
      var e := Last(b);
      var add := if e.index > w then [e] else [];
      assert (a + b)[..|a + b| - 1] == a + bf && Last(a + b) == e;
      assert Select(a + b, w) == Select(a + bf, w) + add;
      assert Select(b, w) == Select(bf, w) + add;
      SelectAppend(a, bf, w);
    }
  }

  /** `pos` lists, strictly increasing, the positions in `es` of the entries
      of `out`, and holds a position exactly when that entry's index is above
      `w`: `out` is `es` with precisely the entries above `w` kept, each once,
      in page order. */
  ghost predicate Enumerates(pos: seq<nat>, out: seq<Entry>, es: seq<Entry>, w: int) {
    && |pos| == |out|
    && (forall k :: 0 <= k < |pos| ==> pos[k] < |es| && out[k] == es[pos[k]])
    && (forall k, l :: 0 <= k < l < |pos| ==> pos[k] < pos[l])
    && (forall i :: 0 <= i < |es| ==> (es[i].index > w <==> i in pos))
  }

  /** Appending one entry to the page extends an enumeration by that entry's
      position when it qualifies, and leaves it alone otherwise. */
  lemma EnumeratesSnoc(pos: seq<nat>, out: seq<Entry>, es: seq<Entry>, e: Entry, w: int)
    requires Enumerates(pos, out, es, w)
    ensures e.index > w ==> Enumerates(pos + [|es|], out + [e], es + [e], w)
    ensures e.index <= w ==> Enumerates(pos, out, es + [e], w)
  {
    var es' := es + [e];
    assert forall i :: 0 <= i < |es| ==> es'[i] == es[i];
    assert forall k :: 0 <= k < |pos| ==> pos[k] < |es|;
    if e.index > w {
      var pos' := pos + [|es|];
      var out' := out + [e];
      assert forall k :: 0 <= k < |pos| ==> pos'[k] == pos[k] && out'[k] == out[k];
      forall i | 0 <= i < |es'|
        ensures es'[i].index > w <==> i in pos'
      {
        if i < |es| {
          assert i in pos' <==> i in pos;
        }
      }
    } else {
      assert |es| !in pos;
    }
  }

  /** Exactly the qualifying entries are forwarded, each once, in page order. */
  lemma {:induction false} SelectPositions(es: seq<Entry>, w: int) returns (pos: seq<nat>)
    ensures Enumerates(pos, Select(es, w), es, w)
    decreases |es|
  {
    if |es| == 0 {
      pos := [];
    } else {
      var n := |es| - 1;
      var front := es[..n];
      var p := SelectPositions(front, w);
      assert es == front + [es[n]];
      EnumeratesSnoc(p, Select(front, w), front, es[n], w);
      if es[n].index > w {
        pos := p + [n];
      } else {
        pos := p;
      }
    }
  }
}
