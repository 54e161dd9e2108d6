/** The pass `SlateContainer` runs over every edited batch of blocks before storing it:
    splitting a block leaves both halves with the same id, so, scanning left to right,
    a block whose id equals its (already updated) predecessor's gets a fresh id. The same
    loop warns about blocks whose children are not all text leaves, and changes nothing
    for them. The id the random generator would return at step `i` is `freshIds[i]`. */
module SplitIds {
  import opened Results
  import opened Slate

  /** A top-level block of the editor value: its id, its type and its child nodes. The id
      is a custom property the editor does not require, so a block may lack one (`None`);
      two blocks without an id compare equal, as `undefined === undefined` does. */
  datatype Block = Block(id: Option<string>, kind: string, children: seq<SlateNode>)

  /** Every child of the block is a text leaf. */
  predicate IsFlat(b: Block)
  {
    forall c :: c in b.children ==> IsText(c)
  }

  /** No two adjacent blocks share an id. */
  ghost predicate AdjacentDistinct(bs: seq<Block>)
  {
    forall i, j :: 0 <= i && j == i + 1 && j < |bs| ==> bs[i].id != bs[j].id
  }

  /** The fresh id of each step differs from both ids the predecessor can end up with:
      its original id and the fresh id of its own step. */
  ghost predicate FreshAgainstPredecessor(bs: seq<Block>, freshIds: seq<string>)
    requires |freshIds| >= |bs|
  {
    forall i, j :: 0 <= i && j == i + 1 && j < |bs| ==> Some(freshIds[j]) != bs[i].id && freshIds[j] != freshIds[i]
  }

  /** The batch after the pass: the specification the in-place loop is proved against,
      defined on prefixes so that each step sees the predecessor's updated id. Only ids
      change, and the first block is kept. */
  function Pass(bs: seq<Block>, freshIds: seq<string>): (r: seq<Block>)
    requires |freshIds| >= |bs|
    ensures |r| == |bs|
    ensures forall i :: 0 <= i < |bs| ==> r[i].kind == bs[i].kind && r[i].children == bs[i].children
    ensures |bs| > 0 ==> r[0] == bs[0]
    decreases |bs|
  {
    if |bs| == 0 then []
    else
      var n := |bs| - 1;
      var done := Pass(bs[..n], freshIds);
      var b := bs[n];
      done + [if n > 0 && done[n - 1].id == b.id then b.(id := Some(freshIds[n])) else b]
  }

  /** Running the pass on a prefix gives the prefix of the pass. */
  lemma {:induction false} PassPrefix(bs: seq<Block>, freshIds: seq<string>, k: nat)
    requires |freshIds| >= |bs| && k <= |bs|
    ensures Pass(bs, freshIds)[..k] == Pass(bs[..k], freshIds)
    decreases |bs|
  {
    if k < |bs| {
      var n := |bs| - 1;
      assert bs[..n][..k] == bs[..k];
      PassPrefix(bs[..n], freshIds, k);
    } else {
      assert bs[..k] == bs;
    }
  }

  /** Block `i` of the result keeps its id unless it equals the already updated
      predecessor's id, in which case it takes the fresh id of step `i`. */
  lemma {:induction false} PassAt(bs: seq<Block>, freshIds: seq<string>, i: nat)
    requires |freshIds| >= |bs| && i < |bs|
    ensures var r := Pass(bs, freshIds);
      r[i].id == (if i > 0 && r[i - 1].id == bs[i].id then Some(freshIds[i]) else bs[i].id)
  {
    var r := Pass(bs, freshIds);
    PassPrefix(bs, freshIds, i + 1);
    var p := Pass(bs[..i + 1], freshIds);
    assert bs[..i + 1][..i] == bs[..i];
    if i > 0 {
      PassPrefix(bs, freshIds, i);
      assert r[i - 1] == r[..i][i - 1];
    }
    assert r[i] == p[i];
  }

  /** When no fresh id equals either id its predecessor can end up with (the
      predecessor's original id or its own fresh id), the result has no two adjacent
      blocks with equal ids. */
  lemma {:induction false} NoAdjacentDuplicates(bs: seq<Block>, freshIds: seq<string>)
    requires |freshIds| >= |bs|
    requires FreshAgainstPredecessor(bs, freshIds)
    ensures AdjacentDistinct(Pass(bs, freshIds))
  {
    var r := Pass(bs, freshIds);
    forall i, j | 0 <= i && j == i + 1 && j < |r| ensures r[i].id != r[j].id {
      PassAt(bs, freshIds, j);
      PassAt(bs, freshIds, i);
    }
  }

  /** A batch in which no two adjacent blocks share an id passes through unchanged. */
  lemma {:induction false} PassKeepsDistinctNeighbours(bs: seq<Block>, freshIds: seq<string>)
    requires |freshIds| >= |bs|
    requires AdjacentDistinct(bs)
    ensures Pass(bs, freshIds) == bs
    decreases |bs|
  {
    if |bs| > 0 {
      var n := |bs| - 1;
      PassKeepsDistinctNeighbours(bs[..n], freshIds);
      assert bs[..n] + [bs[n]] == bs;
    }
  }

  /** With fresh ids as the generator provides them, a second pass changes nothing. */
  lemma {:induction false} PassIdempotent(bs: seq<Block>, freshIds: seq<string>, moreIds: seq<string>)
    requires |freshIds| >= |bs| && |moreIds| >= |bs|
    requires FreshAgainstPredecessor(bs, freshIds)
    ensures Pass(Pass(bs, freshIds), moreIds) == Pass(bs, freshIds)
  {
    var r := Pass(bs, freshIds);
    NoAdjacentDuplicates(bs, freshIds);
    PassKeepsDistinctNeighbours(r, moreIds);
  }

  /** Three blocks sharing id `x` come out as `x`, the fresh id of step 1, `x`; this
      holds too when `x` is `None`, three blocks without an id. */
  lemma {:induction false} ThreeSharedIds(x: Option<string>, kind: string, freshIds: seq<string>)
    requires |freshIds| >= 3 && Some(freshIds[1]) != x
    ensures var b := Block(x, kind, []);
      var r := Pass([b, b, b], freshIds);
      r[0].id == x && r[1].id == Some(freshIds[1]) && r[2].id == x
  {
    var b := Block(x, kind, []);
    PassAt([b, b, b], freshIds, 1);
    PassAt([b, b, b], freshIds, 2);
  }

  /** The indices the flatness check warns about, in the order it warns. */
  function Warnings(bs: seq<Block>): seq<nat>
    decreases |bs|
  {
    if |bs| == 0 then []
    else
      var n := |bs| - 1;
      Warnings(bs[..n]) + (if IsFlat(bs[n]) then [] else [n])
  }

  /** The check warns exactly about the blocks that are not flat, each once, in
      increasing order. */
  lemma {:induction false} WarningsAreNonFlat(bs: seq<Block>)
    ensures forall i :: i in Warnings(bs) <==> 0 <= i < |bs| && !IsFlat(bs[i])
    ensures forall j, k :: 0 <= j < k < |Warnings(bs)| ==> Warnings(bs)[j] < Warnings(bs)[k]
    decreases |bs|
  {
    if |bs| > 0 {
      var n := |bs| - 1;
      var prefix := Warnings(bs[..n]);
      WarningsAreNonFlat(bs[..n]);
      assert forall i :: 0 <= i < n ==> bs[..n][i] == bs[i];
      assert forall j :: 0 <= j < |prefix| ==> prefix[j] in prefix && prefix[j] < n;
    }
  }

  /** The `onChange` loop over the editor's working copy of the batch: it rewrites ids in
      place as `Pass` describes and reports the blocks that are not flat, which it leaves
      as they are. */
  method Disambiguate(a: array<Block>, freshIds: seq<string>) returns (warned: seq<nat>)
    requires |freshIds| >= a.Length
    modifies a
    ensures a[..] == Pass(old(a[..]), freshIds)
    ensures warned == Warnings(old(a[..]))
  {
    ghost var orig := a[..];
    warned := [];
    var i := 0;
    while i < a.Length
      invariant 0 <= i <= a.Length
      invariant a[..i] == Pass(orig[..i], freshIds)
      invariant a[i..] == orig[i..]
      invariant warned == Warnings(orig[..i])
    {
      assert a[i] == orig[i];
      assert orig[..i + 1][..i] == orig[..i];
      assert Warnings(orig[..i + 1]) == Warnings(orig[..i]) + (if IsFlat(orig[i]) then [] else [i]);
      if !IsFlat(a[i]) {
        warned := warned + [i];
      }
      if i > 0 && a[i - 1].id == a[i].id {
        a[i] := a[i].(id := Some(freshIds[i]));
      }
      assert a[..i + 1] == a[..i] + [a[i]];
      i := i + 1;
    }
    assert a[..] == a[..a.Length] && orig[..a.Length] == orig;
  }
}
