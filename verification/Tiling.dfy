/** Encoded items lying back to back in a block of bytes. */
module Tiling {
  import opened Words

  /** Item x takes the bytes of m from p up to q. */
  ghost predicate Tile<T>(m: seq<byte>, p: nat, x: T, q: nat, enc: (seq<byte>, T) -> bool) {
    p <= q <= |m| && enc(m[p..q], x)
  }

  /** Item i takes the bytes from offs[i] up to offs[i + 1]. */
  ghost predicate Tiles<T>(m: seq<byte>, xs: seq<T>, offs: seq<nat>, enc: (seq<byte>, T) -> bool) {
    && |offs| == |xs| + 1
    && offs[|xs|] <= |m|
    && forall i :: 0 <= i < |xs| ==> Tile(m, offs[i], xs[i], offs[i + 1], enc)
  }

  lemma {:induction false} Ascend<T>(m: seq<byte>, xs: seq<T>, offs: seq<nat>, enc: (seq<byte>, T) -> bool,
                                     i: nat, j: nat)
    requires Tiles(m, xs, offs, enc) && i <= j <= |xs|
    ensures offs[i] <= offs[j] <= |m|
    decreases j
  {
    if i < j {
      Ascend(m, xs, offs, enc, i, j - 1);
      assert Tile(m, offs[j - 1], xs[j - 1], offs[j - 1 + 1], enc);
    } else if j < |xs| {
      assert Tile(m, offs[j], xs[j], offs[j + 1], enc);
    }
  }

  lemma Sub<T>(m: seq<byte>, xs: seq<T>, offs: seq<nat>, enc: (seq<byte>, T) -> bool, i: nat, j: nat)
    requires Tiles(m, xs, offs, enc) && i <= j <= |xs|
    ensures Tiles(m, xs[i..j], offs[i..j + 1], enc)
  {
    Ascend(m, xs, offs, enc, i, j);
    var ys, yo := xs[i..j], offs[i..j + 1];
    forall k | 0 <= k < |ys| ensures Tile(m, yo[k], ys[k], yo[k + 1], enc) {
      assert Tile(m, offs[i + k], xs[i + k], offs[i + k + 1], enc);
    }
  }

  lemma Join<T>(m: seq<byte>, xs: seq<T>, xo: seq<nat>, ys: seq<T>, yo: seq<nat>, enc: (seq<byte>, T) -> bool)
    requires Tiles(m, xs, xo, enc) && Tiles(m, ys, yo, enc) && xo[|xs|] == yo[0]
    ensures Tiles(m, xs + ys, xo[..|xs|] + yo, enc)
  {
    var zs, zo := xs + ys, xo[..|xs|] + yo;
    forall k | 0 <= k < |zs| ensures Tile(m, zo[k], zs[k], zo[k + 1], enc) {
      if k < |xs| {
        assert Tile(m, xo[k], xs[k], xo[k + 1], enc);
      } else {
        var h := k - |xs|;
        assert Tile(m, yo[h], ys[h], yo[h + 1], enc);
      }
    }
  }

  /** Copying all the bytes of the items moves the items. */
  lemma Copied<T>(m: seq<byte>, xs: seq<T>, offs: seq<nat>, enc: (seq<byte>, T) -> bool, g: seq<byte>, at: nat)
    returns (offs': seq<nat>)
    requires Tiles(m, xs, offs, enc)
    requires offs[0] <= offs[|xs|] && Same(m, offs[0], g, at, offs[|xs|] - offs[0])
    ensures Tiles(g, xs, offs', enc)
    ensures offs'[0] == at && offs'[|xs|] == at + offs[|xs|] - offs[0]
    ensures at == offs[0] ==> offs' == offs
  {
    var n, lo := |xs|, offs[0];
    forall i | 0 <= i <= n ensures lo <= offs[i] <= offs[n] {
      Ascend(m, xs, offs, enc, 0, i);
      Ascend(m, xs, offs, enc, i, n);
    }
    offs' := seq(n + 1, i requires 0 <= i <= n => at + offs[i] - lo);
    forall i | 0 <= i < n ensures Tile(g, offs'[i], xs[i], offs'[i + 1], enc) {
      assert Tile(m, offs[i], xs[i], offs[i + 1], enc);
      assert Same(m, offs[i], g, offs'[i], offs[i + 1] - offs[i]);
      SameSlice(m, offs[i], g, offs'[i], offs[i + 1] - offs[i]);
    }
  }

  lemma Placed<T>(r: seq<byte>, x: T, g: seq<byte>, at: nat, enc: (seq<byte>, T) -> bool)
    requires enc(r, x) && Same(r, 0, g, at, |r|)
    ensures Tiles(g, [x], [at, at + |r|], enc)
  {
    SameSlice(r, 0, g, at, |r|);
    assert r[0..|r|] == r;
  }

  /** Overwriting item i with one of the same size. */
  lemma Replaced<T>(m: seq<byte>, g: seq<byte>, xs: seq<T>, offs: seq<nat>, i: nat, x: T, r: seq<byte>,
                    enc: (seq<byte>, T) -> bool)
    requires Tiles(m, xs, offs, enc) && i < |xs| && enc(r, x)
    requires offs[0] <= offs[i] && offs[i + 1] == offs[i] + |r| <= offs[|xs|]
    requires Same(m, offs[0], g, offs[0], offs[i] - offs[0]) && Same(r, 0, g, offs[i], |r|)
    requires Same(m, offs[i + 1], g, offs[i + 1], offs[|xs|] - offs[i + 1])
    ensures Tiles(g, xs[i := x], offs, enc)
  {
    hide Same;
    hide Tile;
    var n := |xs|;
    Sub(m, xs, offs, enc, 0, i);
    Sub(m, xs, offs, enc, i + 1, n);
    var pre := Copied(m, xs[0..i], offs[0..i + 1], enc, g, offs[0]);
    var post := Copied(m, xs[i + 1..n], offs[i + 1..n + 1], enc, g, offs[i + 1]);
    Placed(r, x, g, offs[i], enc);
    Join(g, xs[0..i], pre, [x], [offs[i], offs[i + 1]], enc);
    Join(g, xs[0..i] + [x], pre[..i] + [offs[i], offs[i + 1]], xs[i + 1..n], post, enc);
    assert xs[0..i] + [x] + xs[i + 1..n] == xs[i := x];
    assert (pre[..i] + [offs[i], offs[i + 1]])[..i + 1] + post == offs;
  }

  /** Sliding the items after i over item i, and putting x behind them. */
  lemma Moved<T>(m: seq<byte>, g: seq<byte>, xs: seq<T>, offs: seq<nat>, i: nat, x: T, r: seq<byte>,
                 enc: (seq<byte>, T) -> bool)
    returns (offs': seq<nat>)
    requires Tiles(m, xs, offs, enc) && i < |xs| && enc(r, x)
    requires offs[0] <= offs[i] <= offs[i + 1] <= offs[|xs|]
    requires Same(m, offs[0], g, offs[0], offs[i] - offs[0])
    requires Same(m, offs[i + 1], g, offs[i], offs[|xs|] - offs[i + 1])
    requires Same(r, 0, g, offs[i] + offs[|xs|] - offs[i + 1], |r|)
    ensures Tiles(g, xs[..i] + xs[i + 1..] + [x], offs', enc)
    ensures offs'[0] == offs[0]
  {
    var n, w := |xs|, offs[i] + offs[|xs|] - offs[i + 1];
    Sub(m, xs, offs, enc, 0, i);
    Sub(m, xs, offs, enc, i + 1, n);
    var pre := Copied(m, xs[0..i], offs[0..i + 1], enc, g, offs[0]);
    var post := Copied(m, xs[i + 1..n], offs[i + 1..n + 1], enc, g, offs[i]);
    Placed(r, x, g, w, enc);
    Join(g, xs[0..i], pre, xs[i + 1..n], post, enc);
    Join(g, xs[0..i] + xs[i + 1..n], pre[..i] + post, [x], [w, w + |r|], enc);
    offs' := (pre[..i] + post)[..n - 1] + [w, w + |r|];
    assert xs[0..i] + xs[i + 1..n] == xs[..i] + xs[i + 1..];
  }

  lemma Appended<T>(m: seq<byte>, g: seq<byte>, xs: seq<T>, offs: seq<nat>, x: T, r: seq<byte>,
                    enc: (seq<byte>, T) -> bool)
    returns (offs': seq<nat>)
    requires Tiles(m, xs, offs, enc) && enc(r, x) && offs[0] <= offs[|xs|]
    requires Same(m, offs[0], g, offs[0], offs[|xs|] - offs[0]) && Same(r, 0, g, offs[|xs|], |r|)
    ensures Tiles(g, xs + [x], offs', enc)
    ensures offs'[0] == offs[0]
  {
    var n, w := |xs|, offs[|xs|];
    var pre := Copied(m, xs, offs, enc, g, offs[0]);
    Placed(r, x, g, w, enc);
    Join(g, xs, pre, [x], [w, w + |r|], enc);
    offs' := pre[..n] + [w, w + |r|];
  }
}
