/**
  Raw value bytes seen as a run of fixed-width components, and the
  component-wise rewriting that set_byte_order performs on them. The
  rewriting of one component is a parameter here, so the facts below hold
  for every format at once.
 */
module Components {
  import opened ExifUtils

  /** Bytes of component `j` when every component is `w` bytes wide. */
  function Component<T>(data: seq<T>, w: nat, j: nat): (c: seq<T>)
    requires (j + 1) * w <= |data|
    ensures |c| == w
  {
    data[j * w..(j + 1) * w]
  }

  /** A rewriting that keeps the width of whatever it is given. */
  ghost predicate KeepsWidth<T(!new)>(g: seq<T> -> seq<T>)
  {
    forall x :: |g(x)| == |x|
  }

  /**
    `data` with `g` applied to each successive `w`-byte component, front to
    back; a tail shorter than one component is kept as it is.
   */
  function MapComponents<T(!new)>(data: seq<T>, w: nat, g: seq<T> -> seq<T>): (r: seq<T>)
    requires w > 0 && KeepsWidth(g)
    ensures |r| == |data|
    decreases |data|
  {
    if |data| < w then data
    else g(data[..w]) + MapComponents(data[w..], w, g)
  }

  /** Arithmetic step for inductions over component indices. */
  lemma MulStep(j: nat, w: nat)
    requires j > 0
    ensures j * w == (j - 1) * w + w
    ensures (j + 1) * w == (j - 1) * w + 2 * w
  {
  }

  /** Dropping one leading component shifts every later component down by one. */
  lemma ComponentShift<T>(x: seq<T>, y: seq<T>, w: nat, j: nat)
    requires |x| == w && j > 0
    requires (j + 1) * w <= |x + y|
    ensures j * w <= |y|
    ensures Component(x + y, w, j) == Component(y, w, j - 1)
  {
    MulStep(j, w);
  }

  /** Component `j` of the rewritten bytes is component `j` of the original, rewritten. */
  lemma {:induction false} MapComponentsAt<T(!new)>(data: seq<T>, w: nat, g: seq<T> -> seq<T>, j: nat)
    requires w > 0 && KeepsWidth(g)
    requires (j + 1) * w <= |data|
    ensures Component(MapComponents(data, w, g), w, j) == g(Component(data, w, j))
    decreases j
  {
    var head := g(data[..w]);
    var rest := MapComponents(data[w..], w, g);
    assert MapComponents(data, w, g) == head + rest;
    if j == 0 {
      assert Component(head + rest, w, 0) == head;
    } else {
      ComponentShift(data[..w], data[w..], w, j);
      ComponentShift(head, rest, w, j);
      assert data[..w] + data[w..] == data;
      MapComponentsAt(data[w..], w, g, j - 1);
    }
  }

  /** Rewriting with `g` and then with a left inverse `h` of `g` restores the bytes. */
  lemma {:induction false} MapComponentsInverse<T(!new)>(data: seq<T>, w: nat, g: seq<T> -> seq<T>, h: seq<T> -> seq<T>)
    requires w > 0 && KeepsWidth(g) && KeepsWidth(h)
    requires forall x :: |x| == w ==> h(g(x)) == x
    ensures MapComponents(MapComponents(data, w, g), w, h) == data
    decreases |data|
  {
    if |data| >= w {
      var head := g(data[..w]);
      var rest := MapComponents(data[w..], w, g);
      var m := head + rest;
      assert MapComponents(data, w, g) == m;
      assert m[..w] == head && m[w..] == rest;
      assert MapComponents(m, w, h) == h(head) + MapComponents(rest, w, h);
      assert h(head) == data[..w];
      MapComponentsInverse(data[w..], w, g, h);
      assert data == data[..w] + data[w..];
    }
  }

  /** Rewriting with a `g` that fixes every component changes nothing. */
  lemma {:induction false} MapComponentsIdentity<T(!new)>(data: seq<T>, w: nat, g: seq<T> -> seq<T>)
    requires w > 0 && KeepsWidth(g)
    requires forall x :: |x| == w ==> g(x) == x
    ensures MapComponents(data, w, g) == data
    decreases |data|
  {
    if |data| >= w {
      MapComponentsIdentity(data[w..], w, g);
      assert data == data[..w] + data[w..];
    }
  }

  /** `p` is a whole number of `w`-byte components. */
  predicate Aligned(p: nat, w: nat)
    decreases p
  {
    p == 0 || (w > 0 && p >= w && Aligned(p - w, w))
  }

  /** `count` components of width `w` make an aligned length. */
  lemma {:induction false} AlignedMul(count: nat, w: nat)
    requires w > 0
    ensures Aligned(w * count, w)
    decreases count
  {
    if count > 0 {
      AlignedMul(count - 1, w);
      assert w * count - w == w * (count - 1);
    }
  }

  /** Below an aligned length, an aligned position has a whole component after it. */
  lemma {:induction false} AlignedGap(p: nat, q: nat, w: nat)
    requires w > 0 && Aligned(p, w) && Aligned(q, w) && p < q
    ensures p + w <= q
    decreases p
  {
    if p > 0 {
      AlignedGap(p - w, q - w, w);
    }
  }

  /**
    The inductive step of MapComponentsAppend: the claim for the bytes
    after the first component gives the claim for the whole.
   */
  lemma AppendAfterHead<T(!new)>(data: seq<T>, w: nat, g: seq<T> -> seq<T>, p: nat)
    requires w > 0 && KeepsWidth(g)
    requires w <= p && p + w <= |data|
    requires var rest := data[w..];
      MapComponents(rest[..p], w, g) == MapComponents(rest[..p - w], w, g) + g(rest[p - w..p])
    ensures MapComponents(data[..p + w], w, g) == MapComponents(data[..p], w, g) + g(data[p..p + w])
  {
    var rest := data[w..];
    var d1, d0 := data[..p + w], data[..p];
    assert d1[..w] == data[..w] && d1[w..] == rest[..p];
    assert d0[..w] == data[..w] && d0[w..] == rest[..p - w];
    assert rest[p - w..p] == data[p..p + w];
    var a, b, c := g(data[..w]), MapComponents(rest[..p - w], w, g), g(data[p..p + w]);
    assert MapComponents(d1, w, g) == a + (b + c);
    assert MapComponents(d0, w, g) == a + b;
    assert a + (b + c) == (a + b) + c;
  }

  /**
    Rewriting the components up to an aligned position `p`, plus one more,
    is rewriting those before `p` and then the component at `p`: the step
    of a loop that walks the components front to back.
   */
  lemma {:induction false} MapComponentsAppend<T(!new)>(data: seq<T>, w: nat, g: seq<T> -> seq<T>, p: nat)
    requires w > 0 && KeepsWidth(g)
    requires Aligned(p, w) && p + w <= |data|
    ensures MapComponents(data[..p + w], w, g) == MapComponents(data[..p], w, g) + g(data[p..p + w])
    decreases p
  {
    if p == 0 {
      var d := data[..w];
      assert d[..w] == d && d[w..] == [];
      assert data[..0] == [];
    } else {
      MapComponentsAppend(data[w..], w, g, p - w);
      AppendAfterHead(data, w, g, p);
    }
  }

  /** `s` with the `w` bytes at `p` replaced by their rewrite under `g`. */
  function RewriteAt<T(!new)>(s: seq<T>, p: nat, w: nat, g: seq<T> -> seq<T>): (r: seq<T>)
    requires KeepsWidth(g) && p + w <= |s|
    ensures |r| == |s|
  {
    s[..p] + g(s[p..p + w]) + s[p + w..]
  }

  /** A working copy whose bytes before `p` are rewritten and whose rest is as it was. */
  function PartlyMapped<T(!new)>(data: seq<T>, p: nat, w: nat, g: seq<T> -> seq<T>): seq<T>
    requires w > 0 && KeepsWidth(g) && p <= |data|
  {
    MapComponents(data[..p], w, g) + data[p..]
  }

  /** Rewriting the component at an aligned `p` in place extends the rewritten part by one component. */
  lemma MapComponentsStep<T(!new)>(data: seq<T>, w: nat, g: seq<T> -> seq<T>, p: nat, out: seq<T>)
    requires w > 0 && KeepsWidth(g)
    requires Aligned(p, w) && p + w <= |data|
    requires out == PartlyMapped(data, p, w, g)
    ensures RewriteAt(out, p, w, g) == PartlyMapped(data, p + w, w, g)
  {
    MapComponentsAppend(data, w, g, p);
    var m := MapComponents(data[..p], w, g);
    assert |m| == p;
    assert out[..p] == m;
    assert out[p..] == data[p..];
    assert out[p..p + w] == data[p..p + w];
    assert out[p + w..] == data[p + w..];
  }

  /**
    The component loop itself: components 0 to `count - 1` rewritten in
    place on a working copy, front to back, `w` bytes at a time.
   */
  method MapComponentsLoop<T(!new)>(data: seq<T>, w: nat, g: seq<T> -> seq<T>, count: nat) returns (out: seq<T>)
    requires w > 0 && KeepsWidth(g)
    requires |data| == w * count
    ensures out == MapComponents(data, w, g)
  {
    AlignedMul(count, w);
    out := data;
    var p := 0;
    while p < |data|
      invariant p <= |data| && Aligned(p, w)
      invariant out == PartlyMapped(data, p, w, g)
    {
      AlignedGap(p, |data|, w);
      MapComponentsStep(data, w, g, p, out);
      out := RewriteAt(out, p, w, g);
      p := p + w;
    }
    assert data[..p] == data && data[p..] == [];
  }
}
