/** replaceImg3Signature (fwstitcher.c:327-347) on an arena of IMG3
    elements. Element e has `next[e]` (NIL for NULL) and `size[e]`, the
    total size its header declares. The elements of the replacement are
    read back to back from the signature bytes; their declared sizes are
    given as `sizes`, in the order readImg3Element would return them. */
module Img3Splice {

  const NIL: int := -1

  function Sum(s: seq<nat>): (r: nat)
    ensures s != [] ==> r >= s[|s| - 1]
  {
    if s == [] then 0 else Sum(s[..|s| - 1]) + s[|s| - 1]
  }

  /** Following `next` from xs[0] visits xs in order. */
  ghost predicate Path(nx: seq<int>, xs: seq<nat>)
  {
    (forall j :: 0 <= j < |xs| ==> xs[j] < |nx|) &&
    (forall j :: 0 <= j < |xs| - 1 ==> nx[xs[j]] == xs[j + 1])
  }

  ghost predicate Distinct(xs: seq<nat>)
  {
    forall j, k :: 0 <= j < k < |xs| ==> xs[j] != xs[k]
  }

  /** The elements n to n + k - 1 are linked in that order. */
  ghost predicate Run(nx: seq<int>, n: nat, k: nat)
  {
    forall e :: n <= e < n + k - 1 ==> e < |nx| && nx[e] == e + 1
  }

  /** The k elements appended to an arena that held n. */
  function Appended(n: nat, k: nat): (r: seq<nat>)
    ensures |r| == k && forall j :: 0 <= j < k ==> r[j] == n + j
  {
    seq(k, j requires 0 <= j < k => n + j)
  }

  class Img3 {
    var next: seq<int>
    var size: seq<nat>
    var data: nat
    var shsh: nat
    var dirty: bool

    ghost predicate Valid()
      reads this
    {
      |next| == |size| && data < |next| && shsh < |next|
    }

    constructor (next0: seq<int>, size0: seq<nat>, data0: nat, shsh0: nat)
      requires |next0| == |size0| && data0 < |next0| && shsh0 < |next0|
      ensures Valid() && next == next0 && size == size0 && data == data0 && shsh == shsh0 && !dirty
    {
      next, size, data, shsh, dirty := next0, size0, data0, shsh0, false;
    }

    /** The reading loop (fwstitcher.c:330-337): the first element is read
        unconditionally, then one more while the declared sizes read so far
        add up to less than the signature's length. It stops at the first
        count whose sizes reach that length, each element read is appended
        to the arena, and the elements are linked in the order read, the
        last one to nothing. */
    method ReadElements(sizes: seq<nat>, total: nat) returns (count: nat)
      requires Valid() && sizes != [] && Sum(sizes) >= total
      modifies this`next, this`size
      ensures Valid() && 1 <= count <= |sizes|
      ensures Sum(sizes[..count]) >= total
      ensures forall j :: 1 <= j < count ==> Sum(sizes[..j]) < total
      ensures |next| == old(|next|) + count
      ensures next[..old(|next|)] == old(next) && size == old(size) + sizes[..count]
      ensures Run(next, old(|next|), count) && next[|next| - 1] == NIL
    {
      var n := |next|;
      var nx, sz := next + [NIL], size + [sizes[0]];
      ghost var next0, size0 := next, size;
      var read := sizes[0];
      count := 1;
      assert sizes[..1] == [sizes[0]];
      assert sizes[..|sizes|] == sizes;
      while read < total
        invariant 1 <= count <= |sizes| && read == Sum(sizes[..count])
        invariant forall j :: 1 <= j < count ==> Sum(sizes[..j]) < total
        invariant |nx| == |sz| == n + count
        invariant nx[..n] == next0 && sz == size0 + sizes[..count]
        invariant Run(nx, n, count) && nx[n + count - 1] == NIL
        decreases |sizes| - count
      {
        assert count < |sizes|;
        SumNext(sizes, count);
        RunExtend(nx, n, count);
        nx := nx[n + count - 1 := n + count] + [NIL];
        sz := sz + [sizes[count]];
        read := read + sizes[count];
        count := count + 1;
      }
      next, size := nx, sz;
    }

    /** The walk from `data` to the element whose `next` is `shsh`
        (fwstitcher.c:339-342), given the chain that leads from one to the
        other. */
    method Predecessor(ghost chain: seq<nat>, ghost t: nat) returns (current: nat)
      requires Valid() && Path(next, chain) && Distinct(chain)
      requires |chain| > t >= 1 && chain[0] == data && chain[t] == shsh
      ensures current == chain[t - 1] && next[current] == shsh
    {
      current := data;
      ghost var w := 0;
      while next[current] != shsh
        invariant 0 <= w < t && current == chain[w]
        decreases t - w
      {
        assert next[chain[w]] == chain[w + 1];
        current := next[current];
        w := w + 1;
      }
      assert next[chain[w]] == chain[w + 1];
    }

    /** replaceImg3Signature: the element before `shsh` is pointed at the
        first element read, so the chain from `data` keeps every element up
        to that one and then runs through the new elements alone; the
        elements before it keep their links, and the image is marked
        dirty. */
    method ReplaceSignature(sizes: seq<nat>, total: nat, ghost chain: seq<nat>, ghost t: nat)
      returns (count: nat)
      requires Valid() && sizes != [] && Sum(sizes) >= total
      requires Path(next, chain) && Distinct(chain)
      requires |chain| > t >= 1 && chain[0] == data && chain[t] == shsh
      modifies this
      ensures Valid() && data == old(data) && shsh == old(shsh) && dirty
      ensures 1 <= count <= |sizes| && |next| == old(|next|) + count
      ensures Sum(sizes[..count]) >= total && forall j :: 1 <= j < count ==> Sum(sizes[..j]) < total
      ensures size == old(size) + sizes[..count]
      ensures next[chain[t - 1]] == old(|next|)
      ensures forall e :: 0 <= e < old(|next|) && e != chain[t - 1] ==> next[e] == old(next[e])
      ensures Path(next, chain[..t] + Appended(old(|next|), count)) && next[|next| - 1] == NIL
    {
      var n := |next|;
      count := ReadElements(sizes, total);
      assert Path(next, chain) by {
        forall j | 0 <= j < |chain| - 1 ensures next[chain[j]] == chain[j + 1] {
          assert next[chain[j]] == next[..n][chain[j]];
        }
      }
      var previous := Predecessor(chain, t);
      next := next[previous := n];
      dirty := true;
      SplicedPath(old(next), next, chain, t, n, count);
    }
  }

  lemma SumNext(sizes: seq<nat>, count: nat)
    requires count < |sizes|
    ensures Sum(sizes[..count + 1]) == Sum(sizes[..count]) + sizes[count]
    ensures sizes[..count + 1] == sizes[..count] + [sizes[count]]
  {
    assert sizes[..count + 1][..count] == sizes[..count];
  }

  /** Linking the last of a run to one more element extends the run. */
  lemma RunExtend(nx: seq<int>, n: nat, count: nat)
    requires Run(nx, n, count) && |nx| == n + count && count >= 1
    ensures Run(nx[n + count - 1 := n + count] + [NIL], n, count + 1)
    ensures (nx[n + count - 1 := n + count] + [NIL])[..n] == nx[..n]
  {
  }

  lemma SplicedPath(old_next: seq<int>, nx: seq<int>, chain: seq<nat>, t: nat, n: nat, count: nat)
    requires Path(old_next, chain) && Distinct(chain) && |chain| > t >= 1 && |old_next| == n
    requires |nx| == n + count && count >= 1
    requires nx[chain[t - 1]] == n
    requires forall e :: 0 <= e < n && e != chain[t - 1] ==> nx[e] == old_next[e]
    requires Run(nx, n, count)
    ensures Path(nx, chain[..t] + Appended(n, count))
  {
    var zs := chain[..t] + Appended(n, count);
    forall j | 0 <= j < |zs| - 1 ensures nx[zs[j]] == zs[j + 1] {
      if j < t - 1 {
        assert chain[j] != chain[t - 1];
      } else if j >= t {
        assert zs[j] == n + (j - t) && zs[j + 1] == n + (j - t) + 1;
      }
    }
  }
}
