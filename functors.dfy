/** The example pixel functors of the functor-filter test. Pixel values are
    doubles in the test; they are modelled as reals, so rounding, NaN and
    infinities are not part of this model. */
module Functors {
  import opened Numeric

  // ---------------------------------------------------------------------------
  // VariadicAdd: N scalar pixels -> their sum
  // ---------------------------------------------------------------------------

  /** Left-to-right sum of a run of pixel values: what VariadicAdd is meant to
      return, and what the accumulator of Mean holds. */
  function Sum(s: seq<real>): (r: real)
    ensures |s| == 1 ==> r == s[0]
  {
    if s == [] then 0.0 else Sum(s[..|s| - 1]) + s[|s| - 1]
  }

  /** The sum splits over any concatenation of the inputs. */
  lemma {:induction false} SumAppend(a: seq<real>, b: seq<real>)
    ensures Sum(a + b) == Sum(a) + Sum(b)
  {
    if b != [] {
      assert (a + b)[..|a + b| - 1] == a + b[..|b| - 1];
      SumAppend(a, b[..|b| - 1]);
    } else {
      assert a + b == a;
    }
  }

  /** A run of non-negative pixels sums to a value no smaller than any of
      them, so the sum is itself non-negative. */
  lemma {:induction false} SumDominates(s: seq<real>)
    requires forall i :: 0 <= i < |s| ==> 0.0 <= s[i]
    ensures 0.0 <= Sum(s)
    ensures forall i :: 0 <= i < |s| ==> s[i] <= Sum(s)
  {
    if s != [] {
      var front := s[..|s| - 1];
      SumDominates(front);
      forall i | 0 <= i < |s|
        ensures s[i] <= Sum(s)
      {
        if i < |front| {
          assert s[i] == front[i];
        }
      }
    }
  }

  predicate IsIntegral(x: real)
  {
    x == x.Floor as real
  }

  /** VariadicAdd as written: `std::accumulate` is seeded with the int 0, so
      the accumulator is an int and every partial sum is truncated toward
      zero before the next pixel is added. The sum is exact when every pixel
      holds a whole number. */
  function VariadicAddAsWritten(ins: seq<real>): (r: int)
    ensures (forall i :: 0 <= i < |ins| ==> IsIntegral(ins[i])) ==> r as real == Sum(ins)
  {
    if ins == [] then 0
    else
      var acc := VariadicAddAsWritten(ins[..|ins| - 1]);
      var next := acc as real + ins[|ins| - 1];
      TruncWhole(acc, ins[|ins| - 1]);
      Trunc(next)
  }

  /** Truncating acc + x gives acc + x back when x is a whole number. */
  lemma TruncWhole(acc: int, x: real)
    ensures IsIntegral(x) ==> Trunc(acc as real + x) as real == acc as real + x
  {
    if IsIntegral(x) {
      var k := acc + x.Floor;
      assert acc as real + x == k as real;
      TruncOfInt(k);
    }
  }

  /** Two half-valued pixels: the written functor returns 0 where the sum is 1. */
  lemma VariadicAddAsWrittenDropsFractions()
    ensures VariadicAddAsWritten([0.5, 0.5]) == 0
    ensures Sum([0.5, 0.5]) == 1.0
  {
    assert [0.5, 0.5][..1] == [0.5];
    assert [0.5][..0] == [];
  }

  // ---------------------------------------------------------------------------
  // toVector, concatenateVectors, VariadicConcatenate
  // ---------------------------------------------------------------------------

  /** An input pixel of VariadicConcatenate: a scalar image pixel or a
      VariableLengthVector pixel of a vector image. */
  datatype Pixel = Scalar(value: real) | Vector(bands: seq<real>)

  /** toVector: a scalar becomes a one-band vector holding it; a vector is
      returned as it is. */
  function ToVector(p: Pixel): (v: seq<real>)
    ensures |v| == if p.Scalar? then 1 else |p.bands|
    ensures p.Scalar? ==> v[0] == p.value
    ensures p.Vector? ==> v == p.bands
  {
    match p
    case Scalar(x) => [x]
    case Vector(bs) => bs
  }

  function ToVectors(ins: seq<Pixel>): (vs: seq<seq<real>>)
    ensures |vs| == |ins|
  {
    seq(|ins|, i requires 0 <= i < |ins| => ToVector(ins[i]))
  }

  /** The band counts the filter hands to OutputSize, one per input. */
  function NbBands(vs: seq<seq<real>>): (n: seq<nat>)
    ensures |n| == |vs|
  {
    seq(|vs|, i requires 0 <= i < |vs| => |vs[i]|)
  }

  /** VariadicConcatenate::OutputSize: the sum of the inputs' band counts. */
  function OutputSize(nbBands: seq<nat>): (size: nat)
    ensures forall i :: 0 <= i < |nbBands| ==> nbBands[i] <= size
    ensures size == 0 <==> forall i :: 0 <= i < |nbBands| ==> nbBands[i] == 0
  {
    if nbBands == [] then 0
    else
      var size := nbBands[0] + OutputSize(nbBands[1..]);
      assert forall i :: 1 <= i < |nbBands| ==> nbBands[i] == nbBands[1..][i - 1];
      size
  }

  /** The vectors one after the other, in the order of the inputs. */
  function Flatten(vs: seq<seq<real>>): seq<real>
  {
    if vs == [] then [] else vs[0] + Flatten(vs[1..])
  }

  /** The concatenation is exactly as long as OutputSize announces. */
  lemma {:induction false} FlattenLength(vs: seq<seq<real>>)
    ensures |Flatten(vs)| == OutputSize(NbBands(vs))
  {
    if vs != [] {
      assert NbBands(vs)[1..] == NbBands(vs[1..]);
      FlattenLength(vs[1..]);
    }
  }

  /** concatenateVectors(a, b), the intended in-place merge: the vector
      grows by |b| and receives b after its old values. See
      ConcatenateAsWritten for the code as written. */
  method ConcatenateVectors(a: array<real>, b: seq<real>) returns (r: array<real>)
    ensures r.Length == a.Length + |b|
    ensures r[..a.Length] == a[..]
    ensures forall i :: 0 <= i < |b| ==> r[a.Length + i] == b[i]
    ensures r[..] == a[..] + b
  {
    var previousSize := a.Length;
    r := new real[previousSize + |b|];
    forall i | 0 <= i < previousSize {
      r[i] := a[i];
    }
    var it := 0;
    while it < |b|
      invariant 0 <= it <= |b|
      invariant r[..previousSize] == a[..]
      invariant forall j :: 0 <= j < it ==> r[previousSize + j] == b[j]
    {
      r[previousSize + it] := b[it];
      it := it + 1;
    }
    assert r[..] == r[..previousSize] + r[previousSize..];
  }

  /** The variadic overload: concatenate the first vector, then the rest,
      so the result is a followed by every vector in turn. */
  method ConcatenateAll(a: array<real>, bs: seq<seq<real>>) returns (r: array<real>)
    requires |bs| >= 1
    ensures r[..] == a[..] + Flatten(bs)
    decreases |bs|
  {
    r := ConcatenateVectors(a, bs[0]);
    if |bs| > 1 {
      r := ConcatenateAll(r, bs[1..]);
      assert r[..] == (a[..] + bs[0]) + Flatten(bs[1..]);
    } else {
      assert Flatten(bs[1..]) == [];
    }
  }

  /** VariadicConcatenate: all inputs as vectors, end to end; the output is
      OutputSize bands long. */
  method VariadicConcatenate(ins: seq<Pixel>) returns (out: array<real>)
    requires |ins| >= 1
    ensures out[..] == Flatten(ToVectors(ins))
    ensures out.Length == OutputSize(NbBands(ToVectors(ins)))
  {
    out := new real[0];
    assert out[..] == [];
    out := ConcatenateAll(out, ToVectors(ins));
    FlattenLength(ToVectors(ins));
  }

  /** VariableLengthVector::SetSize(sz, destroyExistingData = true) read
      as the legacy reallocation that does not copy: once the length
      changes, every old value is lost (`lost` stands for whatever the new
      buffer holds). ITK releases that keep the old values on this overload
      behave like ConcatenateVectors instead. */
  function SetSizeDestructive(a: seq<real>, n: nat, lost: real): (r: seq<real>)
    ensures |r| == n
    ensures n == |a| ==> r == a
    ensures n != |a| ==> forall i :: 0 <= i < n ==> r[i] == lost
  {
    if n == |a| then a else seq(n, _ => lost)
  }

  /** concatenateVectors as written: `a.SetSize(previousSizeOfA + b.GetSize())`
      is called without asking to keep the old values. */
  function ConcatenateAsWritten(a: seq<real>, b: seq<real>, lost: real): (r: seq<real>)
    ensures |r| == |a| + |b|
    ensures r[|a|..] == b
  {
    var grown := SetSizeDestructive(a, |a| + |b|, lost);
    grown[..|a|] + b
  }

  /** Appending a non-empty vector wipes out the old prefix; in the test
      (a scalar image, then a two-band image) the scalar's band is lost. */
  lemma ConcatenateAsWrittenLosesPrefix(a: seq<real>, b: seq<real>, lost: real, x: real, v: seq<real>)
    requires |a| >= 1 && |b| >= 1 && a[0] != lost
    requires |v| == 2 && x != lost
    ensures ConcatenateAsWritten(a, b, lost) != a + b
    ensures ConcatenateAsWritten(ConcatenateAsWritten([], [x], lost), v, lost) == [lost] + v
    ensures Flatten([[x], v]) == [x] + v
  {
    assert ConcatenateAsWritten(a, b, lost)[0] == lost;
    assert (a + b)[0] == a[0];
    assert ConcatenateAsWritten([], [x], lost) == [x];
    assert [[x], v][1..] == [v];
    assert [v][1..] == [];
    assert Flatten([v]) == v;
  }

  // ---------------------------------------------------------------------------
  // BandExtraction: one vector pixel -> the bands at a set of indices
  // ---------------------------------------------------------------------------

  /** The functor's state: `std::set<unsigned int> m_Indices`. */
  datatype BandExtraction = BandExtraction(indices: set<nat>)
  {
    /** OutputSize(...): the number of indices, whatever the input; that
        is the number of bands operator() writes, one per index visited. */
    function OutputSize(): (size: nat)
      ensures size == |Ascending(indices)|
    {
      |indices|
    }
  }

  /** The constructor as written, `BandExtraction(unsigned int indices...)`:
      the C ellipsis swallows every argument after the first, so only the
      first index reaches `m_Indices`. */
  function BandExtractionFromVarargs(args: seq<nat>): (f: BandExtraction)
    requires |args| >= 1
    ensures f.indices == {args[0]}
    ensures f.OutputSize() == 1
  {
    BandExtraction({args[0]})
  }

  /** The constructor the TODO asks for: every listed index is kept. */
  function BandExtractionFromList(args: seq<nat>): (f: BandExtraction)
    ensures forall v :: v in f.indices <==> v in args
  {
    BandExtraction(set v | v in args)
  }

  /** `ExtractFunctorType extractFunctor{1,2}` in the test extracts band 1 only. */
  lemma TestExtractorKeepsFirstIndexOnly()
    ensures BandExtractionFromVarargs([1, 2]).indices == {1}
    ensures BandExtractionFromVarargs([1, 2]).OutputSize() == 1
    ensures BandExtractionFromList([1, 2]).indices == {1, 2}
  {
    var f := BandExtractionFromList([1, 2]);
    assert 1 in [1, 2] && 2 in [1, 2];
    assert forall v :: v in f.indices ==> v == 1 || v == 2;
  }

  /** Every non-empty set of indices has a smallest element. */
  lemma {:induction false} MinExists(s: set<nat>)
    requires s != {}
    ensures exists m :: m in s && forall w :: w in s ==> m <= w
    decreases s
  {
    var x :| x in s;
    var others := s - {x};
    if others != {} {
      MinExists(others);
      var m :| m in others && forall w :: w in others ==> m <= w;
      var least := if x < m then x else m;
      forall w | w in s
        ensures least <= w
      {
        if w != x {
          assert w in others;
        }
      }
      assert least in s;
    } else {
      assert s == {x};
    }
  }

  /** The smallest element of a non-empty set of indices. */
  ghost function Least(s: set<nat>): (m: nat)
    requires s != {}
    ensures m in s && forall w :: w in s ==> m <= w
  {
    MinExists(s);
    var m :| m in s && forall w :: w in s ==> m <= w;
    m
  }

  /** The order in which a range-for visits a `std::set`: increasing. */
  ghost function Ascending(s: set<nat>): (r: seq<nat>)
    ensures |r| == |s|
    ensures forall i :: 0 <= i < |r| ==> r[i] in s
    ensures forall i, j :: 0 <= i < j < |r| ==> r[i] < r[j]
    decreases |s|
  {
    if s == {} then []
    else
      var m := Least(s);
      var others := s - {m};
      assert |others| == |s| - 1;
      var rest := Ascending(others);
      var r := [m] + rest;
      assert forall i :: 1 <= i < |r| ==> r[i] == rest[i - 1];
      assert forall j :: 1 <= j < |r| ==> r[j] in others;
      r
  }

  /** Visiting the smallest index first leaves the rest in increasing order. */
  lemma {:induction false} AscendingHead(s: set<nat>, v: nat)
    requires v in s && forall w :: w in s ==> v <= w
    ensures Ascending(s) == [v] + Ascending(s - {v})
  {
    var r := Ascending(s);
    assert r[0] <= v;
  }

  /** The functor's operator(): output band k is the input band at the k-th
      smallest index. An index beyond the input's bands is out of range. */
  method ExtractBands(f: BandExtraction, pixel: seq<real>) returns (out: seq<real>)
    requires forall v :: v in f.indices ==> v < |pixel|
    ensures |out| == f.OutputSize()
    ensures forall k :: 0 <= k < |out| ==> out[k] == pixel[Ascending(f.indices)[k]]
  {
    var buffer := new real[|f.indices|];
    ghost var order := Ascending(f.indices);
    var rest := f.indices;
    var idx := 0;
    while rest != {}
      invariant rest <= f.indices
      invariant idx + |rest| == |f.indices|
      invariant order[idx..] == Ascending(rest)
      invariant forall k :: 0 <= k < idx ==> buffer[k] == pixel[order[k]]
      decreases |rest|
    {
      MinExists(rest);
      var v :| v in rest && forall w :: w in rest ==> v <= w;
      AscendingHead(rest, v);
      assert |rest - {v}| == |rest| - 1;
      assert order[idx] == order[idx..][0] == v;
      assert order[idx + 1..] == order[idx..][1..] == Ascending(rest - {v});
      assert v in f.indices;
      buffer[idx] := pixel[v];
      idx := idx + 1;
      rest := rest - {v};
    }
    out := buffer[..];
  }

  // ---------------------------------------------------------------------------
  // Neighbourhood functors: Mean, MaxInEachChannel and the Lambda2 lambda
  // ---------------------------------------------------------------------------

  /** An itk::Neighborhood: its pixels in iteration order (Begin to End).
      With a radius r_i on each axis it holds the product of the (2 r_i + 1),
      an odd number, and the centre pixel sits in the middle. */
  datatype Neighborhood<T> = Neighborhood(values: seq<T>)
  {
    predicate Valid()
    {
      |values| % 2 == 1
    }

    /** GetCenterValue: the pixel with as many pixels before it as after. */
    function Center(): (c: T)
      requires Valid()
      ensures values == values[..|values| / 2] + [c] + values[|values| / 2 + 1..]
      ensures |values[..|values| / 2]| == |values[|values| / 2 + 1..]|
    {
      var c := values[|values| / 2];
      assert values == values[..|values| / 2] + [c] + values[|values| / 2 + 1..];
      c
    }
  }

  /** Mean: the accumulated sum divided by the neighbourhood size, so that
      the mean times the size gives the sum back. */
  method Mean(n: Neighborhood<real>) returns (out: real)
    requires n.Valid()
    ensures out * |n.values| as real == Sum(n.values)
  {
    out := 0.0;
    var it := 0;
    while it < |n.values|
      invariant 0 <= it <= |n.values|
      invariant out == Sum(n.values[..it])
    {
      assert n.values[..it + 1][..it] == n.values[..it];
      out := out + n.values[it];
      it := it + 1;
    }
    assert n.values[..|n.values|] == n.values;
    out := out / |n.values| as real;
  }

  /** MaxInEachChannel::OutputSize: the band count of its single input. */
  function MaxInEachChannelOutputSize(nbBands: seq<nat>): nat
    requires |nbBands| == 1
  {
    nbBands[0]
  }

  /** MaxInEachChannel: start from the centre pixel and raise each band to
      every larger value met in the neighbourhood. Every pixel must carry at
      least the centre's bands, or the comparison reads out of range. */
  method MaxInEachChannel(n: Neighborhood<seq<real>>) returns (out: seq<real>)
    requires n.Valid()
    requires forall j :: 0 <= j < |n.values| ==> |n.values[j]| >= |n.Center()|
    ensures |out| == MaxInEachChannelOutputSize([|n.Center()|])
    ensures forall b :: 0 <= b < |out| ==> out[b] >= n.Center()[b]
    ensures forall j, b :: 0 <= j < |n.values| && 0 <= b < |out| ==> out[b] >= n.values[j][b]
    ensures forall b :: 0 <= b < |out| ==> exists j :: 0 <= j < |n.values| && out[b] == n.values[j][b]
  {
    var center := n.Center();
    out := center;
    var it := 0;
    while it < |n.values|
      invariant 0 <= it <= |n.values|
      invariant |out| == |center|
      invariant forall b :: 0 <= b < |out| ==> out[b] >= center[b]
      invariant forall j, b :: 0 <= j < it && 0 <= b < |out| ==> out[b] >= n.values[j][b]
      invariant forall b :: 0 <= b < |out| ==> exists j :: 0 <= j < |n.values| && out[b] == n.values[j][b]
    {
      var pixel := n.values[it];
      var band := 0;
      while band < |out|
        invariant 0 <= band <= |out| == |center|
        invariant forall b :: 0 <= b < |out| ==> out[b] >= center[b]
        invariant forall j, b :: 0 <= j < it && 0 <= b < |out| ==> out[b] >= n.values[j][b]
        invariant forall b :: 0 <= b < band ==> out[b] >= pixel[b]
        invariant forall b :: 0 <= b < |out| ==> exists j :: 0 <= j < |n.values| && out[b] == n.values[j][b]
      {
        if pixel[band] > out[band] {
          out := out[band := pixel[band]];
          assert out[band] == n.values[it][band];
        }
        band := band + 1;
      }
      it := it + 1;
    }
  }

  /** Lambda2: copy a neighbourhood into a vector of its size, element idx
      holding the idx-th pixel. */
  method NeighborhoodToVector(n: Neighborhood<real>) returns (out: seq<real>)
    ensures |out| == |n.values|
    ensures forall idx :: 0 <= idx < |out| ==> out[idx] == n.values[idx]
  {
    var buffer := new real[|n.values|];
    var idx := 0;
    while idx < |n.values|
      invariant 0 <= idx <= |n.values|
      invariant forall k :: 0 <= k < idx ==> buffer[k] == n.values[k]
    {
      buffer[idx] := n.values[idx];
      idx := idx + 1;
    }
    out := buffer[..];
  }
}