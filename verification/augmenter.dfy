/**
 * The Augmenter: the cutoff-based truncation of each parameter range, the
 * advertised number of variants, and the lazy variant sequence — the input
 * image first, then one image per (transformer, value) pair, transformers
 * in sorted-name order and values in range order.  The transformers
 * themselves are foreign image operations and enter as total functions.
 */
module Augmenter {
  import opened Seqs
  import Text

  /** The prefix of every transformer method name; `transformers` collects the attributes starting with `_tr`. */
  const TransformerPrefix: string := "_tr_"

  /** The `_tr_*` method names in the order `sorted(dir(self))` lists them. */
  const TransformerNames: seq<string> :=
    [TransformerPrefix + "blur", TransformerPrefix + "flip", TransformerPrefix + "gamma", TransformerPrefix + "noise",
     TransformerPrefix + "rescale", TransformerPrefix + "rotate", TransformerPrefix + "skew"]

  /** The class constants making up `RANGES`, in declaration order. */
  const RangeNames: seq<string> := ["BLUR", "FLIP", "GAMMA", "NOISE", "SCALE", "ROTATE", "SKEW"]

  /** Python's `<` on strings: lexicographic by code point, a proper prefix first. */
  predicate LexLess(a: string, b: string)
    decreases |a|
  {
    |b| > 0 && (|a| == 0 || a[0] < b[0] || (a[0] == b[0] && LexLess(a[1..], b[1..])))
  }

  predicate StrictlySorted(names: seq<string>)
  {
    forall i :: 0 < i < |names| ==> LexLess(names[i - 1], names[i])
  }

  /**
   * A transformer method name serves a range constant when it ends with
   * the constant lower-cased: `_tr_blur` serves `BLUR`, `_tr_rescale` serves `SCALE`.
   */
  predicate Serves(name: string, constant: string)
  {
    var n := Text.Lower(constant);
    |n| <= |name| && name[|name| - |n|..] == n
  }

  /**
   * `sorted()` of the transformer names returns them in the order of
   * `RANGES`, so `zip` pairs every range with the transformer of its name
   * (`TransformersServeRanges`).
   */
  lemma TransformerOrder()
    ensures StrictlySorted(TransformerNames)
    ensures |TransformerNames| == |RangeNames|
  {
    PrefixLess(TransformerPrefix, "blur", "flip");
    PrefixLess(TransformerPrefix, "flip", "gamma");
    PrefixLess(TransformerPrefix, "gamma", "noise");
    PrefixLess(TransformerPrefix, "noise", "rescale");
    PrefixLess(TransformerPrefix, "rescale", "rotate");
    PrefixLess(TransformerPrefix, "rotate", "skew");
  }

  /** A name ending in the lower-cased constant serves it. */
  lemma ServesByEnding(front: string, constant: string)
    ensures Serves(front + Text.Lower(constant), constant)
  {
    var name := front + Text.Lower(constant);
    assert name[|front|..] == Text.Lower(constant);
  }

  /** The `i`-th sorted transformer serves the `i`-th range of `RANGES`. */
  lemma TransformersServeRanges()
    ensures |TransformerNames| == |RangeNames|
    ensures forall i :: 0 <= i < |RangeNames| ==> Serves(TransformerNames[i], RangeNames[i])
  {
    forall i | 0 <= i < |RangeNames|
      ensures Serves(TransformerNames[i], RangeNames[i])
    {
      var c := RangeNames[i];
      var front := if i == 4 then TransformerPrefix + "re" else TransformerPrefix;
      assert TransformerNames[i] == front + Text.Lower(c) by {
        if i == 0 { assert Text.Lower("BLUR") == "blur"; }
        else if i == 1 { assert Text.Lower("FLIP") == "flip"; }
        else if i == 2 { assert Text.Lower("GAMMA") == "gamma"; }
        else if i == 3 { assert Text.Lower("NOISE") == "noise"; }
        else if i == 4 { assert Text.Lower("SCALE") == "scale"; }
        else if i == 5 { assert Text.Lower("ROTATE") == "rotate"; }
        else { assert Text.Lower("SKEW") == "skew"; }
      }
      ServesByEnding(front, c);
    }
  }

  /** Names sharing a prefix compare as the rest does. */
  lemma {:induction false} PrefixLess(p: string, a: string, b: string)
    requires LexLess(a, b)
    ensures LexLess(p + a, p + b)
    decreases |p|
  {
    if |p| > 0 {
      PrefixLess(p[1..], a, b);
      assert (p + a)[1..] == p[1..] + a;
      assert (p + b)[1..] == p[1..] + b;
    } else {
      assert p + a == a && p + b == b;
    }
  }

  /**
   * `_cut`: the whole range when `cutoff >= 1`, otherwise its first
   * `floor(len * cutoff)` values, or its first value when that floor is 0.
   */
  function Cut<V>(rng: seq<V>, cutoff: real): (r: seq<V>)
    requires cutoff >= 0.0
    ensures r <= rng
    ensures cutoff >= 1.0 ==> r == rng
    ensures |rng| > 0 ==> |r| > 0
    ensures cutoff < 1.0 && |rng| > 0 ==>
              || (|r| as real <= |rng| as real * cutoff < (|r| + 1) as real)
              || (|r| == 1 && |rng| as real * cutoff < 1.0)
    ensures cutoff < 1.0 && |rng| > 1 ==> |r| < |rng|
  {
    if cutoff >= 1.0 then rng
    else
      var n := (|rng| as real * cutoff).Floor;
      var cut := if n == 0 then 1 else n;
      rng[..if cut < |rng| then cut else |rng|]
  }

  /** `_count`: one for the input image, plus one per value of every truncated range unless the cutoff is 0. */
  function Count<V>(cutoff: real, ranges: seq<seq<V>>): (c: nat)
    ensures c >= 1
    ensures cutoff == 0.0 ==> c == 1
    ensures cutoff != 0.0 ==> c == |Concat(ranges)| + 1
  {
    ConcatLength(ranges);
    if cutoff == 0.0 then 1 else TotalLength(ranges) + 1
  }

  /** An augmenter as `__init__` leaves it: the cutoff, the truncated ranges and the advertised count. */
  datatype Augmenter<V> = Augmenter(cutoff: real, ranges: seq<seq<V>>, count: nat)

  function New<V>(cutoff: real, declared: seq<seq<V>>): (a: Augmenter<V>)
    requires cutoff >= 0.0
    ensures a.cutoff == cutoff
    ensures |a.ranges| == |declared|
    ensures forall i :: 0 <= i < |declared| ==> a.ranges[i] == Cut(declared[i], cutoff)
    ensures a.count == Count(cutoff, a.ranges)
  {
    var ranges := seq(|declared|, i requires 0 <= i < |declared| => Cut(declared[i], cutoff));
    Augmenter(cutoff, ranges, Count(cutoff, ranges))
  }

  /** Truncation never lengthens, so the count never exceeds one plus the declared values. */
  lemma {:induction false} CutTotalLength<V>(declared: seq<seq<V>>, cutoff: real)
    requires cutoff >= 0.0
    ensures TotalLength(New(cutoff, declared).ranges) <= TotalLength(declared)
    ensures cutoff >= 1.0 ==> New(cutoff, declared).ranges == declared
    ensures (forall i :: 0 <= i < |declared| ==> |declared[i]| > 0) ==>
              TotalLength(New(cutoff, declared).ranges) >= |declared|
    decreases |declared|
  {
    var cut := New(cutoff, declared).ranges;
    if |declared| > 0 {
      CutTotalLength(declared[1..], cutoff);
      assert cut[1..] == New(cutoff, declared[1..]).ranges;
    }
  }

  /** The advertised count lies between 1 and one plus all declared values, and is exact at full cutoff. */
  lemma CountBounds<V>(declared: seq<seq<V>>, cutoff: real)
    requires cutoff >= 0.0
    ensures 1 <= New(cutoff, declared).count <= TotalLength(declared) + 1
    ensures cutoff >= 1.0 ==> New(cutoff, declared).count == TotalLength(declared) + 1
    ensures cutoff == 0.0 ==> New(cutoff, declared).count == 1
  {
    CutTotalLength(declared, cutoff);
  }

  /** The variants of every (range, transformer) pair that `zip` forms, in order. */
  function Apply<I, V>(img: I, ranges: seq<seq<V>>, transformers: seq<(I, V) -> I>): seq<I>
    decreases |ranges|
  {
    if |ranges| == 0 || |transformers| == 0 then []
    else
      seq(|ranges[0]|, k requires 0 <= k < |ranges[0]| => transformers[0](img, ranges[0][k]))
      + Apply(img, ranges[1..], transformers[1..])
  }

  /** `__call__` drained: the input image, then — unless the cutoff is 0 — every transformer's variants. */
  function Call<I, V>(a: Augmenter<V>, img: I, transformers: seq<(I, V) -> I>): (r: seq<I>)
    ensures |r| > 0 && r[0] == img
    ensures a.cutoff == 0.0 ==> r == [img]
  {
    [img] + (if a.cutoff == 0.0 then [] else Apply(img, a.ranges, transformers))
  }

  /**
   * The variant of value `k` of range `j` sits right after the variants of
   * all earlier ranges, and is transformer `j` applied to that value.
   */
  lemma {:induction false} ApplyAt<I, V>(img: I, ranges: seq<seq<V>>, transformers: seq<(I, V) -> I>, j: nat, k: nat)
    requires |transformers| == |ranges|
    requires j < |ranges| && k < |ranges[j]|
    ensures |Apply(img, ranges, transformers)| == TotalLength(ranges)
    ensures TotalLength(ranges[..j]) + k < TotalLength(ranges)
    ensures Apply(img, ranges, transformers)[TotalLength(ranges[..j]) + k] == transformers[j](img, ranges[j][k])
    decreases j
  {
    ApplyLength(img, ranges, transformers);
    TotalLengthSplit(ranges, j);
    if j > 0 {
      ApplyAt(img, ranges[1..], transformers[1..], j - 1, k);
      assert ranges[..j][1..] == ranges[1..][..j - 1];
      assert TotalLength(ranges[..j]) == |ranges[0]| + TotalLength(ranges[1..][..j - 1]);
    } else {
      assert ranges[..0] == [];
    }
  }

  lemma {:induction false} ApplyLength<I, V>(img: I, ranges: seq<seq<V>>, transformers: seq<(I, V) -> I>)
    requires |transformers| == |ranges|
    ensures |Apply(img, ranges, transformers)| == TotalLength(ranges)
    decreases |ranges|
  {
    if |ranges| > 0 {
      ApplyLength(img, ranges[1..], transformers[1..]);
    }
  }

  lemma {:induction false} TotalLengthSplit<V>(ranges: seq<seq<V>>, j: nat)
    requires j < |ranges|
    ensures TotalLength(ranges) == TotalLength(ranges[..j]) + |ranges[j]| + TotalLength(ranges[j + 1..])
    decreases j
  {
    if j == 0 {
      assert ranges[..0] == [];
      assert ranges[1..] == ranges[j + 1..];
    } else {
      TotalLengthSplit(ranges[1..], j - 1);
      assert ranges[..j][1..] == ranges[1..][..j - 1];
      assert ranges[1..][j..] == ranges[j + 1..];
    }
  }

  /** Where the variant of value `k` of range `j` sits: after the input and all earlier ranges' variants. */
  function Slot<V>(ranges: seq<seq<V>>, j: nat, k: nat): nat
    requires j <= |ranges|
  {
    1 + TotalLength(ranges[..j]) + k
  }

  /**
   * With one transformer per range the sequence holds exactly `count`
   * images: the input, then transformer `j` applied to the `k`-th value of
   * its truncated range at position `1 + (values of earlier ranges) + k`.
   */
  lemma VariantSequence<I, V>(declared: seq<seq<V>>, cutoff: real, img: I, transformers: seq<(I, V) -> I>)
    requires cutoff >= 0.0
    requires |transformers| == |declared|
    ensures var a := New(cutoff, declared);
            && |Call(a, img, transformers)| == a.count
            && Call(a, img, transformers)[0] == img
            && (cutoff != 0.0 ==>
                  forall j, k :: 0 <= j < |declared| && 0 <= k < |a.ranges[j]| ==>
                    Slot(a.ranges, j, k) < a.count
                    && Call(a, img, transformers)[Slot(a.ranges, j, k)]
                       == transformers[j](img, a.ranges[j][k]))
  {
    CallShape(New(cutoff, declared), img, transformers);
  }

  lemma CallShape<I, V>(a: Augmenter<V>, img: I, transformers: seq<(I, V) -> I>)
    requires a.count == Count(a.cutoff, a.ranges)
    requires |transformers| == |a.ranges|
    ensures |Call(a, img, transformers)| == a.count
    ensures a.cutoff != 0.0 ==>
              forall j, k :: 0 <= j < |a.ranges| && 0 <= k < |a.ranges[j]| ==>
                Slot(a.ranges, j, k) < a.count
                && Call(a, img, transformers)[Slot(a.ranges, j, k)]
                   == transformers[j](img, a.ranges[j][k])
  {
    if a.cutoff != 0.0 {
      var applied := Apply(img, a.ranges, transformers);
      assert Call(a, img, transformers) == [img] + applied;
      ApplyLength(img, a.ranges, transformers);
      forall j, k | 0 <= j < |a.ranges| && 0 <= k < |a.ranges[j]|
        ensures Slot(a.ranges, j, k) < a.count
                && Call(a, img, transformers)[Slot(a.ranges, j, k)]
                   == transformers[j](img, a.ranges[j][k])
      {
        ApplyAt(img, a.ranges, transformers, j, k);
        var n := Slot(a.ranges, j, k) - 1;
        ShiftedIndex(img, applied, n);
        assert n < |applied|;
        assert Call(a, img, transformers)[1 + n] == applied[n];
      }
    }
  }

  lemma ShiftedIndex<I>(img: I, rest: seq<I>, n: nat)
    requires n < |rest|
    ensures ([img] + rest)[1 + n] == rest[n]
  {
  }

  /**
   * The docstring example: at cutoff 0.5, with the lengths the seven declared
   * ranges have (5 and 2 exactly; the float `arange`s taken as 155, 49, 255,
   * 517 and 16), the advertised count is 498.
   */
  lemma DocstringCount<V>(declared: seq<seq<V>>)
    requires |declared| == 7
    requires |declared[0]| == 5 && |declared[1]| == 2 && |declared[2]| == 155 && |declared[3]| == 49
    requires |declared[4]| == 255 && |declared[5]| == 517 && |declared[6]| == 16
    ensures New(0.5, declared).count == 498
  {
    var r := New(0.5, declared).ranges;
    assert |r[0]| == 2 && |r[1]| == 1 && |r[2]| == 77 && |r[3]| == 24;
    assert |r[4]| == 127 && |r[5]| == 258 && |r[6]| == 8;
    assert TotalLength(r[6..]) == 8;
    assert TotalLength(r[5..]) == 258 + TotalLength(r[6..]);
    assert TotalLength(r[4..]) == 127 + TotalLength(r[5..]);
    assert TotalLength(r[3..]) == 24 + TotalLength(r[4..]);
    assert TotalLength(r[2..]) == 77 + TotalLength(r[3..]);
    assert TotalLength(r[1..]) == 1 + TotalLength(r[2..]);
    assert TotalLength(r) == 2 + TotalLength(r[1..]);
  }

  /** Cutoff 0 skips augmentation: the advertised count is 1 and the sequence is the input alone. */
  lemma SkipAugmentation<I, V>(declared: seq<seq<V>>, img: I, transformers: seq<(I, V) -> I>)
    ensures New(0.0, declared).count == 1
    ensures Call(New(0.0, declared), img, transformers) == [img]
  {
  }
}
