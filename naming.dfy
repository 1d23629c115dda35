/**
 * Properties of the namer the Mixtral converter builds: which canonical name
 * each per-expert tensor is filed under. The namer rewrites with the
 * `Strings.Replace` semantics of Go's `strings.Replacer`.
 */
module MixtralNaming {
  import opened Wrappers
  import opened Strings
  import opened Mixtral
  import Decimal

  /** The three expert projection matrices of a Mixtral layer. */
  datatype Projection = W1 | W2 | W3 {

    /** The name of the matrix in the source checkpoint. */
    function Source(): string {
      match this
      case W1 => "w1"
      case W2 => "w2"
      case W3 => "w3"
    }

    /** The name of the consolidated matrix in the output. */
    function Target(): string {
      match this
      case W1 => "ffn_gate_exps"
      case W2 => "ffn_down_exps"
      case W3 => "ffn_up_exps"
    }

    /** The position of the renaming pair for this matrix in the namer's list. */
    function Index(): nat {
      match this
      case W1 => 1
      case W2 => 2
      case W3 => 3
    }
  }

  /** The checkpoint name of projection `proj` of expert `i` in layer `layer`. */
  function SourceName(layer: nat, i: nat, proj: Projection): string {
    "model.layers." + Decimal.Format(layer) + ExpertSegment(i) + proj.Source() + ".weight"
  }

  /** The consolidated name of projection `proj` in layer `layer`. */
  function TargetName(layer: nat, proj: Projection): string {
    "blk." + Decimal.Format(layer) + "." + proj.Target() + ".weight"
  }

  lemma DiffersAt(s: string, prefix: string, k: nat)
    requires k < |prefix| && k < |s| && s[k] != prefix[k]
    ensures !HasPrefix(s, prefix)
  {
    if |prefix| <= |s| {
      assert s[..|prefix|][k] != prefix[k];
    }
  }

  /** Where the marker has characters that could start one of the namer's old strings. */
  lemma MarkerLetters()
    ensures |Marker| == 26
    ensures forall q :: 1 <= q < |Marker| ==> Marker[q] != 'w'
    ensures forall q :: 1 <= q < |Marker| && Marker[q] == 'm' ==> q == 14
    ensures forall q :: 1 <= q < |Marker| && Marker[q] == '.' ==> q == 17 || q == 25
    ensures Marker[0] == '.' && Marker[1] == 'b' && Marker[16] == 'e' && Marker[18] == 'e'
  {
  }

  /** The layout of an expert segment: the marker, the index digits, a closing dot. */
  lemma SegmentLayout(i: nat)
    ensures |ExpertSegment(i)| == |Marker| + |Decimal.Format(i)| + 1
    ensures forall q :: 0 <= q < |Marker| ==> ExpertSegment(i)[q] == Marker[q]
    ensures forall q :: 0 <= q < |Decimal.Format(i)| ==>
      ExpertSegment(i)[|Marker| + q] == Decimal.Format(i)[q]
    ensures ExpertSegment(i)[|Marker| + |Decimal.Format(i)|] == '.'
  {
  }

  /** The `q`-th digit of an expert segment's index, also when more text follows. */
  lemma SegmentDigitAt(i: nat, q: nat, t: string)
    requires q < |Decimal.Format(i)|
    ensures |Marker| + q < |ExpertSegment(i)|
    ensures (ExpertSegment(i) + t)[|Marker| + q] == Decimal.Format(i)[q]
  {
  }

  /** The closing dot of an expert segment, also when more text follows. */
  lemma SegmentCloseAt(i: nat, t: string)
    ensures |Marker| + |Decimal.Format(i)| < |ExpertSegment(i)|
    ensures (ExpertSegment(i) + t)[|Marker| + |Decimal.Format(i)|] == '.'
  {
  }

  /**
   * The namer's patterns for two different expert indices never match at the
   * same place, whatever follows: the closing dot keeps "experts.1." from
   * matching the start of "experts.10.".
   */
  lemma ExpertSegmentNotPrefix(i: nat, j: nat, t: string)
    requires i != j
    ensures !HasPrefix(ExpertSegment(i) + t, ExpertSegment(j))
  {
    var di, dj := Decimal.Format(i), Decimal.Format(j);
    var s, sj := ExpertSegment(i) + t, ExpertSegment(j);
    var m := |Marker|;
    assert sj == sj + "";
    if |dj| < |di| {
      SegmentDigitAt(i, |dj|, t);
      SegmentCloseAt(j, "");
      DiffersAt(s, sj, m + |dj|);
    } else if |di| < |dj| {
      SegmentCloseAt(i, t);
      SegmentDigitAt(j, |di|, "");
      DiffersAt(s, sj, m + |di|);
    } else if di != dj {
      var k :| 0 <= k < |di| && di[k] != dj[k];
      SegmentDigitAt(i, k, t);
      SegmentDigitAt(j, k, "");
      DiffersAt(s, sj, m + k);
    } else {
      Decimal.FormatInjective(i, j);
    }
  }

  /**
   * An expert segment occurs inside another expert segment only as the whole
   * of it: one index's pattern never matches inside another index's segment.
   */
  lemma ExpertSegmentOccurrence(i: nat, j: nat, p: nat)
    requires p <= |ExpertSegment(i)|
    ensures HasPrefix(ExpertSegment(i)[p..], ExpertSegment(j)) <==> p == 0 && i == j
  {
    var si, sj := ExpertSegment(i), ExpertSegment(j);
    var di := Decimal.Format(i);
    var m := |Marker|;
    var x := si[p..];
    SegmentLayout(i);
    SegmentLayout(j);
    MarkerLetters();
    if p == 0 {
      assert x == si + "";
      if i != j {
        ExpertSegmentNotPrefix(i, j, "");
      }
    } else if p + 1 >= |si| {
      assert |x| < |sj|;
    } else if p < m {
      if si[p] == '.' {
        if p == 17 {
          assert x[1] == 'e';
        } else {
          assert x[1] == di[0];
        }
        DiffersAt(x, sj, 1);
      } else {
        DiffersAt(x, sj, 0);
      }
    } else {
      assert x[0] == di[p - m];
      DiffersAt(x, sj, 0);
    }
  }

  /** The fixed renamings' old strings are prefix-free. */
  lemma BasePrefixFree(i: nat, j: nat)
    requires i < |BasePairs| && j < |BasePairs| && i != j
    ensures !HasPrefix(BasePairs[i].pattern, BasePairs[j].pattern)
  {
    var pi, pj := BasePairs[i].pattern, BasePairs[j].pattern;
    if pi[0] != pj[0] {
      DiffersAt(pi, pj, 0);
    } else {
      DiffersAt(pi, pj, 1);
    }
  }

  /** An expert segment and a fixed renaming's old string already differ in their first letter. */
  lemma BaseVersusSegment(i: nat, k: nat)
    requires i < |BasePairs|
    ensures !HasPrefix(BasePairs[i].pattern, ExpertSegment(k))
    ensures !HasPrefix(ExpertSegment(k), BasePairs[i].pattern)
  {
    SegmentLayout(k);
    DiffersAt(BasePairs[i].pattern, ExpertSegment(k), 0);
    DiffersAt(ExpertSegment(k), BasePairs[i].pattern, 0);
  }

  /** The namer's patterns are prefix-free, so the order of its list does not matter. */
  lemma NamerPrefixFree(n: nat)
    ensures PrefixFree(NamerPairs(n))
  {
    var pairs := NamerPairs(n);
    forall i, j | 0 <= i < |pairs| && 0 <= j < |pairs| && i != j
      ensures !HasPrefix(pairs[i].pattern, pairs[j].pattern)
    {
      NamerPatternsApart(n, i, j);
    }
  }

  lemma NamerPatternsApart(n: nat, i: nat, j: nat)
    requires i < |NamerPairs(n)| && j < |NamerPairs(n)| && i != j
    ensures !HasPrefix(NamerPairs(n)[i].pattern, NamerPairs(n)[j].pattern)
  {
    var pairs := NamerPairs(n);
    var b := |BasePairs|;
    if i < b && j < b {
      NamerBaseAt(n, i);
      NamerBaseAt(n, j);
      BasePrefixFree(i, j);
    } else if i < b {
      NamerBaseAt(n, i);
      NamerExpertAt(n, j - b);
      BaseVersusSegment(i, j - b);
    } else if j < b {
      NamerBaseAt(n, j);
      NamerExpertAt(n, i - b);
      BaseVersusSegment(j, i - b);
    } else {
      NamerExpertAt(n, i - b);
      NamerExpertAt(n, j - b);
      assert pairs[i].pattern == ExpertSegment(i - b) + "";
      ExpertSegmentNotPrefix(i - b, j - b, "");
    }
  }

  /**
   * Any list holding the same pairs as the namer, in any order, names every
   * tensor the same way.
   */
  lemma NamerOrderIndependent(n: nat, q: seq<Pair>, s: string)
    requires forall x :: x in q <==> x in NamerPairs(n)
    ensures WellFormed(q)
    ensures Replace(q, s) == Replace(NamerPairs(n), s)
  {
    NamerPrefixFree(n);
    ReplaceOrderIndependent(NamerPairs(n), q, s);
  }

  /** A position at which none of the namer's old strings can start. */
  predicate Quiet(s: string) {
    |s| > 0 ==>
      && (s[0] == 'w' && |s| >= 2 ==> s[1] !in "123")
      && (s[0] == 'm' && |s| >= 3 ==> s[2] != 'd')
      && (s[0] == '.' && |s| >= 2 ==> s[1] != 'b')
  }

  lemma QuietNoMatch(n: nat, s: string)
    requires Quiet(s)
    ensures Lookup(NamerPairs(n), s) == None
  {
    var pairs := NamerPairs(n);
    forall j | 0 <= j < |pairs| ensures !HasPrefix(s, pairs[j].pattern) {
      var p := pairs[j].pattern;
      if j >= |BasePairs| {
        NamerExpertAt(n, j - |BasePairs|);
        SegmentLayout(j - |BasePairs|);
        MarkerLetters();
      } else {
        NamerBaseAt(n, j);
      }
      if |s| < |p| {
      } else if s[0] != p[0] {
        DiffersAt(s, p, 0);
      } else if j == 0 {
        DiffersAt(s, p, 2);
      } else {
        DiffersAt(s, p, 1);
      }
    }
    LookupMisses(pairs, s);
  }

  lemma {:induction false} ReplaceQuiet(n: nat, a: string, b: string)
    requires forall p :: 0 <= p < |a| ==> Quiet(a[p..] + b)
    ensures Replace(NamerPairs(n), a + b) == a + Replace(NamerPairs(n), b)
  {
    forall p | 0 <= p < |a| ensures Lookup(NamerPairs(n), a[p..] + b) == None {
      QuietNoMatch(n, a[p..] + b);
    }
    ReplaceUnmatched(NamerPairs(n), a, b);
  }

  /** Digits are copied unchanged. */
  lemma ReplaceDigits(n: nat, d: string, b: string)
    requires forall k :: 0 <= k < |d| ==> Decimal.IsDigit(d[k])
    ensures Replace(NamerPairs(n), d + b) == d + Replace(NamerPairs(n), b)
  {
    forall p | 0 <= p < |d| ensures Quiet(d[p..] + b) {
      assert (d[p..] + b)[0] == d[p];
    }
    ReplaceQuiet(n, d, b);
  }

  /** At the segment of an expert index below the expert count, that index's pair matches. */
  lemma LookupSegment(n: nat, i: nat, b: string)
    requires i < n
    ensures NamerPairs(n)[|BasePairs| + i] == Pair(ExpertSegment(i), ".")
    ensures Lookup(NamerPairs(n), ExpertSegment(i) + b) == Some(|BasePairs| + i)
  {
    var pairs, base := NamerPairs(n), |BasePairs|;
    var s := ExpertSegment(i) + b;
    NamerExpertAt(n, i);
    assert HasPrefix(s, ExpertSegment(i));
    forall j | 0 <= j < base + i ensures !HasPrefix(s, pairs[j].pattern) {
      EarlierPairMisses(n, i, b, j);
    }
    LookupFinds(pairs, s, base + i);
  }

  lemma EarlierPairMisses(n: nat, i: nat, b: string, j: nat)
    requires i < n && j < |BasePairs| + i
    ensures !HasPrefix(ExpertSegment(i) + b, NamerPairs(n)[j].pattern)
  {
    if j < |BasePairs| {
      NamerBaseAt(n, j);
      SegmentLayout(i);
      DiffersAt(ExpertSegment(i) + b, NamerPairs(n)[j].pattern, 0);
    } else {
      NamerExpertAt(n, j - |BasePairs|);
      ExpertSegmentNotPrefix(i, j - |BasePairs|, b);
    }
  }

  /** The segment of an expert index below the expert count collapses to ".". */
  lemma ReplaceExpertSegment(n: nat, i: nat, b: string)
    requires i < n
    ensures Replace(NamerPairs(n), ExpertSegment(i) + b) == "." + Replace(NamerPairs(n), b)
  {
    LookupSegment(n, i, b);
    ReplaceMatched(NamerPairs(n), |BasePairs| + i, ExpertSegment(i), ".", b);
  }

  /** At the segment of an expert index at or above the expert count, nothing matches. */
  lemma LookupKeptSegment(n: nat, k: nat, b: string)
    requires n <= k
    ensures Lookup(NamerPairs(n), ExpertSegment(k) + b) == None
  {
    var pairs, base := NamerPairs(n), |BasePairs|;
    forall j | 0 <= j < |pairs| ensures !HasPrefix(ExpertSegment(k) + b, pairs[j].pattern) {
      if j < base {
        NamerBaseAt(n, j);
        SegmentLayout(k);
        DiffersAt(ExpertSegment(k) + b, pairs[j].pattern, 0);
      } else {
        NamerExpertAt(n, j - base);
        ExpertSegmentNotPrefix(k, j - base, b);
      }
    }
    LookupMisses(pairs, ExpertSegment(k) + b);
  }

  /** Inside an expert segment, and at its closing dot, no pattern can start. */
  lemma SegmentInteriorQuiet(k: nat, b: string, p: nat)
    requires 1 <= p < |ExpertSegment(k)|
    requires |b| == 0 || b[0] != 'b'
    ensures Quiet(ExpertSegment(k)[p..] + b)
  {
    var seg, dk, m := ExpertSegment(k), Decimal.Format(k), |Marker|;
    var x := seg[p..] + b;
    SegmentLayout(k);
    MarkerLetters();
    if p < m {
      if p == 14 {
        assert x[2] == 'e';
      } else if p == 17 {
        assert x[1] == 'e';
      } else if p == 25 {
        assert x[1] == dk[0];
      }
    } else if p < m + |dk| {
      assert x[0] == dk[p - m];
    } else if |b| > 0 {
      assert x[1] == b[0];
    }
  }

  /**
   * The segment of an expert index at or above the expert count is kept as it
   * is, provided the text after it does not begin a new segment.
   */
  lemma ReplaceKeepsSegment(n: nat, k: nat, b: string)
    requires n <= k
    requires |b| == 0 || b[0] != 'b'
    ensures Replace(NamerPairs(n), ExpertSegment(k) + b) == ExpertSegment(k) + Replace(NamerPairs(n), b)
  {
    KeptSegmentUnmatchedEverywhere(n, k, b);
    ReplaceUnmatched(NamerPairs(n), ExpertSegment(k), b);
  }

  lemma KeptSegmentUnmatchedEverywhere(n: nat, k: nat, b: string)
    requires n <= k
    requires |b| == 0 || b[0] != 'b'
    ensures Unmatched(NamerPairs(n), ExpertSegment(k), b)
  {
    assert ExpertSegment(k)[0..] == ExpertSegment(k);
    LookupKeptSegment(n, k, b);
    forall p | 1 <= p < |ExpertSegment(k)| ensures Lookup(NamerPairs(n), ExpertSegment(k)[p..] + b) == None {
      KeptSegmentUnmatched(n, k, b, p);
    }
  }

  lemma KeptSegmentUnmatched(n: nat, k: nat, b: string, p: nat)
    requires n <= k && 1 <= p < |ExpertSegment(k)|
    requires |b| == 0 || b[0] != 'b'
    ensures Lookup(NamerPairs(n), ExpertSegment(k)[p..] + b) == None
  {
    SegmentInteriorQuiet(k, b, p);
    QuietNoMatch(n, ExpertSegment(k)[p..] + b);
  }

  /** At a projection's source name, that projection's pair matches. */
  lemma LookupProjection(n: nat, proj: Projection, b: string)
    ensures NamerPairs(n)[proj.Index()] == Pair(proj.Source(), proj.Target())
    ensures Lookup(NamerPairs(n), proj.Source() + b) == Some(proj.Index())
  {
    var pairs := NamerPairs(n);
    var s := proj.Source() + b;
    NamerBaseAt(n, proj.Index());
    assert HasPrefix(s, proj.Source());
    forall j | 0 <= j < proj.Index() ensures !HasPrefix(s, pairs[j].pattern) {
      NamerBaseAt(n, j);
      if j == 0 {
        DiffersAt(s, pairs[j].pattern, 0);
      } else {
        DiffersAt(s, pairs[j].pattern, 1);
      }
    }
    LookupFinds(pairs, s, proj.Index());
  }

  /** The projection's source name is renamed, and what follows it is scanned on. */
  lemma ReplaceProjection(n: nat, proj: Projection, b: string)
    ensures Replace(NamerPairs(n), proj.Source() + b) == proj.Target() + Replace(NamerPairs(n), b)
  {
    LookupProjection(n, proj, b);
    ReplaceMatched(NamerPairs(n), proj.Index(), proj.Source(), proj.Target(), b);
  }

  /** The name suffix ".weight" is copied unchanged. */
  lemma ReplaceWeightSuffix(n: nat)
    ensures Replace(NamerPairs(n), ".weight") == ".weight"
  {
    var a := ".weight";
    forall p | 0 <= p < |a| ensures Quiet(a[p..] + "") {
      assert a[p..] + "" == a[p..];
    }
    ReplaceQuiet(n, a, "");
    assert a + "" == a;
  }

  lemma LookupLayerPrefix(n: nat, b: string)
    ensures NamerPairs(n)[0] == Pair("model.layers", "blk")
    ensures Lookup(NamerPairs(n), "model.layers" + b) == Some(0)
  {
    NamerBaseAt(n, 0);
    assert HasPrefix("model.layers" + b, "model.layers");
    LookupFinds(NamerPairs(n), "model.layers" + b, 0);
  }

  /** A dot not followed by "b" is copied unchanged. */
  lemma ReplaceDot(n: nat, c: string)
    requires |c| > 0 && c[0] != 'b'
    ensures Replace(NamerPairs(n), "." + c) == "." + Replace(NamerPairs(n), c)
  {
    DotUnmatched(n, c);
    ReplaceSkip(NamerPairs(n), '.', c);
  }

  lemma DotUnmatched(n: nat, c: string)
    requires |c| > 0 && c[0] != 'b'
    ensures Lookup(NamerPairs(n), ['.'] + c) == None
  {
    DotQuiet(c);
    QuietNoMatch(n, ['.'] + c);
  }

  lemma DotQuiet(c: string)
    requires |c| > 0 && c[0] != 'b'
    ensures Quiet(['.'] + c)
  {
  }

  lemma LayerPrefixSplit(d: string, b: string, r: string)
    ensures "model.layers." + d + b == "model.layers" + ("." + (d + b))
    ensures "blk" + ("." + (d + r)) == "blk." + d + r
  {
  }

  /** The layer prefix "model.layers.<layer>" becomes "blk.<layer>". */
  lemma ReplaceLayerPrefix(n: nat, layer: nat, b: string)
    ensures Replace(NamerPairs(n), "model.layers." + Decimal.Format(layer) + b)
         == "blk." + Decimal.Format(layer) + Replace(NamerPairs(n), b)
  {
    var d := Decimal.Format(layer);
    LayerPrefixSplit(d, b, Replace(NamerPairs(n), b));
    LookupLayerPrefix(n, "." + (d + b));
    ReplaceMatched(NamerPairs(n), 0, "model.layers", "blk", "." + (d + b));
    ReplaceDot(n, d + b);
    ReplaceDigits(n, d, b);
  }

  lemma SourceNameSplit(layer: nat, i: nat, proj: Projection)
    ensures SourceName(layer, i, proj)
         == "model.layers." + Decimal.Format(layer) + (ExpertSegment(i) + (proj.Source() + ".weight"))
  {
  }

  lemma TargetNameSplit(layer: nat, proj: Projection)
    ensures TargetName(layer, proj) == "blk." + Decimal.Format(layer) + ("." + (proj.Target() + ".weight"))
  {
  }

  /**
   * Every expert below the expert count has its projection filed under the
   * layer's consolidated name, e.g. "model.layers.0.block_sparse_moe.experts.1.w1.weight"
   * becomes "blk.0.ffn_gate_exps.weight".
   */
  lemma CanonicalName(n: nat, layer: nat, i: nat, proj: Projection)
    requires i < n
    ensures IsExpertName(SourceName(layer, i, proj))
    ensures Replace(NamerPairs(n), SourceName(layer, i, proj)) == TargetName(layer, proj)
  {
    var tail := proj.Source() + ".weight";
    SourceNameSplit(layer, i, proj);
    TargetNameSplit(layer, proj);
    MarkerAt(layer, i, tail);
    ReplaceLayerPrefix(n, layer, ExpertSegment(i) + tail);
    ReplaceExpertSegment(n, i, tail);
    ReplaceProjection(n, proj, ".weight");
    ReplaceWeightSuffix(n);
  }

  /** A name with an expert segment after the layer prefix carries the expert marker. */
  lemma MarkerAt(layer: nat, k: nat, tail: string)
    ensures IsExpertName("model.layers." + Decimal.Format(layer) + (ExpertSegment(k) + tail))
  {
    var head := "model.layers." + Decimal.Format(layer);
    var name := head + (ExpertSegment(k) + tail);
    SegmentLayout(k);
    assert name[|head|..][..|Marker|] == Marker;
    ContainsAt(name, Marker, |head|);
  }

  /** Two experts below the expert count are filed under the same name. */
  lemma ExpertsShareName(n: nat, layer: nat, i: nat, j: nat, proj: Projection)
    requires i < n && j < n
    ensures Replace(NamerPairs(n), SourceName(layer, i, proj)) == Replace(NamerPairs(n), SourceName(layer, j, proj))
  {
    CanonicalName(n, layer, i, proj);
    CanonicalName(n, layer, j, proj);
  }

  /**
   * An expert at or above the expert count still carries the marker (so it is
   * taken out of the pass-through tensors) but keeps its expert segment in the
   * name it is filed under.
   */
  lemma OutOfRangeName(n: nat, layer: nat, k: nat, proj: Projection)
    requires n <= k
    ensures IsExpertName(SourceName(layer, k, proj))
    ensures Replace(NamerPairs(n), SourceName(layer, k, proj))
         == "blk." + Decimal.Format(layer) + ExpertSegment(k) + proj.Target() + ".weight"
  {
    var tail := proj.Source() + ".weight";
    SourceNameSplit(layer, k, proj);
    KeptNameSplit(layer, k, proj);
    MarkerAt(layer, k, tail);
    ReplaceLayerPrefix(n, layer, ExpertSegment(k) + tail);
    ReplaceKeepsSegment(n, k, tail);
    ReplaceProjection(n, proj, ".weight");
    ReplaceWeightSuffix(n);
  }

  /** The `q`-th digit of the layer number in a consolidated name. */
  lemma TargetDigitAt(layer: nat, proj: Projection, q: int)
    ensures 0 <= q < |Decimal.Format(layer)| ==>
      && 4 + q < |TargetName(layer, proj)|
      && TargetName(layer, proj)[4 + q] == Decimal.Format(layer)[q]
  {
  }

  /** The dot after the layer number in a consolidated name. */
  lemma TargetDotAt(layer: nat, proj: Projection)
    ensures 4 + |Decimal.Format(layer)| < |TargetName(layer, proj)|
    ensures TargetName(layer, proj)[4 + |Decimal.Format(layer)|] == '.'
  {
  }

  /** The letter that tells the three consolidated matrices apart. */
  lemma TargetLetterAt(layer: nat, proj: Projection)
    ensures 9 + |Decimal.Format(layer)| < |TargetName(layer, proj)|
    ensures TargetName(layer, proj)[9 + |Decimal.Format(layer)|] == proj.Target()[4]
  {
  }

  lemma TargetLayersAgree(l1: nat, p1: Projection, l2: nat, p2: Projection)
    requires TargetName(l1, p1) == TargetName(l2, p2)
    ensures Decimal.Format(l1) == Decimal.Format(l2)
  {
    var d1, d2 := Decimal.Format(l1), Decimal.Format(l2);
    if |d1| < |d2| {
      TargetDotAt(l1, p1);
      TargetDigitAt(l2, p2, |d1|);
      assert false;
    } else if |d2| < |d1| {
      TargetDotAt(l2, p2);
      TargetDigitAt(l1, p1, |d2|);
      assert false;
    } else {
      forall q | 0 <= q < |d1| ensures d1[q] == d2[q] {
        TargetDigitAt(l1, p1, q);
        TargetDigitAt(l2, p2, q);
      }
    }
  }

  /**
   * Different layers or different projections never share a consolidated
   * name, so the tensors of one layer's projection are never grouped with
   * another's.
   */
  lemma TargetNameInjective(l1: nat, p1: Projection, l2: nat, p2: Projection)
    requires TargetName(l1, p1) == TargetName(l2, p2)
    ensures l1 == l2 && p1 == p2
  {
    TargetLayersAgree(l1, p1, l2, p2);
    Decimal.FormatInjective(l1, l2);
    TargetLetterAt(l1, p1);
    TargetLetterAt(l2, p2);
  }

  lemma KeptNameSplit(layer: nat, k: nat, proj: Projection)
    ensures "blk." + Decimal.Format(layer) + ExpertSegment(k) + proj.Target() + ".weight"
         == "blk." + Decimal.Format(layer) + (ExpertSegment(k) + (proj.Target() + ".weight"))
  {
  }

}
