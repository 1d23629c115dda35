/** Layer 0's gate matrices of experts 0 and 1, with two local experts, worked through the model. */
module MixtralScenarios {
  import opened Strings
  import opened Mixtral
  import opened MixtralNaming
  import opened MixtralGrouping
  import Decimal

  lemma SmallIndices()
    ensures Decimal.Format(0) == "0" && Decimal.Format(1) == "1"
  {
  }

  lemma SegmentLiteral0()
    ensures ExpertSegment(0) == ".block_sparse_moe.experts.0."
  {
    SmallIndices();
  }

  lemma GateSourceName0()
    ensures SourceName(0, 0, W1) == "model.layers.0.block_sparse_moe.experts.0.w1.weight"
  {
    SmallIndices();
    SegmentLiteral0();
    assert "model.layers." + "0" + ".block_sparse_moe.experts.0." == "model.layers.0.block_sparse_moe.experts.0.";
  }

  lemma SegmentLiteral1()
    ensures ExpertSegment(1) == ".block_sparse_moe.experts.1."
  {
    SmallIndices();
  }

  lemma GateSourceName1()
    ensures SourceName(0, 1, W1) == "model.layers.0.block_sparse_moe.experts.1.w1.weight"
  {
    SmallIndices();
    SegmentLiteral1();
    assert "model.layers." + "0" + ".block_sparse_moe.experts.1." == "model.layers.0.block_sparse_moe.experts.1.";
  }

  lemma GateTargetName()
    ensures TargetName(0, W1) == "blk.0.ffn_gate_exps.weight"
  {
    SmallIndices();
  }

  /** One expert tensor makes one group holding just it. */
  lemma GroupsOfOne(t0: Tensor, pairs: seq<Pair>, name: string)
    requires WellFormed(pairs)
    requires IsExpertName(t0.name) && Replace(pairs, t0.name) == name
    ensures Groups([t0], pairs) == map[name := Expert([t0])]
  {
    assert [t0][..0] == [];
    assert Groups([t0][..0], pairs) == map[];
    assert Members(map[], name) + [t0] == [t0];
  }

  /** Two expert tensors filed under the same name make one group of both, in input order. */
  lemma GroupsOfTwo(t0: Tensor, t1: Tensor, pairs: seq<Pair>, name: string)
    requires WellFormed(pairs)
    requires IsExpertName(t0.name) && Replace(pairs, t0.name) == name
    requires IsExpertName(t1.name) && Replace(pairs, t1.name) == name
    ensures Groups([t0, t1], pairs) == map[name := Expert([t0, t1])]
  {
    GroupsOfOne(t0, pairs, name);
    assert [t0, t1][..1] == [t0];
    assert Members(map[name := Expert([t0])], name) + [t1] == [t0, t1];
  }

  /** Two expert tensors leave nothing for the base converter. */
  lemma NoneKept(t0: Tensor, t1: Tensor)
    requires IsExpertName(t0.name) && IsExpertName(t1.name)
    ensures Remainder([t0, t1]) == []
  {
    assert [t0, t1][..1] == [t0];
    assert [t0][..0] == [];
    assert Remainder([t0]) == Remainder([]) + [];
  }

  /**
   * Layer 0's gate matrices of experts 0 and 1, in that order, with two local
   * experts: both land, in input order, in one group named
   * "blk.0.ffn_gate_exps.weight", and nothing is passed on to the base converter.
   */
  lemma TwoExpertsOneGroup(t0: Tensor, t1: Tensor)
    requires t0.name == "model.layers.0.block_sparse_moe.experts.0.w1.weight"
    requires t1.name == "model.layers.0.block_sparse_moe.experts.1.w1.weight"
    ensures Groups([t0, t1], NamerPairs(2)) == map["blk.0.ffn_gate_exps.weight" := Expert([t0, t1])]
    ensures Remainder([t0, t1]) == []
  {
    GateSourceName0();
    GateSourceName1();
    GateTargetName();
    CanonicalName(2, 0, 0, W1);
    CanonicalName(2, 0, 1, W1);
    GroupsOfTwo(t0, t1, NamerPairs(2), "blk.0.ffn_gate_exps.weight");
    NoneKept(t0, t1);
  }

}
