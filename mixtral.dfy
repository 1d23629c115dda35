/**
 * The Mixtral (Mixture-of-Experts) converter: metadata extension, the
 * regrouping of per-expert weight tensors under canonical names, and the
 * expert group type that stands for one consolidated output tensor.
 *
 * The base llama converter is not part of this model: its metadata map is an
 * input of `KV`, and its tensor conversion is a function parameter of `Tensors`.
 */
module Mixtral {
  import opened Wrappers
  import opened Strings
  import Decimal

  type uint32 = x: int | 0 <= x < 0x1_0000_0000
  type uint64 = x: int | 0 <= x < 0x1_0000_0000_0000_0000
  type int64 = x: int | -0x8000_0000_0000_0000 <= x < 0x8000_0000_0000_0000

  /** A source tensor: name, storage kind, shape, and a handle on its lazily read bytes. */
  datatype Tensor = Tensor(name: string, kind: uint32, shape: seq<uint64>, source: nat)

  /** The byte sink a tensor is written to. */
  class Sink {
    var bytes: seq<bv8>
  }

  datatype IoError = IoError(message: string)

  /** The members of one expert group, in the order they were grouped. */
  datatype Expert = Expert(members: seq<Tensor>) {

    function Kind(): uint32
      requires |members| > 0
    {
      members[0].kind
    }

    function Shape(): seq<uint64>
      requires |members| > 0
    {
      members[0].shape
    }

    /**
     * The payload writer as the converter has it: it reports no bytes and no
     * error, and (having no `modifies` clause) leaves the sink untouched.
     */
    method WriteTo(w: Sink) returns (n: int64, err: Option<IoError>)
      ensures n == 0 && err == None
    {
      n, err := 0, None;
    }
  }

  /** What produces an output tensor's bytes: an expert group, or a tensor of the base converter. */
  datatype WriterTo = ExpertWriter(group: Expert) | TensorWriter(source: Tensor)

  /** A tensor descriptor of the output container. */
  datatype LlmTensor = LlmTensor(name: string, kind: uint32, shape: seq<uint64>, writer: WriterTo)

  /** Metadata values: the converter adds unsigned 32-bit counts; the base map holds anything. */
  datatype Value = U32(n: uint32) | Other(id: nat)

  const ExpertCountKey := "llama.attention.expert_count"
  const ExpertUsedCountKey := "llama.attention.expert_used_count"

  /** `key` is present in `kv` exactly when in `base`, with the same value. */
  predicate Keeps(kv: map<string, Value>, base: map<string, Value>, key: string) {
    (key in kv <==> key in base) && (key in base ==> kv[key] == base[key])
  }

  /**
   * Extends the base metadata with the expert counts, each only when it is
   * non-zero; every other key is left as the base converter set it.
   */
  method KV(base: map<string, Value>, numLocalExperts: uint32, numExpertsPerToken: uint32)
    returns (kv: map<string, Value>)
    ensures forall key :: key != ExpertCountKey && key != ExpertUsedCountKey ==> Keeps(kv, base, key)
    ensures numLocalExperts > 0 ==> ExpertCountKey in kv && kv[ExpertCountKey] == U32(numLocalExperts)
    ensures numLocalExperts == 0 ==> Keeps(kv, base, ExpertCountKey)
    ensures numExpertsPerToken > 0 ==>
      ExpertUsedCountKey in kv && kv[ExpertUsedCountKey] == U32(numExpertsPerToken)
    ensures numExpertsPerToken == 0 ==> Keeps(kv, base, ExpertUsedCountKey)
    ensures numLocalExperts == 0 && numExpertsPerToken == 0 ==> kv == base
  {
    kv := base;
    if numLocalExperts > 0 {
      kv := kv[ExpertCountKey := U32(numLocalExperts)];
    }
    if numExpertsPerToken > 0 {
      kv := kv[ExpertUsedCountKey := U32(numExpertsPerToken)];
    }
  }

  /** The path segment that marks a per-expert tensor. */
  const Marker := ".block_sparse_moe.experts."

  predicate IsExpertName(name: string) {
    Contains(name, Marker)
  }

  /** The segment naming expert `i`, which the namer collapses to ".". */
  function ExpertSegment(i: nat): string {
    Marker + Decimal.Format(i) + "."
  }

  /** The fixed renamings, in the order the converter lists them. */
  const BasePairs: seq<Pair> := [
    Pair("model.layers", "blk"),
    Pair("w1", "ffn_gate_exps"),
    Pair("w2", "ffn_down_exps"),
    Pair("w3", "ffn_up_exps")
  ]

  /** One pair per expert index below `n`, in increasing index order. */
  function ExpertPairs(n: nat): (r: seq<Pair>)
    ensures |r| == n
    ensures WellFormed(r)
  {
    if n == 0 then [] else ExpertPairs(n - 1) + [Pair(ExpertSegment(n - 1), ".")]
  }

  /** The replacement list the namer is built from, for `n` local experts. */
  function NamerPairs(n: nat): (r: seq<Pair>)
    ensures |r| == |BasePairs| + n
    ensures WellFormed(r)
  {
    BasePairs + ExpertPairs(n)
  }

  /** The first pairs of the namer's list are the fixed renamings, in order. */
  lemma NamerBaseAt(n: nat, k: nat)
    requires k < |BasePairs|
    ensures NamerPairs(n)[k] == BasePairs[k]
  {
  }

  /** After the fixed renamings, the pair for expert `i` collapses its segment to ".". */
  lemma {:induction false} NamerExpertAt(n: nat, i: nat)
    requires i < n
    ensures NamerPairs(n)[|BasePairs| + i] == Pair(ExpertSegment(i), ".")
  {
    if i < n - 1 {
      NamerExpertAt(n - 1, i);
      NamerPairsStep(n - 1);
    }
  }

  /** The list for one more expert is the list for one fewer with that expert's pair appended. */
  lemma NamerPairsStep(n: nat)
    ensures NamerPairs(n + 1) == NamerPairs(n) + [Pair(ExpertSegment(n), ".")]
  {
    assert BasePairs + (ExpertPairs(n) + [Pair(ExpertSegment(n), ".")])
        == (BasePairs + ExpertPairs(n)) + [Pair(ExpertSegment(n), ".")];
  }

  /** Builds the replacement list by appending one expert pair per local expert. */
  method Namer(numLocalExperts: uint32) returns (oldnew: seq<Pair>)
    ensures oldnew == NamerPairs(numLocalExperts)
  {
    oldnew := BasePairs;
    var i: nat := 0;
    while i < numLocalExperts
      invariant i <= numLocalExperts
      invariant oldnew == NamerPairs(i)
    {
      NamerPairsStep(i);
      oldnew := oldnew + [Pair(ExpertSegment(i), ".")];
      i := i + 1;
    }
  }

  /** The tensors the delete pass keeps, in their original order. */
  function Remainder(ts: seq<Tensor>): (r: seq<Tensor>)
    ensures forall i :: 0 <= i < |r| ==> !IsExpertName(r[i].name)
    decreases |ts|
  {
    if |ts| == 0 then []
    else
      var t := ts[|ts| - 1];
      Remainder(ts[..|ts| - 1]) + if IsExpertName(t.name) then [] else [t]
  }

  /** The group stored under `name`, or no members when there is none yet (Go's nil slice). */
  function Members(groups: map<string, Expert>, name: string): seq<Tensor> {
    if name in groups then groups[name].members else []
  }

  /** `experts[name] = append(experts[name], t)` */
  function AddMember(groups: map<string, Expert>, name: string, t: Tensor): (r: map<string, Expert>)
    ensures r.Keys == groups.Keys + {name}
    ensures r[name].members == Members(groups, name) + [t]
    ensures forall other :: other in groups && other != name ==> r[other] == groups[other]
  {
    groups[name := Expert(Members(groups, name) + [t])]
  }

  /** The expert groups the delete pass builds from `ts`, keyed by rewritten name. */
  function Groups(ts: seq<Tensor>, pairs: seq<Pair>): (groups: map<string, Expert>)
    requires WellFormed(pairs)
    ensures forall name :: name in groups ==> |groups[name].members| > 0
    decreases |ts|
  {
    if |ts| == 0 then map[]
    else
      var groups := Groups(ts[..|ts| - 1], pairs);
      var t := ts[|ts| - 1];
      if IsExpertName(t.name) then AddMember(groups, Replace(pairs, t.name), t) else groups
  }

  /**
   * `slices.DeleteFunc` with the converter's predicate: compacts the kept
   * tensors to the front of `ts` and returns how many there are, while the
   * predicate files every expert tensor under its rewritten name.
   */
  method DeleteExperts(ts: array<Tensor>, pairs: seq<Pair>) returns (n: nat, experts: map<string, Expert>)
    requires WellFormed(pairs)
    modifies ts
    ensures n <= ts.Length
    ensures ts[..n] == Remainder(old(ts[..]))
    ensures experts == Groups(old(ts[..]), pairs)
  {
    n, experts := 0, map[];
    var j := 0;
    while j < ts.Length
      invariant n <= j <= ts.Length
      invariant ts[..n] == Remainder(old(ts[..])[..j])
      invariant ts[j..] == old(ts[..])[j..]
      invariant experts == Groups(old(ts[..])[..j], pairs)
    {
      var t := ts[j];
      assert old(ts[..])[..j + 1][..j] == old(ts[..])[..j];
      if IsExpertName(t.name) {
        var name := Replace(pairs, t.name);
        experts := AddMember(experts, name, t);
      } else {
        ts[n] := t;
        n := n + 1;
      }
      j := j + 1;
    }
    assert old(ts[..])[..ts.Length] == old(ts[..]);
  }

  /** The output descriptor for the group stored under `name`. */
  function GroupTensor(name: string, e: Expert): (r: LlmTensor)
    requires |e.members| > 0
    ensures r.name == name && r.writer == ExpertWriter(e)
    ensures r.kind == e.members[0].kind && r.shape == e.members[0].shape
  {
    LlmTensor(name, e.Kind(), e.Shape(), ExpertWriter(e))
  }

  /** Every group has members, so its first member's kind and shape exist. */
  predicate AllNonEmpty(groups: map<string, Expert>) {
    forall name :: name in groups ==> |groups[name].members| > 0
  }

  /** `entries` lists the groups named in `done`, as `ListsGroups` says for all of them. */
  predicate ListsSome(entries: seq<LlmTensor>, groups: map<string, Expert>, done: set<string>)
    requires AllNonEmpty(groups)
  {
    && done <= groups.Keys
    && |entries| == |done|
    && (forall k :: 0 <= k < |entries| ==>
          entries[k].name in done && entries[k] == GroupTensor(entries[k].name, groups[entries[k].name]))
    && (forall k, m :: 0 <= k < m < |entries| ==> entries[k].name != entries[m].name)
    && (forall name :: name in done ==> Listed(entries, name))
  }

  predicate Listed(entries: seq<LlmTensor>, name: string) {
    exists k :: 0 <= k < |entries| && entries[k].name == name
  }

  /**
   * `entries` lists one descriptor per group: each names a group and carries
   * that group's first member's kind and shape, no name appears twice, and no
   * group is missed.
   */
  predicate ListsGroups(entries: seq<LlmTensor>, groups: map<string, Expert>)
    requires AllNonEmpty(groups)
  {
    ListsSome(entries, groups, groups.Keys)
  }

  lemma ListsOneMore(entries: seq<LlmTensor>, groups: map<string, Expert>, done: set<string>, name: string)
    requires AllNonEmpty(groups) && ListsSome(entries, groups, done)
    requires name in groups && name !in done
    ensures ListsSome(entries + [GroupTensor(name, groups[name])], groups, done + {name})
  {
    StillListed(entries, GroupTensor(name, groups[name]), done);
  }

  /** Appending an entry keeps every name listed that was listed before, and lists the new one. */
  lemma StillListed(entries: seq<LlmTensor>, e: LlmTensor, done: set<string>)
    requires forall x :: x in done ==> Listed(entries, x)
    ensures forall x :: x in done + {e.name} ==> Listed(entries + [e], x)
  {
    var more := entries + [e];
    forall x | x in done + {e.name} ensures Listed(more, x) {
      if x == e.name {
        assert more[|entries|].name == x;
      } else {
        var k :| 0 <= k < |entries| && entries[k].name == x;
        assert more[k].name == x;
      }
    }
  }

  /** The loop over the `experts` map, visiting the names in an arbitrary order. */
  method GroupTensors(experts: map<string, Expert>) returns (out: seq<LlmTensor>)
    requires AllNonEmpty(experts)
    ensures ListsGroups(out, experts)
  {
    var names := experts.Keys;
    ghost var done: set<string> := {};
    out := [];
    while names != {}
      invariant done !! names && done + names == experts.Keys
      invariant ListsSome(out, experts, done)
      decreases |names|
    {
      var name :| name in names;
      ListsOneMore(out, experts, done, name);
      out, names, done := out + [GroupTensor(name, experts[name])], names - {name}, done + {name};
    }
    assert done == experts.Keys;
  }

  /**
   * Converts the source tensors: one descriptor per expert group, in no
   * particular order (Go map iteration), followed by whatever the base
   * converter makes of the tensors the delete pass kept. The kept tensors are
   * left compacted at the front of `ts`.
   */
  method Tensors(ts: array<Tensor>, numLocalExperts: uint32, llamaTensors: seq<Tensor> -> seq<LlmTensor>)
    returns (out: seq<LlmTensor>)
    modifies ts
    ensures var groups := Groups(old(ts[..]), NamerPairs(numLocalExperts));
      && |groups| <= |out|
      && ListsGroups(out[..|groups|], groups)
      && out[|groups|..] == llamaTensors(Remainder(old(ts[..])))
    ensures |Remainder(old(ts[..]))| <= ts.Length
    ensures ts[..|Remainder(old(ts[..]))|] == Remainder(old(ts[..]))
  {
    var namer := Namer(numLocalExperts);
    var n, experts := DeleteExperts(ts, namer);
    var rest := ts[..n];
    out := GroupTensors(experts);
    ghost var grouped := out;
    out := out + llamaTensors(rest);
    assert out[..|grouped|] == grouped;
  }

}
