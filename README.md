# Mixtral checkpoint conversion, modelled in Dafny

This project models the Mixtral (Mixture-of-Experts) part of the checkpoint
converter, `convert/convert_mixtral.go`. That part does three things:

- **`mixtral.KV`** adds two expert counts to the metadata map of the base llama
  converter. Each count is added only when it is non-zero.
- **`mixtral.Tensors`** renames the checkpoint's per-expert weight tensors and
  groups them:
  1. It builds a `strings.Replacer` from a fixed list of renamings, plus one
     pair per local expert that collapses `.block_sparse_moe.experts.<i>.` to
     `.`.
  2. It takes every tensor whose name contains `.block_sparse_moe.experts.` out
     of the list with `slices.DeleteFunc`, and appends it to the group stored
     under its rewritten name.
  3. It emits one descriptor per group, followed by what the base converter
     makes of the remaining tensors.
- **The `expert` group type** reports its first member's kind and shape. Its
  `WriteTo` writes nothing and returns `(0, nil)`.

The files:

- `strings.dfy`: `strings.Contains` and the semantics of `strings.Replacer`.
  At each position the replacer applies the first pair, in argument order,
  whose old string starts there. It scans left to right, and matches do not
  overlap. `Lookup` and `Replace` are the pure recursive functions for this.
- `decimal.dfy`: the `%d` formatting of the expert index.
- `mixtral.dfy`: the data model and the converter's operations.
  - `KV` is a method that updates the map.
  - `Namer` is the loop that grows the replacement list.
  - `DeleteExperts` is the in-place compaction of an `array` of tensors.
    While compacting, it fills the `experts` map.
  - `GroupTensors` is the loop over the map.
  - `Tensors` composes these steps.
  - `Expert` holds `Kind`, `Shape` and `WriteTo`.
- `naming.dfy`: what the namer does to Mixtral tensor names. It proves these
  facts about canonical names:
  - where they come from;
  - that expert indices such as `1` and `10` cannot collide;
  - that the order of the replacement list does not matter.
- `grouping.dfy`: what the delete pass does to the tensor list.
  - Every tensor ends up in exactly one place.
  - The kept tensors keep their order.
  - Each group holds its tensors in input order, and its descriptor carries the
    first one's kind and shape.
- `scenarios.dfy`: a worked example with the gate matrices of experts 0 and 1
  of layer 0.

Three details of the code are easy to misread, and the model follows the code
in each:

- **Metadata keys.** The keys written are `llama.attention.expert_count` and
  `llama.attention.expert_used_count`, with the `llama.` prefix. A zero count
  leaves the base map's entry as it was; it does not remove the key.
- **Canonical names.** They keep the `.weight` suffix, as in
  `blk.0.ffn_gate_exps.weight`.
- **`WriteTo`.** It is a stub that writes no payload and returns `(0, nil)`. It
  does not concatenate the members' bytes.

## Model

| member | source | states |
|---|---|---|
| Mixtral.KV | convert/convert_mixtral.go:18-29 | The expert count is set to `NumLocalExperts` exactly when that is non-zero; likewise the used count with `NumExpertsPerToken`. A zero count leaves the base entry as it was. Every other key keeps its base value. With both counts zero the map is the base map. |
| Mixtral.Namer | convert/convert_mixtral.go:33-42 | The loop builds exactly `NamerPairs(n)`: the four fixed renamings, then one pair per expert index `0..n-1` in increasing order. |
| Mixtral.NamerPairs | convert/convert_mixtral.go:33-42 | The list has four plus `n` pairs, and no old string is empty. |
| Mixtral.NamerExpertAt | convert/convert_mixtral.go:40-41 | After the fixed renamings, pair `i` maps `.block_sparse_moe.experts.<i>.` to `.`. |
| Decimal.Format | convert/convert_mixtral.go:41 | `%d` of a natural number is a non-empty string of digits. It has one digit exactly for numbers below ten. It starts with `0` only for zero. |
| Decimal.FormatInjective | convert/convert_mixtral.go:41 | Different expert indices get different numerals. |
| Strings.Contains | convert/convert_mixtral.go:48 | A string contains only substrings no longer than itself. |
| Strings.ContainsIff | convert/convert_mixtral.go:48 | `strings.Contains` holds exactly when the substring starts at some position. |
| Strings.Lookup | convert/convert_mixtral.go:52 | A pair that is found matches at the current position. |
| Strings.LookupFirst | convert/convert_mixtral.go:52 | The pair found is the first matching one in argument order. None is found exactly when no old string starts here. |
| Strings.Replace | convert/convert_mixtral.go:44-52 | A string in which no old string occurs comes back unchanged. |
| Strings.ReplaceUnmatched | convert/convert_mixtral.go:52 | Text at none of whose positions an old string starts is copied unchanged, and scanning continues after it. |
| Strings.ReplaceOrderIndependent | convert/convert_mixtral.go:44 | When no old string is a prefix of another, any reordering of the pairs rewrites every string the same way. |
| MixtralNaming.ExpertSegmentNotPrefix | convert/convert_mixtral.go:40-41 | For `i != j`, the pattern for `j` never matches at the start of the segment for `i`, whatever follows. The closing `.` keeps `experts.1.` out of `experts.10.`. |
| MixtralNaming.ExpertSegmentOccurrence | convert/convert_mixtral.go:40-41 | An expert pattern occurs inside an expert segment only as that same segment, at its start. |
| MixtralNaming.NamerPrefixFree | convert/convert_mixtral.go:33-41 | No old string of the namer is a prefix of another. |
| MixtralNaming.NamerOrderIndependent | convert/convert_mixtral.go:33-44 | Any list holding the namer's pairs, in any order, names every tensor as the namer does. |
| MixtralNaming.QuietNoMatch | convert/convert_mixtral.go:33-41 | At a position that starts neither `w1`/`w2`/`w3`, `m?d…` nor `.b…`, none of the namer's patterns matches. |
| MixtralNaming.LookupSegment | convert/convert_mixtral.go:40-44 | At the segment of an index below the expert count, that index's pair is the one applied. |
| MixtralNaming.LookupKeptSegment | convert/convert_mixtral.go:40-44 | At the segment of an index at or above the expert count, no pair applies. |
| MixtralNaming.ReplaceExpertSegment | convert/convert_mixtral.go:40-44 | The segment of an index below the expert count collapses to `.`. |
| MixtralNaming.ReplaceKeepsSegment | convert/convert_mixtral.go:40-44 | The segment of an index at or above the expert count is copied whole, provided the text after it does not start with `b`. (Otherwise the closing `.` of the segment plus that `b` could begin another segment.) |
| MixtralNaming.ReplaceProjection | convert/convert_mixtral.go:35-37 | `w1`/`w2`/`w3` become `ffn_gate_exps`/`ffn_down_exps`/`ffn_up_exps`. |
| MixtralNaming.ReplaceLayerPrefix | convert/convert_mixtral.go:34 | `model.layers.<layer>` becomes `blk.<layer>`, whatever follows. |
| MixtralNaming.ReplaceWeightSuffix | convert/convert_mixtral.go:33-38 | The `.weight` suffix is copied unchanged. |
| MixtralNaming.ReplaceDigits | convert/convert_mixtral.go:33-41 | Digits are copied unchanged. |
| MixtralNaming.MarkerAt | convert/convert_mixtral.go:48 | A layer name with an expert segment carries the expert marker. |
| MixtralNaming.CanonicalName | convert/convert_mixtral.go:33-53 | For `i` below the expert count, projection `proj` of expert `i` in layer `layer` is taken out as an expert tensor. It is filed under `blk.<layer>.<ffn_…_exps>.weight`. |
| MixtralNaming.ExpertsShareName | convert/convert_mixtral.go:40-53 | Any two experts below the expert count are filed under the same name for the same layer and projection. |
| MixtralNaming.OutOfRangeName | convert/convert_mixtral.go:40-53 | An expert at or above the expert count is still taken out as an expert tensor. Its group name keeps its `.block_sparse_moe.experts.<k>.` segment. |
| MixtralNaming.TargetNameInjective | convert/convert_mixtral.go:33-38 | Different layers or projections never share a canonical name. |
| Mixtral.Groups | convert/convert_mixtral.go:52-53 | Every group the delete pass builds is non-empty, so `e[0]` in `Kind` and `Shape` is always defined. |
| Mixtral.Remainder | convert/convert_mixtral.go:47-55 | No tensor the delete pass keeps carries the expert marker. |
| Mixtral.AddMember | convert/convert_mixtral.go:53 | Appending to the group under `name` creates that key if it was missing, puts `t` after the group's earlier members, and leaves every other group as it was. |
| Mixtral.DeleteExperts | convert/convert_mixtral.go:47-55 | The array's prefix becomes exactly the kept tensors, in order. The map becomes exactly the groups built by filing each marker-bearing tensor under its rewritten name, in input order. |
| MixtralGrouping.GroupsAreFiled | convert/convert_mixtral.go:52-53 | A name has a group exactly when some tensor is filed under it. The group's members are exactly those tensors, in input order. |
| MixtralGrouping.ExactlyOnePlace | convert/convert_mixtral.go:47-55 | A marker-bearing tensor occurs in its own group as often as in the input, and in no other group nor the remainder. Any other tensor occurs in the remainder as often as in the input, and in no group. |
| MixtralGrouping.RemainderCount | convert/convert_mixtral.go:47-55 | The remainder holds each marker-free tensor as often as the input does, and no marker-bearing one. |
| MixtralGrouping.FiledCount | convert/convert_mixtral.go:52-53 | A group holds each tensor filed under its name as often as the input does, and nothing else. |
| MixtralGrouping.RemainderAppend | convert/convert_mixtral.go:47-55 | The remainder of a concatenation is the concatenation of the remainders, so relative order is kept. |
| MixtralGrouping.RemainderLength | convert/convert_mixtral.go:47-55 | The remainder is no longer than the input. It is as long only when no tensor carries the marker. |
| MixtralGrouping.RemainderIdentity | convert/convert_mixtral.go:47-55 | The pass keeps a list unchanged exactly when no name in it carries the marker. |
| MixtralGrouping.RegroupingRemainder | convert/convert_mixtral.go:47-55 | Running the pass again over the remainder builds no group and keeps everything. |
| MixtralGrouping.GroupTensorIsFirstFiled | convert/convert_mixtral.go:59-78 | A group's descriptor carries the kind and shape of the first tensor, in input order, filed under its name. |
| Mixtral.GroupTensor | convert/convert_mixtral.go:59-64 | The descriptor of a group has the group's name, its first member's kind and shape, and the group itself as writer. |
| Mixtral.Expert.Kind | convert/convert_mixtral.go:72-74 | The first member's kind. Its precondition that the group is non-empty stands for Go's panic on `e[0]`; `Groups` proves every group it builds meets it. |
| Mixtral.Expert.Shape | convert/convert_mixtral.go:76-78 | The first member's shape, under the same non-empty precondition as `Kind`. |
| Mixtral.ListsOneMore | convert/convert_mixtral.go:58-65 | Appending the descriptor of a group not yet listed extends a partial listing by exactly that group. |
| Mixtral.GroupTensors | convert/convert_mixtral.go:57-65 | The loop over the map, in arbitrary order, lists one descriptor per group and no name twice. Each descriptor has the group's name, its first member's kind and shape, and the group as writer. |
| Mixtral.Tensors | convert/convert_mixtral.go:32-68 | The output starts with exactly one descriptor per group of the rewritten expert tensors, in arbitrary order. It continues with the base converter's output for the kept tensors. The kept tensors are left compacted at the front of the array. |
| Mixtral.Expert.WriteTo | convert/convert_mixtral.go:80-85 | Reports zero bytes written and no error, whatever the members are. Having no `modifies` clause, it leaves the sink unchanged. |
| MixtralScenarios.TwoExpertsOneGroup | convert/convert_mixtral.go:32-55 | With two local experts, the `w1` matrices of experts 0 and 1 of layer 0 form one group `blk.0.ffn_gate_exps.weight`, in input order. Nothing is passed on to the base converter. |

## Left out

- The base llama converter is external. Its metadata map is the `base` input of `KV`. Its tensor conversion is the function parameter `llamaTensors` of `Tensors`.
- The `Tokenizer` argument of `KV` is only passed to the base converter.
- Tensor payloads, the `io.Writer` sink and I/O errors are not modelled. A tensor carries a `source` handle in place of its bytes.
- `Expert.WriteTo` prints every member's name with `fmt.Println`. That output on stdout is not modelled.
- A `WriteTo` that concatenates the members' payloads is not what the code does, so it is not modelled.
- Mixtral.DeleteExperts: `slices.DeleteFunc` sets the tail beyond the kept tensors to zero values. The contract says nothing about that tail.
- Go's map iteration order is not modelled. `GroupTensors` picks each next name arbitrarily, and its contract is stated for any order.
- `strings.Replacer`'s internals are not modelled: the trie, the byte-replacer fast paths, and empty old strings (which the namer never builds). Only the first-match, left-to-right, non-overlapping semantics are.
- The flat `oldnew []string` list is modelled as a list of (old, new) pairs.
- Counts are `uint32`, shapes `uint64` and `WriteTo`'s result `int64`, as subset types. No arithmetic on them can overflow in this code.
- The `mixtral` struct's JSON decoding of its two counts is not modelled; the counts are parameters.
