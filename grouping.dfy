/**
 * Properties of the delete pass of the Mixtral converter: every source tensor
 * ends up in exactly one place, the kept tensors keep their order, and each
 * group holds its tensors in input order.
 */
module MixtralGrouping {
  import opened Strings
  import opened Mixtral

  /** `t` is filed under `name` by the delete pass. */
  predicate FiledUnder(t: Tensor, pairs: seq<Pair>, name: string)
    requires WellFormed(pairs)
  {
    IsExpertName(t.name) && Replace(pairs, t.name) == name
  }

  /** The tensors of `ts` filed under `name`, in input order. */
  function Filed(ts: seq<Tensor>, pairs: seq<Pair>, name: string): seq<Tensor>
    requires WellFormed(pairs)
    decreases |ts|
  {
    if |ts| == 0 then []
    else
      var t := ts[|ts| - 1];
      Filed(ts[..|ts| - 1], pairs, name) + if FiledUnder(t, pairs, name) then [t] else []
  }

  lemma {:induction false} FiledEmpty(ts: seq<Tensor>, pairs: seq<Pair>, name: string)
    requires WellFormed(pairs)
    ensures Filed(ts, pairs, name) == [] <==> forall i :: 0 <= i < |ts| ==> !FiledUnder(ts[i], pairs, name)
    decreases |ts|
  {
    if |ts| > 0 {
      FiledEmpty(ts[..|ts| - 1], pairs, name);
    }
  }

  /**
   * Each group is exactly the tensors filed under its name, in input order,
   * and a name has a group exactly when some tensor is filed under it.
   */
  lemma {:induction false} GroupsAreFiled(ts: seq<Tensor>, pairs: seq<Pair>, name: string)
    requires WellFormed(pairs)
    ensures name in Groups(ts, pairs) <==> exists i :: 0 <= i < |ts| && FiledUnder(ts[i], pairs, name)
    ensures Members(Groups(ts, pairs), name) == Filed(ts, pairs, name)
    decreases |ts|
  {
    FiledEmpty(ts, pairs, name);
    if |ts| > 0 {
      GroupsAreFiled(ts[..|ts| - 1], pairs, name);
    }
  }

  /** The kept tensors of a concatenation are those of its parts, in order. */
  lemma {:induction false} RemainderAppend(a: seq<Tensor>, b: seq<Tensor>)
    ensures Remainder(a + b) == Remainder(a) + Remainder(b)
    decreases |b|
  {
    if |b| == 0 {
      assert a + b == a;
    } else {
      assert (a + b)[..|a + b| - 1] == a + b[..|b| - 1];
      RemainderAppend(a, b[..|b| - 1]);
    }
  }

  lemma {:induction false} RemainderLength(ts: seq<Tensor>)
    ensures |Remainder(ts)| <= |ts|
    ensures |Remainder(ts)| == |ts| ==> forall i :: 0 <= i < |ts| ==> !IsExpertName(ts[i].name)
    decreases |ts|
  {
    if |ts| > 0 {
      var init := ts[..|ts| - 1];
      RemainderLength(init);
      assert forall i :: 0 <= i < |init| ==> init[i] == ts[i];
    }
  }

  /** The delete pass keeps a list unchanged exactly when no name in it carries the marker. */
  lemma {:induction false} RemainderIdentity(ts: seq<Tensor>)
    ensures Remainder(ts) == ts <==> forall i :: 0 <= i < |ts| ==> !IsExpertName(ts[i].name)
    decreases |ts|
  {
    RemainderLength(ts);
    if |ts| > 0 {
      var init := ts[..|ts| - 1];
      RemainderIdentity(init);
      if forall i :: 0 <= i < |ts| ==> !IsExpertName(ts[i].name) {
        assert forall i :: 0 <= i < |init| ==> init[i] == ts[i];
        assert ts == init + [ts[|ts| - 1]];
      }
    }
  }

  /** A tensor is kept as often as it occurs if it lacks the marker, and never otherwise. */
  lemma {:induction false} RemainderCount(ts: seq<Tensor>, t: Tensor)
    ensures multiset(Remainder(ts))[t] == if IsExpertName(t.name) then 0 else multiset(ts)[t]
    decreases |ts|
  {
    if |ts| > 0 {
      assert ts == ts[..|ts| - 1] + [ts[|ts| - 1]];
      RemainderCount(ts[..|ts| - 1], t);
    }
  }

  /** A tensor is filed under `name` as often as it occurs if it belongs there, and never otherwise. */
  lemma {:induction false} FiledCount(ts: seq<Tensor>, pairs: seq<Pair>, name: string, t: Tensor)
    requires WellFormed(pairs)
    ensures multiset(Filed(ts, pairs, name))[t] == if FiledUnder(t, pairs, name) then multiset(ts)[t] else 0
    decreases |ts|
  {
    if |ts| > 0 {
      assert ts == ts[..|ts| - 1] + [ts[|ts| - 1]];
      FiledCount(ts[..|ts| - 1], pairs, name, t);
    }
  }

  /**
   * Every occurrence of a tensor ends up in exactly one place: a tensor with
   * the marker lies only in the group of its rewritten name, as often as it
   * occurs, and not among the kept tensors; one without it is kept as often as
   * it occurs and lies in no group.
   */
  lemma ExactlyOnePlace(ts: seq<Tensor>, pairs: seq<Pair>, t: Tensor, name: string)
    requires WellFormed(pairs)
    ensures IsExpertName(t.name) ==>
      && multiset(Remainder(ts))[t] == 0
      && multiset(Members(Groups(ts, pairs), name))[t]
         == if name == Replace(pairs, t.name) then multiset(ts)[t] else 0
    ensures !IsExpertName(t.name) ==>
      && multiset(Remainder(ts))[t] == multiset(ts)[t]
      && t !in Members(Groups(ts, pairs), name)
  {
    RemainderCount(ts, t);
    GroupsAreFiled(ts, pairs, name);
    FiledCount(ts, pairs, name, t);
  }

  lemma {:induction false} FiledHead(ts: seq<Tensor>, pairs: seq<Pair>, name: string)
    requires WellFormed(pairs)
    requires Filed(ts, pairs, name) != []
    ensures exists i :: (0 <= i < |ts| && FiledUnder(ts[i], pairs, name) && ts[i] == Filed(ts, pairs, name)[0]
      && forall j :: 0 <= j < i ==> !FiledUnder(ts[j], pairs, name))
    decreases |ts|
  {
    var init := ts[..|ts| - 1];
    if Filed(init, pairs, name) != [] {
      FiledHead(init, pairs, name);
      var i :| 0 <= i < |init| && FiledUnder(init[i], pairs, name) && init[i] == Filed(init, pairs, name)[0]
        && forall j :: 0 <= j < i ==> !FiledUnder(init[j], pairs, name);
      assert ts[i] == init[i];
      assert Filed(ts, pairs, name)[0] == Filed(init, pairs, name)[0];
      assert forall j :: 0 <= j < i ==> ts[j] == init[j];
    } else {
      FiledEmpty(init, pairs, name);
      var i := |ts| - 1;
      assert forall j :: 0 <= j < i ==> ts[j] == init[j];
      assert FiledUnder(ts[i], pairs, name) && ts[i] == Filed(ts, pairs, name)[0];
    }
  }

  /**
   * The descriptor of each group carries the kind and shape of the first
   * tensor, in input order, that was filed under the group's name.
   */
  lemma GroupTensorIsFirstFiled(ts: seq<Tensor>, pairs: seq<Pair>, name: string)
    requires WellFormed(pairs)
    requires name in Groups(ts, pairs)
    ensures exists i :: (0 <= i < |ts| && FiledUnder(ts[i], pairs, name)
      && (forall j :: 0 <= j < i ==> !FiledUnder(ts[j], pairs, name))
      && GroupTensor(name, Groups(ts, pairs)[name]).kind == ts[i].kind
      && GroupTensor(name, Groups(ts, pairs)[name]).shape == ts[i].shape)
  {
    GroupsAreFiled(ts, pairs, name);
    FiledHead(ts, pairs, name);
  }

  /**
   * Running the delete pass again over what it kept changes nothing: no
   * further groups appear and every tensor is kept again.
   */
  lemma {:induction false} RegroupingRemainder(ts: seq<Tensor>, pairs: seq<Pair>)
    requires WellFormed(pairs)
    ensures Groups(Remainder(ts), pairs) == map[]
    ensures Remainder(Remainder(ts)) == Remainder(ts)
    decreases |ts|
  {
    if |ts| > 0 {
      var init, t := ts[..|ts| - 1], ts[|ts| - 1];
      RegroupingRemainder(init, pairs);
      var tail := if IsExpertName(t.name) then [] else [t];
      assert Remainder(ts) == Remainder(init) + tail;
      RemainderAppend(Remainder(init), tail);
      if tail != [] {
        var r := Remainder(init) + tail;
        assert r[..|r| - 1] == Remainder(init);
        assert Groups(r, pairs) == Groups(Remainder(init), pairs);
      } else {
        assert Remainder(ts) == Remainder(init);
      }
    }
  }

}
