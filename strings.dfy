/**
 * The parts of Go's `strings` package the converter relies on: `HasPrefix`,
 * `Contains`, and the documented semantics of a `Replacer` built by
 * `NewReplacer(old1, new1, old2, new2, ...)`: the target is scanned left to
 * right, at each position the first pair in argument order whose old string
 * starts there is applied, and scanning resumes after the matched text, so
 * matches never overlap.
 */
module Strings {
  import opened Wrappers

  predicate HasPrefix(s: string, prefix: string) {
    |prefix| <= |s| && s[..|prefix|] == prefix
  }

  /** `strings.Contains`: `substr` starts at the front of `s` or somewhere after it. */
  predicate Contains(s: string, substr: string)
    ensures Contains(s, substr) ==> |substr| <= |s|
    decreases |s|
  {
    HasPrefix(s, substr) || (|s| > 0 && Contains(s[1..], substr))
  }

  /** `Contains` holds exactly when `substr` starts at some position of `s`. */
  lemma {:induction false} ContainsIff(s: string, substr: string)
    ensures Contains(s, substr) <==> exists p :: 0 <= p <= |s| && HasPrefix(s[p..], substr)
  {
    if Contains(s, substr) {
      if HasPrefix(s, substr) {
        assert s[0..] == s;
      } else {
        ContainsIff(s[1..], substr);
        var p :| 0 <= p <= |s[1..]| && HasPrefix(s[1..][p..], substr);
        assert s[1..][p..] == s[p + 1..];
      }
    }
    if exists p :: 0 <= p <= |s| && HasPrefix(s[p..], substr) {
      var p :| 0 <= p <= |s| && HasPrefix(s[p..], substr);
      ContainsAt(s, substr, p);
    }
  }

  lemma {:induction false} ContainsAt(s: string, substr: string, p: nat)
    requires p <= |s| && HasPrefix(s[p..], substr)
    ensures Contains(s, substr)
  {
    if p > 0 {
      assert s[1..][p - 1..] == s[p..];
      ContainsAt(s[1..], substr, p - 1);
    }
  }

  /** One old/new argument pair of `strings.NewReplacer`. */
  datatype Pair = Pair(pattern: string, replacement: string)

  /** Every old string is non-empty (the empty old string is not modelled). */
  predicate WellFormed(pairs: seq<Pair>) {
    forall k :: 0 <= k < |pairs| ==> |pairs[k].pattern| > 0
  }

  /** The index of the first pair, in argument order, whose old string starts `s`. */
  function Lookup(pairs: seq<Pair>, s: string): (r: Option<nat>)
    ensures r.Some? ==> r.value < |pairs| && HasPrefix(s, pairs[r.value].pattern)
  {
    if |pairs| == 0 then None
    else if HasPrefix(s, pairs[0].pattern) then Some(0)
    else match Lookup(pairs[1..], s)
      case None => None
      case Some(k) => Some(k + 1)
  }

  /**
   * `Lookup` finds a pair exactly when some old string starts `s`, and then the
   * first such pair in argument order.
   */
  lemma {:induction false} LookupFirst(pairs: seq<Pair>, s: string)
    ensures Lookup(pairs, s).Some? ==>
      && Lookup(pairs, s).value < |pairs|
      && HasPrefix(s, pairs[Lookup(pairs, s).value].pattern)
      && forall j :: 0 <= j < Lookup(pairs, s).value ==> !HasPrefix(s, pairs[j].pattern)
    ensures Lookup(pairs, s).None? <==> forall j :: 0 <= j < |pairs| ==> !HasPrefix(s, pairs[j].pattern)
  {
    if |pairs| > 0 && !HasPrefix(s, pairs[0].pattern) {
      LookupFirst(pairs[1..], s);
      assert forall j :: 1 <= j < |pairs| ==> pairs[j] == pairs[1..][j - 1];
    }
  }

  lemma LookupFinds(pairs: seq<Pair>, s: string, k: nat)
    requires k < |pairs| && HasPrefix(s, pairs[k].pattern)
    requires forall j :: 0 <= j < k ==> !HasPrefix(s, pairs[j].pattern)
    ensures Lookup(pairs, s) == Some(k)
  {
    LookupFirst(pairs, s);
  }

  lemma LookupMisses(pairs: seq<Pair>, s: string)
    requires forall j :: 0 <= j < |pairs| ==> !HasPrefix(s, pairs[j].pattern)
    ensures Lookup(pairs, s) == None
  {
    LookupFirst(pairs, s);
  }

  /** `Replacer.Replace`: left to right, first pair in argument order, no overlaps. */
  function Replace(pairs: seq<Pair>, s: string): (r: string)
    requires WellFormed(pairs)
    ensures (forall k :: 0 <= k < |pairs| ==> !Contains(s, pairs[k].pattern)) ==> r == s
    decreases |s|
  {
    if |s| == 0 then ""
    else
      NothingOccurs(pairs, s);
      match Lookup(pairs, s)
      case Some(k) => pairs[k].replacement + Replace(pairs, s[|pairs[k].pattern|..])
      case None => [s[0]] + Replace(pairs, s[1..])
  }

  /** When no old string occurs in `s`, none starts at its front and none occurs after its first character. */
  lemma NothingOccurs(pairs: seq<Pair>, s: string)
    requires |s| > 0
    ensures (forall k :: 0 <= k < |pairs| ==> !Contains(s, pairs[k].pattern)) ==>
      Lookup(pairs, s) == None && forall k :: 0 <= k < |pairs| ==> !Contains(s[1..], pairs[k].pattern)
  {
    if forall k :: 0 <= k < |pairs| ==> !Contains(s, pairs[k].pattern) {
      LookupMisses(pairs, s);
    }
  }

  /** No pair matches at any position of `a`, when `a` is followed by `b`. */
  predicate Unmatched(pairs: seq<Pair>, a: string, b: string) {
    forall p :: 0 <= p < |a| ==> Lookup(pairs, a[p..] + b) == None
  }

  /** A stretch of text at none of whose positions a pair matches is copied unchanged. */
  lemma {:induction false} ReplaceUnmatched(pairs: seq<Pair>, a: string, b: string)
    requires WellFormed(pairs)
    requires Unmatched(pairs, a, b)
    ensures Replace(pairs, a + b) == a + Replace(pairs, b)
  {
    if |a| == 0 {
      assert a + b == b;
    } else {
      UnmatchedStep(pairs, a, b);
      ReplaceSkip(pairs, a[0], a[1..] + b);
      ReplaceUnmatched(pairs, a[1..], b);
      SplitFirst(a, b);
      SplitFirst(a, Replace(pairs, b));
    }
  }

  lemma SplitFirst(a: string, b: string)
    requires |a| > 0
    ensures [a[0]] + (a[1..] + b) == a + b
  {
    assert a == [a[0]] + a[1..];
  }

  /** Text unmatched throughout has no match at its first character, and its rest is unmatched too. */
  lemma UnmatchedStep(pairs: seq<Pair>, a: string, b: string)
    requires |a| > 0 && Unmatched(pairs, a, b)
    ensures Lookup(pairs, [a[0]] + (a[1..] + b)) == None
    ensures Unmatched(pairs, a[1..], b)
  {
    assert a[0..] + b == [a[0]] + (a[1..] + b);
    forall p | 0 <= p < |a[1..]|
      ensures Lookup(pairs, a[1..][p..] + b) == None
    {
      assert a[1..][p..] == a[p + 1..];
    }
  }

  /** A character at which no pattern starts is copied and scanning moves one step on. */
  lemma ReplaceSkip(pairs: seq<Pair>, c: char, b: string)
    requires WellFormed(pairs)
    requires Lookup(pairs, [c] + b) == None
    ensures Replace(pairs, [c] + b) == [c] + Replace(pairs, b)
  {
    assert ([c] + b)[1..] == b;
  }

  /** A match of pair `k` at the front is replaced and scanning resumes after it. */
  lemma ReplaceMatched(pairs: seq<Pair>, k: nat, pattern: string, replacement: string, b: string)
    requires WellFormed(pairs) && k < |pairs| && pairs[k] == Pair(pattern, replacement)
    requires Lookup(pairs, pattern + b) == Some(k)
    ensures Replace(pairs, pattern + b) == replacement + Replace(pairs, b)
  {
    assert (pattern + b)[|pattern|..] == b;
  }

  /** No old string is a prefix of another one. */
  predicate PrefixFree(pairs: seq<Pair>) {
    forall i, j :: 0 <= i < |pairs| && 0 <= j < |pairs| && i != j ==>
      !HasPrefix(pairs[i].pattern, pairs[j].pattern)
  }

  lemma PrefixesNest(s: string, x: string, y: string)
    requires HasPrefix(s, x) && HasPrefix(s, y) && |x| <= |y|
    ensures HasPrefix(y, x)
  {
    assert y[..|x|] == s[..|y|][..|x|];
  }

  /** With prefix-free old strings at most one pair matches at any position. */
  lemma UniqueMatch(pairs: seq<Pair>, s: string, i: nat, j: nat)
    requires PrefixFree(pairs) && i < |pairs| && j < |pairs|
    requires HasPrefix(s, pairs[i].pattern) && HasPrefix(s, pairs[j].pattern)
    ensures i == j
  {
    if |pairs[i].pattern| <= |pairs[j].pattern| {
      PrefixesNest(s, pairs[i].pattern, pairs[j].pattern);
    } else {
      PrefixesNest(s, pairs[j].pattern, pairs[i].pattern);
    }
  }

  /**
   * With prefix-free old strings the argument order does not matter: any list
   * holding the same pairs rewrites every string the same way.
   */
  lemma {:induction false} ReplaceOrderIndependent(p: seq<Pair>, q: seq<Pair>, s: string)
    requires WellFormed(p) && PrefixFree(p)
    requires forall x :: x in p <==> x in q
    ensures WellFormed(q)
    ensures Replace(p, s) == Replace(q, s)
    decreases |s|
  {
    forall k | 0 <= k < |q| ensures |q[k].pattern| > 0 {
      assert q[k] in p;
    }
    if |s| > 0 {
      LookupFirst(p, s);
      LookupFirst(q, s);
      match Lookup(p, s)
      case Some(a) =>
        assert p[a] in q;
        var b0 :| 0 <= b0 < |q| && q[b0] == p[a];
        assert Lookup(q, s).Some?;
        var b := Lookup(q, s).value;
        assert q[b] in p;
        var a' :| 0 <= a' < |p| && p[a'] == q[b];
        UniqueMatch(p, s, a, a');
        ReplaceOrderIndependent(p, q, s[|p[a].pattern|..]);
      case None =>
        assert Lookup(q, s).None? by {
          forall j | 0 <= j < |q| ensures !HasPrefix(s, q[j].pattern) {
            assert q[j] in p;
          }
        }
        ReplaceOrderIndependent(p, q, s[1..]);
    }
  }

}
