/**
 * Small facts about sequences that the resolver's proofs use at one
 * explicit step each, so that the solver does not have to rediscover them
 * inside a large proof.
 */
module SeqFacts {
  /** Concatenation regrouped to the left. */
  lemma Regroup<T>(a: seq<T>, b: seq<T>, c: seq<T>)
    ensures a + (b + c) == a + b + c
  {
  }

  /** Five concatenated parts regrouped around the third. */
  lemma Regroup5<T>(a: seq<T>, b: seq<T>, c: seq<T>, d: seq<T>, e: seq<T>)
    ensures a + (b + c + d) + e == a + b + (c + (d + e))
  {
  }

  /** The prefix of length `i + 1` is the prefix of length `i` and then the `i`-th element. */
  lemma TakeOneMore<T>(s: seq<T>, i: nat)
    requires i < |s|
    ensures s[..i + 1] == s[..i] + [s[i]]
  {
  }

  /** A list is its part before `i`, its `i`-th element and its part after. */
  lemma Pivot<T>(s: seq<T>, i: nat)
    requires i < |s|
    ensures s == s[..i] + ([s[i]] + s[i + 1..])
  {
  }

  /** Cutting a list whose tail from `k` is `b + c` just after `b`. */
  lemma SplitThree<T>(s: seq<T>, k: nat, b: seq<T>, c: seq<T>)
    requires k <= |s| && s[k..] == b + c
    ensures k + |b| <= |s| && s[..k + |b|] == s[..k] + b && s[k + |b|..] == c
  {
    assert |s| == k + |b| + |c|;
    assert s[..k + |b|] == s[..k] + s[k..][..|b|];
    assert s[k + |b|..] == s[k..][|b|..];
  }
}
