/** Values of several machine words, and copies of them that are made one word at a time. */
module Payloads {

  /** Any bit pattern of a word is a word; a copy that is torn is still a value. */
  type Word = nat
  type Payload = seq<Word>

  function Zeroes(n: nat): (z: Payload)
    ensures |z| == n && forall k :: 0 <= k < n ==> z[k] == 0
  {
    seq(n, _ => 0)
  }

  predicate AllWords(n: nat, d: set<nat>) {
    forall k: nat :: k < n ==> k in d
  }

  /** The copy has every word. */
  predicate Full(n: nat, buf: map<nat, Word>) {
    forall k: nat :: k < n ==> k in buf
  }

  function Assemble(n: nat, buf: map<nat, Word>): (v: Payload)
    requires Full(n, buf)
    ensures |v| == n && forall k :: 0 <= k < n ==> v[k] == buf[k]
  {
    seq(n, k requires 0 <= k < n => buf[k])
  }

  /** The words still to copy. */
  function Missing(n: nat, d: set<nat>): set<nat> {
    set k: nat | k < n && k !in d
  }

  lemma {:induction false} MissingAtMost(n: nat, d: set<nat>)
    ensures |Missing(n, d)| <= n
    ensures d == {} ==> |Missing(n, d)| == n
  {
    if n > 0 {
      MissingAtMost(n - 1, d);
      if n - 1 in d {
        assert Missing(n, d) == Missing(n - 1, d);
      } else {
        assert Missing(n, d) == Missing(n - 1, d) + {n - 1};
      }
    } else {
      assert Missing(n, d) == {};
    }
  }

  lemma {:induction false} MissingAll(n: nat)
    ensures var none: map<nat, Word> := map[];
            |Missing(n, none.Keys)| == n
  {
    var none: map<nat, Word> := map[];
    assert none.Keys == {};
    MissingAtMost(n, {});
  }

  lemma {:induction false} MissingNext(n: nat, d: set<nat>, j: nat)
    requires j < n && j !in d
    ensures |Missing(n, d)| == |Missing(n, d + {j})| + 1
  {
    assert Missing(n, d) == Missing(n, d + {j}) + {j};
  }
}
