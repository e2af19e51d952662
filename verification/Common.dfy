/** Shared helpers. */
module Common {

  datatype Option<+T> = None | Some(value: T)

  /** The elements of s from index k on. (Written out because s[k..] with k possibly 0 sends
      the solver round in circles.) */
  ghost function Suffix<T>(s: seq<T>, k: nat): (r: seq<T>)
    requires k <= |s|
    ensures |r| == |s| - k
  {
    seq(|s| - k, i requires 0 <= i < |s| - k => s[k + i])
  }

  lemma SuffixAppend<T>(a: seq<T>, b: seq<T>, k: nat)
    requires k <= |a|
    ensures Suffix(a + b, k) == Suffix(a, k) + b
  {
  }

  lemma SuffixNext<T>(s: seq<T>, k: nat)
    requires k < |s|
    ensures Suffix(s, k)[0] == s[k] && Suffix(s, k)[1..] == Suffix(s, k + 1)
    ensures Suffix(s, k) == [s[k]] + Suffix(s, k + 1)
  {
  }

  lemma SuffixAll<T>(s: seq<T>)
    ensures Suffix(s, 0) == s
  {
  }

  lemma SeqAssoc<T>(a: seq<T>, b: seq<T>, c: seq<T>)
    ensures (a + b) + c == a + (b + c)
  {
  }

  /** s occurs in t at position i. */
  ghost predicate Occurs<T>(t: seq<T>, i: nat, s: seq<T>) {
    i + |s| <= |t| && forall k :: 0 <= k < |s| ==> t[i + k] == s[k]
  }

  lemma OccursSplit<T>(t: seq<T>, i: nat, a: seq<T>, b: seq<T>)
    requires Occurs(t, i, a + b)
    ensures Occurs(t, i, a) && Occurs(t, i + |a|, b)
  {
    forall k | 0 <= k < |a| ensures t[i + k] == a[k] { assert (a + b)[k] == a[k]; }
    forall k | 0 <= k < |b| ensures t[i + |a| + k] == b[k] { assert t[i + (|a| + k)] == (a + b)[|a| + k]; }
  }
}
