/** Deduplication of header names: the first occurrence of a name keeps it and
    later occurrences receive a numeric suffix. */
module HeaderNaming {
  import opened Text

  /** The name the k-th occurrence of `name` receives, for k >= 2. */
  function Renamed(name: string, k: nat): string {
    name + "_" + NatToString(k)
  }

  /** How a name that already occurred `earlier` times is renamed. */
  function Suffixed(name: string, earlier: nat): string {
    if earlier == 0 then name else Renamed(name, earlier + 1)
  }

  /** How often `x` occurs in `s`. */
  function Occurrences(s: seq<string>, x: string): nat {
    if |s| == 0 then 0
    else Occurrences(s[..|s| - 1], x) + (if s[|s| - 1] == x then 1 else 0)
  }

  /** `Occurrences` is the multiplicity of the multiset of `s`. */
  lemma {:induction false} OccurrencesCount(s: seq<string>, x: string)
    ensures Occurrences(s, x) == multiset(s)[x]
  {
    if |s| > 0 {
      assert s == s[..|s| - 1] + [s[|s| - 1]];
      OccurrencesCount(s[..|s| - 1], x);
    }
  }

  /** A name occurs no time exactly when it is absent. */
  lemma {:induction false} OccurrencesZero(s: seq<string>, x: string)
    ensures Occurrences(s, x) == 0 <==> x !in s
  {
    if |s| > 0 {
      assert s == s[..|s| - 1] + [s[|s| - 1]];
      OccurrencesZero(s[..|s| - 1], x);
    }
  }

  /** Reference definition of deduplication: each name is suffixed by how often
      it occurred before it. */
  function Deduplicated(bases: seq<string>): seq<string> {
    seq(|bases|, j requires 0 <= j < |bases| => NameAt(bases, j))
  }

  /** The name header cell `j` receives. */
  function NameAt(bases: seq<string>, j: nat): string
    requires j < |bases|
  {
    Suffixed(bases[j], Occurrences(bases[..j], bases[j]))
  }

  function Count(seen: map<string, nat>, name: string): nat {
    if name in seen then seen[name] else 0
  }

  /** The counter dictionary after the names `s` have been seen. */
  function Tally(s: seq<string>): map<string, nat> {
    if |s| == 0 then map[]
    else
      var m := Tally(s[..|s| - 1]);
      m[s[|s| - 1] := Count(m, s[|s| - 1]) + 1]
  }

  /** The dictionary counts each name's occurrences. */
  lemma {:induction false} TallyCounts(s: seq<string>, x: string)
    ensures Count(Tally(s), x) == Occurrences(s, x)
    ensures x in Tally(s) ==> Tally(s)[x] >= 1
  {
    if |s| > 0 {
      TallyCounts(s[..|s| - 1], x);
    }
  }

  /** The first occurrence of a name keeps it; the k-th becomes `name_k`. */
  lemma {:induction false} DeduplicatedMeaning(bases: seq<string>, j: nat)
    requires j < |bases|
    ensures bases[j] !in bases[..j] ==> Deduplicated(bases)[j] == bases[j]
    ensures bases[j] in bases[..j] ==>
              Deduplicated(bases)[j] == bases[j] + "_" + NatToString(multiset(bases[..j])[bases[j]] + 1)
  {
    OccurrencesZero(bases[..j], bases[j]);
    OccurrencesCount(bases[..j], bases[j]);
  }

  /** The names given to the first `j` header cells. */
  function DedupPrefix(bases: seq<string>, j: nat): (names: seq<string>)
    requires j <= |bases|
    ensures |names| == j
  {
    if j == 0 then []
    else DedupPrefix(bases, j - 1) + [NameAt(bases, j - 1)]
  }

  /** Once every cell is named, the loop's names are the deduplicated ones. */
  lemma {:induction false} DedupComplete(bases: seq<string>)
    ensures DedupPrefix(bases, |bases|) == Deduplicated(bases)
  {
    DedupPrefixAt(bases, |bases|);
  }

  lemma {:induction false} DedupPrefixAt(bases: seq<string>, j: nat)
    requires j <= |bases|
    ensures forall i :: 0 <= i < j ==> DedupPrefix(bases, j)[i] == NameAt(bases, i)
  {
    if j > 0 {
      DedupPrefixAt(bases, j - 1);
      var p := DedupPrefix(bases, j - 1);
      assert DedupPrefix(bases, j) == p + [NameAt(bases, j - 1)];
      forall i | 0 <= i < j - 1
        ensures DedupPrefix(bases, j)[i] == p[i]
      {
      }
    }
  }

  /** One turn of the counter-dictionary loop, in both of its branches. */
  lemma {:induction false} DedupStep(bases: seq<string>, j: nat)
    requires j < |bases|
    ensures var m := Tally(bases[..j]);
            bases[j] in m ==>
              && Tally(bases[..j + 1]) == m[bases[j] := m[bases[j]] + 1]
              && DedupPrefix(bases, j + 1) == DedupPrefix(bases, j) + [Renamed(bases[j], m[bases[j]] + 1)]
    ensures var m := Tally(bases[..j]);
            bases[j] !in m ==>
              && Tally(bases[..j + 1]) == m[bases[j] := 1]
              && DedupPrefix(bases, j + 1) == DedupPrefix(bases, j) + [bases[j]]
  {
    assert bases[..j + 1][..j] == bases[..j];
    TallyCounts(bases[..j], bases[j]);
  }

  /** The counter-dictionary loop: a name seen for the first time is recorded
      with count 1 and kept; a repeat increments its count `k` and becomes
      `name_k`. */
  method DeduplicateNames(bases: seq<string>) returns (names: seq<string>)
    ensures names == Deduplicated(bases)
  {
    var seen: map<string, nat> := map[];
    names := [];
    var j := 0;
    while j < |bases|
      invariant 0 <= j <= |bases|
      invariant names == DedupPrefix(bases, j)
      invariant seen == Tally(bases[..j])
    {
      var name := bases[j];
      DedupStep(bases, j);
      if name in seen {
        seen := seen[name := seen[name] + 1];
        names := names + [Renamed(name, seen[name])];
      } else {
        seen := seen[name := 1];
        names := names + [name];
      }
      j := j + 1;
    }
    DedupComplete(bases);
  }
}
