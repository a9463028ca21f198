// Cluster chains of a FAT32 volume and the files they spell.

module FatChains {
  import opened Wrappers
  import opened Bytes
  import opened Files

  const MASK := 0x1000_0000
  const BAD := 0x0FFF_FFF7
  const EOC := 0x0FFF_FFF8

  /** What next_cluster makes of an entry: 0 is the end of a chain. */
  function Next(raw: nat): Result<nat, string> {
    if raw >= EOC then Ok(0) else if raw == BAD then Err("bad cluster") else Ok(raw % MASK)
  }

  /** The entries of the FAT, and the bytes of each cluster (none below 2). */
  datatype Volume = Volume(fat: seq<nat>, data: seq<seq<byte>>)

  /** Clusters all have cs bytes, and their numbers are below the markers of the FAT. */
  ghost predicate Shape(v: Volume, cs: nat) {
    && cs > 0 && |v.data| <= |v.fat| && |v.data| <= BAD
    && forall c :: 2 <= c < |v.data| ==> |v.data[c]| == cs
  }

  predicate IsFree(v: Volume, c: nat) { 2 <= c < |v.data| && c < |v.fat| && v.fat[c] % MASK == 0 }

  ghost function FreeSet(v: Volume): set<nat> { set c: nat | c < |v.data| && IsFree(v, c) }

  /** Distinct clusters, each naming the next and the last one marked as the end. */
  ghost predicate IsChain(v: Volume, chain: seq<nat>) {
    && chain != [] && |v.data| <= |v.fat|
    && (forall i :: 0 <= i < |chain| ==> 2 <= chain[i] < |v.data|)
    && (forall i, j :: 0 <= i < j < |chain| ==> chain[i] != chain[j])
    && (forall i :: 0 <= i < |chain| - 1 ==> Next(v.fat[chain[i]]) == Ok(chain[i + 1]))
    && v.fat[chain[|chain| - 1]] >= EOC && v.fat[chain[|chain| - 1]] % MASK != 0
  }

  // ---- Chains ----

  lemma ChainNotFree(v: Volume, chain: seq<nat>, i: nat)
    requires IsChain(v, chain) && i < |chain|
    ensures !IsFree(v, chain[i])
  {
    if i < |chain| - 1 {
      assert Next(v.fat[chain[i]]) == Ok(chain[i + 1]);
    }
  }

  /** A chain only depends on the entries of its own clusters. */
  lemma ChainKept(v: Volume, v': Volume, chain: seq<nat>)
    requires IsChain(v, chain) && |v'.data| == |v.data| && |v'.fat| == |v.fat|
    requires forall i :: 0 <= i < |chain| ==> v'.fat[chain[i]] == v.fat[chain[i]]
    ensures IsChain(v', chain)
  {
  }

  /** The cluster c appended to a chain that ends in `last`. */
  function Linked(v: Volume, last: nat, c: nat): Volume
    requires last < |v.fat| && c < |v.fat|
  {
    v.(fat := v.fat[last := c][c := EOC])
  }

  /** Appending a free cluster extends this chain, spares those apart from it, and uses up c only. */
  lemma LinkExtends(v: Volume, cs: nat, chain: seq<nat>, c: nat)
    requires Shape(v, cs) && IsChain(v, chain) && IsFree(v, c)
    ensures var v' := Linked(v, chain[|chain| - 1], c);
            && Shape(v', cs) && IsChain(v', chain + [c]) && FreeSet(v') == FreeSet(v) - {c}
  {
    var last := chain[|chain| - 1];
    var v', chain' := Linked(v, last, c), chain + [c];
    forall i | 0 <= i < |chain| ensures chain[i] != c {
      ChainNotFree(v, chain, i);
    }
    forall i | 0 <= i < |chain'| - 1 ensures Next(v'.fat[chain'[i]]) == Ok(chain'[i + 1]) {
      if i < |chain| - 1 {
        assert chain[i] != last && chain'[i + 1] == chain[i + 1];
      }
    }
    ChainNotFree(v, chain, |chain| - 1);
    forall x: nat | x < |v.data| ensures IsFree(v', x) <==> IsFree(v, x) && x != c {
    }
  }

  lemma LinkSpares(v: Volume, cs: nat, chain: seq<nat>, c: nat, other: seq<nat>)
    requires Shape(v, cs) && IsChain(v, chain) && IsFree(v, c) && IsChain(v, other) && Apart(other, chain)
    ensures IsChain(Linked(v, chain[|chain| - 1], c), other) && Apart(other, chain + [c])
  {
    forall i | 0 <= i < |other| ensures other[i] != c {
      ChainNotFree(v, other, i);
    }
    ChainKept(v, Linked(v, chain[|chain| - 1], c), other);
  }

  /** Two chains from the same cluster are the same, so a start cluster names one file. */
  lemma {:induction false} ChainUnique(v: Volume, a: seq<nat>, b: seq<nat>, n: nat)
    requires IsChain(v, a) && IsChain(v, b) && a[0] == b[0] && n < |a|
    ensures n < |b| && a[n] == b[n]
    ensures n == |a| - 1 ==> a == b
  {
    if n > 0 {
      ChainUnique(v, a, b, n - 1);
      assert Next(v.fat[a[n - 1]]) == Ok(a[n]);
    }
    if n == |a| - 1 {
      forall i | 0 <= i < |b| - 1 ensures v.fat[b[i]] < EOC {
        assert b[i + 1] != 0;
      }
      forall i | 0 <= i < |a| ensures a[i] == b[i] {
        if i < n {
          ChainUnique(v, a, b, i);
        }
      }
    }
  }

  // ---- Freeing ----

  function Cleared(fat: seq<nat>, chain: seq<nat>): seq<nat> {
    seq(|fat|, i requires 0 <= i < |fat| => if i in chain then 0 else fat[i])
  }

  /** Clearing a chain frees exactly its clusters, and spares the chains apart from it. */
  lemma ClearedFrees(v: Volume, chain: seq<nat>)
    requires IsChain(v, chain)
    ensures var v' := v.(fat := Cleared(v.fat, chain));
            && (forall c: nat :: IsFree(v', c) <==> IsFree(v, c) || c in chain)
            && (forall other :: IsChain(v, other) && Apart(other, chain) ==> IsChain(v', other))
  {
    var v' := v.(fat := Cleared(v.fat, chain));
    forall other | IsChain(v, other) && Apart(other, chain) ensures IsChain(v', other) {
      forall i | 0 <= i < |other| ensures other[i] !in chain {
      }
      ChainKept(v, v', other);
    }
  }
}
