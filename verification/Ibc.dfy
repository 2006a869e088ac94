/** `src/contract/types/ibc.rs`: heights and chained membership proofs. */
module Ibc {
  import opened Outcomes
  import opened Bytes

  /** `cosmwasm_std::StdError`, without message texts. */
  datatype StdError = GenericErr | ParseErr | NotFound

  // ---------- heights ----------

  datatype Ordering = Less | Equal | Greater

  datatype Height = Height(revisionNumber: u64, revisionHeight: u64) {
    /** `Ord::cmp` */
    function Compare(other: Height): Ordering {
      if revisionNumber < other.revisionNumber then Less
      else if revisionNumber > other.revisionNumber then Greater
      else if revisionHeight < other.revisionHeight then Less
      else if revisionHeight > other.revisionHeight then Greater
      else Equal
    }

    /** Position in the lexicographic order of all heights. */
    function Rank(): nat {
      revisionNumber * U64_LIMIT + revisionHeight
    }
  }

  /** The comparison is the order of ranks, hence total and well-founded, and equality is identity. */
  lemma CompareIsRankOrder(a: Height, b: Height)
    ensures a.Compare(b) == Less <==> a.Rank() < b.Rank()
    ensures a.Compare(b) == Equal <==> a == b
    ensures a.Compare(b) == Greater <==> b.Compare(a) == Less
  {
    if a.revisionNumber < b.revisionNumber {
      assert (a.revisionNumber + 1) * U64_LIMIT <= b.revisionNumber * U64_LIMIT;
    } else if b.revisionNumber < a.revisionNumber {
      assert (b.revisionNumber + 1) * U64_LIMIT <= a.revisionNumber * U64_LIMIT;
    }
  }

  // ---------- membership ----------

  datatype CommitmentProof = Exist(existence: Bytes) | OtherProof(content: Bytes)

  type ProofSpec = Bytes

  /** The ICS-23 primitives: the root an existence proof leads to, and the check of one layer. */
  datatype Ics23 = Ics23(
    calculateExistenceRoot: Bytes -> Option<Bytes>,
    verifyMembership: (CommitmentProof, ProofSpec, Bytes, string, Bytes) -> bool)

  /** The loop from layer `i` upwards: the subroot it ends with, which at every loop head equals the value
      to be proven next. Keys are taken from the end of the path;
      running out of keys or specifications is an index failure. */
  function Climb(ics: Ics23, layers: seq<CommitmentProof>, specs: seq<ProofSpec>, keys: seq<string>,
                 value: Bytes, i: nat): Outcome<Bytes, StdError>
    decreases |layers| - i
  {
    if i >= |layers| then Ok(value)
    else if !layers[i].Exist? then Err(GenericErr)
    else
      match ics.calculateExistenceRoot(layers[i].existence)
      case None => Err(GenericErr)
      case Some(root) =>
        if i >= |keys| || i >= |specs| then Panic
        else if !ics.verifyMembership(layers[i], specs[i], root, keys[|keys| - 1 - i], value) then Err(GenericErr)
        else Climb(ics, layers, specs, keys, root, i + 1)
  }

  /** `iter().skip(index)` */
  function Skipped(proofs: seq<CommitmentProof>, index: nat): seq<CommitmentProof> {
    if index <= |proofs| then proofs[index..] else []
  }

  lemma SkippedLayers(proofs: seq<CommitmentProof>, index: nat)
    ensures |Skipped(proofs, index)| == if index < |proofs| then |proofs| - index else 0
    ensures forall i :: 0 <= i < |Skipped(proofs, index)| ==> Skipped(proofs, index)[i] == proofs[index + i]
  {
  }

  /** One layer holds: its proof leads to `upper` and shows `lower` under its key. */
  predicate LayerHolds(ics: Ics23, layers: seq<CommitmentProof>, specs: seq<ProofSpec>, keys: seq<string>,
                       i: nat, lower: Bytes, upper: Bytes)
    requires i < |layers|
  {
    && layers[i].Exist? && ics.calculateExistenceRoot(layers[i].existence) == Some(upper)
    && i < |keys| && i < |specs|
    && ics.verifyMembership(layers[i], specs[i], upper, keys[|keys| - 1 - i], lower)
  }

  /** Values linked layer by layer, from the proven one at the bottom to the root on top. */
  ghost predicate IsChain(ics: Ics23, layers: seq<CommitmentProof>, specs: seq<ProofSpec>, keys: seq<string>,
                          chain: seq<Bytes>)
  {
    && |chain| == |layers| + 1
    && forall i :: 0 <= i < |layers| ==> LayerHolds(ics, layers, specs, keys, i, chain[i], chain[i + 1])
  }

  ghost predicate Connects(ics: Ics23, layers: seq<CommitmentProof>, specs: seq<ProofSpec>, keys: seq<string>,
                           value: Bytes, root: Bytes)
  {
    exists chain :: IsChain(ics, layers, specs, keys, chain) && chain[0] == value && chain[|layers|] == root
  }

  /** The values proven so far, and a layer that leads on to a root but for which the path or the list of
      specifications is too short. */
  ghost predicate IsStuck(ics: Ics23, layers: seq<CommitmentProof>, specs: seq<ProofSpec>, keys: seq<string>,
                          value: Bytes, chain: seq<Bytes>)
  {
    && 0 < |chain| <= |layers| && chain[0] == value
    && StuckFrom(ics, layers, specs, keys, chain, 0)
  }

  ghost predicate StuckFrom(ics: Ics23, layers: seq<CommitmentProof>, specs: seq<ProofSpec>, keys: seq<string>,
                            chain: seq<Bytes>, i: nat)
    requires i < |chain| <= |layers|
  {
    var last := |chain| - 1;
    && (forall j :: i <= j < last ==> LayerHolds(ics, layers, specs, keys, j, chain[j], chain[j + 1]))
    && layers[last].Exist? && ics.calculateExistenceRoot(layers[last].existence).Some?
    && (|keys| <= last || |specs| <= last)
  }

  ghost predicate RunsOut(ics: Ics23, layers: seq<CommitmentProof>, specs: seq<ProofSpec>, keys: seq<string>,
                          value: Bytes)
  {
    exists chain :: IsStuck(ics, layers, specs, keys, value, chain)
  }

  /** `verify_membership`: accepted exactly when a chain of layers connects the value to the root, a panic
      exactly when the keys or specifications run out, a generic error otherwise; it never answers `false`. */
  method VerifyMembership(ics: Ics23, proofs: seq<CommitmentProof>, specs: seq<ProofSpec>, root: Bytes,
                          keys: seq<string>, value: Bytes, index: nat) returns (r: Outcome<bool, StdError>)
    ensures r.Ok? <==> Connects(ics, Skipped(proofs, index), specs, keys, value, root)
    ensures r.Ok? ==> r.value
    ensures r.Panic? <==> RunsOut(ics, Skipped(proofs, index), specs, keys, value)
    ensures r.Err? ==> r.error == GenericErr
  {
    var layers := Skipped(proofs, index);
    ConnectsIffClimbs(ics, layers, specs, keys, value, root);
    RunsOutIffPanics(ics, layers, specs, keys, value);
    var subroot := value;
    var current := value;
    var i := 0;
    while i < |layers|
      invariant 0 <= i <= |layers| && subroot == current
      invariant Climb(ics, layers, specs, keys, value, 0) == Climb(ics, layers, specs, keys, current, i)
    {
      if !layers[i].Exist? {
        return Err(GenericErr);
      }
      var calculated := ics.calculateExistenceRoot(layers[i].existence);
      if calculated.None? {
        return Err(GenericErr);
      }
      subroot := calculated.value;
      if i >= |keys| || i >= |specs| {
        return Panic;
      }
      if !ics.verifyMembership(layers[i], specs[i], subroot, keys[|keys| - 1 - i], current) {
        return Err(GenericErr);
      }
      current := subroot;
      i := i + 1;
    }
    if root != subroot {
      return Err(GenericErr);
    }
    r := Ok(true);
  }

  /** The subroot the loop ends with is the top of a chain; entries below `i` are filler. */
  lemma {:induction false} ClimbIsChain(ics: Ics23, layers: seq<CommitmentProof>, specs: seq<ProofSpec>,
                                        keys: seq<string>, value: Bytes, i: nat) returns (chain: seq<Bytes>)
    requires i <= |layers| && Climb(ics, layers, specs, keys, value, i).Ok?
    ensures |chain| == |layers| + 1
    ensures chain[i] == value && chain[|layers|] == Climb(ics, layers, specs, keys, value, i).value
    ensures forall j :: i <= j < |layers| ==> LayerHolds(ics, layers, specs, keys, j, chain[j], chain[j + 1])
    decreases |layers| - i
  {
    if i == |layers| {
      chain := seq(|layers| + 1, _ => value);
    } else {
      var root := ics.calculateExistenceRoot(layers[i].existence).value;
      var upper := ClimbIsChain(ics, layers, specs, keys, root, i + 1);
      chain := upper[i := value];
    }
  }

  /** A chain is what the loop follows. */
  lemma {:induction false} ChainIsClimbed(ics: Ics23, layers: seq<CommitmentProof>, specs: seq<ProofSpec>,
                                          keys: seq<string>, chain: seq<Bytes>, i: nat)
    requires IsChain(ics, layers, specs, keys, chain) && i <= |layers|
    ensures Climb(ics, layers, specs, keys, chain[i], i) == Ok(chain[|layers|])
    decreases |layers| - i
  {
    if i == |layers| {
    } else {
      assert LayerHolds(ics, layers, specs, keys, i, chain[i], chain[i + 1]);
      ChainIsClimbed(ics, layers, specs, keys, chain, i + 1);
    }
  }

  lemma ConnectsIffClimbs(ics: Ics23, layers: seq<CommitmentProof>, specs: seq<ProofSpec>, keys: seq<string>,
                          value: Bytes, root: Bytes)
    ensures Connects(ics, layers, specs, keys, value, root) <==> Climb(ics, layers, specs, keys, value, 0) == Ok(root)
  {
    if Climb(ics, layers, specs, keys, value, 0) == Ok(root) {
      var chain := ClimbIsChain(ics, layers, specs, keys, value, 0);
      assert IsChain(ics, layers, specs, keys, chain);
    }
    if Connects(ics, layers, specs, keys, value, root) {
      var chain :| IsChain(ics, layers, specs, keys, chain) && chain[0] == value && chain[|layers|] == root;
      ChainIsClimbed(ics, layers, specs, keys, chain, 0);
    }
  }

  /** A climb that panics got stuck; entries below `i` are filler. */
  lemma {:induction false} PanicIsStuck(ics: Ics23, layers: seq<CommitmentProof>, specs: seq<ProofSpec>,
                                        keys: seq<string>, value: Bytes, i: nat) returns (chain: seq<Bytes>)
    requires i <= |layers| && Climb(ics, layers, specs, keys, value, i).Panic?
    ensures i < |chain| <= |layers| && chain[i] == value && StuckFrom(ics, layers, specs, keys, chain, i)
    decreases |layers| - i
  {
    var root := ics.calculateExistenceRoot(layers[i].existence).value;
    if |keys| <= i || |specs| <= i {
      chain := seq(i + 1, _ => value);
    } else {
      var upper := PanicIsStuck(ics, layers, specs, keys, root, i + 1);
      chain := upper[i := value];
    }
  }

  lemma {:induction false} StuckPanics(ics: Ics23, layers: seq<CommitmentProof>, specs: seq<ProofSpec>,
                                       keys: seq<string>, chain: seq<Bytes>, i: nat)
    requires i < |chain| <= |layers| && StuckFrom(ics, layers, specs, keys, chain, i)
    ensures Climb(ics, layers, specs, keys, chain[i], i).Panic?
    decreases |chain| - i
  {
    if i == |chain| - 1 {
    } else {
      assert LayerHolds(ics, layers, specs, keys, i, chain[i], chain[i + 1]);
      StuckPanics(ics, layers, specs, keys, chain, i + 1);
    }
  }

  lemma {:induction false} ClimbErrs(ics: Ics23, layers: seq<CommitmentProof>, specs: seq<ProofSpec>,
                                     keys: seq<string>, value: Bytes, i: nat)
    ensures var r := Climb(ics, layers, specs, keys, value, i);
      r.Err? ==> r.error == GenericErr
    decreases |layers| - i
  {
    if i >= |layers| || !layers[i].Exist? {
    } else {
      var root := ics.calculateExistenceRoot(layers[i].existence);
      if root.Some? { ClimbErrs(ics, layers, specs, keys, root.value, i + 1); }
    }
  }

  lemma RunsOutIffPanics(ics: Ics23, layers: seq<CommitmentProof>, specs: seq<ProofSpec>, keys: seq<string>,
                         value: Bytes)
    ensures RunsOut(ics, layers, specs, keys, value) <==> Climb(ics, layers, specs, keys, value, 0).Panic?
    ensures var r := Climb(ics, layers, specs, keys, value, 0);
      r.Err? ==> r.error == GenericErr
  {
    ClimbErrs(ics, layers, specs, keys, value, 0);
    if Climb(ics, layers, specs, keys, value, 0).Panic? {
      var chain := PanicIsStuck(ics, layers, specs, keys, value, 0);
      assert IsStuck(ics, layers, specs, keys, value, chain);
    }
    if RunsOut(ics, layers, specs, keys, value) {
      var chain :| IsStuck(ics, layers, specs, keys, value, chain);
      StuckPanics(ics, layers, specs, keys, chain, 0);
    }
  }

  /** The checks of two proofs cannot both succeed for one specification, root and key on different values. */
  ghost predicate Binding(ics: Ics23, p: CommitmentProof, q: CommitmentProof) {
    forall spec: ProofSpec, root: Bytes, key: string, v: Bytes, w: Bytes ::
      ics.verifyMembership(p, spec, root, key, v) && ics.verifyMembership(q, spec, root, key, w) ==> v == w
  }

  lemma {:induction false} ChainsMeet(ics: Ics23, layers1: seq<CommitmentProof>, layers2: seq<CommitmentProof>,
                                      specs: seq<ProofSpec>, keys: seq<string>,
                                      chain1: seq<Bytes>, chain2: seq<Bytes>, i: nat)
    requires |layers1| == |layers2| && i <= |layers1|
    requires IsChain(ics, layers1, specs, keys, chain1) && IsChain(ics, layers2, specs, keys, chain2)
    requires chain1[|layers1|] == chain2[|layers2|]
    requires forall k :: 0 <= k < |layers1| ==> Binding(ics, layers1[k], layers2[k])
    ensures chain1[i] == chain2[i]
    decreases |layers1| - i
  {
    if i == |layers1| {
    } else {
      ChainsMeet(ics, layers1, layers2, specs, keys, chain1, chain2, i + 1);
      assert LayerHolds(ics, layers1, specs, keys, i, chain1[i], chain1[i + 1]);
      assert LayerHolds(ics, layers2, specs, keys, i, chain2[i], chain2[i + 1]);
      assert Binding(ics, layers1[i], layers2[i]);
    }
  }

  /** Chained membership binds: proofs of equally many layers, accepted for one root, key path and list of
      specifications, prove the same value. */
  lemma MembershipBinds(ics: Ics23, layers1: seq<CommitmentProof>, layers2: seq<CommitmentProof>,
                        specs: seq<ProofSpec>, keys: seq<string>, root: Bytes, value1: Bytes, value2: Bytes)
    requires |layers1| == |layers2|
    requires Connects(ics, layers1, specs, keys, value1, root) && Connects(ics, layers2, specs, keys, value2, root)
    requires forall k :: 0 <= k < |layers1| ==> Binding(ics, layers1[k], layers2[k])
    ensures value1 == value2
  {
    var chain1 :| IsChain(ics, layers1, specs, keys, chain1) && chain1[0] == value1 && chain1[|layers1|] == root;
    var chain2 :| IsChain(ics, layers2, specs, keys, chain2) && chain2[0] == value2 && chain2[|layers2|] == root;
    ChainsMeet(ics, layers1, layers2, specs, keys, chain1, chain2, 0);
  }
}
