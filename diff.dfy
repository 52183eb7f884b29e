/** Merging the state-trie differences of two transactions: a per-address
    map of account differences plus the difference of the main trie.
    `PartialTrieDiff` and `merge_diff` are not part of this model: the trie
    difference is a type parameter `D`, and `merge_diff` and its emptiness
    test are passed in. */
module TxDiff {
  import opened Common

  const TWO_POW_160: int := 0x1_0000_0000_0000_0000_0000_0000_0000_0000_0000

  /** A 20-byte account address. */
  type Address = x: int | 0 <= x < TWO_POW_160

  /** An account's nonce, a `U256`. */
  type Nonce = U256

  datatype AccountTrieDiff<D> = AccountTrieDiff(nonce: Option<Nonce>, codeHash: Option<H256>, stateTrieDiff: D)

  datatype TxTrieDiff<D> = TxTrieDiff(mainTrieDiff: D, accTrieDiffs: map<Address, AccountTrieDiff<D>>)

  /** `AccountTrieDiff::is_empty`. */
  predicate IsEmpty<D>(d: AccountTrieDiff<D>, diffIsEmpty: D -> bool)
  {
    d.nonce.None? && d.codeHash.None? && diffIsEmpty(d.stateTrieDiff)
  }

  /** `merge_acc_trie_diff`: nonce and code hash from the left-hand side
      (the source only checks in debug builds that both sides agree on
      them), the storage differences merged. */
  function MergeAccTrieDiff<D>(lhs: AccountTrieDiff<D>, rhs: AccountTrieDiff<D>, mergeDiff: (D, D) -> D): AccountTrieDiff<D>
  {
    AccountTrieDiff(lhs.nonce, lhs.codeHash, mergeDiff(lhs.stateTrieDiff, rhs.stateTrieDiff))
  }

  /** The account differences after the merge, as a map. */
  function MergedAccDiffs<D>(lhs: map<Address, AccountTrieDiff<D>>, rhs: map<Address, AccountTrieDiff<D>>,
                             mergeDiff: (D, D) -> D): map<Address, AccountTrieDiff<D>>
  {
    map a | a in lhs.Keys + rhs.Keys ::
      if a in lhs && a in rhs then MergeAccTrieDiff(lhs[a], rhs[a], mergeDiff)
      else if a in lhs then lhs[a]
      else rhs[a]
  }

  function MergedTxTrieDiff<D>(lhs: TxTrieDiff<D>, rhs: TxTrieDiff<D>, mergeDiff: (D, D) -> D): TxTrieDiff<D>
  {
    TxTrieDiff(mergeDiff(lhs.mainTrieDiff, rhs.mainTrieDiff),
               MergedAccDiffs(lhs.accTrieDiffs, rhs.accTrieDiffs, mergeDiff))
  }

  /** `merge_tx_trie_diff`: start from a copy of the left-hand map and fold
      in every entry of the right-hand one, merging where the address is
      already present and inserting where it is not. The map is iterated in
      no particular order. Both inputs are values and stay as they were. */
  method MergeTxTrieDiff<D>(lhs: TxTrieDiff<D>, rhs: TxTrieDiff<D>, mergeDiff: (D, D) -> D)
    returns (merged: TxTrieDiff<D>)
    ensures merged.mainTrieDiff == mergeDiff(lhs.mainTrieDiff, rhs.mainTrieDiff)
    ensures merged.accTrieDiffs.Keys == lhs.accTrieDiffs.Keys + rhs.accTrieDiffs.Keys
    ensures forall a :: a in lhs.accTrieDiffs && a !in rhs.accTrieDiffs ==>
      merged.accTrieDiffs[a] == lhs.accTrieDiffs[a]
    ensures forall a :: a !in lhs.accTrieDiffs && a in rhs.accTrieDiffs ==>
      merged.accTrieDiffs[a] == rhs.accTrieDiffs[a]
    ensures forall a :: a in lhs.accTrieDiffs && a in rhs.accTrieDiffs ==>
      merged.accTrieDiffs[a] == MergeAccTrieDiff(lhs.accTrieDiffs[a], rhs.accTrieDiffs[a], mergeDiff)
    ensures merged == MergedTxTrieDiff(lhs, rhs, mergeDiff)
  {
    var accTrieDiffs := lhs.accTrieDiffs;
    var todo := rhs.accTrieDiffs.Keys;
    while todo != {}
      invariant todo <= rhs.accTrieDiffs.Keys
      invariant accTrieDiffs.Keys == lhs.accTrieDiffs.Keys + (rhs.accTrieDiffs.Keys - todo)
      invariant forall a :: a in accTrieDiffs ==>
        accTrieDiffs[a] == if a in rhs.accTrieDiffs && a !in todo
                           then MergedAccDiffs(lhs.accTrieDiffs, rhs.accTrieDiffs, mergeDiff)[a]
                           else lhs.accTrieDiffs[a]
      decreases todo
    {
      var addr :| addr in todo;
      var diff := rhs.accTrieDiffs[addr];
      if addr in accTrieDiffs {
        accTrieDiffs := accTrieDiffs[addr := MergeAccTrieDiff(accTrieDiffs[addr], diff, mergeDiff)];
      } else {
        accTrieDiffs := accTrieDiffs[addr := diff];
      }
      todo := todo - {addr};
    }
    merged := TxTrieDiff(mergeDiff(lhs.mainTrieDiff, rhs.mainTrieDiff), accTrieDiffs);
    assert accTrieDiffs == MergedAccDiffs(lhs.accTrieDiffs, rhs.accTrieDiffs, mergeDiff);
  }

  /* ---------------------------------------------------------------------
     Properties of the merge
     --------------------------------------------------------------------- */

  /** Nonce and code hash are taken from the left-hand side only, so the
      merge of two account differences is symmetric exactly when the debug
      assertions' agreement holds and `merge_diff` is symmetric on the two
      storage differences. */
  lemma MergeAccSymmetricIff<D>(lhs: AccountTrieDiff<D>, rhs: AccountTrieDiff<D>, mergeDiff: (D, D) -> D)
    ensures MergeAccTrieDiff(lhs, rhs, mergeDiff) == MergeAccTrieDiff(rhs, lhs, mergeDiff)
      <==> && lhs.nonce == rhs.nonce
           && lhs.codeHash == rhs.codeHash
           && mergeDiff(lhs.stateTrieDiff, rhs.stateTrieDiff) == mergeDiff(rhs.stateTrieDiff, lhs.stateTrieDiff)
  {
  }

  /** Every account difference in the map is empty. */
  ghost predicate AllAccountsEmpty<D>(m: map<Address, AccountTrieDiff<D>>, diffIsEmpty: D -> bool)
  {
    forall a :: a in m ==> IsEmpty(m[a], diffIsEmpty)
  }

  /** When `merge_diff` of two empty storage differences is empty, merging
      two transaction differences whose account differences are all empty
      gives only empty account differences. */
  lemma MergeKeepsAccountsEmpty<D>(lhs: TxTrieDiff<D>, rhs: TxTrieDiff<D>,
                                   mergeDiff: (D, D) -> D, diffIsEmpty: D -> bool)
    requires forall x, y :: diffIsEmpty(x) && diffIsEmpty(y) ==> diffIsEmpty(mergeDiff(x, y))
    requires AllAccountsEmpty(lhs.accTrieDiffs, diffIsEmpty) && AllAccountsEmpty(rhs.accTrieDiffs, diffIsEmpty)
    ensures AllAccountsEmpty(MergedTxTrieDiff(lhs, rhs, mergeDiff).accTrieDiffs, diffIsEmpty)
  {
  }

  /** The debug assertions' agreement: both sides agree on the nonce and
      code hash of every address they share. */
  ghost predicate AgreeOnShared<D>(lhs: map<Address, AccountTrieDiff<D>>, rhs: map<Address, AccountTrieDiff<D>>)
  {
    forall a :: a in lhs && a in rhs ==>
      lhs[a].nonce == rhs[a].nonce && lhs[a].codeHash == rhs[a].codeHash
  }

  /** Under that agreement the merge keeps the nonce and code hash each
      side records for an address. So an account difference that is not
      empty because of its nonce or code hash stays not empty, whichever
      side it came from. */
  lemma MergeKeepsNoncesAndCodeHashes<D>(lhs: TxTrieDiff<D>, rhs: TxTrieDiff<D>,
                                         mergeDiff: (D, D) -> D, diffIsEmpty: D -> bool)
    requires AgreeOnShared(lhs.accTrieDiffs, rhs.accTrieDiffs)
    ensures forall a :: a in lhs.accTrieDiffs ==>
      && MergedTxTrieDiff(lhs, rhs, mergeDiff).accTrieDiffs[a].nonce == lhs.accTrieDiffs[a].nonce
      && MergedTxTrieDiff(lhs, rhs, mergeDiff).accTrieDiffs[a].codeHash == lhs.accTrieDiffs[a].codeHash
    ensures forall a :: a in rhs.accTrieDiffs ==>
      && MergedTxTrieDiff(lhs, rhs, mergeDiff).accTrieDiffs[a].nonce == rhs.accTrieDiffs[a].nonce
      && MergedTxTrieDiff(lhs, rhs, mergeDiff).accTrieDiffs[a].codeHash == rhs.accTrieDiffs[a].codeHash
    ensures forall a :: a in rhs.accTrieDiffs && (rhs.accTrieDiffs[a].nonce.Some? || rhs.accTrieDiffs[a].codeHash.Some?) ==>
      !IsEmpty(MergedTxTrieDiff(lhs, rhs, mergeDiff).accTrieDiffs[a], diffIsEmpty)
  {
  }

  /** Under the same agreement, and with a symmetric `merge_diff`, the order of
      the two transactions does not matter. */
  lemma MergeTxSymmetric<D>(lhs: TxTrieDiff<D>, rhs: TxTrieDiff<D>, mergeDiff: (D, D) -> D)
    requires AgreeOnShared(lhs.accTrieDiffs, rhs.accTrieDiffs)
    requires forall x, y :: mergeDiff(x, y) == mergeDiff(y, x)
    ensures MergedTxTrieDiff(lhs, rhs, mergeDiff) == MergedTxTrieDiff(rhs, lhs, mergeDiff)
  {
    var m1 := MergedAccDiffs(lhs.accTrieDiffs, rhs.accTrieDiffs, mergeDiff);
    var m2 := MergedAccDiffs(rhs.accTrieDiffs, lhs.accTrieDiffs, mergeDiff);
    forall a | a in m1 ensures a in m2 && m1[a] == m2[a] {
      if a in lhs.accTrieDiffs && a in rhs.accTrieDiffs {
        MergeAccSymmetricIff(lhs.accTrieDiffs[a], rhs.accTrieDiffs[a], mergeDiff);
      }
    }
    assert m1 == m2;
  }

  /** With an associative `merge_diff`, merging three transactions' differences
      does not depend on the grouping. */
  lemma MergeTxAssociative<D>(x: TxTrieDiff<D>, y: TxTrieDiff<D>, z: TxTrieDiff<D>, mergeDiff: (D, D) -> D)
    requires forall a, b, c :: mergeDiff(mergeDiff(a, b), c) == mergeDiff(a, mergeDiff(b, c))
    ensures MergedTxTrieDiff(MergedTxTrieDiff(x, y, mergeDiff), z, mergeDiff)
         == MergedTxTrieDiff(x, MergedTxTrieDiff(y, z, mergeDiff), mergeDiff)
  {
    var xy := MergedAccDiffs(x.accTrieDiffs, y.accTrieDiffs, mergeDiff);
    var yz := MergedAccDiffs(y.accTrieDiffs, z.accTrieDiffs, mergeDiff);
    var left := MergedAccDiffs(xy, z.accTrieDiffs, mergeDiff);
    var right := MergedAccDiffs(x.accTrieDiffs, yz, mergeDiff);
    forall a | a in left ensures a in right && left[a] == right[a] {
      if a in x.accTrieDiffs && a in y.accTrieDiffs && a in z.accTrieDiffs {
        var dx, dy, dz := x.accTrieDiffs[a].stateTrieDiff, y.accTrieDiffs[a].stateTrieDiff, z.accTrieDiffs[a].stateTrieDiff;
        assert mergeDiff(mergeDiff(dx, dy), dz) == mergeDiff(dx, mergeDiff(dy, dz));
      }
    }
    assert left == right;
  }

  /** Merging with a difference that touches no account and whose main
      difference is neutral for `merge_diff` gives back the left-hand side. */
  lemma MergeTxWithNothing<D>(lhs: TxTrieDiff<D>, neutral: D, mergeDiff: (D, D) -> D)
    requires mergeDiff(lhs.mainTrieDiff, neutral) == lhs.mainTrieDiff
    ensures MergedTxTrieDiff(lhs, TxTrieDiff(neutral, map[]), mergeDiff) == lhs
  {
    assert MergedAccDiffs(lhs.accTrieDiffs, map[], mergeDiff) == lhs.accTrieDiffs;
  }
}
