/** The nodes of the partial Merkle Patricia trie and the operations of its
    16-way branch node: slot access, value-hash lookup, the count of
    materialised children, the memoised digest, equality, and conversion to
    and from the branch node of a proof.

    Hashing (blake2b, `branch_node_hash`) is not modelled: a `Hasher` value
    supplies the three node hashes, and every property below holds for all of
    them. A pruned subtree is a bare `Hash` node whose digest is the stored
    hash itself. */
module Trie {
  import opened Common

  /** A key symbol, `U4` in the source. */
  type Nibble = n: int | 0 <= n < 16

  /** Number of child slots in a branch node. */
  const BRANCH_WIDTH: nat := 16

  datatype SubTree =
    | Hash(hash: H256)
    | Extension(nibbles: seq<Nibble>, child: SubTree)
    | Branch(node: BranchNode)
    | Leaf(nibbles: seq<Nibble>, value: H256)

  /** `children` has BRANCH_WIDTH slots (a fixed-size array in the source);
      `nodeHash` is the memo cell of `to_digest`. */
  datatype BranchNode = BranchNode(children: seq<Option<SubTree>>, nodeHash: Option<H256>)

  /** The hash functions of the three node kinds that are hashed. */
  datatype Hasher = Hasher(
    leaf: (seq<Nibble>, H256) -> H256,
    extension: (seq<Nibble>, H256) -> H256,
    branch: seq<Option<H256>> -> H256)

  /** Every branch node of `t` has exactly BRANCH_WIDTH slots, which the
      source's array type guarantees. */
  ghost predicate WellFormed(t: SubTree)
  {
    match t
    case Hash(_) => true
    case Leaf(_, _) => true
    case Extension(_, child) => WellFormed(child)
    case Branch(node) =>
      && |node.children| == BRANCH_WIDTH
      && forall i :: 0 <= i < |node.children| && node.children[i].Some? ==>
           WellFormed(node.children[i].value)
  }

  /* ---------------------------------------------------------------------
     Digests
     --------------------------------------------------------------------- */

  /** `to_digest` of a subtree: a branch answers from its memo cell when the
      cell is filled. */
  function Digest(t: SubTree, hs: Hasher): H256
    decreases t
  {
    match t
    case Hash(h) => h
    case Leaf(nibbles, value) => hs.leaf(nibbles, value)
    case Extension(nibbles, child) => hs.extension(nibbles, Digest(child, hs))
    case Branch(node) => CachedBranchDigest(node, hs)
  }

  function CachedBranchDigest(node: BranchNode, hs: Hasher): H256
    decreases node, 1
  {
    match node.nodeHash
    case Some(h) => h
    case None => hs.branch(ChildDigests(node, hs))
  }

  /** The digests of the children, slot by slot; an empty slot stays empty. */
  function ChildDigests(node: BranchNode, hs: Hasher): seq<Option<H256>>
    decreases node, 0
  {
    seq(|node.children|, i requires 0 <= i < |node.children| =>
      if node.children[i].Some? then Some(Digest(node.children[i].value, hs)) else None)
  }

  /** The digest recomputed from scratch, ignoring every memo cell: the
      reference the memoised digest is compared against. */
  function FreshDigest(t: SubTree, hs: Hasher): H256
    decreases t
  {
    match t
    case Hash(h) => h
    case Leaf(nibbles, value) => hs.leaf(nibbles, value)
    case Extension(nibbles, child) => hs.extension(nibbles, FreshDigest(child, hs))
    case Branch(node) => hs.branch(FreshChildDigests(node, hs))
  }

  function FreshChildDigests(node: BranchNode, hs: Hasher): seq<Option<H256>>
    decreases node
  {
    seq(|node.children|, i requires 0 <= i < |node.children| =>
      if node.children[i].Some? then Some(FreshDigest(node.children[i].value, hs)) else None)
  }

  /** A filled memo cell holds the hash of the children's digests. */
  ghost predicate BranchCacheOk(node: BranchNode, hs: Hasher)
  {
    node.nodeHash.Some? ==> node.nodeHash.value == hs.branch(ChildDigests(node, hs))
  }

  /** Every memo cell in `t` is consistent. */
  ghost predicate WellCached(t: SubTree, hs: Hasher)
  {
    match t
    case Hash(_) => true
    case Leaf(_, _) => true
    case Extension(_, child) => WellCached(child, hs)
    case Branch(node) =>
      && BranchCacheOk(node, hs)
      && forall i :: 0 <= i < |node.children| && node.children[i].Some? ==>
           WellCached(node.children[i].value, hs)
  }

  /** Memoisation is invisible: with consistent memo cells the digest is the
      one recomputed from scratch. */
  lemma {:induction false} MemoisedDigestIsFresh(t: SubTree, hs: Hasher)
    requires WellCached(t, hs)
    ensures Digest(t, hs) == FreshDigest(t, hs)
    decreases t
  {
    match t
    case Hash(_) =>
    case Leaf(_, _) =>
    case Extension(_, child) =>
      MemoisedDigestIsFresh(child, hs);
    case Branch(node) =>
      forall i | 0 <= i < |node.children| && node.children[i].Some?
        ensures Digest(node.children[i].value, hs) == FreshDigest(node.children[i].value, hs)
      {
        MemoisedDigestIsFresh(node.children[i].value, hs);
      }
      assert ChildDigests(node, hs) == FreshChildDigests(node, hs);
  }

  /** `to_digest` of a branch node. The memo cell is written through a shared
      reference in the source; here the node with its cell filled is
      returned. */
  method ToDigest(node: BranchNode, hs: Hasher) returns (h: H256, memo: BranchNode)
    ensures memo.children == node.children && memo.nodeHash == Some(h)
    ensures node.nodeHash.Some? ==> h == node.nodeHash.value
    ensures BranchCacheOk(node, hs) ==> h == hs.branch(ChildDigests(node, hs))
    ensures BranchCacheOk(node, hs) ==> BranchCacheOk(memo, hs)
    ensures h == Digest(Branch(node), hs)
  {
    if node.nodeHash.Some? {
      return node.nodeHash.value, node;
    }
    var digests := ChildDigests(node, hs);
    h := hs.branch(digests);
    memo := node.(nodeHash := Some(h));
    assert ChildDigests(memo, hs) == digests;
  }

  /* ---------------------------------------------------------------------
     Construction, slot access and equality
     --------------------------------------------------------------------- */

  /** `BranchNode::new`: the given slots and an empty memo cell, which is
      consistent whatever the hasher. */
  function NewBranch(children: seq<Option<SubTree>>): (node: BranchNode)
    ensures node.children == children && node.nodeHash.None?
    ensures forall hs :: BranchCacheOk(node, hs)
  {
    BranchNode(children, None)
  }

  /** `get_child`, with checked indexing in place of the unchecked access. */
  function GetChild(node: BranchNode, index: Nibble): Option<SubTree>
    requires |node.children| == BRANCH_WIDTH
  {
    node.children[index]
  }

  /** Writing `child` through `get_child_mut(index)`, with the memo cell
      cleared (see `WriteChildKeepingCache` for the source as written). */
  function SetChild(node: BranchNode, index: Nibble, child: Option<SubTree>): (r: BranchNode)
    requires |node.children| == BRANCH_WIDTH
    ensures |r.children| == BRANCH_WIDTH
    ensures GetChild(r, index) == child
    ensures forall j: Nibble :: j != index ==> GetChild(r, j) == GetChild(node, j)
    ensures forall hs :: BranchCacheOk(r, hs)
  {
    BranchNode(node.children[index := child], None)
  }

  /** Writing through `get_child_mut` exactly as the source does: the slot
      changes and a previously filled memo cell is kept. */
  function WriteChildKeepingCache(node: BranchNode, index: Nibble, child: Option<SubTree>): (r: BranchNode)
    requires |node.children| == BRANCH_WIDTH
    ensures r.children == SetChild(node, index, child).children
    ensures r.nodeHash == node.nodeHash
  {
    node.(children := node.children[index := child])
  }

  /** A node fresh from `BranchNode::new` has no memo cell, so writing into
      it as the source does is the corrected write. */
  lemma WriteIntoNewBranchIsSetChild(children: seq<Option<SubTree>>, index: Nibble, child: Option<SubTree>)
    requires |children| == BRANCH_WIDTH
    ensures WriteChildKeepingCache(NewBranch(children), index, child) == SetChild(NewBranch(children), index, child)
  {
  }

  /** The hasher used in the counterexample: a branch hashes to 1 when its
      first slot is occupied and to 0 otherwise. */
  function FirstSlotHasher(): Hasher
  {
    Hasher((n, v) => ZERO_HASH, (n, h) => ZERO_HASH,
           (ds: seq<Option<H256>>) => if |ds| > 0 && ds[0].Some? then 1 else 0)
  }

  function EmptySlots(): (slots: seq<Option<SubTree>>)
    ensures |slots| == BRANCH_WIDTH
  {
    seq(BRANCH_WIDTH, _ => None)
  }

  /** Witness: a node whose digest has been memoised keeps answering with
      the old digest after `Hash(5)` is written into slot 0 through
      `get_child_mut`, although its children now hash to something else.
      Clearing the cell on the write (`SetChild`) gives the digest of the
      new children. */
  lemma StaleDigestAfterChildWrite()
    ensures var hs := FirstSlotHasher();
            var node := BranchNode(EmptySlots(), Some(0));
            var written := WriteChildKeepingCache(node, 0, Some(Hash(5)));
            && BranchCacheOk(node, hs)
            && Digest(Branch(written), hs) == 0
            && FreshDigest(Branch(written), hs) == 1
            && !BranchCacheOk(written, hs)
            && Digest(Branch(SetChild(node, 0, Some(Hash(5)))), hs) == 1
  {
    var hs := FirstSlotHasher();
    var node := BranchNode(EmptySlots(), Some(0));
    assert ChildDigests(node, hs)[0] == None;
    var written := WriteChildKeepingCache(node, 0, Some(Hash(5)));
    assert ChildDigests(written, hs)[0] == Some(5);
    assert FreshChildDigests(written, hs)[0] == Some(5);
    var fixed := SetChild(node, 0, Some(Hash(5)));
    assert ChildDigests(fixed, hs)[0] == Some(5);
  }

  /** With the cell cleared on every write, a consistent node stays
      consistent when a consistent subtree is stored in one of its slots. */
  lemma SetChildKeepsCachesConsistent(node: BranchNode, index: Nibble, child: Option<SubTree>, hs: Hasher)
    requires |node.children| == BRANCH_WIDTH
    requires WellCached(Branch(node), hs)
    requires child.Some? ==> WellCached(child.value, hs)
    ensures WellCached(Branch(SetChild(node, index, child)), hs)
  {
    var r := SetChild(node, index, child);
    forall i | 0 <= i < |r.children| && r.children[i].Some?
      ensures WellCached(r.children[i].value, hs)
    {
      if i != index {
        assert r.children[i] == node.children[i];
      }
    }
  }

  /** `PartialEq`: two branch nodes are equal when their slots are, whatever
      their memo cells hold. Slots hold shared subtrees whose equality is
      derived, so a nested branch is compared by this same equality and
      memo cells are ignored at every depth. */
  predicate SameChildren(a: BranchNode, b: BranchNode)
    decreases a, 0
  {
    && |a.children| == |b.children|
    && forall i :: 0 <= i < |a.children| ==>
         && (a.children[i].Some? <==> b.children[i].Some?)
         && (a.children[i].Some? ==> SameTree(a.children[i].value, b.children[i].value))
  }

  /** The derived equality of subtrees, with branches compared by `SameChildren`. */
  predicate SameTree(a: SubTree, b: SubTree)
    decreases a
  {
    match a
    case Hash(h) => b == Hash(h)
    case Leaf(nibbles, value) => b == Leaf(nibbles, value)
    case Extension(nibbles, child) => b.Extension? && b.nibbles == nibbles && SameTree(child, b.child)
    case Branch(node) => b.Branch? && SameChildren(node, b.node)
  }

  /** Every subtree equals itself. */
  lemma {:induction false} SameTreeReflexive(t: SubTree)
    ensures SameTree(t, t)
    decreases t
  {
    match t
    case Hash(_) =>
    case Leaf(_, _) =>
    case Extension(_, child) =>
      SameTreeReflexive(child);
    case Branch(node) =>
      forall i | 0 <= i < |node.children| && node.children[i].Some?
        ensures SameTree(node.children[i].value, node.children[i].value)
      {
        SameTreeReflexive(node.children[i].value);
      }
  }

  /** Two branch nodes that differ only in their memo cells are equal. */
  lemma MemoCellIsIgnored(node: BranchNode, cell: Option<H256>)
    ensures SameChildren(node, node.(nodeHash := cell))
  {
    SameTreeReflexive(Branch(node));
  }

  /** The equality is symmetric. */
  lemma {:induction false} SameTreeSymmetric(a: SubTree, b: SubTree)
    requires SameTree(a, b)
    ensures SameTree(b, a)
    decreases a
  {
    match a
    case Hash(_) =>
    case Leaf(_, _) =>
    case Extension(_, child) =>
      SameTreeSymmetric(child, b.child);
    case Branch(node) =>
      forall i | 0 <= i < |b.node.children| && b.node.children[i].Some?
        ensures SameTree(b.node.children[i].value, node.children[i].value)
      {
        SameTreeSymmetric(node.children[i].value, b.node.children[i].value);
      }
  }

  /** The equality is transitive. */
  lemma {:induction false} SameTreeTransitive(a: SubTree, b: SubTree, c: SubTree)
    requires SameTree(a, b) && SameTree(b, c)
    ensures SameTree(a, c)
    decreases a
  {
    match a
    case Hash(_) =>
    case Leaf(_, _) =>
    case Extension(_, child) =>
      SameTreeTransitive(child, b.child, c.child);
    case Branch(node) =>
      forall i | 0 <= i < |node.children| && node.children[i].Some?
        ensures SameTree(node.children[i].value, c.node.children[i].value)
      {
        SameTreeTransitive(node.children[i].value, b.node.children[i].value, c.node.children[i].value);
      }
  }

  /** Witness: a nested branch with a filled memo cell equals the same
      branch with an empty one, although the two values differ
      structurally. */
  lemma NestedMemoCellsAreIgnored()
    ensures var inner := BranchNode(EmptySlots(), Some(7));
            var a := BranchNode(EmptySlots()[0 := Some(Branch(inner))], None);
            var b := BranchNode(EmptySlots()[0 := Some(Branch(inner.(nodeHash := None)))], None);
            SameChildren(a, b) && a != b
  {
    var inner := BranchNode(EmptySlots(), Some(7));
    var a := BranchNode(EmptySlots()[0 := Some(Branch(inner))], None);
    var b := BranchNode(EmptySlots()[0 := Some(Branch(inner.(nodeHash := None)))], None);
    MemoCellIsIgnored(inner, None);
    forall i | 1 <= i < |a.children| ensures a.children[i].None? && b.children[i].None? {
    }
    assert a.children[0] != b.children[0];
  }

  /** Equal subtrees have the same digest recomputed from scratch. */
  lemma {:induction false} SameTreeFreshDigest(a: SubTree, b: SubTree, hs: Hasher)
    requires SameTree(a, b)
    ensures FreshDigest(a, hs) == FreshDigest(b, hs)
    decreases a
  {
    match a
    case Hash(_) =>
    case Leaf(_, _) =>
    case Extension(_, child) =>
      SameTreeFreshDigest(child, b.child, hs);
    case Branch(node) =>
      var other := b.node;
      forall i | 0 <= i < |node.children| && node.children[i].Some?
        ensures FreshDigest(node.children[i].value, hs) == FreshDigest(other.children[i].value, hs)
      {
        SameTreeFreshDigest(node.children[i].value, other.children[i].value, hs);
      }
      assert FreshChildDigests(node, hs) == FreshChildDigests(other, hs);
  }

  /** Equality ignoring memo cells is sound for hashing: equal branches
      whose memo cells are consistent have the same memoised digest. */
  lemma EqualBranchesHaveEqualDigests(a: BranchNode, b: BranchNode, hs: Hasher)
    requires SameChildren(a, b)
    requires WellCached(Branch(a), hs) && WellCached(Branch(b), hs)
    ensures Digest(Branch(a), hs) == Digest(Branch(b), hs)
  {
    MemoisedDigestIsFresh(Branch(a), hs);
    MemoisedDigestIsFresh(Branch(b), hs);
    SameTreeFreshDigest(Branch(a), Branch(b), hs);
  }

  /* ---------------------------------------------------------------------
     value_hash and num_of_materialized_children
     --------------------------------------------------------------------- */

  /** `value_hash` of a branch node. The first nibble selects the slot; an
      empty slot means the value is zero, and an occupied one is asked with
      the rest of the key. `lookup` stands for the subtree's own
      `value_hash`, which is not part of this model. An empty key panics in
      the source, so it is excluded here. */
  function BranchValueHash(node: BranchNode, key: seq<Nibble>,
                           lookup: (SubTree, seq<Nibble>) -> Option<H256>): Option<H256>
    requires |node.children| == BRANCH_WIDTH
    requires |key| > 0
  {
    match GetChild(node, key[0])
    case Some(child) => lookup(child, key[1..])
    case None => Some(ZERO_HASH)
  }

  /** Reading a value right after storing a slot: the written slot answers
      for keys that start with its nibble, every other key is answered as
      before, and the memo cell plays no part. */
  lemma ValueHashAfterSetChild(node: BranchNode, index: Nibble, child: Option<SubTree>,
                               key: seq<Nibble>, lookup: (SubTree, seq<Nibble>) -> Option<H256>)
    requires |node.children| == BRANCH_WIDTH
    requires |key| > 0
    ensures key[0] == index && child.None? ==>
      BranchValueHash(SetChild(node, index, child), key, lookup) == Some(ZERO_HASH)
    ensures key[0] == index && child.Some? ==>
      BranchValueHash(SetChild(node, index, child), key, lookup) == lookup(child.value, key[1..])
    ensures key[0] != index ==>
      BranchValueHash(SetChild(node, index, child), key, lookup) == BranchValueHash(node, key, lookup)
    ensures BranchValueHash(node.(nodeHash := None), key, lookup) == BranchValueHash(node, key, lookup)
  {
  }

  /** A slot is materialised when it holds a subtree that is not a bare hash. */
  predicate Materialized(slot: Option<SubTree>)
  {
    slot.Some? && !slot.value.Hash?
  }

  function CountMaterialized(slots: seq<Option<SubTree>>): (n: nat)
    ensures n <= |slots|
    ensures n == 0 <==> forall i :: 0 <= i < |slots| ==> !Materialized(slots[i])
    ensures n == |slots| <==> forall i :: 0 <= i < |slots| ==> Materialized(slots[i])
  {
    if slots == [] then 0
    else
      assert forall i :: 1 <= i < |slots| ==> slots[i] == slots[1..][i - 1];
      (if Materialized(slots[0]) then 1 else 0) + CountMaterialized(slots[1..])
  }

  /** `num_of_materialized_children`. */
  function NumOfMaterializedChildren(node: BranchNode): (n: nat)
    requires |node.children| == BRANCH_WIDTH
    ensures n <= BRANCH_WIDTH
    ensures n == 0 <==> forall i :: 0 <= i < BRANCH_WIDTH ==> !Materialized(node.children[i])
  {
    CountMaterialized(node.children)
  }

  /** Storing into one slot changes the count by what leaves and what
      enters that slot; in particular replacing a materialised child by its
      hash lowers the count by one. */
  lemma {:induction false} CountAfterUpdate(slots: seq<Option<SubTree>>, i: nat, slot: Option<SubTree>)
    requires i < |slots|
    ensures CountMaterialized(slots[i := slot])
         == CountMaterialized(slots)
            - (if Materialized(slots[i]) then 1 else 0)
            + (if Materialized(slot) then 1 else 0)
    decreases slots
  {
    if i == 0 {
      assert slots[i := slot][1..] == slots[1..];
    } else {
      CountAfterUpdate(slots[1..], i - 1, slot);
      assert slots[i := slot][1..] == slots[1..][i - 1 := slot];
    }
  }

  lemma NumOfMaterializedAfterSetChild(node: BranchNode, index: Nibble, child: Option<SubTree>)
    requires |node.children| == BRANCH_WIDTH
    ensures NumOfMaterializedChildren(SetChild(node, index, child))
         == NumOfMaterializedChildren(node)
            - (if Materialized(GetChild(node, index)) then 1 else 0)
            + (if Materialized(child) then 1 else 0)
  {
    CountAfterUpdate(node.children, index, child);
  }

  /* ---------------------------------------------------------------------
     Conversion to and from the branch node of a proof
     --------------------------------------------------------------------- */

  /** The branch node of a proof: BRANCH_WIDTH optional children of the
      proof's own subtree type `P`. */
  datatype ProofBranch<P> = ProofBranch(children: seq<Option<P>>)

  /** `to` is `from` slot by slot: same occupancy, each occupied slot
      converted by `convert`. */
  ghost predicate ConvertsSlots<A, B>(from: seq<Option<A>>, to: seq<Option<B>>, convert: A -> B)
  {
    && |to| == |from|
    && forall i :: 0 <= i < |from| ==>
         && (to[i].Some? <==> from[i].Some?)
         && (from[i].Some? ==> to[i].value == convert(from[i].value))
  }

  /** `From<proof::BranchNode>`: fills a fresh 16-slot array, converting each
      occupied proof child with `convert` (the subtree conversion, not part
      of this model). */
  method FromProof<P>(input: ProofBranch<P>, convert: P -> SubTree) returns (node: BranchNode)
    requires |input.children| == BRANCH_WIDTH
    ensures ConvertsSlots(input.children, node.children, convert)
    ensures node.nodeHash.None?
  {
    var children := new Option<SubTree>[BRANCH_WIDTH](_ => None);
    for i := 0 to BRANCH_WIDTH
      invariant forall j :: 0 <= j < i ==>
        && (children[j].Some? <==> input.children[j].Some?)
        && (input.children[j].Some? ==> children[j].value == convert(input.children[j].value))
      invariant forall j :: i <= j < BRANCH_WIDTH ==> children[j].None?
    {
      if input.children[i].Some? {
        children[i] := Some(convert(input.children[i].value));
      }
    }
    node := BranchNode(children[..], None);
  }

  /** `Into<proof::BranchNode>`: the same loop in the other direction. */
  method IntoProof<P>(node: BranchNode, convert: SubTree -> P) returns (output: ProofBranch<P>)
    requires |node.children| == BRANCH_WIDTH
    ensures ConvertsSlots(node.children, output.children, convert)
  {
    var children := new Option<P>[BRANCH_WIDTH](_ => None);
    for i := 0 to BRANCH_WIDTH
      invariant forall j :: 0 <= j < i ==>
        && (children[j].Some? <==> node.children[j].Some?)
        && (node.children[j].Some? ==> children[j].value == convert(node.children[j].value))
      invariant forall j :: i <= j < BRANCH_WIDTH ==> children[j].None?
    {
      if node.children[i].Some? {
        children[i] := Some(convert(node.children[i].value));
      }
    }
    output := ProofBranch(children[..]);
  }

  /** Converting slot by slot and back, with conversions that undo each
      other, gives back the slots started from. For a branch node this is
      equality in the sense of `SameChildren`: the memo cell is not carried
      over. */
  lemma ConvertSlotsRoundTrip<A, B>(a: seq<Option<A>>, b: seq<Option<B>>, c: seq<Option<A>>,
                                    there: A -> B, back: B -> A)
    requires ConvertsSlots(a, b, there) && ConvertsSlots(b, c, back)
    requires forall x :: back(there(x)) == x
    ensures c == a
  {
    assert |c| == |a|;
    forall i | 0 <= i < |a| ensures c[i] == a[i] {
      if a[i].Some? {
        assert c[i].value == back(there(a[i].value));
      }
    }
  }
}
