/** `prune_key`: replace the subtree that lies just past the first
    `kept_prefix_len` nibbles of a key by a bare hash node, keeping the path
    above it. The walk down records the path on an explicit stack of
    `TempNode` frames; the rebuild pops the stack bottom-up. */
module Prune {
  import opened Common
  import opened Trie

  datatype PartialTrie = PartialTrie(root: Option<SubTree>)

  datatype PruneError =
    | EmptyRoot           // "Cannot prune, root is empty"
    | AlreadyPruned       // "Branch has already been pruned."
    | BranchHoldsNoValue  // "Branch node does not store value."

  /** A frame of the stack kept on the way down. */
  datatype TempNode =
    | TempSubTree(tree: SubTree)
    | TempExtension(nibbles: seq<Nibble>)
    | TempBranch(node: BranchNode, index: Nibble)

  /** What the walk from one node down yields: the trie is to be returned as
      it was, an error, or the rebuilt subtree. */
  datatype Walk = Unchanged | Failed(error: PruneError) | Rebuilt(tree: SubTree)

  /* ---------------------------------------------------------------------
     Frames
     --------------------------------------------------------------------- */

  /** How many key nibbles a frame consumes. */
  function Contribution(frame: TempNode): nat
  {
    match frame
    case TempSubTree(_) => 0
    case TempExtension(nibbles) => |nibbles|
    case TempBranch(_, _) => 1
  }

  /** The nibbles a frame consumes. */
  function Consumes(frame: TempNode): (s: seq<Nibble>)
    ensures |s| == Contribution(frame)
  {
    match frame
    case TempSubTree(_) => []
    case TempExtension(nibbles) => nibbles
    case TempBranch(_, index) => [index]
  }

  /** `temp_node_prefix_len` as a function of the stack. */
  function PrefixLen(frames: seq<TempNode>): nat
  {
    if frames == [] then 0 else Contribution(frames[0]) + PrefixLen(frames[1..])
  }

  /** The part of the key consumed by the stack. */
  function Consumed(frames: seq<TempNode>): seq<Nibble>
  {
    if frames == [] then [] else Consumes(frames[0]) + Consumed(frames[1..])
  }

  /** A branch frame holds a node with all its slots. */
  ghost predicate FrameOk(frame: TempNode)
  {
    frame.TempBranch? ==> |frame.node.children| == BRANCH_WIDTH
  }

  ghost predicate FramesOk(frames: seq<TempNode>)
  {
    forall j :: 0 <= j < |frames| ==> FrameOk(frames[j])
  }

  /** One step of the rebuild: put `below` under the frame. */
  function Attach(frame: TempNode, below: SubTree): SubTree
    requires FrameOk(frame)
  {
    match frame
    case TempSubTree(tree) => tree
    case TempExtension(nibbles) => Extension(nibbles, below)
    case TempBranch(node, index) => Branch(SetChild(node, index, Some(below)))
  }

  /** The rebuild: the frames applied from the last to the first. */
  function Rebuild(frames: seq<TempNode>, bottom: SubTree): SubTree
    requires FramesOk(frames)
  {
    if frames == [] then bottom
    else Attach(frames[0], Rebuild(frames[1..], bottom))
  }

  function WrapWalk(frames: seq<TempNode>, w: Walk): Walk
    requires FramesOk(frames)
  {
    match w
    case Rebuilt(tree) => Rebuilt(Rebuild(frames, tree))
    case _ => w
  }

  lemma RebuildOne(frame: TempNode, bottom: SubTree)
    requires FrameOk(frame)
    ensures FramesOk([frame])
    ensures Rebuild([frame], bottom) == Attach(frame, bottom)
  {
    assert [frame][1..] == [];
  }

  /** Pushing a frame adds its nibbles to the consumed prefix, and the
      rebuild handles it first. */
  lemma {:induction false} PushFrame(frames: seq<TempNode>, frame: TempNode, bottom: SubTree)
    requires FramesOk(frames) && FrameOk(frame)
    ensures FramesOk(frames + [frame])
    ensures PrefixLen(frames + [frame]) == PrefixLen(frames) + Contribution(frame)
    ensures Consumed(frames + [frame]) == Consumed(frames) + Consumes(frame)
    ensures Rebuild(frames + [frame], bottom) == Rebuild(frames, Attach(frame, bottom))
    decreases |frames|
  {
    if frames == [] {
      assert frames + [frame] == [frame];
      RebuildOne(frame, bottom);
    } else {
      assert (frames + [frame])[1..] == frames[1..] + [frame];
      PushFrame(frames[1..], frame, bottom);
      assert Consumed(frames + [frame])
          == Consumes(frames[0]) + (Consumed(frames[1..]) + Consumes(frame));
    }
  }

  lemma WrapWalkPush(frames: seq<TempNode>, frame: TempNode, w: Walk)
    requires FramesOk(frames) && FrameOk(frame)
    ensures FramesOk([frame]) && FramesOk(frames + [frame])
    ensures WrapWalk(frames, WrapWalk([frame], w)) == WrapWalk(frames + [frame], w)
  {
    RebuildOne(frame, Hash(0));
    PushFrame(frames, frame, Hash(0));
    if w.Rebuilt? {
      RebuildOne(frame, w.tree);
      PushFrame(frames, frame, w.tree);
    }
  }

  /** A walk wrapped in a single frame. */
  lemma WrapOne(frame: TempNode, w: Walk)
    requires FrameOk(frame)
    ensures FramesOk([frame])
    ensures WrapWalk([frame], w) == if w.Rebuilt? then Rebuilt(Attach(frame, w.tree)) else w
  {
    RebuildOne(frame, Hash(0));
    if w.Rebuilt? {
      RebuildOne(frame, w.tree);
    }
  }

  /* ---------------------------------------------------------------------
     The path recorded by the stack
     --------------------------------------------------------------------- */

  /** `frame` records the step from `parent` to `child`: an extension with the
      frame's nibbles, or a branch whose slot `index` holds `child`, recorded
      as a fresh node with the same slots. */
  ghost predicate Descends(parent: SubTree, frame: TempNode, child: SubTree)
  {
    match frame
    case TempSubTree(_) => false
    case TempExtension(nibbles) => parent == Extension(nibbles, child)
    case TempBranch(node, index) =>
      && parent.Branch?
      && |parent.node.children| == BRANCH_WIDTH
      && node == NewBranch(parent.node.children)
      && parent.node.children[index] == Some(child)
  }

  /** `nodes` lists the nodes passed from `t` down to `cur`, both
      included, and `frames` records exactly the steps between them. */
  ghost predicate PathTo(t: SubTree, nodes: seq<SubTree>, frames: seq<TempNode>, cur: SubTree)
  {
    && |nodes| == |frames| + 1
    && nodes[0] == t
    && nodes[|frames|] == cur
    && forall j :: 0 <= j < |frames| ==> Descends(nodes[j], frames[j], nodes[j + 1])
  }

  lemma PathFramesOk(t: SubTree, nodes: seq<SubTree>, frames: seq<TempNode>, cur: SubTree)
    requires PathTo(t, nodes, frames, cur)
    ensures FramesOk(frames)
  {
    forall j | 0 <= j < |frames|
      ensures FrameOk(frames[j])
    {
      assert Descends(nodes[j], frames[j], nodes[j + 1]);
    }
  }

  /** The rebuild writes a branch frame with `SetChild`, while the source
      writes through `get_child_mut`, which keeps the memo cell. Every branch
      frame of a recorded path is fresh from `BranchNode::new`, so the two
      writes give the same node. */
  lemma RecordedFramesWriteAsSource(t: SubTree, nodes: seq<SubTree>, frames: seq<TempNode>, cur: SubTree,
                                    j: nat, below: SubTree)
    requires PathTo(t, nodes, frames, cur) && j < |frames| && frames[j].TempBranch?
    ensures FrameOk(frames[j])
    ensures Attach(frames[j], below)
         == Branch(WriteChildKeepingCache(frames[j].node, frames[j].index, Some(below)))
  {
    assert Descends(nodes[j], frames[j], nodes[j + 1]);
    WriteIntoNewBranchIsSetChild(nodes[j].node.children, frames[j].index, Some(below));
  }

  /** Below at most `kept` consumed nibbles, the walk through a recorded
      step is the walk from the node below, wrapped in that step's frame. */
  lemma WalkThroughFrame(cur: SubTree, curKey: seq<Nibble>, len: nat, kept: nat, hs: Hasher,
                         frame: TempNode, next: SubTree, nextKey: seq<Nibble>)
    requires WellFormed(cur) && len <= kept
    requires Descends(cur, frame, next) && curKey == Consumes(frame) + nextKey
    ensures FrameOk(frame) && WellFormed(next)
    ensures PruneWalk(cur, curKey, len, kept, hs)
         == WrapWalk([frame], PruneWalk(next, nextKey, len + Contribution(frame), kept, hs))
  {
    match frame {
      case TempExtension(nibbles) =>
        assert curKey[|nibbles|..] == nextKey;
      case TempBranch(node, index) =>
        assert curKey[0] == index && curKey[1..] == nextKey;
        assert cur.node.children[index].Some?;
    }
  }

  /** One turn of the walk loop, while at most `kept` nibbles are consumed:
      one frame is pushed for the step from `cur` to `next`, and the
      loop's invariant holds again (`whole` is the walk from the root). */
  lemma StepDown(whole: Walk, key: seq<Nibble>, kept: nat, hs: Hasher,
                 frames: seq<TempNode>, cur: SubTree, curKey: seq<Nibble>,
                 frame: TempNode, next: SubTree, nextKey: seq<Nibble>)
    requires WellFormed(cur) && FramesOk(frames)
    requires PrefixLen(frames) <= kept
    requires key == Consumed(frames) + curKey
    requires whole == WrapWalk(frames, PruneWalk(cur, curKey, PrefixLen(frames), kept, hs))
    requires Descends(cur, frame, next) && curKey == Consumes(frame) + nextKey
    ensures WellFormed(next)
    ensures FramesOk(frames + [frame])
    ensures PrefixLen(frames + [frame]) == PrefixLen(frames) + Contribution(frame)
    ensures whole == WrapWalk(frames + [frame], PruneWalk(next, nextKey, PrefixLen(frames + [frame]), kept, hs))
  {
    var len := PrefixLen(frames);
    var w := PruneWalk(next, nextKey, len + Contribution(frame), kept, hs);
    WalkThroughFrame(cur, curKey, len, kept, hs, frame, next, nextKey);
    WrapWalkPush(frames, frame, w);
    PushFrame(frames, frame, Hash(0));
  }

  /** The key splits at the stack top the same way after a push. */
  lemma KeyStep(key: seq<Nibble>, frames: seq<TempNode>, curKey: seq<Nibble>, frame: TempNode, nextKey: seq<Nibble>)
    requires FramesOk(frames) && FrameOk(frame)
    requires key == Consumed(frames) + curKey && curKey == Consumes(frame) + nextKey
    ensures key == Consumed(frames + [frame]) + nextKey
  {
    PushFrame(frames, frame, Hash(0));
    assert Consumed(frames) + curKey == (Consumed(frames) + Consumes(frame)) + nextKey;
  }

  /** Where the walk loop returns early, the walk from the root ends in the
      same outcome: the frames above are only applied to a rebuilt subtree. */
  lemma WalkStops(trie: PartialTrie, key: seq<Nibble>, kept: nat, hs: Hasher,
                  frames: seq<TempNode>, cur: SubTree, curKey: seq<Nibble>)
    requires trie.root.Some? && WellFormed(trie.root.value) && kept > 0
    requires WellFormed(cur) && FramesOk(frames) && PrefixLen(frames) <= kept
    requires PruneWalk(trie.root.value, key, 0, kept, hs)
          == WrapWalk(frames, PruneWalk(cur, curKey, PrefixLen(frames), kept, hs))
    ensures cur.Hash? ==> PruneKeySpec(trie, key, kept, hs) == Err(AlreadyPruned)
    ensures cur.Leaf? ==> PruneKeySpec(trie, key, kept, hs) == Ok(trie)
    ensures cur.Extension? && !(cur.nibbles <= curKey) ==> PruneKeySpec(trie, key, kept, hs) == Ok(trie)
    ensures cur.Branch? && curKey == [] ==> PruneKeySpec(trie, key, kept, hs) == Err(BranchHoldsNoValue)
    ensures cur.Branch? && curKey != [] && GetChild(cur.node, curKey[0]).None? ==>
      PruneKeySpec(trie, key, kept, hs) == Ok(trie)
  {
  }

  /* ---------------------------------------------------------------------
     The specification of the walk
     --------------------------------------------------------------------- */

  /** The walk from `t`, reached after `consumed` key nibbles, with `key`
      the nibbles still to read. Once more than `kept` nibbles are consumed
      the subtree reached becomes a bare hash; before that, a hash node is an
      error, a leaf, a diverging extension or an empty slot leaves the trie
      as it was, and a branch with no nibble left to read is an error. */
  function PruneWalk(t: SubTree, key: seq<Nibble>, consumed: nat, kept: nat, hs: Hasher): Walk
    requires WellFormed(t)
    decreases t
  {
    if consumed > kept then Rebuilt(Hash(Digest(t, hs)))
    else
      match t
      case Hash(_) => Failed(AlreadyPruned)
      case Leaf(_, _) => Unchanged
      case Extension(nibbles, child) =>
        if nibbles <= key then
          WrapWalk([TempExtension(nibbles)],
                   PruneWalk(child, key[|nibbles|..], consumed + |nibbles|, kept, hs))
        else Unchanged
      case Branch(node) =>
        if key == [] then Failed(BranchHoldsNoValue)
        else
          match GetChild(node, key[0])
          case None => Unchanged
          case Some(child) =>
            WrapWalk([TempBranch(NewBranch(node.children), key[0])],
                     PruneWalk(child, key[1..], consumed + 1, kept, hs))
  }

  /** The result of `prune_key`. */
  function PruneKeySpec(trie: PartialTrie, key: seq<Nibble>, kept: nat, hs: Hasher): Result<PartialTrie, PruneError>
    requires trie.root.Some? ==> WellFormed(trie.root.value)
  {
    match trie.root
    case None => Err(EmptyRoot)
    case Some(root) =>
      if kept == 0 then Ok(PartialTrie(Some(Hash(Digest(root, hs)))))
      else
        match PruneWalk(root, key, 0, kept, hs)
        case Unchanged => Ok(trie)
        case Failed(e) => Err(e)
        case Rebuilt(tree) => Ok(PartialTrie(Some(tree)))
  }

  /* ---------------------------------------------------------------------
     The imperative walk and rebuild
     --------------------------------------------------------------------- */

  method PruneKey(trie: PartialTrie, key: seq<Nibble>, keptPrefixLen: nat, hs: Hasher)
    returns (r: Result<PartialTrie, PruneError>)
    requires trie.root.Some? ==> WellFormed(trie.root.value)
    ensures r == PruneKeySpec(trie, key, keptPrefixLen, hs)
    ensures trie.root.None? ==> r == Err(EmptyRoot)
    ensures trie.root.Some? && keptPrefixLen == 0 ==>
      r == Ok(PartialTrie(Some(Hash(Digest(trie.root.value, hs)))))
  {
    if trie.root.None? {
      return Err(EmptyRoot);
    }
    var root := trie.root.value;
    if keptPrefixLen == 0 {
      return Ok(PartialTrie(Some(Hash(Digest(root, hs)))));
    }

    var tempNodes: seq<TempNode> := [];
    var tempNodePrefixLen: nat := 0;
    var curKey := key;
    var cur := root;

    while tempNodePrefixLen <= keptPrefixLen
      invariant WellFormed(cur)
      invariant FramesOk(tempNodes)
      invariant tempNodePrefixLen == PrefixLen(tempNodes)
      invariant key == Consumed(tempNodes) + curKey
      invariant PruneWalk(root, key, 0, keptPrefixLen, hs)
             == WrapWalk(tempNodes, PruneWalk(cur, curKey, tempNodePrefixLen, keptPrefixLen, hs))
      decreases cur
    {
      WalkStops(trie, key, keptPrefixLen, hs, tempNodes, cur, curKey);
      var frame: TempNode;
      var next: SubTree;
      var nextKey: seq<Nibble>;
      match cur {
        case Hash(_) =>
          return Err(AlreadyPruned);
        case Leaf(_, _) =>
          return Ok(trie);
        case Extension(nibbles, child) =>
          if !(nibbles <= curKey) {
            return Ok(trie);
          }
          frame, next, nextKey := TempExtension(nibbles), child, curKey[|nibbles|..];
        case Branch(node) =>
          if curKey == [] {
            return Err(BranchHoldsNoValue);
          }
          frame := TempBranch(NewBranch(node.children), curKey[0]);
          match GetChild(node, curKey[0]) {
            case None =>
              return Ok(trie);
            case Some(child) =>
              next, nextKey := child, curKey[1..];
          }
      }
      StepDown(PruneWalk(root, key, 0, keptPrefixLen, hs), key, keptPrefixLen, hs,
               tempNodes, cur, curKey, frame, next, nextKey);
      KeyStep(key, tempNodes, curKey, frame, nextKey);
      tempNodes := tempNodes + [frame];
      tempNodePrefixLen := tempNodePrefixLen + Contribution(frame);
      cur, curKey := next, nextKey;
    }

    var bottom := Hash(Digest(cur, hs));
    PushFrame(tempNodes, TempSubTree(bottom), root);
    tempNodes := tempNodes + [TempSubTree(bottom)];

    var i := |tempNodes|;
    while i > 0
      invariant 0 <= i <= |tempNodes|
      invariant root == Rebuild(tempNodes[i..], trie.root.value)
    {
      i := i - 1;
      assert tempNodes[i..][1..] == tempNodes[i + 1..];
      match tempNodes[i] {
        case TempSubTree(t) =>
          root := t;
        case TempExtension(nibbles) =>
          root := Extension(nibbles, root);
        case TempBranch(node, index) =>
          root := Branch(SetChild(node, index, Some(root)));
      }
    }
    r := Ok(PartialTrie(Some(root)));
  }

  /* ---------------------------------------------------------------------
     Properties of pruning
     --------------------------------------------------------------------- */

  /** The rebuilt subtree is well formed and hashes to the digest of the
      subtree it replaces, provided the memo cells are consistent. */
  lemma {:induction false} PruneWalkPreservesDigest(t: SubTree, key: seq<Nibble>, consumed: nat, kept: nat, hs: Hasher)
    requires WellFormed(t) && WellCached(t, hs)
    ensures PruneWalk(t, key, consumed, kept, hs).Rebuilt? ==>
      && WellFormed(PruneWalk(t, key, consumed, kept, hs).tree)
      && Digest(PruneWalk(t, key, consumed, kept, hs).tree, hs) == Digest(t, hs)
    decreases t
  {
    if consumed <= kept {
      match t
      case Hash(_) =>
      case Leaf(_, _) =>
      case Extension(nibbles, child) =>
        if nibbles <= key {
          PruneWalkPreservesDigest(child, key[|nibbles|..], consumed + |nibbles|, kept, hs);
          WrapOne(TempExtension(nibbles), PruneWalk(child, key[|nibbles|..], consumed + |nibbles|, kept, hs));
        }
      case Branch(node) =>
        if key != [] && GetChild(node, key[0]).Some? {
          var child := GetChild(node, key[0]).value;
          var w := PruneWalk(child, key[1..], consumed + 1, kept, hs);
          PruneWalkPreservesDigest(child, key[1..], consumed + 1, kept, hs);
          WrapOne(TempBranch(NewBranch(node.children), key[0]), w);
          if w.Rebuilt? {
            var rebuilt := SetChild(NewBranch(node.children), key[0], Some(w.tree));
            assert PruneWalk(t, key, consumed, kept, hs).tree == Branch(rebuilt);
            assert ChildDigests(rebuilt, hs) == ChildDigests(node, hs);
            forall i | 0 <= i < |rebuilt.children| && rebuilt.children[i].Some?
              ensures WellFormed(rebuilt.children[i].value)
            {
              if i != key[0] {
                assert rebuilt.children[i] == node.children[i];
              }
            }
          }
        }
    }
  }

  /** With consistent memo cells, a successful prune keeps the root digest:
      a pruned trie still commits to the same state. */
  lemma PruneKeepsRootDigest(trie: PartialTrie, key: seq<Nibble>, kept: nat, hs: Hasher)
    requires trie.root.Some? && WellFormed(trie.root.value) && WellCached(trie.root.value, hs)
    ensures PruneKeySpec(trie, key, kept, hs).Ok? ==>
      && PruneKeySpec(trie, key, kept, hs).value.root.Some?
      && Digest(PruneKeySpec(trie, key, kept, hs).value.root.value, hs) == Digest(trie.root.value, hs)
  {
    PruneWalkPreservesDigest(trie.root.value, key, 0, kept, hs);
  }

  /** Walking the rebuilt subtree again with the same key and prefix gives
      it back unchanged. */
  lemma {:induction false} PruneWalkIdempotent(t: SubTree, key: seq<Nibble>, consumed: nat, kept: nat, hs: Hasher)
    requires WellFormed(t)
    ensures PruneWalk(t, key, consumed, kept, hs).Rebuilt? ==>
      && WellFormed(PruneWalk(t, key, consumed, kept, hs).tree)
      && PruneWalk(PruneWalk(t, key, consumed, kept, hs).tree, key, consumed, kept, hs)
         == PruneWalk(t, key, consumed, kept, hs)
    decreases t
  {
    if consumed <= kept {
      match t
      case Hash(_) =>
      case Leaf(_, _) =>
      case Extension(nibbles, child) =>
        if nibbles <= key {
          PruneWalkIdempotent(child, key[|nibbles|..], consumed + |nibbles|, kept, hs);
          WrapOne(TempExtension(nibbles), PruneWalk(child, key[|nibbles|..], consumed + |nibbles|, kept, hs));
        }
      case Branch(node) =>
        if key != [] && GetChild(node, key[0]).Some? {
          PruneWalkIdempotent(GetChild(node, key[0]).value, key[1..], consumed + 1, kept, hs);
          RebuiltBranchIsStable(t, key, consumed, kept, hs);
        }
    }
  }

  /** The branch step of `PruneWalkIdempotent`: if the walk below the slot
      is stable, so is the walk through the rebuilt branch. */
  lemma RebuiltBranchIsStable(t: SubTree, key: seq<Nibble>, consumed: nat, kept: nat, hs: Hasher)
    requires WellFormed(t) && t.Branch? && consumed <= kept && key != [] && GetChild(t.node, key[0]).Some?
    requires var w := PruneWalk(GetChild(t.node, key[0]).value, key[1..], consumed + 1, kept, hs);
      w.Rebuilt? ==> WellFormed(w.tree) && PruneWalk(w.tree, key[1..], consumed + 1, kept, hs) == w
    ensures PruneWalk(t, key, consumed, kept, hs).Rebuilt? ==>
      && WellFormed(PruneWalk(t, key, consumed, kept, hs).tree)
      && PruneWalk(PruneWalk(t, key, consumed, kept, hs).tree, key, consumed, kept, hs)
         == PruneWalk(t, key, consumed, kept, hs)
  {
    var node := t.node;
    var w := PruneWalk(GetChild(node, key[0]).value, key[1..], consumed + 1, kept, hs);
    WrapOne(TempBranch(NewBranch(node.children), key[0]), w);
    if w.Rebuilt? {
      var rebuilt := SetChild(NewBranch(node.children), key[0], Some(w.tree));
      assert PruneWalk(t, key, consumed, kept, hs).tree == Branch(rebuilt);
      forall i | 0 <= i < |rebuilt.children| && rebuilt.children[i].Some?
        ensures WellFormed(rebuilt.children[i].value)
      {
        if i != key[0] {
          assert rebuilt.children[i] == node.children[i];
        }
      }
      assert GetChild(rebuilt, key[0]) == Some(w.tree);
      WrapOne(TempBranch(NewBranch(rebuilt.children), key[0]), w);
      assert SetChild(NewBranch(rebuilt.children), key[0], Some(w.tree)) == rebuilt;
    }
  }

  /** Pruning the same key to the same prefix a second time changes
      nothing. */
  lemma PruneIsIdempotent(trie: PartialTrie, key: seq<Nibble>, kept: nat, hs: Hasher)
    requires trie.root.Some? ==> WellFormed(trie.root.value)
    ensures PruneKeySpec(trie, key, kept, hs).Ok? ==>
      var pruned := PruneKeySpec(trie, key, kept, hs).value;
      && (pruned.root.Some? ==> WellFormed(pruned.root.value))
      && PruneKeySpec(pruned, key, kept, hs) == Ok(pruned)
  {
    if trie.root.Some? && kept > 0 {
      PruneWalkIdempotent(trie.root.value, key, 0, kept, hs);
    }
  }

  /** Adding a step on top of a recorded path. */
  lemma PrependStep(t: SubTree, frame: TempNode, child: SubTree,
                    path: seq<SubTree>, frames: seq<TempNode>, cur: SubTree)
    requires Descends(t, frame, child)
    requires PathTo(child, path, frames, cur)
    ensures PathTo(t, [t] + path, [frame] + frames, cur)
  {
    var path' := [t] + path;
    var frames' := [frame] + frames;
    forall j | 0 <= j < |frames'|
      ensures Descends(path'[j], frames'[j], path'[j + 1])
    {
      if j > 0 {
        assert path'[j] == path[j - 1] && frames'[j] == frames[j - 1] && path'[j + 1] == path[j];
      }
    }
  }

  /** Stacking one more frame on top keeps every proper prefix of the stack
      within the kept length. */
  lemma PrefixesWithinKept(frame: TempNode, fs: seq<TempNode>, consumed: nat, kept: nat)
    requires consumed <= kept
    requires forall j :: 0 <= j < |fs| ==> consumed + Contribution(frame) + PrefixLen(fs[..j]) <= kept
    ensures forall j :: 0 <= j < |[frame] + fs| ==> consumed + PrefixLen(([frame] + fs)[..j]) <= kept
  {
    var frames := [frame] + fs;
    forall j | 0 <= j < |frames|
      ensures consumed + PrefixLen(frames[..j]) <= kept
    {
      if j > 0 {
        assert frames[..j][1..] == fs[..j - 1];
      }
    }
  }

  /** One step up the walk: the path, key split, prefix bounds and rebuild
      found below `frame` extend to the path from `t`. */
  lemma ReplaceStep(t: SubTree, frame: TempNode, child: SubTree, key: seq<Nibble>, childKey: seq<Nibble>,
                    consumed: nat, kept: nat, hs: Hasher, w: Walk,
                    p: seq<SubTree>, fs: seq<TempNode>, c: SubTree, r: seq<Nibble>)
    requires Descends(t, frame, child) && key == Consumes(frame) + childKey && consumed <= kept
    requires PathTo(child, p, fs, c) && FramesOk(fs)
    requires childKey == Consumed(fs) + r
    requires consumed + Contribution(frame) + PrefixLen(fs) > kept
    requires forall j :: 0 <= j < |fs| ==> consumed + Contribution(frame) + PrefixLen(fs[..j]) <= kept
    requires w == Rebuilt(Rebuild(fs, Hash(Digest(c, hs))))
    ensures PathTo(t, [t] + p, [frame] + fs, c) && FramesOk([frame]) && FramesOk([frame] + fs)
    ensures key == Consumed([frame] + fs) + r
    ensures consumed + PrefixLen([frame] + fs) > kept
    ensures forall j :: 0 <= j < |[frame] + fs| ==> consumed + PrefixLen(([frame] + fs)[..j]) <= kept
    ensures WrapWalk([frame], w) == Rebuilt(Rebuild([frame] + fs, Hash(Digest(c, hs))))
  {
    var frames := [frame] + fs;
    assert frames[1..] == fs;
    PrependStep(t, frame, child, p, fs, c);
    PathFramesOk(t, [t] + p, frames, c);
    WrapOne(frame, w);
    PrefixesWithinKept(frame, fs, consumed, kept);
  }

  /** A rebuilt subtree is the original path, with the same extension nibbles
      and the same branch siblings, around one bare hash: the digest of the
      node reached once more than `kept` nibbles were consumed. The walk went
      on at every frame of the path and stopped right after the last. */
  lemma {:induction false} PruneWalkReplacesOneSubtree(t: SubTree, key: seq<Nibble>, consumed: nat, kept: nat, hs: Hasher)
    returns (path: seq<SubTree>, frames: seq<TempNode>, cur: SubTree, rest: seq<Nibble>)
    requires WellFormed(t)
    requires PruneWalk(t, key, consumed, kept, hs).Rebuilt?
    ensures PathTo(t, path, frames, cur) && FramesOk(frames)
    ensures key == Consumed(frames) + rest
    ensures consumed + PrefixLen(frames) > kept
    ensures forall j :: 0 <= j < |frames| ==> consumed + PrefixLen(frames[..j]) <= kept
    ensures PruneWalk(t, key, consumed, kept, hs).tree == Rebuild(frames, Hash(Digest(cur, hs)))
    decreases t
  {
    if consumed > kept {
      return [t], [], t, key;
    }
    var frame: TempNode;
    var child: SubTree;
    var childKey: seq<Nibble>;
    match t {
      case Extension(nibbles, c) =>
        frame, child, childKey := TempExtension(nibbles), c, key[|nibbles|..];
        assert key == nibbles + childKey;
      case Branch(node) =>
        frame, child, childKey := TempBranch(NewBranch(node.children), key[0]), GetChild(node, key[0]).value, key[1..];
        assert key == [key[0]] + childKey;
    }
    WalkThroughFrame(t, key, consumed, kept, hs, frame, child, childKey);
    var w := PruneWalk(child, childKey, consumed + Contribution(frame), kept, hs);
    var p, fs, c, r := PruneWalkReplacesOneSubtree(child, childKey, consumed + Contribution(frame), kept, hs);
    ReplaceStep(t, frame, child, key, childKey, consumed, kept, hs, w, p, fs, c, r);
    path, frames, cur, rest := [t] + p, [frame] + fs, c, r;
  }

  /** The same, for `prune_key` as a whole. */
  lemma PruneReplacesOneSubtree(trie: PartialTrie, key: seq<Nibble>, kept: nat, hs: Hasher)
    returns (path: seq<SubTree>, frames: seq<TempNode>, cur: SubTree, rest: seq<Nibble>)
    requires trie.root.Some? && WellFormed(trie.root.value)
    requires kept > 0
    requires PruneWalk(trie.root.value, key, 0, kept, hs).Rebuilt?
    ensures PathTo(trie.root.value, path, frames, cur) && FramesOk(frames)
    ensures key == Consumed(frames) + rest
    ensures PrefixLen(frames) > kept
    ensures forall j :: 0 <= j < |frames| ==> PrefixLen(frames[..j]) <= kept
    ensures PruneKeySpec(trie, key, kept, hs) == Ok(PartialTrie(Some(Rebuild(frames, Hash(Digest(cur, hs))))))
  {
    path, frames, cur, rest := PruneWalkReplacesOneSubtree(trie.root.value, key, 0, kept, hs);
  }

  /** The branches of the walk at the root, one per outcome of the source's
      loop body. */
  lemma PruneAtRoot(trie: PartialTrie, key: seq<Nibble>, kept: nat, hs: Hasher)
    requires trie.root.Some? && WellFormed(trie.root.value) && kept > 0
    ensures trie.root.value.Hash? ==> PruneKeySpec(trie, key, kept, hs) == Err(AlreadyPruned)
    ensures trie.root.value.Leaf? ==> PruneKeySpec(trie, key, kept, hs) == Ok(trie)
    ensures trie.root.value.Extension? && !(trie.root.value.nibbles <= key) ==>
      PruneKeySpec(trie, key, kept, hs) == Ok(trie)
    ensures trie.root.value.Branch? && key == [] ==>
      PruneKeySpec(trie, key, kept, hs) == Err(BranchHoldsNoValue)
    ensures trie.root.value.Branch? && key != [] && GetChild(trie.root.value.node, key[0]).None? ==>
      PruneKeySpec(trie, key, kept, hs) == Ok(trie)
  {
  }
}
