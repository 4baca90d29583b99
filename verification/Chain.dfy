/**
The block index: a tree of blocks linked to their parents, each with one skip pointer to
some further ancestor, and the vector that holds the active chain.
*/
module Chain {
  import opened Bits

  // ----- Skip heights -----

  // n & (n - 1): the lowest one bit turned off.
  function InvertLowestOne(n: nat): nat {
    if n == 0 then 0 else And(n, n - 1)
  }

  function GetSkipHeight(height: nat): (skip: nat)
    ensures height > 0 ==> skip < height
  {
    if height < 2 then 0
    else if height % 2 == 1 then
      InvertsDown(height - 1);
      InvertsDown(InvertLowestOne(height - 1));
      InvertLowestOne(InvertLowestOne(height - 1)) + 1
    else
      InvertsDown(height);
      InvertLowestOne(height)
  }

  lemma InvertsDown(n: nat)
    ensures InvertLowestOne(n) <= n && (n > 0 ==> InvertLowestOne(n) < n)
  {
    if n > 0 {
      AndAtMost(n, n - 1);
    }
  }

  // ----- The tree -----

  class BlockIndex {
    var pprev: BlockIndex?
    var pskip: BlockIndex?
    var nHeight: nat

    constructor (prev: BlockIndex?)
      ensures pprev == prev && pskip == null
      ensures nHeight == if prev == null then 0 else prev.nHeight + 1
    {
      pprev, pskip := prev, null;
      nHeight := if prev == null then 0 else prev.nHeight + 1;
    }

    // The ancestor at a height, by skip pointers where they help.
    method GetAncestor(height: int, ghost tree: set<BlockIndex>) returns (r: BlockIndex?)
      requires Rooted(tree) && this in tree && SkipsSound(tree)
      ensures r == if height > nHeight || height < 0 then null else Ancestor(tree, this, height)
    {
      if height > nHeight || height < 0 {
        return null;
      }
      var walk, heightWalk := this, nHeight;
      while heightWalk > height
        invariant walk in tree && walk.nHeight == heightWalk && height <= heightWalk
        invariant Ancestor(tree, walk, height) == Ancestor(tree, this, height)
      {
        var heightSkip := GetSkipHeight(heightWalk);
        var heightSkipPrev := GetSkipHeight(heightWalk - 1);
        if walk.pskip != null &&
           (heightSkip == height ||
            (heightSkip > height && !(heightSkipPrev < heightSkip - 2 && heightSkipPrev >= height)))
        {
          AncestorOfAncestor(tree, walk, heightSkip, height);
          walk := walk.pskip;
          heightWalk := heightSkip;
        } else {
          walk := walk.pprev;
          heightWalk := heightWalk - 1;
        }
      }
      r := walk;
    }

    // Sets the skip pointer of a block whose parent is already in the tree.
    method BuildSkip(ghost tree: set<BlockIndex>)
      requires Rooted(tree) && Built(tree) && this !in tree
      requires pprev == null ==> nHeight == 0 && pskip == null
      requires pprev != null ==> pprev in tree && nHeight == pprev.nHeight + 1
      modifies this`pskip
      ensures Rooted(tree + {this}) && Built(tree + {this})
    {
      if pprev != null {
        pskip := pprev.GetAncestor(GetSkipHeight(nHeight), tree);
      }
      TreeGrows(tree, this);
    }
  }

  // Parents are in the tree and one lower; only blocks of height 0 have none.
  ghost predicate Rooted(tree: set<BlockIndex>)
    reads tree
  {
    forall b | b in tree ::
      if b.pprev == null then b.nHeight == 0
      else b.pprev in tree && b.nHeight == b.pprev.nHeight + 1
  }

  // The plain walk over parents.
  ghost function Ancestor(tree: set<BlockIndex>, b: BlockIndex, height: nat): (r: BlockIndex)
    requires Rooted(tree) && b in tree && height <= b.nHeight
    reads tree
    ensures r in tree && r.nHeight == height
    decreases b.nHeight
  {
    if b.nHeight == height then b else Ancestor(tree, b.pprev, height)
  }

  // A skip pointer that is set leads to the ancestor at the skip height.
  ghost predicate SkipsSound(tree: set<BlockIndex>)
    requires Rooted(tree)
    reads tree
  {
    forall b | b in tree && b.pskip != null ::
      b.pprev != null && b.pskip == Ancestor(tree, b, GetSkipHeight(b.nHeight))
  }

  // Every block but a root has its skip pointer.
  ghost predicate Built(tree: set<BlockIndex>)
    requires Rooted(tree)
    reads tree
  {
    SkipsSound(tree) && forall b | b in tree :: b.pskip == null <==> b.pprev == null
  }

  lemma {:induction false} AncestorOfAncestor(tree: set<BlockIndex>, b: BlockIndex, mid: nat, height: nat)
    requires Rooted(tree) && b in tree && height <= mid <= b.nHeight
    ensures Ancestor(tree, Ancestor(tree, b, mid), height) == Ancestor(tree, b, height)
    decreases b.nHeight
  {
    if b.nHeight != mid {
      AncestorOfAncestor(tree, b.pprev, mid, height);
    }
  }

  lemma {:induction false} AncestorGrows(tree: set<BlockIndex>, more: set<BlockIndex>, b: BlockIndex, height: nat)
    requires Rooted(tree) && Rooted(more) && tree <= more && b in tree && height <= b.nHeight
    ensures Ancestor(more, b, height) == Ancestor(tree, b, height)
    decreases b.nHeight
  {
    if b.nHeight != height {
      AncestorGrows(tree, more, b.pprev, height);
    }
  }

  lemma TreeGrows(tree: set<BlockIndex>, b: BlockIndex)
    requires Rooted(tree) && Built(tree) && b !in tree
    requires if b.pprev == null then b.nHeight == 0 && b.pskip == null
             else b.pprev in tree && b.nHeight == b.pprev.nHeight + 1 &&
                  b.pskip == Ancestor(tree, b.pprev, GetSkipHeight(b.nHeight))
    ensures Rooted(tree + {b}) && Built(tree + {b})
  {
    var more := tree + {b};
    forall c | c in tree && c.pskip != null
      ensures c.pprev != null && c.pskip == Ancestor(more, c, GetSkipHeight(c.nHeight))
    {
      AncestorGrows(tree, more, c, GetSkipHeight(c.nHeight));
    }
    if b.pprev != null {
      AncestorGrows(tree, more, b.pprev, GetSkipHeight(b.nHeight));
    }
  }

  // ----- Common ancestors -----

  ghost predicate IsAncestor(tree: set<BlockIndex>, c: BlockIndex, b: BlockIndex)
    requires Rooted(tree) && b in tree
    reads tree
  {
    c in tree && c.nHeight <= b.nHeight && Ancestor(tree, b, c.nHeight) == c
  }

  ghost predicate IsLastCommon(tree: set<BlockIndex>, r: BlockIndex, a: BlockIndex, b: BlockIndex)
    requires Rooted(tree) && a in tree && b in tree
    reads tree
  {
    && IsAncestor(tree, r, a) && IsAncestor(tree, r, b)
    && forall c | c in tree && IsAncestor(tree, c, a) && IsAncestor(tree, c, b) :: c.nHeight <= r.nHeight
  }

  // Two blocks at one height, reached from a and b, above which a and b have no common
  // ancestor: one of them ends there, or their ancestors one higher differ.
  ghost predicate Aligned(tree: set<BlockIndex>, a: BlockIndex, b: BlockIndex, pa: BlockIndex, pb: BlockIndex)
    requires Rooted(tree) && a in tree && b in tree
    reads tree
  {
    && IsAncestor(tree, pa, a) && IsAncestor(tree, pb, b) && pa.nHeight == pb.nHeight
    && (pa.nHeight < a.nHeight && pa.nHeight < b.nHeight ==>
          Ancestor(tree, a, pa.nHeight + 1) != Ancestor(tree, b, pa.nHeight + 1))
  }

  // Going down both sides to a height where they still differ, or just below one where
  // they differ.
  lemma AlignedDown(tree: set<BlockIndex>, a: BlockIndex, b: BlockIndex, pa: BlockIndex, pb: BlockIndex, height: nat)
    requires Rooted(tree) && a in tree && b in tree && Aligned(tree, a, b, pa, pb)
    requires height < pa.nHeight
    requires Ancestor(tree, pa, height) != Ancestor(tree, pb, height) || (pa != pb && height == pa.nHeight - 1)
    ensures Aligned(tree, a, b, Ancestor(tree, pa, height), Ancestor(tree, pb, height))
  {
    AncestorOfAncestor(tree, a, pa.nHeight, height);
    AncestorOfAncestor(tree, b, pb.nHeight, height);
    AncestorOfAncestor(tree, a, pa.nHeight, height + 1);
    AncestorOfAncestor(tree, b, pb.nHeight, height + 1);
    AncestorOfAncestor(tree, pa, height + 1, height);
    AncestorOfAncestor(tree, pb, height + 1, height);
  }

  lemma AlignedMeet(tree: set<BlockIndex>, a: BlockIndex, b: BlockIndex, r: BlockIndex)
    requires Rooted(tree) && a in tree && b in tree && Aligned(tree, a, b, r, r)
    ensures IsLastCommon(tree, r, a, b)
  {
    forall c | c in tree && IsAncestor(tree, c, a) && IsAncestor(tree, c, b) ensures c.nHeight <= r.nHeight {
      if c.nHeight > r.nHeight {
        AncestorOfAncestor(tree, a, c.nHeight, r.nHeight + 1);
        AncestorOfAncestor(tree, b, c.nHeight, r.nHeight + 1);
      }
    }
  }

  // The two moves of the search, from different blocks of one height over the same root.
  lemma AboveRoot(tree: set<BlockIndex>, a: BlockIndex, b: BlockIndex, pa: BlockIndex, pb: BlockIndex)
    requires Rooted(tree) && Built(tree) && a in tree && b in tree && pa in tree && pb in tree
    requires Ancestor(tree, a, 0) == Ancestor(tree, b, 0)
    requires Aligned(tree, a, b, pa, pb) && pa != pb
    ensures pa.nHeight > 0 && pa.pprev != null && pb.pprev != null && pa.pskip != null && pb.pskip != null
  {
  }

  lemma SkipBoth(tree: set<BlockIndex>, a: BlockIndex, b: BlockIndex, pa: BlockIndex, pb: BlockIndex)
    requires Rooted(tree) && Built(tree) && a in tree && b in tree && pa in tree && pb in tree
    requires Ancestor(tree, a, 0) == Ancestor(tree, b, 0)
    requires Aligned(tree, a, b, pa, pb) && pa != pb && pa.pskip != pb.pskip
    ensures pa.pskip != null && pb.pskip != null && pa.pskip.nHeight < pa.nHeight
    ensures pa.pskip in tree && pb.pskip in tree && Aligned(tree, a, b, pa.pskip, pb.pskip)
  {
    AboveRoot(tree, a, b, pa, pb);
    AlignedDown(tree, a, b, pa, pb, GetSkipHeight(pa.nHeight));
  }

  lemma StepBoth(tree: set<BlockIndex>, a: BlockIndex, b: BlockIndex, pa: BlockIndex, pb: BlockIndex)
    requires Rooted(tree) && Built(tree) && a in tree && b in tree && pa in tree && pb in tree
    requires Ancestor(tree, a, 0) == Ancestor(tree, b, 0)
    requires Aligned(tree, a, b, pa, pb) && pa != pb
    ensures pa.pprev != null && pb.pprev != null && pa.pprev.nHeight < pa.nHeight
    ensures pa.pprev in tree && pb.pprev in tree && Aligned(tree, a, b, pa.pprev, pb.pprev)
  {
    AboveRoot(tree, a, b, pa, pb);
    assert Ancestor(tree, pa, pa.nHeight - 1) == pa.pprev && Ancestor(tree, pb, pb.nHeight - 1) == pb.pprev;
    AlignedDown(tree, a, b, pa, pb, pa.nHeight - 1);
  }

  lemma StartAligned(tree: set<BlockIndex>, a: BlockIndex, b: BlockIndex, height: nat)
    requires Rooted(tree) && a in tree && b in tree && height <= a.nHeight && height <= b.nHeight
    requires height == a.nHeight || height == b.nHeight
    ensures Aligned(tree, a, b, Ancestor(tree, a, height), Ancestor(tree, b, height))
  {
  }

  // Rewinds the higher of two blocks to the height of the other.
  method RewindToCommonHeight(a: BlockIndex, b: BlockIndex, ghost tree: set<BlockIndex>)
    returns (pa: BlockIndex, pb: BlockIndex)
    requires Rooted(tree) && SkipsSound(tree) && a in tree && b in tree
    ensures pa in tree && pb in tree && Aligned(tree, a, b, pa, pb)
  {
    pa, pb := a, b;
    if pa.nHeight > pb.nHeight {
      pa := pa.GetAncestor(pb.nHeight, tree);
    } else if pb.nHeight > pa.nHeight {
      pb := pb.GetAncestor(pa.nHeight, tree);
    }
    StartAligned(tree, a, b, pa.nHeight);
  }

  // Jumps back until two different blocks of one height have the same skip pointer.
  method SkipWhileApart(a: BlockIndex, b: BlockIndex, pa: BlockIndex, pb: BlockIndex, ghost tree: set<BlockIndex>)
    returns (qa: BlockIndex, qb: BlockIndex)
    requires Rooted(tree) && Built(tree) && a in tree && b in tree && pa in tree && pb in tree
    requires Ancestor(tree, a, 0) == Ancestor(tree, b, 0)
    requires Aligned(tree, a, b, pa, pb) && pa != pb
    ensures qa in tree && qb in tree && qa != qb && qa.pskip == qb.pskip
    ensures Aligned(tree, a, b, qa, qb) && qa.nHeight <= pa.nHeight
  {
    qa, qb := pa, pb;
    while qa.pskip != qb.pskip
      invariant qa in tree && qb in tree && qa != qb && Aligned(tree, a, b, qa, qb) && qa.nHeight <= pa.nHeight
      decreases qa.nHeight
    {
      SkipBoth(tree, a, b, qa, qb);
      qa, qb := qa.pskip, qb.pskip;
    }
  }

  method LastCommonAncestor(a: BlockIndex, b: BlockIndex, ghost tree: set<BlockIndex>) returns (r: BlockIndex)
    requires Rooted(tree) && Built(tree) && a in tree && b in tree
    requires Ancestor(tree, a, 0) == Ancestor(tree, b, 0)
    ensures IsLastCommon(tree, r, a, b)
  {
    var pa, pb := RewindToCommonHeight(a, b, tree);
    while pa != pb
      invariant pa in tree && pb in tree && Aligned(tree, a, b, pa, pb)
      decreases pa.nHeight
    {
      var qa, qb := SkipWhileApart(a, b, pa, pb, tree);
      StepBoth(tree, a, b, qa, qb);
      pa, pb := qa.pprev, qb.pprev;
    }
    r := pa;
    AlignedMeet(tree, a, b, r);
  }

  // ----- The active chain -----

  class ActiveChain {
    var vChain: seq<BlockIndex?>

    constructor ()
      ensures vChain == []
    {
      vChain := [];
    }

    ghost predicate Consistent(tree: set<BlockIndex>)
      reads this, tree
    {
      Linked(vChain, tree)
    }

    function Height(): int
      reads this
    {
      |vChain| - 1
    }

    function At(height: int): BlockIndex?
      reads this
    {
      if height < 0 || height >= |vChain| then null else vChain[height]
    }

    predicate Contains(b: BlockIndex)
      reads this, b
    {
      At(b.nHeight) == b
    }

    method SetTip(block: BlockIndex, ghost tree: set<BlockIndex>)
      requires Rooted(tree) && block in tree && Consistent(tree)
      modifies this
      ensures |vChain| == block.nHeight + 1
      ensures forall h: nat | h < |vChain| :: vChain[h] == Ancestor(tree, block, h)
      ensures Consistent(tree)
    {
      var p: BlockIndex? := block;
      vChain := if |vChain| <= block.nHeight then vChain + seq(block.nHeight + 1 - |vChain|, _ => null)
                else vChain[..block.nHeight + 1];
      while p != null && vChain[p.nHeight] != p
        invariant |vChain| == block.nHeight + 1
        invariant p != null ==> p in tree && p.nHeight <= block.nHeight && p == Ancestor(tree, block, p.nHeight)
        invariant forall h: nat | (if p == null then 0 else p.nHeight + 1) <= h < |vChain| ::
                    vChain[h] == Ancestor(tree, block, h)
        invariant p != null ==> forall h | 0 <= h <= p.nHeight ::
                    vChain[h] == if h < old(|vChain|) then old(vChain)[h] else null
        decreases if p == null then 0 else p.nHeight + 1
      {
        if p.pprev != null {
          AncestorOfAncestor(tree, block, p.nHeight, p.nHeight - 1);
        }
        vChain := vChain[p.nHeight := p];
        p := p.pprev;
      }
      if p != null {
        forall h: nat | h <= p.nHeight ensures vChain[h] == Ancestor(tree, block, h) {
          LinkedIsAncestry(old(vChain), tree, p.nHeight, h);
          AncestorOfAncestor(tree, block, p.nHeight, h);
        }
      }
      AncestryIsLinked(vChain, tree, block);
    }

    // The highest block of the chain on the way down from a block.
    method FindFork(b: BlockIndex?, ghost tree: set<BlockIndex>) returns (r: BlockIndex?)
      requires Rooted(tree) && SkipsSound(tree) && Consistent(tree) && (b != null ==> b in tree)
      ensures b == null ==> r == null
      ensures r != null ==> b != null && IsAncestor(tree, r, b) && Contains(r)
      ensures b != null ==> forall c | c in tree && IsAncestor(tree, c, b) && Contains(c) ::
                r != null && c.nHeight <= r.nHeight
    {
      if b == null {
        return null;
      }
      r := b;
      if r.nHeight > Height() {
        r := r.GetAncestor(Height(), tree);
      }
      while r != null && !Contains(r)
        invariant r != null ==> r in tree && IsAncestor(tree, r, b)
        invariant forall h: nat | (if r == null then 0 else r.nHeight + 1) <= h <= b.nHeight ::
                    !Contains(Ancestor(tree, b, h))
        decreases if r == null then 0 else r.nHeight + 1
      {
        if r.pprev != null {
          AncestorOfAncestor(tree, b, r.nHeight, r.nHeight - 1);
        }
        r := r.pprev;
      }
    }
  }

  // A block at each height, each the parent of the next.
  ghost predicate Linked(vChain: seq<BlockIndex?>, tree: set<BlockIndex>)
    reads tree
  {
    && (forall h | 0 <= h < |vChain| :: vChain[h] != null && vChain[h] in tree && vChain[h].nHeight == h)
    && (forall g, h | 0 <= g && h == g + 1 && h < |vChain| :: vChain[h].pprev == vChain[g])
  }

  // Below any of its blocks a chain is that block's ancestry.
  lemma {:induction false} LinkedIsAncestry(vChain: seq<BlockIndex?>, tree: set<BlockIndex>, height: nat, low: nat)
    requires Rooted(tree) && Linked(vChain, tree) && low <= height < |vChain|
    ensures vChain[low] == Ancestor(tree, vChain[height], low)
  {
    if low < height {
      assert vChain[height].pprev == vChain[height - 1];
      LinkedIsAncestry(vChain, tree, height - 1, low);
    }
  }

  lemma AncestryIsLinked(vChain: seq<BlockIndex?>, tree: set<BlockIndex>, tip: BlockIndex)
    requires Rooted(tree) && tip in tree && |vChain| == tip.nHeight + 1
    requires forall h: nat | h < |vChain| :: vChain[h] == Ancestor(tree, tip, h)
    ensures Linked(vChain, tree)
  {
    forall g: nat, h: nat | h == g + 1 && h < |vChain| ensures vChain[h].pprev == vChain[g] {
      AncestorOfAncestor(tree, tip, h, g);
    }
  }
}
