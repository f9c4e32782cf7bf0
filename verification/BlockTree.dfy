/**
 The block index: a tree of blocks, each with a link to its parent and a skip link to some earlier
 ancestor, and the searches that use both.
 */
module BlockTree {
  import opened SkipHeights
  import opened Wrappers

  /** A block is named by its place in the order of arrival, so a parent comes before its child. */
  type Id = nat

  const NONE := -1

  datatype Node = Node(prev: int, height: nat, skip: int)

  type Tree = seq<Node>

  // ---- Trees ----

  /** Everything about a block but its skip link: the first has no parent and height 0; every other
      is one above its parent, which arrived before it. */
  predicate NodeShape(t: Tree, b: Id)
    requires b < |t|
  {
    if b == 0 then t[b].prev == NONE && t[b].height == 0
    else 0 <= t[b].prev < b && t[b].height == t[t[b].prev].height + 1
  }

  predicate Shaped(t: Tree)
  {
    forall b: Id | b < |t| :: NodeShape(t, b)
  }

  /** The ancestor at a height, by following parent links: the meaning of GetAncestor. */
  function Walk(t: Tree, b: Id, h: nat): (r: Id)
    requires Shaped(t) && b < |t| && h <= t[b].height
    ensures r <= b && t[r].height == h
    decreases b
  {
    if t[b].height == h then b else Walk(t, Parent(t, b), h)
  }

  function Parent(t: Tree, b: Id): (r: Id)
    requires Shaped(t) && b < |t| && t[b].height > 0
    ensures r < b && t[b].prev == r && t[r].height + 1 == t[b].height
  {
    assert NodeShape(t, b);
    t[b].prev
  }

  /** A skip link, where there is one, leads to the ancestor at the block's skip height. */
  predicate SkipOk(t: Tree, b: Id)
    requires Shaped(t) && b < |t|
  {
    t[b].skip != NONE ==> t[b].height > 0 && t[b].skip == Walk(t, b, GetSkipHeight(t[b].height))
  }

  predicate Valid(t: Tree)
  {
    Shaped(t) && forall b: Id | b < |t| :: SkipOk(t, b)
  }

  /** Every block but the first has its skip link. */
  predicate Linked(t: Tree)
  {
    forall b: Id | b < |t| && t[b].height > 0 :: t[b].skip != NONE
  }

  predicate IsAncestor(t: Tree, a: Id, b: Id)
    requires Shaped(t)
  {
    a < |t| && b < |t| && t[a].height <= t[b].height && Walk(t, b, t[a].height) == a
  }

  /** An ancestor's ancestor is the ancestor at that height. */
  lemma {:induction false} WalkWalk(t: Tree, b: Id, h: nat, g: nat)
    requires Shaped(t) && b < |t| && g <= h <= t[b].height
    ensures Walk(t, Walk(t, b, h), g) == Walk(t, b, g)
    decreases b
  {
    if t[b].height != h {
      WalkWalk(t, Parent(t, b), h, g);
    }
  }

  /** Blocks that meet at a height have the same ancestors below it. */
  lemma MeetBelow(t: Tree, a: Id, b: Id, h: nat, g: nat)
    requires Shaped(t) && a < |t| && b < |t| && g <= h <= t[a].height && h <= t[b].height
    requires Walk(t, a, h) == Walk(t, b, h)
    ensures Walk(t, a, g) == Walk(t, b, g)
  {
    WalkWalk(t, a, h, g);
    WalkWalk(t, b, h, g);
  }

  lemma {:induction false} AllMeetAtRoot(t: Tree, b: Id)
    requires Shaped(t) && b < |t|
    ensures Walk(t, b, 0) == 0
    decreases b
  {
    assert NodeShape(t, b);
    if t[b].height > 0 {
      AllMeetAtRoot(t, Parent(t, b));
    }
  }

  // ---- Searching ----

  /** GetAncestor: down the skip link where that does not overshoot or give way to a better one just
      below, else down the parent link. */
  method GetAncestor(t: Tree, b: Id, height: int) returns (r: Option<Id>, ghost links: nat)
    requires Valid(t) && b < |t|
    ensures r == if 0 <= height <= t[b].height then Some(Walk(t, b, height)) else None
    ensures Linked(t) && 0 <= height <= t[b].height ==> links == Steps(t[b].height, height)
  {
    hide Walk, GetSkipHeight, Steps;
    links := 0;
    if height > t[b].height || height < 0 {
      return None, links;
    }
    var walk: Id := b;
    var heightWalk: nat := t[b].height;
    WalkSelf(t, b);
    while heightWalk > height
      invariant walk < |t| && t[walk].height == heightWalk >= height
      invariant Walk(t, walk, height) == Walk(t, b, height)
      invariant Linked(t) ==> links + Steps(heightWalk, height) == Steps(t[b].height, height)
      decreases heightWalk
    {
      StepsNext(heightWalk, height);
      links := links + 1;
      var heightSkip := GetSkipHeight(heightWalk);
      var heightSkipPrev := GetSkipHeight(heightWalk - 1);
      assert SkipOk(t, walk);
      if t[walk].skip != NONE
        && (heightSkip == height
            || (heightSkip > height && !(heightSkipPrev < heightSkip - 2 && heightSkipPrev >= height))) {
        WalkWalk(t, walk, heightSkip, height);
        walk, heightWalk := t[walk].skip, heightSkip;
      } else {
        WalkStep(t, walk, height);
        walk, heightWalk := Parent(t, walk), heightWalk - 1;
      }
    }
    WalkSelf(t, walk);
    StepsDone(height);
    r := Some(walk);
  }

  lemma WalkSelf(t: Tree, b: Id)
    requires Shaped(t) && b < |t|
    ensures Walk(t, b, t[b].height) == b
  {
  }

  lemma WalkStep(t: Tree, b: Id, h: nat)
    requires Shaped(t) && b < |t| && h < t[b].height
    ensures Walk(t, b, h) == Walk(t, Parent(t, b), h)
  {
  }

  /** BuildSkip for a new child of `prev`, appended to the tree. */
  method Append(t: Tree, prev: Id) returns (t': Tree)
    requires Valid(t) && prev < |t|
    ensures |t'| == |t| + 1 && t'[..|t|] == t && Valid(t')
    ensures t'[|t|].prev == prev && t'[|t|].height == t[prev].height + 1
    ensures t'[|t|].skip == Walk(t, prev, GetSkipHeight(t[prev].height + 1))
    ensures Linked(t) ==> Linked(t')
  {
    var height := t[prev].height + 1;
    var skip, _ := GetAncestor(t, prev, GetSkipHeight(height));
    t' := t + [Node(prev, height, skip.value)];
    AppendValid(t, Node(prev, height, skip.value));
  }

  lemma {:induction false} WalkExtends(t: Tree, n: Node, b: Id, h: nat)
    requires Shaped(t) && Shaped(t + [n]) && b < |t| && h <= t[b].height
    ensures Walk(t + [n], b, h) == Walk(t, b, h)
    decreases b
  {
    if t[b].height != h {
      WalkExtends(t, n, Parent(t, b), h);
    }
  }

  lemma AppendValid(t: Tree, n: Node)
    requires Valid(t) && 0 <= n.prev < |t| && n.height == t[n.prev].height + 1
    requires n.skip == Walk(t, n.prev, GetSkipHeight(n.height))
    ensures Valid(t + [n])
  {
    hide GetSkipHeight;
    var t' := t + [n];
    forall b: Id | b < |t'| ensures NodeShape(t', b) {
      assert b < |t| ==> NodeShape(t, b);
    }
    forall b: Id | b < |t'| ensures SkipOk(t', b) {
      if b < |t| {
        assert SkipOk(t, b);
        if t[b].skip != NONE {
          WalkExtends(t, n, b, GetSkipHeight(t[b].height));
        }
      } else {
        WalkExtends(t, n, n.prev, GetSkipHeight(n.height));
      }
    }
  }

  /** The deepest block from which both descend. */
  predicate IsLastCommon(t: Tree, a: Id, b: Id, r: Id)
    requires Shaped(t)
  {
    && IsAncestor(t, r, a) && IsAncestor(t, r, b)
    && forall c: Id | c < |t| && IsAncestor(t, c, a) && IsAncestor(t, c, b) :: IsAncestor(t, c, r)
  }

  /** Two blocks on a level share exactly the ancestors of two of their own ancestors on a lower
      level, if those differ. */
  lemma LowerLevel(t: Tree, a: Id, b: Id, h: nat, c: Id)
    requires Shaped(t) && a < |t| && b < |t| && t[a].height == t[b].height >= h && Walk(t, a, h) != Walk(t, b, h)
    ensures IsAncestor(t, c, a) && IsAncestor(t, c, b) <==>
            IsAncestor(t, c, Walk(t, a, h)) && IsAncestor(t, c, Walk(t, b, h))
  {
    if c < |t| && t[c].height <= h {
      WalkWalk(t, a, h, t[c].height);
      WalkWalk(t, b, h, t[c].height);
    } else if c < |t| && IsAncestor(t, c, a) && IsAncestor(t, c, b) {
      MeetBelow(t, a, b, t[c].height, h);
    }
  }

  /** Both sides move down together, by their skip links while those still differ. */
  method LastCommonAncestor(t: Tree, a: Id, b: Id) returns (r: Id)
    requires Valid(t) && a < |t| && b < |t|
    ensures IsLastCommon(t, a, b, r)
  {
    hide Walk, GetSkipHeight, IsAncestor;
    var pa: Id, pb: Id := a, b;
    WalkSelf(t, a);
    WalkSelf(t, b);
    if t[pa].height > t[pb].height {
      var up, _ := GetAncestor(t, pa, t[pb].height);
      pa := up.value;
    } else if t[pb].height > t[pa].height {
      var up, _ := GetAncestor(t, pb, t[pa].height);
      pb := up.value;
    }
    SameLevel(t, a, b, pa, pb);
    while pa != pb
      invariant pa < |t| && pb < |t| && t[pa].height == t[pb].height
      invariant SameCommon(t, a, b, pa, pb)
      decreases t[pa].height
    {
      assert SkipOk(t, pa) && SkipOk(t, pb) && NodeShape(t, pa) && NodeShape(t, pb);
      ghost var h := t[pa].height;
      if t[pa].skip != NONE && t[pb].skip != NONE && t[pa].skip != t[pb].skip {
        LowerCommon(t, a, b, pa, pb, GetSkipHeight(h));
        pa, pb := t[pa].skip, t[pb].skip;
      } else {
        RootsMeet(t, pa, pb);
        WalkStep(t, pa, h - 1);
        WalkStep(t, pb, h - 1);
        WalkSelf(t, Parent(t, pa));
        WalkSelf(t, Parent(t, pb));
        ParentCommon(t, a, b, pa, pb);
        pa, pb := Parent(t, pa), Parent(t, pb);
      }
    }
    MeetIsLast(t, a, b, pa);
    r := pa;
  }

  /** The common ancestors of a and b are those of a' and b'. */
  ghost predicate SameCommon(t: Tree, a: Id, b: Id, a': Id, b': Id)
    requires Shaped(t)
  {
    forall c: Id :: IsAncestor(t, c, a) && IsAncestor(t, c, b) <==> IsAncestor(t, c, a') && IsAncestor(t, c, b')
  }

  lemma SameLevel(t: Tree, a: Id, b: Id, a': Id, b': Id)
    requires Shaped(t) && a < |t| && b < |t|
    requires var h := if t[a].height < t[b].height then t[a].height else t[b].height;
      a' == Walk(t, a, h) && b' == Walk(t, b, h)
    ensures SameCommon(t, a, b, a', b') && t[a'].height == t[b'].height
  {
    var h := t[a'].height;
    forall c: Id ensures IsAncestor(t, c, a) && IsAncestor(t, c, b) <==> IsAncestor(t, c, a') && IsAncestor(t, c, b') {
      if c < |t| && t[c].height <= h {
        WalkWalk(t, a, h, t[c].height);
        WalkWalk(t, b, h, t[c].height);
      }
    }
  }

  lemma LowerCommon(t: Tree, a: Id, b: Id, a': Id, b': Id, h: nat)
    requires Shaped(t) && a' < |t| && b' < |t| && t[a'].height == t[b'].height >= h
    requires SameCommon(t, a, b, a', b') && Walk(t, a', h) != Walk(t, b', h)
    ensures SameCommon(t, a, b, Walk(t, a', h), Walk(t, b', h))
  {
    hide IsAncestor;
    forall c: Id
      ensures IsAncestor(t, c, a) && IsAncestor(t, c, b)
              <==> IsAncestor(t, c, Walk(t, a', h)) && IsAncestor(t, c, Walk(t, b', h))
    {
      LowerLevel(t, a', b', h, c);
    }
  }

  /** One level down: a common ancestor of two different blocks is one of their parents'. */
  lemma ParentCommon(t: Tree, a: Id, b: Id, a': Id, b': Id)
    requires Shaped(t) && a' < |t| && b' < |t| && t[a'].height == t[b'].height > 0 && a' != b'
    requires SameCommon(t, a, b, a', b')
    ensures SameCommon(t, a, b, Parent(t, a'), Parent(t, b'))
  {
    var h := t[a'].height;
    forall c: Id
      ensures IsAncestor(t, c, a) && IsAncestor(t, c, b)
              <==> IsAncestor(t, c, Parent(t, a')) && IsAncestor(t, c, Parent(t, b'))
    {
      assert IsAncestor(t, c, a) && IsAncestor(t, c, b) <==> IsAncestor(t, c, a') && IsAncestor(t, c, b');
      if c < |t| && t[c].height < h {
        WalkStep(t, a', t[c].height);
        WalkStep(t, b', t[c].height);
      } else if c < |t| {
        WalkSelf(t, a');
        WalkSelf(t, b');
      }
    }
  }

  lemma RootsMeet(t: Tree, a: Id, b: Id)
    requires Shaped(t) && a < |t| && b < |t| && t[a].height == t[b].height && a != b
    ensures t[a].height > 0
  {
    AllMeetAtRoot(t, a);
    AllMeetAtRoot(t, b);
  }

  lemma MeetIsLast(t: Tree, a: Id, b: Id, r: Id)
    requires Shaped(t) && a < |t| && b < |t| && r < |t| && SameCommon(t, a, b, r, r)
    ensures IsLastCommon(t, a, b, r)
  {
    hide Walk;
    WalkSelf(t, r);
    assert IsAncestor(t, r, r);
  }
}
