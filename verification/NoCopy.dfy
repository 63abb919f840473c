/** Buffers chained from blocks and other buffers, read as one flat sequence of bytes without copying. */
module NoCopy {
  import opened Optional
  import opened Wire

  /** A block of bytes; only pooled ones are given back when released. */
  class Block {
    const data: seq<Byte>
    const pooled: bool
    var releases: nat

    constructor (data: seq<Byte>, pooled: bool)
      ensures this.data == data && this.pooled == pooled && releases == 0
    {
      this.data, this.pooled, releases := data, pooled, 0;
    }
  }

  /** A neighbour in a chain: nothing, a node or a whole buffer. */
  datatype Link = Nil | ANode(node: Node) | ABuffer(buffer: Buffer)

  class Node {
    var prev: Link
    var next: Link
    var block: Option<Block>
    /** The block the node was made for. */
    ghost const home: Block

    constructor (block: Block)
      ensures prev == next == Nil && this.block == Some(block) && home == block
    {
      prev, next, this.block, home := Nil, Nil, Some(block), block;
    }

    method Release()
      modifies this, if block.Some? then {block.value} else {}
      ensures prev == next == Nil && block == None
      ensures old(block).Some? ==>
                var b := old(block).value;
                b.releases == old(b.releases) + if b.pooled then 1 else 0
    {
      if block.Some? && block.value.pooled {
        block.value.releases := block.value.releases + 1;
      }
      prev, next, block := Nil, Nil, None;
    }
  }

  // ---- what hangs in a chain, as a tree

  datatype Tree = Leaf(node: Node) | Branch(buffer: Buffer, kids: seq<Tree>)

  function LinkOf(t: Tree): Link {
    match t
    case Leaf(n) => ANode(n)
    case Branch(b, _) => ABuffer(b)
  }

  ghost function TreeLeaves(t: Tree): seq<Node> {
    match t
    case Leaf(n) => [n]
    case Branch(_, kids) => Leaves(kids)
  }

  /** The nodes in visiting order. */
  ghost function Leaves(kids: seq<Tree>): seq<Node> {
    if kids == [] then [] else Leaves(kids[..|kids| - 1]) + TreeLeaves(kids[|kids| - 1])
  }

  ghost function TreeData(t: Tree): seq<Byte> {
    match t
    case Leaf(n) => n.home.data
    case Branch(_, kids) => Data(kids)
  }

  /** The bytes of all blocks, one after the other. */
  ghost function Data(kids: seq<Tree>): seq<Byte> {
    if kids == [] then [] else Data(kids[..|kids| - 1]) + TreeData(kids[|kids| - 1])
  }

  ghost function TreeObjects(t: Tree): set<object> {
    match t
    case Leaf(n) => {n, n.home}
    case Branch(b, kids) => {b} + Objects(kids)
  }

  ghost function Objects(kids: seq<Tree>): set<object> {
    if kids == [] then {} else Objects(kids[..|kids| - 1]) + TreeObjects(kids[|kids| - 1])
  }

  /** All objects of a part, and of a chain. */
  ghost function Owned(t: Tree): set<object> {
    TreeObjects(t)
  }

  ghost function Held(kids: seq<Tree>): set<object> {
    Objects(kids)
  }

  lemma {:induction false} ObjectsOf(kids: seq<Tree>, i: nat)
    requires i < |kids|
    ensures Owned(kids[i]) <= Held(kids)
  {
    if i < |kids| - 1 {
      ObjectsOf(kids[..|kids| - 1], i);
    }
  }

  /** No two parts share an object, at any depth. */
  ghost predicate Apart(kids: seq<Tree>) {
    && (forall i, j :: 0 <= i < j < |kids| ==> Owned(kids[i]) !! Owned(kids[j]))
    && forall i :: 0 <= i < |kids| ==> TreeApart(kids[i])
  }

  ghost predicate TreeApart(t: Tree) {
    match t
    case Leaf(n) => true
    case Branch(b, kids) => b !in Held(kids) && Apart(kids)
  }

  ghost function OwnObject(t: Tree): object {
    match t
    case Leaf(n) => n
    case Branch(b, _) => b
  }

  function NextOf(t: Tree): Link
    reads OwnObject(t)
  {
    match t
    case Leaf(n) => n.next
    case Branch(b, _) => b.next
  }

  function PrevOf(t: Tree): Link
    reads OwnObject(t)
  {
    match t
    case Leaf(n) => n.prev
    case Branch(b, _) => b.prev
  }

  function LinkAt(kids: seq<Tree>, i: int): Link {
    if 0 <= i < |kids| then LinkOf(kids[i]) else Nil
  }

  /** A node still has its block; a buffer is what its own chain says. */
  ghost predicate TreeOK(t: Tree)
    reads Owned(t)
    decreases t
  {
    match t
    case Leaf(n) => n.block == Some(n.home)
    case Branch(b, kids) => b.Describes(kids) && Inside(kids)
  }

  /** Part i is in order, and its neighbours are the parts before and after it. */
  ghost predicate Settled(kids: seq<Tree>, i: nat)
    requires i < |kids|
    reads Owned(kids[i])
    decreases kids, 0
  {
    LinkIsOwn(kids[i]);
    TreeOK(kids[i]) && NextOf(kids[i]) == LinkAt(kids, i + 1) && PrevOf(kids[i]) == LinkAt(kids, i - 1)
  }

  ghost predicate Inside(kids: seq<Tree>)
    reads Held(kids)
    decreases kids, 1
  {
    forall i :: 0 <= i < |kids| ==> (ObjectsOf(kids, i); Settled(kids, i))
  }

  /** What the code reads out as bytes: a chain with one node in all is taken to hold it in its first part. */
  ghost function TreeBytes(t: Tree): seq<Byte>
    decreases t, 0
  {
    match t
    case Leaf(n) => n.home.data
    case Branch(_, kids) => ChainBytes(kids)
  }

  ghost function ChainBytes(kids: seq<Tree>): seq<Byte>
    decreases kids, 1
  {
    if |Leaves(kids)| == 0 || kids == [] then []
    else if |Leaves(kids)| == 1 then TreeBytes(kids[0])
    else AllBytes(kids)
  }

  ghost function AllBytes(kids: seq<Tree>): seq<Byte>
    decreases kids, 0
  {
    if kids == [] then [] else AllBytes(kids[..|kids| - 1]) + TreeBytes(kids[|kids| - 1])
  }

  /** The buffers of a part, whose cached lengths a reader may fill in. */
  ghost function TreeBuffers(t: Tree): set<object> {
    match t
    case Leaf(_) => {}
    case Branch(b, kids) => {b} + Buffers(kids)
  }

  ghost function Buffers(kids: seq<Tree>): set<object> {
    if kids == [] then {} else Buffers(kids[..|kids| - 1]) + TreeBuffers(kids[|kids| - 1])
  }

  lemma {:induction false} TreeBuffersOwned(t: Tree)
    ensures TreeBuffers(t) <= Owned(t)
  {
    match t
    case Leaf(_) =>
    case Branch(b, kids) => BuffersHeld(kids);
  }

  lemma {:induction false} BuffersHeld(kids: seq<Tree>)
    ensures Buffers(kids) <= Held(kids)
  {
    if kids != [] {
      BuffersHeld(kids[..|kids| - 1]);
      TreeBuffersOwned(kids[|kids| - 1]);
    }
  }

  lemma {:induction false} BuffersOf(kids: seq<Tree>, i: nat)
    requires i < |kids|
    ensures TreeBuffers(kids[i]) <= Buffers(kids)
  {
    if i < |kids| - 1 {
      BuffersOf(kids[..|kids| - 1], i);
    }
  }

  class Buffer {
    var len: int
    var num: int
    var head: Link
    var tail: Link
    var prev: Link
    var next: Link
    var delay: int
    var released: bool
    ghost var kids: seq<Tree>

    /** The buffer's own fields say what its chain holds; the cached length is right or absent. */
    ghost predicate Describes(kids: seq<Tree>)
      reads this
    {
      && this.kids == kids
      && head == LinkAt(kids, 0) && tail == LinkAt(kids, |kids| - 1)
      && num == |Leaves(kids)|
      && (len == -1 || len == |Data(kids)|)
    }

    ghost predicate Valid()
      reads this, Held(kids)
    {
      Describes(kids) && Inside(kids) && this !in Held(kids) && Apart(kids)
    }

    constructor ()
      ensures Valid() && kids == [] && prev == next == Nil && delay == 0 && !released
    {
      len, num, delay, released := -1, 0, 0, false;
      head, tail, prev, next, kids := Nil, Nil, Nil, Nil, [];
    }

    /** Mounts a block of bytes at either end. */
    method MountBlock(block: Block, atHead: bool)
      requires Valid() && block !in Held(kids) + {this}
      modifies this, Held(kids)
      ensures Valid() && SameState(old(prev), old(next), old(delay), old(released))
      ensures exists n: Node :: fresh(n) && n.home == block && kids == if atHead then [Leaf(n)] + old(kids) else old(kids) + [Leaf(n)]
      ensures Data(kids) == if atHead then block.data + old(Data(kids)) else old(Data(kids)) + block.data
    {
      assert allocated(Held(kids));
      hide Inside, Held, Leaves, Data, Apart, TreeData, Owned, Loose, TreeOK, TreeApart, Valid;
      var n := new Node(block);
      ghost var t := Leaf(n);
      EitherEnd(kids, t);
      LeafIsLoose(n, Held(kids) + {this});
      if atHead {
        AddToHead(ANode(n), t);
      } else {
        AddToTail(ANode(n), t);
      }
    }

    /** Mounts another buffer, whole, at either end. */
    method MountBuffer(b: Buffer, atHead: bool)
      requires Valid() && b.Valid() && b.prev == b.next == Nil
      requires {b} + Held(b.kids) !! Held(kids) + {this}
      modifies this, Held(kids), b
      ensures Valid() && SameState(old(prev), old(next), old(delay), old(released))
      ensures kids == if atHead then [Branch(b, old(b.kids))] + old(kids) else old(kids) + [Branch(b, old(b.kids))]
      ensures Data(kids) == if atHead then old(Data(b.kids)) + old(Data(kids)) else old(Data(kids)) + old(Data(b.kids))
    {
      ghost var t := Branch(b, b.kids);
      EitherEnd(kids, t);
      hide Inside, Held, Leaves, Data, Apart;
      if atHead {
        AddToHead(ABuffer(b), t);
      } else {
        AddToTail(ABuffer(b), t);
      }
    }

    /** Hangs a node or a buffer behind the last part. */
    method AddToTail(node: Link, ghost t: Tree)
      requires Valid() && Loose(node, t, Held(kids) + {this})
      modifies this, Held(kids), OwnObject(t)
      ensures Valid() && kids == old(kids) + [t] && SameState(old(prev), old(next), old(delay), old(released))
    {
      hide Inside, Held, Leaves, Data, TreeOK, TreeApart, TreeLeaves, TreeData, Owned, Apart;
      AppendFacts(kids, t);
      ApartAppend(kids, t);
      NumIs(node, t);
      if tail == Nil {
        head := node;
        tail := node;
        Alone(t);
        assert kids + [t] == [t];
      } else {
        PartIsOwn(kids, |kids| - 1);
        LinkIsOwn(t);
        Attach(kids, |kids| - 1, t, tail, node);
        tail := node;
        NumIs(node, t);
      }
      len := -1;
      num := num + NumOf(node);
      kids := kids + [t];
    }

    /** Hangs a node or a buffer before the first part. */
    method AddToHead(node: Link, ghost t: Tree)
      requires Valid() && Loose(node, t, Held(kids) + {this})
      modifies this, Held(kids), OwnObject(t)
      ensures Valid() && kids == [t] + old(kids) && SameState(old(prev), old(next), old(delay), old(released))
    {
      hide Inside, Held, Leaves, Data, TreeOK, TreeApart, TreeLeaves, TreeData, Owned, Apart;
      PrependFacts(kids, t);
      ApartPrepend(kids, t);
      NumIs(node, t);
      if head == Nil {
        head := node;
        tail := node;
        Alone(t);
        assert [t] + kids == [t];
      } else {
        PartIsOwn(kids, 0);
        LinkIsOwn(t);
        AttachFront(kids, t, head, node);
        head := node;
        NumIs(node, t);
      }
      len := -1;
      num := num + NumOf(node);
      kids := [t] + kids;
    }

    /** The number of bytes, counted once and then remembered. */
    method Len() returns (size: int)
      requires Valid()
      modifies this`len, Buffers(kids)
      ensures Valid() && size == |Data(kids)| && len == size
      decreases kids
    {
      if len >= 0 {
        return len;
      }
      BuffersHeld(kids);
      hide Inside, Held, Owned, Data, Leaves, Apart, Buffers, TreeBuffers;
      size := 0;
      NoParts();
      var node := head;
      ghost var i := 0;
      while node != Nil
        invariant i <= |kids| && node == LinkAt(kids, i) && size == |Data(kids[..i])|
        invariant Inside(kids)
        decreases |kids| - i
        modifies Buffers(kids)
      {
        DataStep(kids, i);
        BuffersOf(kids, i);
        var n, next := MeasurePart(kids, i, node);
        size := size + n;
        node := next;
        i := i + 1;
      }
      assert kids[..i] == kids;
      len := size;
    }

    /** All bytes; a chain of several nodes is measured and copied together. */
    method Bytes() returns (r: seq<Byte>)
      requires Valid()
      modifies this`len, Buffers(kids)
      ensures Valid() && r == ChainBytes(kids)
      decreases kids
    {
      BuffersHeld(kids);
      hide Inside, Held, Owned, Data, Apart, Buffers, TreeBuffers, AllBytes, TreeBytes;
      NoBytes();
      if num == 0 {
        return [];
      }
      if num == 1 {
        OneLeaf(kids);
        BuffersOf(kids, 0);
        var next;
        r, next := ReadPart(kids, 0, head);
        return r;
      }
      var size := Len();
      r := [];
      var node := head;
      ghost var i := 0;
      while node != Nil
        invariant i <= |kids| && node == LinkAt(kids, i) && r == AllBytes(kids[..i])
        invariant Inside(kids)
        decreases |kids| - i
        modifies Buffers(kids)
      {
        BytesStep(kids, i);
        BuffersOf(kids, i);
        var b, next := ReadPart(kids, i, node);
        r := r + b;
        node := next;
        i := i + 1;
      }
      assert kids[..i] == kids;
    }

    /** Shows every node to fn in order until fn asks to stop. */
    method Visit(fn: Node -> bool, seen: seq<Node>) returns (ok: bool, all: seq<Node>)
      requires Valid()
      ensures (ok, all) == (AllPass(fn, Leaves(kids)), seen + Shown(fn, Leaves(kids)))
      decreases kids
    {
      assert allocated(Held(kids));
      hide Inside, Held, Owned, Leaves, Apart, Shown, AllPass, Data;
      NothingShown(fn);
      NoParts();
      all := seen;
      var node := head;
      ghost var i := 0;
      while node != Nil
        invariant i <= |kids| && node == LinkAt(kids, i)
        invariant Inside(kids)
        invariant AllPass(fn, Leaves(kids[..i])) && all == seen + Shown(fn, Leaves(kids[..i]))
        decreases |kids| - i
      {
        var next;
        ok, all, next := VisitAt(kids, i, node, fn, seen, all);
        if !ok {
          ShownEnds(fn, kids, i);
          return false, all;
        }
        node := next;
        i := i + 1;
      }
      assert kids[..i] == kids;
      ok := true;
    }

    /** Puts off the release to the k-th call. */
    method Delay(k: int)
      requires Valid()
      modifies this`delay
      ensures Valid() && delay == k
    {
      hide Inside, Held, Apart, Leaves, Data;
      delay := k;
    }

    /** Counts down the delay and then gives back every block, once. */
    method Release()
      requires Valid() && Immediate(kids)
      modifies this, Held(kids)
      ensures Valid() && Immediate(kids) && delay == old(delay) - 1
      ensures old(delay) > 1 || old(released) ==>
                kids == old(kids) && released == old(released) && Releases(Leaves(kids)) == old(Releases(Leaves(kids)))
      ensures old(delay) <= 1 && !old(released) ==>
                released && kids == []
                && Releases(old(Leaves(kids))) == AllOnce(old(Releases(Leaves(kids))), old(Leaves(kids)))
      decreases kids, 2
    {
      assert allocated(Held(kids)) && allocated(Homes(Leaves(kids)));
      hide Inside, Held, Owned, Apart, Leaves, Data, Immediate, TreeLeaves, Releases, AllOnce, Homes;
      HomesHeld(kids);
      delay := delay - 1;
      if delay > 0 {
        return;
      }
      if released {
        return;
      }
      GiveBack();
    }

    /** Releases the chain and leaves the buffer empty. */
    method GiveBack()
      requires Valid() && Immediate(kids)
      modifies this, Held(kids)
      ensures Valid() && Immediate(kids) && delay == old(delay) && released && kids == []
      ensures Releases(old(Leaves(kids))) == AllOnce(old(Releases(Leaves(kids))), old(Leaves(kids)))
      decreases kids, 1
    {
      assert allocated(Held(kids)) && allocated(Homes(Leaves(kids)));
      hide Inside, Held, Owned, Apart, Leaves, Data, Immediate, TreeLeaves, Releases, AllOnce, Homes;
      HomesHeld(kids);
      released := true;
      ReleaseParts(head, kids);
      Clear();
    }

    method Clear()
      modifies this
      ensures Valid() && Immediate(kids) && delay == old(delay) && released == old(released) && kids == []
    {
      hide Inside, Held, Owned, Apart, Leaves, Data, Immediate;
      len := -1;
      num := 0;
      head, tail, prev, next := Nil, Nil, Nil, Nil;
      kids := [];
      NothingLeft();
    }

    predicate SameState(prev: Link, next: Link, delay: int, released: bool)
      reads this
    {
      this.prev == prev && this.next == next && this.delay == delay && this.released == released
    }
  }

  /** The length of part i and the link behind it; the chain stays in order. */
  method MeasurePart(ghost kids: seq<Tree>, ghost i: nat, node: Link) returns (size: int, next: Link)
    requires i < |kids| && node == LinkAt(kids, i) && Inside(kids) && Apart(kids)
    modifies TreeBuffers(kids[i])
    ensures Inside(kids) && size == |TreeData(kids[i])| && next == LinkAt(kids, i + 1)
    decreases kids[i], 1
  {
    assert forall j :: 0 <= j < |kids| ==> allocated(Owned(kids[j]));
    hide Inside, Held, Owned, Apart, TreeOK, TreeApart, Buffers, TreeBuffers, TreeData, Settled;
    ghost var t := kids[i];
    InsideAt(kids, i);
    RestSettled(kids, i);
    TreeBuffersOwned(t);
    size, next := PartLen(node, t);
    SettledAgain(kids, i);
  }

  method PartLen(node: Link, ghost t: Tree) returns (size: int, next: Link)
    requires node == LinkOf(t) && TreeOK(t) && TreeApart(t)
    modifies TreeBuffers(t)
    ensures TreeOK(t) && size == |TreeData(t)| && next == NextOf(t) == old(NextOf(t)) && PrevOf(t) == old(PrevOf(t))
    decreases t, 0
  {
    hide Inside, Held, Leaves, Data, Apart, Buffers;
    match node {
      case Nil =>
        size, next := 0, Nil;
      case ANode(n) =>
        size := if n.block.Some? then |n.block.value.data| else 0;
        next := n.next;
      case ABuffer(b) =>
        BuffersHeld(b.kids);
        size := b.Len();
        next := b.next;
    }
  }

  method ReadPart(ghost kids: seq<Tree>, ghost i: nat, node: Link) returns (r: seq<Byte>, next: Link)
    requires i < |kids| && node == LinkAt(kids, i) && Inside(kids) && Apart(kids)
    modifies TreeBuffers(kids[i])
    ensures Inside(kids) && r == TreeBytes(kids[i]) && next == LinkAt(kids, i + 1)
    decreases kids[i], 1
  {
    assert forall j :: 0 <= j < |kids| ==> allocated(Owned(kids[j]));
    hide Inside, Held, Owned, Apart, TreeOK, TreeApart, Buffers, TreeBuffers, TreeBytes, Settled;
    ghost var t := kids[i];
    InsideAt(kids, i);
    RestSettled(kids, i);
    TreeBuffersOwned(t);
    r, next := PartBytes(node, t);
    SettledAgain(kids, i);
  }

  method PartBytes(node: Link, ghost t: Tree) returns (r: seq<Byte>, next: Link)
    requires node == LinkOf(t) && TreeOK(t) && TreeApart(t)
    modifies TreeBuffers(t)
    ensures TreeOK(t) && r == TreeBytes(t) && next == NextOf(t) == old(NextOf(t)) && PrevOf(t) == old(PrevOf(t))
    decreases t, 0
  {
    hide Inside, Held, Leaves, Data, Apart, Buffers, ChainBytes;
    match node {
      case Nil =>
        r, next := [], Nil;
      case ANode(n) =>
        r := if n.block.Some? then n.block.value.data else [];
        next := n.next;
      case ABuffer(b) =>
        BuffersHeld(b.kids);
        r := b.Bytes();
        next := b.next;
    }
  }

  /** Part i of a chain whose first i parts have all been shown. */
  method VisitAt(ghost kids: seq<Tree>, ghost i: nat, node: Link, fn: Node -> bool, ghost start: seq<Node>, seen: seq<Node>)
    returns (ok: bool, all: seq<Node>, next: Link)
    requires i < |kids| && node == LinkAt(kids, i) && Inside(kids) && Apart(kids)
    requires AllPass(fn, Leaves(kids[..i])) && seen == start + Shown(fn, Leaves(kids[..i]))
    ensures ok == AllPass(fn, Leaves(kids[..i + 1])) && all == start + Shown(fn, Leaves(kids[..i + 1]))
    ensures next == LinkAt(kids, i + 1)
    decreases kids[i], 1
  {
    hide Inside, Held, Owned, Leaves, Apart, Shown, AllPass, Data, TreeOK, TreeApart, Settled, TreeLeaves;
    InsideAt(kids, i);
    DataStep(kids, i);
    ShownStep(fn, Leaves(kids[..i]), TreeLeaves(kids[i]));
    ok, all, next := VisitPart(node, kids[i], fn, seen);
    assert all == start + (Shown(fn, Leaves(kids[..i])) + Shown(fn, TreeLeaves(kids[i])));
  }

  method VisitPart(node: Link, ghost t: Tree, fn: Node -> bool, seen: seq<Node>) returns (ok: bool, all: seq<Node>, next: Link)
    requires node == LinkOf(t) && TreeOK(t) && TreeApart(t)
    ensures ok == AllPass(fn, TreeLeaves(t)) && all == seen + Shown(fn, TreeLeaves(t)) && next == old(NextOf(t))
    decreases t, 0
  {
    hide Inside, Held, Leaves, Data, Apart;
    match node {
      case Nil =>
        ok, all, next := true, seen, Nil;
      case ANode(n) =>
        ok, all, next := fn(n), seen + [n], n.next;
      case ABuffer(b) =>
        ok, all := b.Visit(fn, seen);
        next := b.next;
    }
  }

  ghost predicate AllPass(fn: Node -> bool, nodes: seq<Node>) {
    forall n :: n in nodes ==> fn(n)
  }

  /** The nodes a visitor sees: up to and with the first that makes it stop. */
  ghost function Shown(fn: Node -> bool, nodes: seq<Node>): seq<Node> {
    if nodes == [] then []
    else if fn(nodes[0]) then [nodes[0]] + Shown(fn, nodes[1..])
    else [nodes[0]]
  }

  lemma NothingShown(fn: Node -> bool)
    ensures Shown(fn, []) == [] && AllPass(fn, [])
  {
  }

  lemma {:induction false} ShownStep(fn: Node -> bool, a: seq<Node>, b: seq<Node>)
    ensures AllPass(fn, a) ==> Shown(fn, a + b) == Shown(fn, a) + Shown(fn, b) && (AllPass(fn, a + b) <==> AllPass(fn, b))
    ensures !AllPass(fn, a) ==> Shown(fn, a + b) == Shown(fn, a) && !AllPass(fn, a + b)
  {
    if a == [] {
      assert a + b == b;
    } else {
      ShownStep(fn, a[1..], b);
      assert (a + b)[1..] == a[1..] + b;
      assert forall n :: n in a <==> n == a[0] || n in a[1..];
    }
  }

  /** Once a part has stopped the visitor, the rest of the chain is not shown. */
  lemma ShownEnds(fn: Node -> bool, kids: seq<Tree>, i: nat)
    requires i < |kids| && !AllPass(fn, Leaves(kids[..i + 1]))
    ensures Shown(fn, Leaves(kids)) == Shown(fn, Leaves(kids[..i + 1])) && !AllPass(fn, Leaves(kids))
  {
    hide Shown, AllPass;
    LeavesSplit(kids, i + 1);
    ShownStep(fn, Leaves(kids[..i + 1]), Leaves(kids[i + 1..]));
  }

  lemma {:induction false} LeavesSplit(kids: seq<Tree>, i: nat)
    requires i <= |kids|
    ensures Leaves(kids) == Leaves(kids[..i]) + Leaves(kids[i..])
    decreases |kids|
  {
    if i == |kids| {
      assert kids[..i] == kids && kids[i..] == [];
    } else {
      var n := |kids| - 1;
      LeavesSplit(kids[..n], i);
      assert kids[..n][..i] == kids[..i];
      assert kids[..n][i..] + [kids[n]] == kids[i..];
      AppendFacts(kids[..n][i..], kids[n]);
    }
  }

  lemma NoBytes()
    ensures AllBytes([]) == []
  {
  }

  lemma OneLeaf(kids: seq<Tree>)
    requires |Leaves(kids)| == 1
    ensures kids != []
  {
  }

  lemma BytesStep(kids: seq<Tree>, i: nat)
    requires i < |kids|
    ensures AllBytes(kids[..i + 1]) == AllBytes(kids[..i]) + TreeBytes(kids[i])
  {
    assert kids[..i + 1][..i] == kids[..i];
  }

  function Once(b: Block): nat {
    if b.pooled then 1 else 0
  }

  ghost function Homes(nodes: seq<Node>): set<object> {
    set i | 0 <= i < |nodes| :: nodes[i].home as object
  }

  /** How often the block of each node has been given back. */
  ghost function Releases(nodes: seq<Node>): (r: seq<nat>)
    reads Homes(nodes)
    ensures |r| == |nodes|
  {
    seq(|nodes|, i requires 0 <= i < |nodes| reads Homes(nodes) => nodes[i].home.releases)
  }

  /** Once more each. */
  ghost function AllOnce(r: seq<nat>, nodes: seq<Node>): (r': seq<nat>)
    requires |r| == |nodes|
    ensures |r'| == |nodes|
  {
    seq(|nodes|, i requires 0 <= i < |nodes| => r[i] + Once(nodes[i].home))
  }

  /** Nested buffers have no release of their own pending and have not been released. */
  ghost predicate TreeImmediate(t: Tree)
    reads Owned(t)
    decreases t
  {
    match t
    case Leaf(_) => true
    case Branch(b, kids) => b.delay <= 1 && !b.released && Immediate(kids)
  }

  ghost predicate Immediate(kids: seq<Tree>)
    reads Held(kids)
    decreases kids
  {
    forall i :: 0 <= i < |kids| ==> (ObjectsOf(kids, i); TreeImmediate(kids[i]))
  }

  /** The loop over the chain of a buffer that is being released. */
  method ReleaseParts(head: Link, ghost parts: seq<Tree>)
    requires head == LinkAt(parts, 0) && Inside(parts) && Apart(parts) && Immediate(parts)
    modifies Held(parts)
    ensures Releases(Leaves(parts)) == AllOnce(old(Releases(Leaves(parts))), Leaves(parts))
    decreases parts, 0
  {
    hide Inside, Held, Owned, Apart, Leaves, Immediate, Releases, AllOnce, Waiting, Tallied, Flattened;
    StartRelease(parts);
    ghost var counts := Snapshot(parts);
    var node := head;
    ghost var i := 0;
    while node != Nil
      invariant i <= |parts| && node == LinkAt(parts, i)
      invariant Waiting(parts, i) && Tallied(parts, counts, i)
      decreases |parts| - i
      modifies Held(parts)
    {
      ObjectsOf(parts, i);
      node := ReleaseAt(parts, counts, i, node);
      i := i + 1;
    }
    AllReleased(parts, counts);
  }

  ghost function Flattened(counts: seq<seq<nat>>): seq<nat> {
    if counts == [] then [] else Flattened(counts[..|counts| - 1]) + counts[|counts| - 1]
  }

  lemma {:induction false} Snapshot(parts: seq<Tree>) returns (counts: seq<seq<nat>>)
    ensures Tallied(parts, counts, 0) && Flattened(counts) == Releases(Leaves(parts))
  {
    counts := [];
    if parts != [] {
      var n := |parts| - 1;
      counts := Snapshot(parts[..n]);
      var last := Releases(TreeLeaves(parts[n]));
      assert (counts + [last])[..n] == counts;
      LeavesLast(parts);
      counts := counts + [last];
      hide Releases, Leaves, TreeLeaves, AllOnce;
      assert forall j :: 0 <= j < n ==> parts[..n][j] == parts[j];
    }
  }

  /** The first i parts have been released once more than counted, the others not. */
  ghost predicate Tallied(parts: seq<Tree>, counts: seq<seq<nat>>, i: nat)
    reads set j, n | 0 <= j < |parts| && n in TreeLeaves(parts[j]) :: n.home
  {
    && |counts| == |parts|
    && (forall j :: 0 <= j < |parts| ==> |counts[j]| == |TreeLeaves(parts[j])|)
    && forall j :: 0 <= j < |parts| ==>
         Releases(TreeLeaves(parts[j])) == if j < i then AllOnce(counts[j], TreeLeaves(parts[j])) else counts[j]
  }

  /** The parts from i on are still in order. */
  ghost predicate Waiting(parts: seq<Tree>, i: nat)
    reads Held(parts)
  {
    forall j :: i <= j < |parts| ==> (ObjectsOf(parts, j); Settled(parts, j) && TreeImmediate(parts[j]))
  }

  lemma {:induction false} AllReleased(parts: seq<Tree>, counts: seq<seq<nat>>)
    requires Tallied(parts, counts, |parts|)
    ensures |Flattened(counts)| == |Leaves(parts)|
    ensures Releases(Leaves(parts)) == AllOnce(Flattened(counts), Leaves(parts))
  {
    hide *;
    NoneReleased();
    if parts == [] {
      TalliedNothing(counts);
    } else {
      var n := |parts| - 1;
      TalliedLast(parts, counts);
      AllReleased(parts[..n], counts[..n]);
      AllOnceAppend(Flattened(counts[..n]), counts[n], Leaves(parts[..n]), TreeLeaves(parts[n]));
      LeavesLast(parts);
    }
  }

  lemma NoneReleased()
    ensures Flattened([]) == [] && Leaves([]) == [] && Releases([]) == [] && AllOnce([], []) == []
  {
  }

  lemma TalliedNothing(counts: seq<seq<nat>>)
    requires Tallied([], counts, 0)
    ensures counts == []
  {
  }

  lemma TalliedLast(parts: seq<Tree>, counts: seq<seq<nat>>)
    requires parts != [] && Tallied(parts, counts, |parts|)
    ensures var n := |parts| - 1;
            && |counts| == |parts| && Tallied(parts[..n], counts[..n], n)
            && |counts[n]| == |TreeLeaves(parts[n])|
            && Releases(TreeLeaves(parts[n])) == AllOnce(counts[n], TreeLeaves(parts[n]))
            && Flattened(counts) == Flattened(counts[..n]) + counts[n]
  {
    hide Releases, TreeLeaves, AllOnce;
    var n := |parts| - 1;
    assert forall j :: 0 <= j < n ==> parts[..n][j] == parts[j] && counts[..n][j] == counts[j];
  }

  lemma LeavesLast(parts: seq<Tree>)
    requires parts != []
    ensures var n := |parts| - 1;
            && Leaves(parts) == Leaves(parts[..n]) + TreeLeaves(parts[n])
            && Releases(Leaves(parts)) == Releases(Leaves(parts[..n])) + Releases(TreeLeaves(parts[n]))
  {
    hide Leaves, TreeLeaves, Releases;
    var n := |parts| - 1;
    AppendFacts(parts[..n], parts[n]);
    assert parts[..n] + [parts[n]] == parts;
    ReleasesAppend(Leaves(parts[..n]), TreeLeaves(parts[n]));
  }

  lemma ReleasesAppend(a: seq<Node>, b: seq<Node>)
    ensures Releases(a + b) == Releases(a) + Releases(b)
  {
    hide Homes;
  }

  lemma AllOnceAppend(r: seq<nat>, q: seq<nat>, a: seq<Node>, b: seq<Node>)
    requires |r| == |a| && |q| == |b|
    ensures AllOnce(r + q, a + b) == AllOnce(r, a) + AllOnce(q, b)
  {
  }

  /** Releases part i and leaves the others alone. */
  method ReleaseAt(ghost parts: seq<Tree>, ghost counts: seq<seq<nat>>, ghost i: nat, node: Link) returns (next: Link)
    requires i < |parts| && node == LinkAt(parts, i) && Apart(parts)
    requires Waiting(parts, i) && Tallied(parts, counts, i)
    modifies Owned(parts[i])
    ensures next == LinkAt(parts, i + 1)
    ensures Waiting(parts, i + 1) && Tallied(parts, counts, i + 1)
    decreases parts[i], 1
  {
    assert forall j :: 0 <= j < |parts| ==> allocated(Owned(parts[j]));
    hide Held, Owned, Apart, TreeApart, TreeLeaves, Settled, TreeImmediate, TreeOK, AllOnce;
    SettledIs(parts, i);
    PartsApart(parts, i);
    next := ReleasePart(node, parts[i]);
  }

  lemma PartsApart(parts: seq<Tree>, i: nat)
    requires i < |parts| && Apart(parts)
    ensures forall j :: 0 <= j < |parts| && j != i ==> Owned(parts[j]) !! Owned(parts[i])
    ensures forall j, n :: 0 <= j < |parts| && n in TreeLeaves(parts[j]) ==> n.home in Owned(parts[j])
  {
    hide *;
    forall j | 0 <= j < |parts| && j != i ensures Owned(parts[j]) !! Owned(parts[i]) {
      PairApart(parts, i, j);
    }
    forall j | 0 <= j < |parts| ensures forall n :: n in TreeLeaves(parts[j]) ==> n.home in Owned(parts[j]) {
      LeafHomes(parts[j]);
    }
  }

  method ReleasePart(node: Link, ghost t: Tree) returns (next: Link)
    requires node == LinkOf(t) && TreeOK(t) && TreeApart(t) && TreeImmediate(t)
    modifies Owned(t)
    ensures next == old(NextOf(t))
    ensures Releases(TreeLeaves(t)) == AllOnce(old(Releases(TreeLeaves(t))), TreeLeaves(t))
    decreases t, 0
  {
    hide Inside, Held, Leaves, Data, Apart, Immediate;
    match node {
      case Nil =>
        next := Nil;
      case ANode(n) =>
        next := n.next;
        n.Release();
      case ABuffer(b) =>
        next := b.next;
        OwnedIs(t);
        b.Release();
    }
  }

  lemma OwnedIs(t: Tree)
    ensures t.Branch? ==> {t.buffer} + Held(t.kids) <= Owned(t)
  {
  }

  lemma StartRelease(parts: seq<Tree>)
    requires Inside(parts) && Immediate(parts)
    ensures Waiting(parts, 0)
  {
    hide Settled, TreeImmediate, Held, Owned;
  }

  lemma SettledIs(kids: seq<Tree>, i: nat)
    requires i < |kids| && Settled(kids, i) && Apart(kids)
    ensures TreeOK(kids[i]) && NextOf(kids[i]) == LinkAt(kids, i + 1) && TreeApart(kids[i])
  {
  }

  lemma NothingLeft()
    ensures Inside([]) && Immediate([]) && Held([]) == {} && Apart([]) && Leaves([]) == [] && Data([]) == []
  {
  }

  lemma {:induction false} LeafHomes(t: Tree)
    ensures forall n :: n in TreeLeaves(t) ==> n.home in Owned(t)
  {
    match t
    case Leaf(_) =>
    case Branch(b, kids) => ChainHomes(kids);
  }

  lemma {:induction false} ChainHomes(kids: seq<Tree>)
    ensures forall n :: n in Leaves(kids) ==> n.home in Held(kids)
  {
    if kids != [] {
      ChainHomes(kids[..|kids| - 1]);
      LeafHomes(kids[|kids| - 1]);
    }
  }

  lemma HomesHeld(kids: seq<Tree>)
    ensures Homes(Leaves(kids)) <= Held(kids)
  {
    ChainHomes(kids);
    hide Leaves, Held;
  }

  lemma RestSettled(kids: seq<Tree>, i: nat)
    requires i < |kids| && Inside(kids) && Apart(kids)
    ensures forall j :: 0 <= j < |kids| && j != i ==> Owned(kids[j]) !! Owned(kids[i]) && Settled(kids, j)
  {
    hide Held, Owned, Inside, Apart, TreeApart, TreeOK, NextOf, PrevOf, OwnObject, Settled;
    forall j | 0 <= j < |kids| && j != i ensures Owned(kids[j]) !! Owned(kids[i]) && Settled(kids, j) {
      InsideAt(kids, j);
      PairApart(kids, i, j);
    }
  }

  lemma SettledAgain(kids: seq<Tree>, i: nat)
    requires i < |kids| && forall j :: 0 <= j < |kids| && j != i ==> Settled(kids, j)
    requires TreeOK(kids[i]) && NextOf(kids[i]) == LinkAt(kids, i + 1) && PrevOf(kids[i]) == LinkAt(kids, i - 1)
    ensures Inside(kids)
  {
    hide TreeOK, NextOf, PrevOf, Owned, Held;
    assert Settled(kids, i);
  }

  lemma DataStep(kids: seq<Tree>, i: nat)
    requires i < |kids|
    ensures Data(kids[..i + 1]) == Data(kids[..i]) + TreeData(kids[i])
    ensures Leaves(kids[..i + 1]) == Leaves(kids[..i]) + TreeLeaves(kids[i])
  {
    assert kids[..i + 1] == kids[..i] + [kids[i]];
    AppendFacts(kids[..i], kids[i]);
  }

  /** A part that hangs in no chain yet and shares nothing with these objects. */
  ghost predicate Loose(node: Link, t: Tree, others: set<object>)
    reads Owned(t)
  {
    && node == LinkOf(t) && TreeOK(t) && TreeApart(t)
    && NextOf(t) == Nil && PrevOf(t) == Nil && Owned(t) !! others
  }

  lemma LeafIsLoose(n: Node, others: set<object>)
    requires n.block == Some(n.home) && n.prev == n.next == Nil && n !in others && n.home !in others
    ensures Loose(ANode(n), Leaf(n), others) && TreeData(Leaf(n)) == n.home.data
    ensures OwnObject(Leaf(n)) == n
  {
  }

  function NumOf(node: Link): int
    reads if node.ABuffer? then {node.buffer} else {}
  {
    match node
    case Nil => 0
    case ANode(_) => 1
    case ABuffer(b) => b.num
  }

  method SetNext(node: Link, to: Link, ghost t: Tree)
    requires node == LinkOf(t) && TreeOK(t) && TreeApart(t)
    modifies OwnObject(t)
    ensures TreeOK(t) && NextOf(t) == to && PrevOf(t) == old(PrevOf(t))
  {
    hide Inside, Held, Leaves, Data;
    match node {
      case Nil =>
      case ANode(n) => n.next := to;
      case ABuffer(b) => b.next := to;
    }
  }

  method SetPrev(node: Link, to: Link, ghost t: Tree)
    requires node == LinkOf(t) && TreeOK(t) && TreeApart(t)
    modifies OwnObject(t)
    ensures TreeOK(t) && PrevOf(t) == to && NextOf(t) == old(NextOf(t))
  {
    hide Inside, Held, Leaves, Data;
    match node {
      case Nil =>
      case ANode(n) => n.prev := to;
      case ABuffer(b) => b.prev := to;
    }
  }

  /** Makes two parts neighbours. */
  method Couple(left: Link, right: Link, ghost t: Tree, ghost u: Tree)
    requires left == LinkOf(t) && TreeOK(t) && TreeApart(t) && right == LinkOf(u) && TreeOK(u) && TreeApart(u)
    requires OwnObject(t) !in Owned(u) && OwnObject(u) !in Owned(t)
    modifies OwnObject(t), OwnObject(u)
    ensures TreeOK(t) && TreeOK(u) && NextOf(t) == right && PrevOf(u) == left
    ensures PrevOf(t) == old(PrevOf(t)) && NextOf(u) == old(NextOf(u))
  {
    assert allocated(Owned(t)) && allocated(Owned(u));
    LinkIsOwn(t);
    LinkIsOwn(u);
    hide Held, Owned, TreeApart, TreeOK, NextOf, PrevOf, OwnObject;
    SetPrev(right, left, u);
    SetNext(left, right, t);
  }

  /** Links a loose part behind the last one, which is part m. */
  method Attach(ghost kids: seq<Tree>, ghost m: nat, ghost t: Tree, tail: Link, node: Link)
    requires m + 1 == |kids| && tail == LinkOf(kids[m])
    requires Inside(kids) && Apart(kids) && Loose(node, t, Held(kids))
    modifies OwnObject(kids[m]), OwnObject(t)
    ensures Inside(kids + [t]) && TreeOK(t)
  {
    assert allocated(Owned(t)) && forall i :: 0 <= i < |kids| ==> allocated(Owned(kids[i]));
    hide Held, Owned, Leaves, Data, Inside, Apart, TreeApart, TreeOK, NextOf, PrevOf, OwnObject, Settled;
    ghost var last := kids[m];
    InsideAt(kids, m);
    LinkIsOwn(t);
    LinkIsOwn(last);
    OthersApart(kids, t, m);
    Couple(tail, node, last, t);
    InsideBack(kids, m, t);
  }

  /** Links a loose part before the first one. */
  method AttachFront(ghost kids: seq<Tree>, ghost t: Tree, head: Link, node: Link)
    requires kids != [] && head == LinkOf(kids[0])
    requires Inside(kids) && Apart(kids) && Loose(node, t, Held(kids))
    modifies OwnObject(kids[0]), OwnObject(t)
    ensures Inside([t] + kids) && TreeOK(t)
  {
    assert allocated(Owned(t)) && forall i :: 0 <= i < |kids| ==> allocated(Owned(kids[i]));
    hide Held, Owned, Leaves, Data, Inside, Apart, TreeApart, TreeOK, NextOf, PrevOf, OwnObject, Settled;
    ghost var first := kids[0];
    InsideAt(kids, 0);
    LinkIsOwn(t);
    LinkIsOwn(first);
    OthersApart(kids, t, 0);
    Couple(node, head, t, first);
    InsideFront(kids, t);
  }

  lemma InsideBack(kids: seq<Tree>, m: nat, t: Tree)
    requires m + 1 == |kids| && forall i :: 0 <= i < |kids| && i != m ==> Settled(kids, i)
    requires TreeOK(kids[m]) && NextOf(kids[m]) == LinkOf(t) && PrevOf(kids[m]) == LinkAt(kids, m - 1)
    requires TreeOK(t) && NextOf(t) == Nil && PrevOf(t) == LinkOf(kids[m])
    ensures Inside(kids + [t])
  {
    hide TreeOK, NextOf, PrevOf, Owned, Held;
    var all := kids + [t];
    forall i | 0 <= i < |all| ensures Settled(all, i) {
      if i < m {
        assert Settled(kids, i) && all[i] == kids[i];
      }
    }
  }

  lemma InsideFront(kids: seq<Tree>, t: Tree)
    requires kids != []
    requires forall i :: 0 < i < |kids| ==> Settled(kids, i)
    requires TreeOK(kids[0]) && NextOf(kids[0]) == LinkAt(kids, 1) && PrevOf(kids[0]) == LinkOf(t)
    requires TreeOK(t) && NextOf(t) == LinkOf(kids[0]) && PrevOf(t) == Nil
    ensures Inside([t] + kids)
  {
    hide TreeOK, NextOf, PrevOf, Owned, Held;
    var all := [t] + kids;
    forall i | 0 <= i < |all| ensures Settled(all, i) {
      if i > 1 {
        assert Settled(kids, i - 1) && all[i] == kids[i - 1];
      }
    }
  }

  /** The other parts share nothing with part j or with a loose part. */
  lemma OthersApart(kids: seq<Tree>, t: Tree, j: nat)
    requires Inside(kids) && Apart(kids) && Owned(t) !! Held(kids) && j < |kids|
    ensures Owned(kids[j]) !! Owned(t)
    ensures forall i :: 0 <= i < |kids| && i != j ==> Owned(kids[i]) !! Owned(kids[j]) + Owned(t) && Settled(kids, i)
  {
    hide Held, Owned, Inside, Apart, TreeApart, TreeOK, NextOf, PrevOf, OwnObject, Settled;
    InsideAt(kids, j);
    forall i | 0 <= i < |kids| && i != j ensures Owned(kids[i]) !! Owned(kids[j]) + Owned(t) && Settled(kids, i) {
      InsideAt(kids, i);
      PairApart(kids, i, j);
    }
  }

  lemma PairApart(kids: seq<Tree>, i: nat, j: nat)
    requires i < |kids| && j < |kids| && i != j && Apart(kids)
    ensures Owned(kids[i]) !! Owned(kids[j])
  {
  }

  lemma LinkIsOwn(t: Tree)
    ensures OwnObject(t) in Owned(t)
    ensures LinkOf(t).ABuffer? ==> LinkOf(t).buffer == OwnObject(t)
  {
  }

  lemma PartIsOwn(kids: seq<Tree>, i: nat)
    requires i < |kids|
    ensures OwnObject(kids[i]) in Held(kids)
  {
    ObjectsOf(kids, i);
  }

  lemma InsideAt(kids: seq<Tree>, i: nat)
    requires i < |kids| && Inside(kids) && Apart(kids)
    ensures Owned(kids[i]) <= Held(kids)
    ensures TreeOK(kids[i]) && TreeApart(kids[i]) && Settled(kids, i)
    ensures NextOf(kids[i]) == LinkAt(kids, i + 1) && PrevOf(kids[i]) == LinkAt(kids, i - 1)
  {
    ObjectsOf(kids, i);
    assert Settled(kids, i);
  }

  lemma Alone(t: Tree)
    requires TreeOK(t) && NextOf(t) == Nil && PrevOf(t) == Nil
    ensures Inside([t])
  {
  }

  lemma NumIs(node: Link, t: Tree)
    requires node == LinkOf(t) && TreeOK(t)
    ensures NumOf(node) == |TreeLeaves(t)|
  {
  }

  lemma ApartAppend(kids: seq<Tree>, t: Tree)
    requires Apart(kids) && TreeApart(t) && Owned(t) !! Held(kids)
    ensures Apart(kids + [t])
  {
    forall i | 0 <= i < |kids| ensures Owned(kids[i]) !! Owned(t) {
      ObjectsOf(kids, i);
    }
    hide Held, Owned, TreeApart;
  }

  lemma ApartPrepend(kids: seq<Tree>, t: Tree)
    requires Apart(kids) && TreeApart(t) && Owned(t) !! Held(kids)
    ensures Apart([t] + kids)
  {
    forall i | 0 <= i < |kids| ensures Owned(kids[i]) !! Owned(t) {
      ObjectsOf(kids, i);
    }
    hide Held, Owned, TreeApart;
  }

  lemma {:induction false} PrependFacts(kids: seq<Tree>, t: Tree)
    ensures Leaves([t] + kids) == TreeLeaves(t) + Leaves(kids)
    ensures Data([t] + kids) == TreeData(t) + Data(kids)
    ensures Held([t] + kids) == Owned(t) + Held(kids)
  {
    hide Leaves, Data, Held, TreeLeaves, TreeData, Owned;
    NoParts();
    if kids == [] {
      AppendFacts([], t);
      assert [] + [t] == [t] == [t] + kids;
    } else {
      var n, last := |kids| - 1, kids[|kids| - 1];
      PrependFacts(kids[..n], t);
      AppendFacts([t] + kids[..n], last);
      AppendFacts(kids[..n], last);
      assert kids[..n] + [last] == kids;
      assert ([t] + kids[..n]) + [last] == [t] + kids;
    }
  }

  lemma NoParts()
    ensures Leaves([]) == [] && Data([]) == [] && Held([]) == {}
  {
  }

  lemma AppendFacts(kids: seq<Tree>, t: Tree)
    ensures Leaves(kids + [t]) == Leaves(kids) + TreeLeaves(t)
    ensures Data(kids + [t]) == Data(kids) + TreeData(t)
    ensures Held(kids + [t]) == Held(kids) + Owned(t)
  {
    assert (kids + [t])[..|kids|] == kids;
  }

  lemma EitherEnd(kids: seq<Tree>, t: Tree)
    ensures Data(kids + [t]) == Data(kids) + TreeData(t) && Data([t] + kids) == TreeData(t) + Data(kids)
  {
    AppendFacts(kids, t);
    PrependFacts(kids, t);
  }

  /** After Delay(k), any number m of releases gives every pooled block back exactly once from the k-th on, and
      not at all before. */
  method ReleaseTimes(b: Buffer, k: int, m: nat)
    requires b.Valid() && Immediate(b.kids) && !b.released && k >= 1
    modifies b, Held(b.kids)
    ensures var nodes := old(Leaves(b.kids));
            Releases(nodes) == if m >= k then AllOnce(old(Releases(nodes)), nodes) else old(Releases(nodes))
  {
    ghost var kids, nodes := b.kids, Leaves(b.kids);
    assert allocated(Held(kids)) && allocated(Homes(nodes));
    HomesHeld(kids);
    Unheld(b);
    hide Held, Apart, Leaves, Data, Releases, AllOnce, Homes, Immediate, Buffer.Valid, Buffer.Describes, Inside;
    b.Delay(k);
    var i := 0;
    while i < m
      invariant i <= m && b.Valid() && Immediate(b.kids) && b.delay == k - i
      invariant i < k ==> b.kids == kids && !b.released && Releases(nodes) == old(Releases(nodes))
      invariant i >= k ==> b.kids == [] && b.released && Releases(nodes) == AllOnce(old(Releases(nodes)), nodes)
    {
      NothingLeft();
      b.Release();
      i := i + 1;
    }
  }

  lemma Unheld(b: Buffer)
    requires b.Valid()
    ensures b !in Held(b.kids)
  {
  }

  // ---- when the bytes read out are the bytes held

  /** No chain with a single node in all has a part without nodes in front of it, unless that node is empty. */
  ghost predicate Faithful(kids: seq<Tree>)
    decreases kids
  {
    && (|Leaves(kids)| == 1 && kids != [] && TreeLeaves(kids[0]) == [] ==> Data(kids) == [])
    && forall i :: 0 <= i < |kids| ==> TreeFaithful(kids[i])
  }

  ghost predicate TreeFaithful(t: Tree)
    decreases t
  {
    t.Branch? ==> Faithful(t.kids)
  }

  /** Reading out never invents bytes, and it gives all of them exactly for faithful chains. */
  lemma {:induction false} BytesExact(kids: seq<Tree>)
    ensures |ChainBytes(kids)| <= |Data(kids)|
    ensures ChainBytes(kids) == Data(kids) <==> Faithful(kids)
    decreases kids, 1
  {
    hide Data, AllBytes;
    if |Leaves(kids)| == 0 {
      Leafless(kids);
    } else if |Leaves(kids)| == 1 {
      OneLeaf(kids);
      AllExact(kids);
      TreeExact(kids[0]);
      FirstOnly(kids);
    } else {
      AllExact(kids);
    }
  }

  lemma {:induction false} AllExact(kids: seq<Tree>)
    ensures |AllBytes(kids)| <= |Data(kids)|
    ensures AllBytes(kids) == Data(kids) <==> forall i :: 0 <= i < |kids| ==> TreeFaithful(kids[i])
    ensures Data(kids) == [] ==> forall i :: 0 <= i < |kids| ==> TreeFaithful(kids[i])
    decreases kids, 0
  {
    hide Leaves, TreeLeaves, TreeFaithful, TreeBytes, TreeData;
    if kids != [] {
      var n := |kids| - 1;
      AllExact(kids[..n]);
      TreeExact(kids[n]);
      LongerParts(AllBytes(kids[..n]), TreeBytes(kids[n]), Data(kids[..n]), TreeData(kids[n]));
      assert forall i :: 0 <= i < n ==> kids[..n][i] == kids[i];
    }
  }

  lemma {:induction false} TreeExact(t: Tree)
    ensures |TreeBytes(t)| <= |TreeData(t)|
    ensures TreeBytes(t) == TreeData(t) <==> TreeFaithful(t)
    decreases t, 0
  {
    match t
    case Leaf(_) =>
    case Branch(_, kids) => BytesExact(kids);
  }

  lemma LongerParts(a: seq<Byte>, b: seq<Byte>, c: seq<Byte>, d: seq<Byte>)
    requires |a| <= |c| && |b| <= |d|
    ensures a + b == c + d <==> a == c && b == d
  {
    if a + b == c + d {
      assert |a| == |c|;
      assert (a + b)[..|a|] == a && (c + d)[..|a|] == c;
      assert (a + b)[|a|..] == b && (c + d)[|a|..] == d;
    }
  }

  lemma {:induction false} Leafless(kids: seq<Tree>)
    requires Leaves(kids) == []
    ensures Data(kids) == [] && Faithful(kids) && forall i :: 0 <= i < |kids| ==> TreeLeaves(kids[i]) == []
  {
    if kids != [] {
      var n := |kids| - 1;
      Leafless(kids[..n]);
      assert forall i :: 0 <= i < n ==> kids[..n][i] == kids[i];
      if kids[n].Branch? {
        Leafless(kids[n].kids);
      }
    }
  }

  /** With the single node in the first part, the rest adds nothing. */
  lemma FirstOnly(kids: seq<Tree>)
    requires |Leaves(kids)| == 1 && kids != []
    ensures TreeLeaves(kids[0]) != [] ==>
              Data(kids) == TreeData(kids[0]) && forall i :: 0 < i < |kids| ==> TreeFaithful(kids[i])
    ensures TreeLeaves(kids[0]) == [] ==> TreeBytes(kids[0]) == []
  {
    var rest := kids[1..];
    assert kids == [kids[0]] + rest;
    PrependFacts(rest, kids[0]);
    if TreeLeaves(kids[0]) != [] {
      Leafless(rest);
      forall i | 0 < i < |kids| ensures TreeFaithful(kids[i]) {
        assert kids[i] == rest[i - 1];
      }
    }
  }

  /** In particular whenever no part is without nodes, at any depth. */
  ghost predicate NoEmptyPart(kids: seq<Tree>)
    decreases kids
  {
    forall i :: 0 <= i < |kids| ==> NoEmptyTree(kids[i])
  }

  ghost predicate NoEmptyTree(t: Tree)
    decreases t
  {
    TreeLeaves(t) != [] && (t.Branch? ==> NoEmptyPart(t.kids))
  }

  lemma {:induction false} NoEmptyFaithful(kids: seq<Tree>)
    requires NoEmptyPart(kids)
    ensures Faithful(kids) && ChainBytes(kids) == Data(kids)
    decreases kids
  {
    forall i | 0 <= i < |kids| ensures TreeFaithful(kids[i]) {
      assert NoEmptyTree(kids[i]);
      if kids[i].Branch? {
        NoEmptyFaithful(kids[i].kids);
      }
    }
    assert kids != [] ==> NoEmptyTree(kids[0]);
    BytesExact(kids);
  }

  /** An empty buffer mounted before the only node hides its bytes. */
  lemma EmptyBufferHides(b: Buffer, n: Node)
    requires n.home.data != []
    ensures ChainBytes([Branch(b, []), Leaf(n)]) == [] != Data([Branch(b, []), Leaf(n)])
  {
    var empty := Branch(b, []);
    AppendFacts([], empty);
    AppendFacts([empty], Leaf(n));
    NoParts();
    assert [] + [empty] == [empty] && [empty] + [Leaf(n)] == [Branch(b, []), Leaf(n)];
    assert TreeData(empty) == [] && TreeLeaves(empty) == [];
    assert TreeBytes(empty) == ChainBytes([]) == [];
  }

  /** Through the calls: mounting an empty buffer and then a block reads out as nothing. */
  method MountedBehindEmpty(block: Block) returns (b: Buffer, bytes: seq<Byte>)
    requires block.data != []
    ensures b.Valid() && Data(b.kids) == block.data && bytes == []
  {
    hide Inside, Held, Owned, Leaves, Data, Apart, Buffers, TreeBuffers, ChainBytes;
    b := new Buffer();
    var empty := new Buffer();
    NoParts();
    b.MountBuffer(empty, false);
    OnlyEmpty(empty, b.kids);
    b.MountBlock(block, false);
    ghost var n: Node :| fresh(n) && n.home == block && b.kids == [Branch(empty, [])] + [Leaf(n)];
    EmptyBufferHides(empty, n);
    OneBuffer(empty, n);
    assert b.kids == [Branch(empty, []), Leaf(n)];
    bytes := b.Bytes();
  }

  lemma OnlyEmpty(b: Buffer, kids: seq<Tree>)
    requires kids == [] + [Branch(b, [])]
    ensures kids == [Branch(b, [])] && Held(kids) == {b} && Data(kids) == []
  {
    AppendFacts([], Branch(b, []));
    NoParts();
    assert Owned(Branch(b, [])) == {b} + Objects([]);
    assert TreeData(Branch(b, [])) == Data([]);
  }

  lemma OneBuffer(b: Buffer, n: Node)
    ensures Buffers([Branch(b, []), Leaf(n)]) == {b}
  {
    var kids := [Branch(b, []), Leaf(n)];
    assert kids[..1] == [Branch(b, [])] && [Branch(b, [])][..0] == [];
    assert Buffers([]) == {};
    assert Buffers([Branch(b, [])]) == Buffers([]) + TreeBuffers(Branch(b, []));
  }
}
