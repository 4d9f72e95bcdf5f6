/** Trees of JSON nodes: building one the way the parser does, and copying one. */
module JsonNodes {
  import opened JsonTree
  import opened JsonList

  /** The nodes of a tree, in their places. */
  datatype Shape = Shape(node: Node, kids: seq<Shape>)

  ghost function Nodes(t: Shape): set<Node>
    decreases t, 1
  {
    {t.node} + NodesOf(t.kids)
  }

  ghost function NodesOf(shapes: seq<Shape>): set<Node>
    decreases shapes, 0
  {
    if shapes == [] then {} else NodesOf(shapes[..|shapes| - 1]) + Nodes(shapes[|shapes| - 1])
  }

  ghost function RootsOf(shapes: seq<Shape>): set<Node>
    decreases shapes
  {
    if shapes == [] then {} else RootsOf(shapes[..|shapes| - 1]) + {shapes[|shapes| - 1].node}
  }

  /** The nodes of the trees but for their roots. */
  ghost function BelowOf(shapes: seq<Shape>): set<Node>
    decreases shapes
  {
    if shapes == [] then {} else BelowOf(shapes[..|shapes| - 1]) + NodesOf(shapes[|shapes| - 1].kids)
  }

  /** No node stands in two places. */
  ghost predicate Tree(t: Shape)
    decreases t, 1
  {
    t.node !in NodesOf(t.kids) && Forest(t.kids)
  }

  ghost predicate Forest(shapes: seq<Shape>)
    decreases shapes, 0
  {
    shapes == [] ||
    (var front, last := shapes[..|shapes| - 1], shapes[|shapes| - 1];
     Forest(front) && Tree(last) && NodesOf(front) !! Nodes(last))
  }

  lemma SplitLast(shapes: seq<Shape>)
    requires shapes != []
    ensures var front, last := shapes[..|shapes| - 1], shapes[|shapes| - 1];
            NodesOf(shapes) == NodesOf(front) + {last.node} + NodesOf(last.kids)
  {
  }

  lemma {:induction false} RootsAndBelow(shapes: seq<Shape>)
    ensures NodesOf(shapes) == RootsOf(shapes) + BelowOf(shapes)
    decreases |shapes|
  {
    if shapes != [] {
      SplitLast(shapes);
      RootsAndBelow(shapes[..|shapes| - 1]);
    }
  }

  lemma {:induction false} RootsApart(shapes: seq<Shape>)
    requires Forest(shapes)
    ensures RootsOf(shapes) !! BelowOf(shapes)
    decreases |shapes|
  {
    if shapes != [] {
      var front, last := shapes[..|shapes| - 1], shapes[|shapes| - 1];
      RootsApart(front);
      RootsAndBelow(front);
      assert Tree(last) && Nodes(last) == {last.node} + NodesOf(last.kids);
    }
  }

  /** The last root is none of those before. */
  lemma LastApart(shapes: seq<Shape>)
    requires Forest(shapes) && shapes != []
    ensures shapes[|shapes| - 1].node !in RootsOf(shapes[..|shapes| - 1])
    ensures shapes[|shapes| - 1].node in RootsOf(shapes)
  {
    var last := shapes[|shapes| - 1];
    RootsAndBelow(shapes[..|shapes| - 1]);
    assert last.node in Nodes(last);
  }

  // ---------------------------------------------------------------- links

  ghost function FirstRoot(shapes: seq<Shape>): Node? { if shapes == [] then null else shapes[0].node }

  ghost function LastRoot(shapes: seq<Shape>): Node? { if shapes == [] then null else shapes[|shapes| - 1].node }

  /** The roots are chained both ways. */
  ghost predicate Chained(shapes: seq<Shape>)
    reads RootsOf(shapes)`next, RootsOf(shapes)`prev
    decreases |shapes|
  {
    |shapes| <= 1 ||
    (var front, last := shapes[..|shapes| - 1], shapes[|shapes| - 1].node;
     assert LastRoot(front) in RootsOf(front);
     Chained(front) && LastRoot(front).next == last && last.prev == LastRoot(front))
  }

  /** The trees are the children of parent, the head pointing back to the tail. */
  ghost predicate Strung(parent: Node, shapes: seq<Shape>)
    reads parent`child, RootsOf(shapes)`next, RootsOf(shapes)`prev
  {
    FirstIsRoot(shapes);
    parent.child == FirstRoot(shapes) && Chained(shapes)
    && (shapes != [] ==> FirstRoot(shapes).prev == LastRoot(shapes) && LastRoot(shapes).next == null)
  }

  lemma {:induction false} FirstIsRoot(shapes: seq<Shape>)
    ensures shapes != [] ==> FirstRoot(shapes) in RootsOf(shapes) && LastRoot(shapes) in RootsOf(shapes)
    decreases |shapes|
  {
    if |shapes| > 1 { FirstIsRoot(shapes[..|shapes| - 1]); }
  }

  /** In a tree every list of children is strung as it should be. */
  ghost predicate Wired(t: Shape)
    reads Nodes(t)`child, NodesOf(t.kids)`next, NodesOf(t.kids)`prev
    decreases t, 1
  {
    RootsAndBelow(t.kids);
    Strung(t.node, t.kids) && AllWired(t.kids)
  }

  ghost predicate AllWired(shapes: seq<Shape>)
    reads NodesOf(shapes)`child, BelowOf(shapes)`next, BelowOf(shapes)`prev
    decreases shapes, 0
  {
    shapes == [] || (AllWired(shapes[..|shapes| - 1]) && Wired(shapes[|shapes| - 1]))
  }

  ghost function Roots(shapes: seq<Shape>): seq<Node>
    decreases |shapes|
  {
    if shapes == [] then [] else Roots(shapes[..|shapes| - 1]) + [shapes[|shapes| - 1].node]
  }

  lemma {:induction false} RootAt(shapes: seq<Shape>, k: nat)
    requires k < |shapes|
    ensures |Roots(shapes)| == |shapes| && Roots(shapes)[k] == shapes[k].node
    decreases |shapes|
  {
    if k < |shapes| - 1 { RootAt(shapes[..|shapes| - 1], k); }
    else if k > 0 { RootAt(shapes[..|shapes| - 1], 0); }
  }

  lemma {:induction false} RootsMember(shapes: seq<Shape>, n: Node)
    ensures n in Roots(shapes) <==> n in RootsOf(shapes)
    decreases |shapes|
  {
    if shapes != [] { RootsMember(shapes[..|shapes| - 1], n); }
  }

  lemma {:induction false} RootsDoNotRepeat(shapes: seq<Shape>)
    requires Forest(shapes)
    ensures NoRepeats(Roots(shapes))
    decreases |shapes|
  {
    if shapes != [] {
      var front := shapes[..|shapes| - 1];
      RootsDoNotRepeat(front);
      LastApart(shapes);
      RootsMember(front, shapes[|shapes| - 1].node);
      assert Roots(shapes)[..|Roots(shapes)| - 1] == Roots(front);
    }
  }

  lemma {:induction false} ChainedAt(shapes: seq<Shape>, k: nat)
    requires Chained(shapes) && k + 1 < |shapes|
    ensures shapes[k].node.next == shapes[k + 1].node && shapes[k + 1].node.prev == shapes[k].node
    decreases |shapes|
  {
    if k + 2 < |shapes| { ChainedAt(shapes[..|shapes| - 1], k); }
  }

  /** Strung children are linked in the sense of the list operations. */
  lemma StrungIsLinked(t: Shape)
    requires Tree(t) && Strung(t.node, t.kids)
    ensures Linked(t.node, Roots(t.kids))
  {
    var roots, kids := Roots(t.kids), t.kids;
    RootsDoNotRepeat(kids);
    RootsMember(kids, t.node);
    RootsAndBelow(kids);
    if kids != [] { RootAt(kids, 0); RootAt(kids, |kids| - 1); }
    forall k | 0 <= k < |roots| ensures roots[k].next == NextOf(roots, k) && roots[k].prev == PrevOf(roots, k) {
      RootAt(kids, k);
      if k + 1 < |kids| { RootAt(kids, k + 1); ChainedAt(kids, k); }
      if k > 0 { RootAt(kids, k - 1); ChainedAt(kids, k - 1); }
    }
  }

  // ---------------------------------------------------------------- the value of a tree

  ghost function ToJson(t: Shape): Json
    reads Nodes(t)`kind, Nodes(t)`valuestring, Nodes(t)`number, Nodes(t)`key
    decreases t, 1
  {
    match t.node.kind
    case FalseKind => Bool(false)
    case TrueKind => Bool(true)
    case NullKind => Null
    case NumberKind => Num(t.node.number)
    case StringKind => Str(t.node.valuestring)
    case ArrayKind => Arr(ToItems(t.kids))
    case ObjectKind => Obj(ToMembers(t.kids))
  }

  ghost function ToItems(shapes: seq<Shape>): seq<Json>
    reads NodesOf(shapes)`kind, NodesOf(shapes)`valuestring, NodesOf(shapes)`number, NodesOf(shapes)`key
    decreases shapes, 0
  {
    if shapes == [] then [] else ToItems(shapes[..|shapes| - 1]) + [ToJson(shapes[|shapes| - 1])]
  }

  ghost function ToMembers(shapes: seq<Shape>): seq<Member>
    reads NodesOf(shapes)`kind, NodesOf(shapes)`valuestring, NodesOf(shapes)`number, NodesOf(shapes)`key
    decreases shapes, 0
  {
    if shapes == [] then []
    else
      var last := shapes[|shapes| - 1];
      ToMembers(shapes[..|shapes| - 1]) + [Member(last.node.key, ToJson(last))]
  }

  // ---------------------------------------------------------------- building a list from the front

  /** A list of trees that is being built: the head does not point back to the tail yet. */
  ghost predicate Building(done: seq<Shape>)
    reads NodesOf(done)`child, NodesOf(done)`next, NodesOf(done)`prev
  {
    RootsAndBelow(done);
    Forest(done) && AllWired(done) && Chained(done)
  }

  lemma WiredOneMore(done: seq<Shape>, t: Shape)
    requires AllWired(done) && Wired(t)
    ensures AllWired(done + [t])
    ensures ToItems(done + [t]) == ToItems(done) + [ToJson(t)]
    ensures ToMembers(done + [t]) == ToMembers(done) + [Member(t.node.key, ToJson(t))]
  {
    assert (done + [t])[..|done|] == done;
  }

  lemma ChainedOneMore(done: seq<Shape>, t: Shape)
    requires Chained(done) && (done != [] ==> LastRoot(done).next == t.node && t.node.prev == LastRoot(done))
    ensures Chained(done + [t])
  {
    assert (done + [t])[..|done|] == done;
  }

  /** grown is done and one more tree, whose root is node. */
  ghost predicate Grown(grown: seq<Shape>, done: seq<Shape>, node: Node) {
    |grown| == |done| + 1 && LastRoot(grown) == node && NodesOf(done) <= NodesOf(grown)
    && FirstRoot(grown) == (if done == [] then node else FirstRoot(done))
  }

  /** Everything that holds of the list with one more tree at its end. */
  lemma Grow(done: seq<Shape>, t: Shape) returns (grown: seq<Shape>)
    requires Building(done) && Tree(t) && Wired(t) && NodesOf(done) !! Nodes(t)
    requires done != [] ==> LastRoot(done).next == t.node && t.node.prev == LastRoot(done)
    ensures Building(grown) && Grown(grown, done, t.node) && NodesOf(grown) == NodesOf(done) + Nodes(t)
    ensures ToItems(grown) == ToItems(done) + [ToJson(t)]
    ensures ToMembers(grown) == ToMembers(done) + [Member(t.node.key, ToJson(t))]
  {
    WiredOneMore(done, t);
    ChainedOneMore(done, t);
    grown := done + [t];
  }

  /** Chains a node that is in none of the trees behind the last root. */
  method Extend(last: Node?, item: Node, ghost done: seq<Shape>)
    requires Building(done) && last == LastRoot(done) && item !in NodesOf(done)
    modifies (if last == null then {} else {last})`next, item`prev
    ensures AllWired(done) && Chained(done) && (last != null ==> last.next == item && item.prev == last)
    ensures ToItems(done) == old(ToItems(done)) && ToMembers(done) == old(ToMembers(done))
  {
    RootsAndBelow(done);
    RootsApart(done);
    if last != null {
      LastApart(done);
      last.next := item;
      item.prev := last;
    }
  }

  /** The chain does not depend on where the head points back to. */
  twostate lemma {:induction false} ChainedBehindHead(shapes: seq<Shape>)
    requires Forest(shapes) && old(Chained(shapes))
    requires forall n: Node | old(allocated(n)) :: n in RootsOf(shapes) ==>
               n.next == old(n.next) && (n != FirstRoot(shapes) ==> n.prev == old(n.prev))
    ensures Chained(shapes)
    decreases |shapes|
  {
    if |shapes| > 1 {
      LastApart(shapes);
      FirstIsRoot(shapes[..|shapes| - 1]);
      ChainedBehindHead(shapes[..|shapes| - 1]);
    }
  }

  /** Lets the head point back to the tail, and makes the list the children of item. */
  method CloseList(item: Node, head: Node?, last: Node?, ghost done: seq<Shape>)
    requires Building(done) && head == FirstRoot(done) && last == LastRoot(done) && item !in NodesOf(done)
    requires last != null ==> last.next == null
    modifies item`child, (if head == null then {} else {head})`prev
    ensures Tree(Shape(item, done)) && Wired(Shape(item, done))
    ensures ToItems(done) == old(ToItems(done)) && ToMembers(done) == old(ToMembers(done))
  {
    RootsAndBelow(done);
    RootsApart(done);
    FirstIsRoot(done);
    if head != null {
      head.prev := last;
      ChainedBehindHead(done);
    }
    item.child := head;
  }

  /** What is made later is none of these. */
  lemma {:induction false} NodesExist(shapes: seq<Shape>)
    ensures forall n <- NodesOf(shapes) :: allocated(n)
    decreases shapes
  {
    if shapes != [] {
      SplitLast(shapes);
      NodesExist(shapes[..|shapes| - 1]);
      NodesExist(shapes[|shapes| - 1].kids);
    }
  }

  lemma RootsExist(shapes: seq<Shape>)
    ensures shapes != [] ==> FirstRoot(shapes) in NodesOf(shapes) && LastRoot(shapes) in NodesOf(shapes)
  {
    FirstIsRoot(shapes);
    RootsAndBelow(shapes);
  }

  twostate lemma {:induction false} NodesExisted(shapes: seq<Shape>)
    ensures forall n <- NodesOf(shapes) :: old(allocated(n))
    decreases shapes
  {
    if shapes != [] {
      SplitLast(shapes);
      NodesExisted(shapes[..|shapes| - 1]);
      NodesExisted(shapes[|shapes| - 1].kids);
    }
  }

  twostate lemma WiredStays(t: Shape)
    requires old(Wired(t))
    requires forall n: Node | old(allocated(n)) :: n in Nodes(t) ==> n.child == old(n.child)
    requires forall n: Node | old(allocated(n)) :: n in NodesOf(t.kids) ==>
               n.next == old(n.next) && n.prev == old(n.prev)
    ensures Wired(t)
  {
    NodesExisted(t.kids);
  }

  twostate lemma ValueStays(t: Shape)
    requires forall n: Node | old(allocated(n)) :: n in Nodes(t) ==>
               n.kind == old(n.kind) && n.valuestring == old(n.valuestring)
               && n.number == old(n.number) && n.key == old(n.key)
    ensures ToJson(t) == old(ToJson(t))
    ensures ToItems(t.kids) == old(ToItems(t.kids)) && ToMembers(t.kids) == old(ToMembers(t.kids))
  {
    NodesExisted(t.kids);
  }

  /** The root's own links are no part of the tree. */
  twostate lemma TreeStays(t: Shape)
    requires old(Wired(t))
    requires forall n: Node | old(allocated(n)) :: n in Nodes(t) ==>
               n.child == old(n.child) && n.kind == old(n.kind) && n.valuestring == old(n.valuestring)
               && n.number == old(n.number) && n.key == old(n.key)
    requires forall n: Node | old(allocated(n)) :: n in NodesOf(t.kids) ==>
               n.next == old(n.next) && n.prev == old(n.prev)
    ensures Wired(t) && ToJson(t) == old(ToJson(t))
    ensures ToItems(t.kids) == old(ToItems(t.kids)) && ToMembers(t.kids) == old(ToMembers(t.kids))
  {
    WiredStays(t);
    ValueStays(t);
  }

  twostate lemma BuildingStays(done: seq<Shape>)
    requires old(Building(done))
    requires forall n: Node | old(allocated(n)) :: n in NodesOf(done) ==> unchanged(n)
    ensures Building(done) && ToItems(done) == old(ToItems(done)) && ToMembers(done) == old(ToMembers(done))
  {
    NodesExisted(done);
    RootsAndBelow(done);
  }

  // ---------------------------------------------------------------- copying a tree

  lemma {:induction false} KidIsTree(kids: seq<Shape>, i: nat)
    requires i < |kids| && Forest(kids) && AllWired(kids)
    ensures Tree(kids[i]) && Wired(kids[i])
    decreases |kids|
  {
    if i < |kids| - 1 { KidIsTree(kids[..|kids| - 1], i); }
  }

  lemma {:induction false} KidValue(kids: seq<Shape>, i: nat)
    requires i < |kids|
    ensures |ToItems(kids)| == |kids| && ToItems(kids)[i] == ToJson(kids[i])
    ensures |ToMembers(kids)| == |kids| && ToMembers(kids)[i] == Member(kids[i].node.key, ToJson(kids[i]))
    decreases |kids|
  {
    KidsCounted(kids);
    if i < |kids| - 1 {
      KidValue(kids[..|kids| - 1], i);
    } else {
      KidsCounted(kids[..|kids| - 1]);
    }
  }

  lemma {:induction false} KidsCounted(kids: seq<Shape>)
    ensures |ToItems(kids)| == |kids| == |ToMembers(kids)|
    decreases |kids|
  {
    if kids != [] { KidsCounted(kids[..|kids| - 1]); }
  }

  lemma TakeNext<T>(s: seq<T>, i: nat)
    requires i < |s|
    ensures s[..i + 1] == s[..i] + [s[i]] && s[..|s|] == s
  {
  }

  lemma SameValue(t: Shape, copy: Shape, items: seq<Json>, members: seq<Member>)
    requires copy.node.kind == t.node.kind && copy.node.valuestring == t.node.valuestring
    requires copy.node.number == t.node.number
    requires ToItems(t.kids) == items == ToItems(copy.kids) && ToMembers(t.kids) == members == ToMembers(copy.kids)
    ensures ToJson(copy) == ToJson(t)
  {
  }

  lemma NextKid(item: Node, kids: seq<Shape>, i: nat)
    requires Strung(item, kids) && i < |kids|
    ensures kids[i].node.next == if i + 1 < |kids| then kids[i + 1].node else null
  {
    if i + 1 < |kids| { ChainedAt(kids, i); }
  }

  /** A new node with everything but the links. */
  method CopyNode(item: Node) returns (newitem: Node)
    ensures fresh(newitem) && newitem.next == null && newitem.prev == null && newitem.child == null
    ensures newitem.kind == item.kind && newitem.valuestring == item.valuestring
    ensures newitem.number == item.number && newitem.key == item.key
  {
    newitem := new Node();
    newitem.kind := item.kind;
    newitem.valuestring := item.valuestring;
    newitem.number := item.number;
    newitem.key := item.key;
  }

  /** cJSON_Duplicate: with recursion a tree of new nodes that stands for the same value, without it one
      new node with no children. */
  method Duplicate(item: Node, recurse: bool, ghost t: Shape, ghost value: Json)
    returns (newitem: Node, ghost copy: Shape)
    requires Tree(t) && Wired(t) && t.node == item && ToJson(t) == value
    ensures Tree(copy) && Wired(copy) && copy.node == newitem && fresh(Nodes(copy))
    ensures newitem.key == item.key && newitem.next == null && (recurse ==> ToJson(copy) == value)
    ensures !recurse ==> copy.kids == [] && newitem.kind == item.kind
                         && newitem.valuestring == item.valuestring && newitem.number == item.number
    decreases t, 2
  {
    NodesExist(t.kids);
    ghost var items, members := ToItems(t.kids), ToMembers(t.kids);
    newitem := CopyNode(item);
    copy := Shape(newitem, []);
    if !recurse { return; }
    TreeStays(t);
    ghost var kids := DuplicateKids(item, newitem, t, items, members);
    copy := Shape(newitem, kids);
    TreeStays(t);
    SameValue(t, copy, items, members);
  }

  /** The first i children are copied. */
  ghost predicate Copied(t: Shape, i: nat, done: seq<Shape>, items: seq<Json>, members: seq<Member>)
    requires i <= |t.kids|
    reads Nodes(t), NodesOf(done)
  {
    && Tree(t) && Wired(t) && ToItems(t.kids) == items && ToMembers(t.kids) == members
    && |items| == |members| == |t.kids| && |done| == i && Building(done)
    && ToItems(done) == items[..i] && ToMembers(done) == members[..i]
  }

  method DuplicateKids(item: Node, newitem: Node, ghost t: Shape, ghost items: seq<Json>, ghost members: seq<Member>)
    returns (ghost done: seq<Shape>)
    requires Tree(t) && Wired(t) && t.node == item && newitem !in Nodes(t)
    requires ToItems(t.kids) == items && ToMembers(t.kids) == members
    modifies newitem`child
    ensures Tree(Shape(newitem, done)) && Wired(Shape(newitem, done)) && fresh(NodesOf(done))
    ensures ToItems(done) == items && ToMembers(done) == members
    decreases t, 1
  {
    ghost var i := 0;
    var child, next: Node? := item.child, null;
    var head: Node? := null;
    done := [];
    KidsCounted(t.kids);
    while child != null
      invariant i <= |t.kids| && child == if i < |t.kids| then t.kids[i].node else null
      invariant Copied(t, i, done, items, members) && forall n <- NodesOf(done) :: fresh(n)
      invariant head == FirstRoot(done) && next == LastRoot(done) && (next != null ==> next.next == null)
      decreases |t.kids| - i
    {
      RootsExist(done);
      NodesExisted(t.kids);
      head, next, done, child := DuplicateNext(child, head, next, done, t, i, items, members);
      i := i + 1;
    }
    RootsExist(done);
    CloseList(newitem, head, next, done);
  }

  /** One round of the loop; also steps to the next child. */
  method DuplicateNext(child: Node, head: Node?, next: Node?, ghost done: seq<Shape>, ghost t: Shape, ghost i: nat,
                       ghost items: seq<Json>, ghost members: seq<Member>)
    returns (first: Node, newchild: Node, ghost grown: seq<Shape>, after: Node?)
    requires i < |t.kids| && child == t.kids[i].node && Copied(t, i, done, items, members)
    requires head == FirstRoot(done) && next == LastRoot(done) && next !in Nodes(t)
    modifies (if next == null then {} else {next})`next
    ensures Copied(t, i + 1, grown, items, members) && newchild.next == null
    ensures first == FirstRoot(grown) && newchild == LastRoot(grown)
    ensures forall n <- NodesOf(grown) :: n in NodesOf(done) || fresh(n)
    ensures after == if i + 1 < |t.kids| then t.kids[i + 1].node else null
    decreases t, 0
  {
    KidIsTree(t.kids, i);
    KidValue(t.kids, i);
    NodesExist(t.kids);
    newchild, grown := DuplicateChild(child, next, done, t.kids[i], items[i]);
    TreeStays(t);
    NextKid(t.node, t.kids, i);
    TakeNext(items, i);
    TakeNext(members, i);
    first := if head == null then newchild else head;
    after := child.next;
  }

  /** Duplicates a child and crosswires the copy with the last one. */
  method DuplicateChild(child: Node, next: Node?, ghost done: seq<Shape>, ghost k: Shape, ghost value: Json)
    returns (newchild: Node, ghost grown: seq<Shape>)
    requires Tree(k) && Wired(k) && k.node == child && ToJson(k) == value
    requires Building(done) && next == LastRoot(done)
    modifies (if next == null then {} else {next})`next
    ensures Building(grown) && Grown(grown, done, newchild) && newchild.next == null
    ensures forall n <- NodesOf(grown) :: n in NodesOf(done) || fresh(n)
    ensures ToItems(grown) == old(ToItems(done)) + [value]
    ensures ToMembers(grown) == old(ToMembers(done)) + [Member(child.key, value)]
    decreases k, 3
  {
    NodesExist(done);
    ghost var c;
    newchild, c := Duplicate(child, true, k, value);
    BuildingStays(done);
    grown := Crosswire(next, newchild, done, c, value);
  }

  /** Chains a tree behind those of done. */
  method Crosswire(next: Node?, newchild: Node, ghost done: seq<Shape>, ghost c: Shape, ghost value: Json)
    returns (ghost grown: seq<Shape>)
    requires Building(done) && next == LastRoot(done) && NodesOf(done) !! Nodes(c)
    requires Tree(c) && Wired(c) && c.node == newchild && ToJson(c) == value
    modifies (if next == null then {} else {next})`next, newchild`prev
    ensures Building(grown) && Grown(grown, done, newchild) && NodesOf(grown) == NodesOf(done) + Nodes(c)
    ensures ToItems(grown) == old(ToItems(done)) + [value]
    ensures ToMembers(grown) == old(ToMembers(done)) + [Member(newchild.key, value)]
    ensures newchild.next == old(newchild.next)
  {
    RootsExist(done);
    NodesExist(c.kids);
    Extend(next, newchild, done);
    TreeStays(c);
    grown := Grow(done, c);
  }

  // ---------------------------------------------------------------- building a tree as it is parsed

  /** t is the tree below item, and stands for the value. */
  ghost predicate Stands(t: Shape, item: Node, value: Json)
    reads Nodes(t)`child, NodesOf(t.kids)`next, NodesOf(t.kids)`prev
    reads Nodes(t)`kind, Nodes(t)`valuestring, Nodes(t)`number, Nodes(t)`key
  {
    Tree(t) && Wired(t) && t.node == item && ToJson(t) == value
  }

  /** What the loops of parse_array and parse_object keep: the list built so far and the values in it. */
  ghost predicate Built(done: seq<Shape>, items: seq<Json>, members: seq<Member>, head: Node?, current: Node?)
    reads NodesOf(done)`child, NodesOf(done)`next, NodesOf(done)`prev
    reads NodesOf(done)`kind, NodesOf(done)`valuestring, NodesOf(done)`number, NodesOf(done)`key
  {
    RootsExist(done);
    Building(done) && ToItems(done) == items && ToMembers(done) == members
    && head == FirstRoot(done) && current == LastRoot(done) && (current != null ==> current.next == null)
  }

  /** A node at the end of a list that starts with head; its value is still to come. */
  ghost predicate Awaiting(done: seq<Shape>, items: seq<Json>, members: seq<Member>, head: Node, current: Node?,
                           item: Node)
    reads NodesOf(done)`child, NodesOf(done)`next, NodesOf(done)`prev
    reads NodesOf(done)`kind, NodesOf(done)`valuestring, NodesOf(done)`number, NodesOf(done)`key
    reads item`child, item`next, item`prev
  {
    RootsExist(done);
    Building(done) && ToItems(done) == items && ToMembers(done) == members && current == LastRoot(done)
    && item !in NodesOf(done) && item.child == null && item.next == null
    && head == (if done == [] then item else FirstRoot(done))
    && (current != null ==> current.next == item && item.prev == current)
  }

  /** A new node behind the last one, or the first of the list. */
  method NewLast(head: Node?, current: Node?, ghost done: seq<Shape>, ghost items: seq<Json>,
                 ghost members: seq<Member>) returns (first: Node, newItem: Node)
    requires Built(done, items, members, head, current)
    modifies (if current == null then {} else {current})`next
    ensures fresh(newItem) && Awaiting(done, items, members, first, current, newItem)
  {
    NodesExist(done);
    newItem := new Node();
    BuildingStays(done);
    Extend(current, newItem, done);
    first := if head == null then newItem else head;
  }

  /** The node got its value: the list is longer by one. */
  lemma Filled(done: seq<Shape>, items: seq<Json>, members: seq<Member>, head: Node, current: Node?, item: Node,
               t: Shape, value: Json) returns (grown: seq<Shape>)
    requires Building(done) && ToItems(done) == items && ToMembers(done) == members && current == LastRoot(done)
    requires current != null ==> current.next == item && item.prev == current
    requires head == (if done == [] then item else FirstRoot(done))
    requires Stands(t, item, value) && NodesOf(done) !! Nodes(t) && item.next == null
    ensures NodesOf(grown) == NodesOf(done) + Nodes(t)
    ensures Built(grown, items + [value], members + [Member(item.key, value)], head, item)
  {
    grown := Grow(done, t);
  }

  /** Closes the list and makes item the array or object that holds it. */
  method Finish(item: Node, kind: Kind, head: Node?, current: Node?, ghost done: seq<Shape>, ghost items: seq<Json>,
                ghost members: seq<Member>) returns (ghost t: Shape)
    requires Built(done, items, members, head, current) && item !in NodesOf(done)
    requires kind == ArrayKind || kind == ObjectKind
    modifies item`kind, item`child, (if head == null then {} else {head})`prev
    ensures t == Shape(item, done) && Stands(t, item, if kind == ArrayKind then Arr(items) else Obj(members))
  {
    CloseList(item, head, current, done);
    item.kind := kind;
    t := Shape(item, done);
  }

  // ---------------------------------------------------------------- walking over children

  /** What the children of item hold, in order: as elements, and as members. */
  ghost predicate HoldsKids(t: Shape, item: Node, items: seq<Json>, members: seq<Member>)
    reads Nodes(t)`child, NodesOf(t.kids)`next, NodesOf(t.kids)`prev
    reads Nodes(t)`kind, Nodes(t)`valuestring, Nodes(t)`number, Nodes(t)`key
  {
    Tree(t) && Wired(t) && t.node == item && ToItems(t.kids) == items && ToMembers(t.kids) == members
  }

  /** The child at i, or null behind the last one. */
  ghost function KidAt(t: Shape, i: nat): Node? { if i < |t.kids| then t.kids[i].node else null }

  lemma FirstKid(t: Shape)
    requires Wired(t)
    ensures t.node.child == KidAt(t, 0)
  {
  }

  /** What the kind of a node says of the value it stands for. */
  lemma KindMeans(t: Shape, item: Node, value: Json)
    requires Stands(t, item, value)
    ensures HoldsKids(t, item, ToItems(t.kids), ToMembers(t.kids))
    ensures match item.kind
            case NullKind => value == Null
            case FalseKind => value == Bool(false)
            case TrueKind => value == Bool(true)
            case NumberKind => value == Num(item.number)
            case StringKind => value == Str(item.valuestring)
            case ArrayKind => value == Arr(ToItems(t.kids))
            case ObjectKind => value == Obj(ToMembers(t.kids))
  {
  }

  lemma ChildAt(t: Shape, item: Node, items: seq<Json>, members: seq<Member>, i: nat)
    requires HoldsKids(t, item, items, members) && i < |t.kids|
    ensures |items| == |members| == |t.kids| && Stands(t.kids[i], t.kids[i].node, items[i])
    ensures members[i] == Member(t.kids[i].node.key, items[i])
    ensures t.kids[i].node.next == KidAt(t, i + 1)
  {
    KidIsTree(t.kids, i);
    KidValue(t.kids, i);
    NextKid(item, t.kids, i);
  }

  lemma {:induction false} KidNodes(kids: seq<Shape>, i: nat)
    requires i < |kids|
    ensures Nodes(kids[i]) <= NodesOf(kids)
    decreases |kids|
  {
    if i < |kids| - 1 { KidNodes(kids[..|kids| - 1], i); }
  }

  /** A tree that has no node in common with another has none in common with its children. */
  lemma KidApart(t: Shape, u: Shape, j: nat)
    requires Nodes(t) !! Nodes(u) && j < |u.kids|
    ensures Nodes(t) !! Nodes(u.kids[j]) && t.node != u.kids[j].node
  {
    KidNodes(u.kids, j);
    assert t.node in Nodes(t) && u.kids[j].node in Nodes(u.kids[j]);
  }
}
