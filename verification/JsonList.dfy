/** The children of a JSON node: a doubly linked list whose head points back to the tail. */
module JsonList {
  import opened Bytes
  import opened JsonTree

  datatype Kind = FalseKind | TrueKind | NullKind | NumberKind | StringKind | ArrayKind | ObjectKind

  /** struct cJSON. */
  class Node {
    var next: Node?
    var prev: Node?
    var child: Node?
    var kind: Kind
    var valuestring: seq<byte>
    var number: Number
    var key: seq<byte>

    constructor ()
      ensures next == null && prev == null && child == null
    {
      next, prev, child, kind, valuestring, number, key := null, null, null, NullKind, [], Integer(0), [];
    }
  }

  ghost predicate NoRepeats(kids: seq<Node>)
    decreases |kids|
  {
    kids == [] || (var front := kids[..|kids| - 1]; NoRepeats(front) && kids[|kids| - 1] !in front)
  }

  ghost predicate AllDiffer(kids: seq<Node>) {
    forall i, j :: 0 <= i < |kids| && 0 <= j < |kids| && kids[i] == kids[j] ==> i == j
  }

  lemma {:induction false} NoRepeatsDiffer(kids: seq<Node>)
    requires NoRepeats(kids)
    ensures AllDiffer(kids)
    decreases |kids|
  {
    if kids != [] {
      var front := kids[..|kids| - 1];
      NoRepeatsDiffer(front);
      forall i, j | 0 <= i < |kids| && 0 <= j < |kids| && kids[i] == kids[j] ensures i == j {
        assert i < |front| ==> front[i] == kids[i];
        assert j < |front| ==> front[j] == kids[j];
      }
    }
  }

  lemma {:induction false} DifferNoRepeats(kids: seq<Node>)
    requires AllDiffer(kids)
    ensures NoRepeats(kids)
    decreases |kids|
  {
    if kids != [] {
      var front := kids[..|kids| - 1];
      assert forall i :: 0 <= i < |front| ==> front[i] == kids[i];
      DifferNoRepeats(front);
    }
  }

  lemma NoRepeatsMeans(kids: seq<Node>)
    ensures NoRepeats(kids) <==> AllDiffer(kids)
  {
    if NoRepeats(kids) { NoRepeatsDiffer(kids); }
    if AllDiffer(kids) { DifferNoRepeats(kids); }
  }

  ghost function NextOf(kids: seq<Node>, i: nat): Node? { if i + 1 < |kids| then kids[i + 1] else null }

  /** The head points back to the tail. */
  ghost function PrevOf(kids: seq<Node>, i: nat): Node?
    requires i < |kids|
  {
    if i == 0 then kids[|kids| - 1] else kids[i - 1]
  }

  /** kids are the children of parent, in order. */
  ghost predicate Linked(parent: Node, kids: seq<Node>)
    reads parent`child, kids`next, kids`prev
  {
    && parent !in kids && NoRepeats(kids)
    && parent.child == (if kids == [] then null else kids[0])
    && (forall i :: 0 <= i < |kids| ==> kids[i].next == NextOf(kids, i) && kids[i].prev == PrevOf(kids, i))
  }

  /** A node that belongs to no list. */
  ghost predicate Loose(item: Node, parent: Node, kids: seq<Node>)
    reads item`next
  {
    item != parent && item !in kids && item.next == null
  }

  ghost predicate OnlyAt(kids: seq<Node>, j: nat)
    requires j < |kids|
  {
    forall k | 0 <= k < |kids| && kids[k] == kids[j] :: k == j
  }

  lemma Ends(parent: Node, kids: seq<Node>, i: nat)
    requires Linked(parent, kids) && i < |kids|
    ensures kids[i] == parent.child <==> i == 0
    ensures kids[i].next == NextOf(kids, i) && kids[i].prev == PrevOf(kids, i)
    ensures parent.child.prev == parent.child <==> |kids| == 1
    ensures OnlyAt(kids, i) && OnlyAt(kids, 0) && OnlyAt(kids, |kids| - 1)
    ensures (i > 0 ==> OnlyAt(kids, i - 1)) && (i + 1 < |kids| ==> OnlyAt(kids, i + 1))
  {
    NoRepeatsMeans(kids);
    assert kids[0].prev == kids[|kids| - 1];
  }

  /** get_array_item. */
  method GetArrayItem(parent: Node, index: nat, ghost kids: seq<Node>) returns (item: Node?)
    requires Linked(parent, kids)
    ensures item == if index < |kids| then kids[index] else null
  {
    item := parent.child;
    var left: nat := index;
    ghost var i := 0;
    while item != null && left > 0
      invariant i + left == index && i <= |kids|
      invariant item == if i < |kids| then kids[i] else null
      decreases left
    {
      left := left - 1;
      item := item.next;
      i := i + 1;
    }
  }

  /** add_item_to_array, which refuses to put a node into itself. */
  method AddItemToArray(parent: Node, item: Node, ghost kids: seq<Node>) returns (ok: bool)
    requires Linked(parent, kids) && (item == parent || Loose(item, parent, kids))
    modifies parent`child, kids`next, kids`prev, item`next, item`prev
    ensures ok <==> item != parent
    ensures Linked(parent, if ok then kids + [item] else kids) && (!ok ==> unchanged(parent))
  {
    if parent == item { return false; }
    AppendLast(parent, item, kids);
    return true;
  }

  method AppendLast(parent: Node, item: Node, ghost kids: seq<Node>)
    requires Linked(parent, kids) && Loose(item, parent, kids)
    modifies parent`child, kids`next, kids`prev, item`next, item`prev
    ensures Linked(parent, kids + [item])
  {
    assert (kids + [item])[..|kids|] == kids;
    NoRepeatsMeans(kids);
    var child := parent.child;
    if child == null {
      parent.child := item;
      item.prev := item;
      item.next := null;
    } else {
      var tail := child.prev;
      tail.next := item;
      item.prev := tail;
      parent.child.prev := item;
    }
  }

  ghost function Without(kids: seq<Node>, i: nat): seq<Node>
    requires i < |kids|
  {
    kids[..i] + kids[i + 1..]
  }

  /** What the pointers of the other children become when the one at i goes. */
  ghost function NextWithout(kids: seq<Node>, i: nat, k: nat): Node?
    requires i < |kids|
  {
    if k + 1 == i then NextOf(kids, i) else NextOf(kids, k)
  }

  ghost function PrevWithout(kids: seq<Node>, i: nat, k: nat): Node?
    requires i < |kids| && k < |kids|
  {
    if k == i + 1 then PrevOf(kids, i)
    else if k == 0 && i == |kids| - 1 then PrevOf(kids, i)
    else PrevOf(kids, k)
  }

  lemma WithoutLinks(kids: seq<Node>, i: nat, j: nat) returns (k: nat)
    requires i < |kids| && j < |kids| - 1
    ensures k == (if j < i then j else j + 1) && k < |kids|
    ensures var rest := Without(kids, i);
            rest[j] == kids[k] && NextOf(rest, j) == NextWithout(kids, i, k)
            && PrevOf(rest, j) == PrevWithout(kids, i, k)
  {
    k := if j < i then j else j + 1;
  }

  lemma {:induction false} WithoutHasNoRepeats(kids: seq<Node>, i: nat)
    requires i < |kids| && NoRepeats(kids)
    ensures NoRepeats(Without(kids, i)) && kids[i] !in Without(kids, i)
    decreases |kids|
  {
    var front, last := kids[..|kids| - 1], kids[|kids| - 1];
    if i == |front| {
      assert Without(kids, i) == front;
    } else {
      WithoutHasNoRepeats(front, i);
      var rest := Without(front, i);
      assert Without(kids, i) == rest + [last] && (rest + [last])[..|rest|] == rest;
      assert forall n <- rest :: n in front;
      assert kids[i] == front[i];
    }
  }

  ghost predicate OthersClosedUp(kids: seq<Node>, i: nat)
    requires i < |kids|
    reads kids`next, kids`prev
  {
    forall k | 0 <= k < |kids| && k != i ::
      kids[k].next == NextWithout(kids, i, k) && kids[k].prev == PrevWithout(kids, i, k)
  }

  lemma WithoutLinked(parent: Node, kids: seq<Node>, i: nat)
    requires i < |kids| && parent !in kids && NoRepeats(kids)
    requires parent.child == (if i > 0 then kids[0] else NextOf(kids, 0))
    requires OthersClosedUp(kids, i)
    ensures Linked(parent, Without(kids, i))
  {
    var rest := Without(kids, i);
    WithoutHasNoRepeats(kids, i);
    forall j | 0 <= j < |rest| ensures rest[j].next == NextOf(rest, j) && rest[j].prev == PrevOf(rest, j) {
      var k := WithoutLinks(kids, i, j);
    }
  }

  /** cJSON_DetachItemViaPointer on a child of parent. */
  method DetachItemViaPointer(parent: Node, item: Node, ghost kids: seq<Node>, ghost i: nat)
    requires Linked(parent, kids) && i < |kids| && kids[i] == item
    modifies parent`child, kids`next, kids`prev
    ensures Linked(parent, Without(kids, i))
    ensures Loose(item, parent, Without(kids, i)) && item.prev == null
  {
    Ends(parent, kids, i);
    if item != parent.child {
      assert item.prev == kids[i - 1];
      item.prev.next := item.next;
    }
    if item.next != null {
      assert item.next == kids[i + 1];
      item.next.prev := item.prev;
    }
    if item == parent.child {
      parent.child := item.next;
      assert OthersClosedUp(kids, i);
    } else if item.next == null {
      parent.child.prev := item.prev;
      assert OthersClosedUp(kids, i);
    }
    item.prev := null;
    item.next := null;
    assert OthersClosedUp(kids, i);
    WithoutLinked(parent, kids, i);
    WithoutHasNoRepeats(kids, i);
  }

  ghost function Inserted(kids: seq<Node>, which: nat, item: Node): seq<Node> {
    if which < |kids| then kids[..which] + [item] + kids[which..] else kids + [item]
  }

  ghost function NextWith(kids: seq<Node>, i: nat, x: Node, k: nat): Node? {
    if k + 1 == i then x else NextOf(kids, k)
  }

  ghost function PrevWith(kids: seq<Node>, i: nat, x: Node, k: nat): Node?
    requires k < |kids|
  {
    if k == i then x else PrevOf(kids, k)
  }

  lemma InsertedLinks(kids: seq<Node>, i: nat, x: Node, j: nat)
    requires i < |kids| && j <= |kids|
    ensures var all := Inserted(kids, i, x);
            if j == i then all[j] == x && NextOf(all, j) == kids[i] && PrevOf(all, j) == PrevOf(kids, i)
            else var k := if j < i then j else j - 1;
              all[j] == kids[k] && NextOf(all, j) == NextWith(kids, i, x, k)
              && PrevOf(all, j) == PrevWith(kids, i, x, k)
  {
  }

  lemma InsertedHasNoRepeats(kids: seq<Node>, i: nat, x: Node)
    requires i < |kids| && NoRepeats(kids) && x !in kids
    ensures NoRepeats(Inserted(kids, i, x))
  {
    NoRepeatsMeans(kids);
    NoRepeatsMeans(Inserted(kids, i, x));
  }

  ghost predicate OthersMadeRoom(kids: seq<Node>, i: nat, x: Node)
    reads kids`next, kids`prev
  {
    forall k | 0 <= k < |kids| :: kids[k].next == NextWith(kids, i, x, k) && kids[k].prev == PrevWith(kids, i, x, k)
  }

  lemma InsertedLinked(parent: Node, kids: seq<Node>, i: nat, x: Node)
    requires i < |kids| && parent !in kids && parent != x && x !in kids && NoRepeats(kids)
    requires parent.child == (if i == 0 then x else kids[0])
    requires x.next == kids[i] && x.prev == PrevOf(kids, i)
    requires OthersMadeRoom(kids, i, x)
    ensures Linked(parent, Inserted(kids, i, x))
  {
    var all := Inserted(kids, i, x);
    InsertedHasNoRepeats(kids, i, x);
    forall j | 0 <= j < |all| ensures all[j].next == NextOf(all, j) && all[j].prev == PrevOf(all, j) {
      InsertedLinks(kids, i, x, j);
    }
  }

  /** cJSON_InsertItemInArray, which leaves it to the caller not to put a node before its own child. */
  method InsertItemInArray(parent: Node, which: int, newitem: Node, ghost kids: seq<Node>) returns (ok: bool)
    requires Linked(parent, kids)
    requires if newitem == parent then which < 0 || which >= |kids| else Loose(newitem, parent, kids)
    modifies parent`child, kids`next, kids`prev, newitem`next, newitem`prev
    ensures ok <==> which >= 0 && newitem != parent
    ensures Linked(parent, if ok then Inserted(kids, which, newitem) else kids)
    ensures !ok ==> unchanged(newitem) && unchanged(parent)
  {
    if which < 0 { return false; }
    var afterInserted := GetArrayItem(parent, which, kids);
    if afterInserted == null {
      ok := AddItemToArray(parent, newitem, kids);
      return;
    }
    InsertBefore(parent, afterInserted, newitem, kids, which);
    return true;
  }

  method InsertBefore(parent: Node, afterInserted: Node, newitem: Node, ghost kids: seq<Node>, ghost i: nat)
    requires Linked(parent, kids) && Loose(newitem, parent, kids) && i < |kids| && kids[i] == afterInserted
    modifies parent`child, kids`next, kids`prev, newitem`next, newitem`prev
    ensures Linked(parent, Inserted(kids, i, newitem))
  {
    Ends(parent, kids, i);
    newitem.next := afterInserted;
    newitem.prev := afterInserted.prev;
    afterInserted.prev := newitem;
    if afterInserted == parent.child {
      parent.child := newitem;
      assert OthersMadeRoom(kids, i, newitem);
    } else {
      assert newitem.prev == kids[i - 1];
      newitem.prev.next := newitem;
      assert OthersMadeRoom(kids, i, newitem);
    }
    InsertedLinked(parent, kids, i, newitem);
  }

  ghost function PrevReplaced(kids: seq<Node>, i: nat, x: Node, k: nat): Node?
    requires k < |kids|
  {
    if k == i + 1 || (k == 0 && i == |kids| - 1) then x else PrevOf(kids, k)
  }

  ghost predicate OthersRelinked(kids: seq<Node>, i: nat, x: Node)
    reads kids`next, kids`prev
  {
    forall k | 0 <= k < |kids| && k != i ::
      kids[k].next == NextWith(kids, i, x, k) && kids[k].prev == PrevReplaced(kids, i, x, k)
  }

  lemma ReplacedLinks(kids: seq<Node>, i: nat, x: Node, j: nat)
    requires i < |kids| && j < |kids|
    ensures var all := kids[i := x];
            all[j] == (if j == i then x else kids[j]) && PrevOf(all, j) == PrevReplaced(kids, i, x, j)
            && NextOf(all, j) == if j == i then NextOf(kids, i) else NextWith(kids, i, x, j)
  {
  }

  lemma ReplacedHasNoRepeats(kids: seq<Node>, i: nat, x: Node)
    requires i < |kids| && NoRepeats(kids) && x !in kids
    ensures NoRepeats(kids[i := x]) && kids[i] !in kids[i := x]
  {
    NoRepeatsMeans(kids);
    NoRepeatsMeans(kids[i := x]);
  }

  lemma ReplacedLinked(parent: Node, kids: seq<Node>, i: nat, x: Node)
    requires i < |kids| && parent !in kids && parent != x && x !in kids && NoRepeats(kids)
    requires parent.child == (if i == 0 then x else kids[0])
    requires x.next == NextOf(kids, i) && x.prev == PrevReplaced(kids, i, x, i)
    requires OthersRelinked(kids, i, x)
    ensures Linked(parent, kids[i := x]) && kids[i] !in kids[i := x]
  {
    var all := kids[i := x];
    ReplacedHasNoRepeats(kids, i, x);
    forall j | 0 <= j < |all| ensures all[j].next == NextOf(all, j) && all[j].prev == PrevOf(all, j) {
      ReplacedLinks(kids, i, x, j);
    }
  }

  /** The child behind the one at i points back to x; all else is as it was. */
  ghost predicate HalfRelinked(kids: seq<Node>, i: nat, x: Node)
    reads kids`next, kids`prev
  {
    forall k | 0 <= k < |kids| ::
      kids[k].next == NextOf(kids, k) && kids[k].prev == if k == i + 1 then x else PrevOf(kids, k)
  }

  /** The replacement takes over the links of the node it replaces. */
  method TakeLinks(parent: Node, item: Node, replacement: Node, ghost kids: seq<Node>, ghost i: nat)
    requires Linked(parent, kids) && i < |kids| && kids[i] == item && replacement !in kids
    modifies kids`prev, replacement`next, replacement`prev
    ensures HalfRelinked(kids, i, replacement)
    ensures replacement.next == NextOf(kids, i) && replacement.prev == PrevOf(kids, i)
  {
    Ends(parent, kids, i);
    replacement.next := item.next;
    replacement.prev := item.prev;
    if replacement.next != null {
      assert replacement.next == kids[i + 1];
      replacement.next.prev := replacement;
    }
  }

  /** The child before the replaced one, or the parent, comes to point to the replacement. */
  method PointTo(parent: Node, item: Node, replacement: Node, ghost kids: seq<Node>, ghost i: nat)
    requires i < |kids| && kids[i] == item && replacement !in kids && parent !in kids && NoRepeats(kids)
    requires parent.child == kids[0] && HalfRelinked(kids, i, replacement)
    requires replacement.next == NextOf(kids, i) && replacement.prev == PrevOf(kids, i)
    modifies parent`child, kids`next, kids`prev, replacement`prev
    ensures OthersRelinked(kids, i, replacement) && parent.child == (if i == 0 then replacement else kids[0])
    ensures replacement.next == NextOf(kids, i) && replacement.prev == PrevReplaced(kids, i, replacement, i)
  {
    NoRepeatsMeans(kids);
    if parent.child == item {
      if parent.child.prev == parent.child {
        replacement.prev := replacement;
      }
      parent.child := replacement;
    } else {
      if replacement.prev != null {
        assert replacement.prev == kids[i - 1];
        replacement.prev.next := replacement;
      }
      if replacement.next == null {
        parent.child.prev := replacement;
      }
    }
  }

  /** cJSON_ReplaceItemViaPointer; the replaced node, which the C code frees, belongs to no list. */
  method ReplaceItemViaPointer(parent: Node, item: Node, replacement: Node, ghost kids: seq<Node>, ghost i: nat)
    requires Linked(parent, kids) && i < |kids| && kids[i] == item
    requires replacement == item || Loose(replacement, parent, kids)
    modifies parent`child, kids`next, kids`prev, replacement`next, replacement`prev
    ensures Linked(parent, kids[i := replacement])
    ensures replacement != item ==> Loose(item, parent, kids[i := replacement])
  {
    if replacement == item {
      assert kids[i := item] == kids;
      return;
    }
    TakeLinks(parent, item, replacement, kids, i);
    PointTo(parent, item, replacement, kids, i);
    ReplacedHasNoRepeats(kids, i, replacement);
    item.next := null;
    item.prev := null;
    assert OthersRelinked(kids, i, replacement) by { NoRepeatsMeans(kids); }
    ReplacedLinked(parent, kids, i, replacement);
  }

  // ---------------------------------------------------------------- any run of edits

  datatype Edit =
    | Append(item: Node)
    | Detach(which: nat)
    | Insert(at: int, item: Node)
    | Replace(which: nat, item: Node)

  /** What an edit makes of the children; what is out of range changes nothing. */
  ghost function After(kids: seq<Node>, e: Edit): seq<Node> {
    match e
    case Append(item) => kids + [item]
    case Detach(which) => if which < |kids| then Without(kids, which) else kids
    case Insert(at, item) => if at >= 0 then Inserted(kids, at, item) else kids
    case Replace(which, item) => if which < |kids| then kids[which := item] else kids
  }

  ghost function AfterAll(kids: seq<Node>, edits: seq<Edit>): seq<Node>
    decreases |edits|
  {
    if edits == [] then kids else AfterAll(After(kids, edits[0]), edits[1..])
  }

  /** Only nodes that are not in the list are put into it. */
  ghost predicate Sound(parent: Node, kids: seq<Node>, e: Edit) {
    e.Detach? || (e.item != parent && (e.item !in kids || (e.Replace? && e.which < |kids| && kids[e.which] == e.item)))
  }

  ghost predicate AllSound(parent: Node, kids: seq<Node>, edits: seq<Edit>)
    decreases |edits|
  {
    edits == [] || (Sound(parent, kids, edits[0]) && AllSound(parent, After(kids, edits[0]), edits[1..]))
  }

  /** The nodes of a pool that are not in the list. */
  ghost function FreeOf(kids: seq<Node>, pool: set<Node>): set<Node> { set n | n in pool && n !in kids }

  /** All nodes the edits work with: those not in the list belong to no other. */
  ghost predicate Pool(parent: Node, kids: seq<Node>, pool: set<Node>)
    reads pool`next
  {
    parent !in pool && (forall n <- kids :: n in pool) && forall n <- FreeOf(kids, pool) :: n.next == null
  }

  lemma InsertedFree(kids: seq<Node>, at: nat, item: Node, pool: set<Node>)
    requires item in pool && forall n <- kids :: n in pool
    ensures FreeOf(Inserted(kids, at, item), pool) == FreeOf(kids, pool) - {item}
    ensures forall n <- Inserted(kids, at, item) :: n in pool
  {
    forall n ensures n in Inserted(kids, at, item) <==> n in kids || n == item { InsertedMember(kids, at, item, n); }
  }

  lemma InsertedMember(kids: seq<Node>, at: nat, item: Node, n: Node)
    ensures n in Inserted(kids, at, item) <==> n in kids || n == item
  {
    if at < |kids| && n in kids {
      assert n in kids[..at] || n in kids[at..] by { assert kids == kids[..at] + kids[at..]; }
    }
  }

  lemma WithoutFree(kids: seq<Node>, i: nat, pool: set<Node>)
    requires i < |kids| && NoRepeats(kids) && forall n <- kids :: n in pool
    ensures FreeOf(Without(kids, i), pool) == FreeOf(kids, pool) + {kids[i]}
    ensures forall n <- Without(kids, i) :: n in pool
  {
    WithoutHasNoRepeats(kids, i);
    forall n ensures n in Without(kids, i) <==> n in kids && n != kids[i] { WithoutMember(kids, i, n); }
    assert kids[i] in kids;
  }

  lemma WithoutMember(kids: seq<Node>, i: nat, n: Node)
    requires i < |kids| && NoRepeats(kids)
    ensures n in Without(kids, i) <==> n in kids && n != kids[i]
  {
    NoRepeatsMeans(kids);
    if n in kids && n != kids[i] { assert kids == kids[..i] + [kids[i]] + kids[i + 1..]; }
  }

  lemma ReplacedFree(kids: seq<Node>, i: nat, item: Node, pool: set<Node>)
    requires i < |kids| && NoRepeats(kids) && item in FreeOf(kids, pool) && forall n <- kids :: n in pool
    ensures FreeOf(kids[i := item], pool) == FreeOf(kids, pool) - {item} + {kids[i]}
    ensures forall n <- kids[i := item] :: n in pool
  {
    forall n ensures n in kids[i := item] <==> n == item || (n in kids && n != kids[i]) {
      ReplacedMember(kids, i, item, n);
    }
    assert kids[i] in kids && kids[i] != item;
  }

  lemma ReplacedMember(kids: seq<Node>, i: nat, item: Node, n: Node)
    requires i < |kids| && NoRepeats(kids)
    ensures n in kids[i := item] <==> n == item || (n in kids && n != kids[i])
  {
    NoRepeatsMeans(kids);
    if n in kids && n != kids[i] {
      var k :| 0 <= k < |kids| && kids[k] == n;
      assert kids[i := item][k] == n;
    }
    assert kids[i := item][i] == item;
  }

  method ApplyInsert(parent: Node, at: int, item: Node, ghost kids: seq<Node>, ghost pool: set<Node>)
    requires Linked(parent, kids) && Pool(parent, kids, pool) && item in FreeOf(kids, pool)
    modifies parent`child, pool`next, pool`prev
    ensures at < 0 ==> Linked(parent, kids) && Pool(parent, kids, pool)
    ensures at >= 0 ==> Linked(parent, Inserted(kids, at, item)) && Pool(parent, Inserted(kids, at, item), pool)
  {
    ghost var free := FreeOf(kids, pool);
    var ok := InsertItemInArray(parent, at, item, kids);
    assert forall n <- free - {item} :: n.next == null;
    if ok { InsertedFree(kids, at, item, pool); }
  }

  method ApplyDetach(parent: Node, which: nat, ghost kids: seq<Node>, ghost pool: set<Node>)
    requires Linked(parent, kids) && Pool(parent, kids, pool)
    modifies parent`child, pool`next, pool`prev
    ensures Linked(parent, After(kids, Detach(which))) && Pool(parent, After(kids, Detach(which)), pool)
  {
    var item := GetArrayItem(parent, which, kids);
    if item != null {
      ghost var free := FreeOf(kids, pool);
      DetachItemViaPointer(parent, item, kids, which);
      assert forall n <- free :: n.next == null;
      WithoutFree(kids, which, pool);
    }
  }

  method ApplyReplace(parent: Node, which: nat, item: Node, ghost kids: seq<Node>, ghost pool: set<Node>)
    requires Linked(parent, kids) && Pool(parent, kids, pool)
    requires Sound(parent, kids, Replace(which, item)) && item in pool
    modifies parent`child, pool`next, pool`prev
    ensures Linked(parent, After(kids, Replace(which, item))) && Pool(parent, After(kids, Replace(which, item)), pool)
  {
    var replaced := GetArrayItem(parent, which, kids);
    if replaced == null { return; }
    if replaced == item {
      ReplaceItemViaPointer(parent, item, item, kids, which);
      assert kids[which := item] == kids;
    } else {
      ReplaceByFree(parent, replaced, item, kids, which, pool);
    }
  }

  method ReplaceByFree(parent: Node, replaced: Node, item: Node, ghost kids: seq<Node>, ghost i: nat,
                       ghost pool: set<Node>)
    requires Linked(parent, kids) && Pool(parent, kids, pool) && i < |kids| && replaced == kids[i]
    requires item in FreeOf(kids, pool)
    modifies parent`child, pool`next, pool`prev
    ensures Linked(parent, kids[i := item]) && Pool(parent, kids[i := item], pool)
  {
    ghost var free := FreeOf(kids, pool);
    ReplaceItemViaPointer(parent, replaced, item, kids, i);
    assert forall n <- free - {item} :: n.next == null;
    ReplacedFree(kids, i, item, pool);
  }

  method ApplyEdit(parent: Node, e: Edit, ghost kids: seq<Node>, ghost pool: set<Node>)
    requires Linked(parent, kids) && Pool(parent, kids, pool) && Sound(parent, kids, e)
    requires !e.Detach? ==> e.item in pool
    modifies parent`child, pool`next, pool`prev
    ensures Linked(parent, After(kids, e)) && Pool(parent, After(kids, e), pool)
  {
    match e
    case Append(item) => var ok := AddItemToArray(parent, item, kids);
    case Insert(at, item) => ApplyInsert(parent, at, item, kids, pool);
    case Detach(which) => ApplyDetach(parent, which, kids, pool);
    case Replace(which, item) => ApplyReplace(parent, which, item, kids, pool);
  }

  /** Whatever is appended, detached, inserted and replaced, in any order: the pointers form the list
      that the same edits make of the sequence. */
  method ApplyEdits(parent: Node, edits: seq<Edit>, ghost kids: seq<Node>, ghost pool: set<Node>)
    requires Linked(parent, kids) && Pool(parent, kids, pool) && AllSound(parent, kids, edits)
    requires forall e <- edits :: !e.Detach? ==> e.item in pool
    modifies parent`child, pool`next, pool`prev
    ensures Linked(parent, AfterAll(kids, edits))
    decreases |edits|
  {
    if edits != [] {
      ApplyEdit(parent, edits[0], kids, pool);
      ApplyEdits(parent, edits[1..], After(kids, edits[0]), pool);
    }
  }
}
