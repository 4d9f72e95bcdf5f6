/** Comparing JSON values: members of objects are looked up by key, both ways. How close two numbers
    have to be is a parameter. */
module JsonCompare {
  import opened Bytes
  import opened JsonTree
  import opened JsonList
  import opened JsonNodes

  // ---------------------------------------------------------------- keys

  /** tolower in the C locale. */
  function Lower(c: byte): (l: byte)
    ensures l == NUL <==> c == NUL
  {
    if 'A' as int <= c <= 'Z' as int then c + 32 else c
  }

  function Fold(s: seq<byte>): (f: seq<byte>)
    ensures |f| == |s| && forall k :: 0 <= k < |s| ==> f[k] == Lower(s[k])
  {
    seq(|s|, k requires 0 <= k < |s| => Lower(s[k]))
  }

  /** Two keys are the same under the chosen mode when this is. */
  function Key(s: seq<byte>, sensitive: bool): seq<byte> { if sensitive then s else Fold(s) }

  /** A byte of a C string, its NUL included. */
  function CharAt(s: seq<byte>, i: nat): byte { if i < |s| then s[i] else NUL }

  /** case_insensitive_strcmp. */
  method CaseInsensitiveStrcmp(string1: seq<byte>, string2: seq<byte>) returns (order: int)
    requires NUL !in string1 && NUL !in string2
    ensures order == 0 <==> Fold(string1) == Fold(string2)
  {
    var i := 0;
    while Lower(CharAt(string1, i)) == Lower(CharAt(string2, i))
      invariant i <= |string1| && i <= |string2|
      invariant forall k :: 0 <= k < i ==> Lower(string1[k]) == Lower(string2[k])
      decreases |string1| - i
    {
      assert i < |string1| ==> string1[i] in string1;
      assert i < |string2| ==> string2[i] in string2;
      if CharAt(string1, i) == NUL { return 0; }
      i := i + 1;
    }
    order := Lower(CharAt(string1, i)) - Lower(CharAt(string2, i));
  }

  // ---------------------------------------------------------------- what the comparison computes

  /** The value of the first member with the key. */
  function Get(members: seq<Member>, name: seq<byte>, sensitive: bool): Option<Json> {
    if members == [] then None
    else if Key(members[0].key, sensitive) == Key(name, sensitive) then Some(members[0].value)
    else Get(members[1..], name, sensitive)
  }

  function Size(t: Json): nat
    decreases t, 1
  {
    match t
    case Arr(items) => 1 + ItemsSize(items)
    case Obj(members) => 1 + MembersSize(members)
    case _ => 1
  }

  function ItemsSize(items: seq<Json>): nat
    decreases items, 0
  {
    if items == [] then 0 else Size(items[0]) + ItemsSize(items[1..])
  }

  function MembersSize(members: seq<Member>): nat
    decreases members, 0
  {
    if members == [] then 0 else Size(members[0].value) + MembersSize(members[1..])
  }

  lemma {:induction false} GetIsSmaller(members: seq<Member>, name: seq<byte>, sensitive: bool)
    requires Get(members, name, sensitive).Some?
    ensures Size(Get(members, name, sensitive).value) <= MembersSize(members)
    decreases |members|
  {
    if Key(members[0].key, sensitive) != Key(name, sensitive) { GetIsSmaller(members[1..], name, sensitive); }
  }

  type NumberEq = (Number, Number) -> bool

  function Compare(a: Json, b: Json, sensitive: bool, eq: NumberEq): bool
    decreases Size(a) + Size(b), 0
  {
    match a
    case Num(x) => b.Num? && eq(x, b.number)
    case Arr(x) => b.Arr? && CompareItems(x, b.items, sensitive, eq)
    case Obj(x) => b.Obj? && Covers(x, b.members, sensitive, eq) && Covers(b.members, x, sensitive, eq)
    case _ => a == b
  }

  function CompareItems(x: seq<Json>, y: seq<Json>, sensitive: bool, eq: NumberEq): bool
    decreases ItemsSize(x) + ItemsSize(y), 1 + |x|
  {
    if x == [] || y == [] then x == y
    else Compare(x[0], y[0], sensitive, eq) && CompareItems(x[1..], y[1..], sensitive, eq)
  }

  /** Every member of x has a counterpart in y. */
  function Covers(x: seq<Member>, y: seq<Member>, sensitive: bool, eq: NumberEq): bool
    decreases MembersSize(x) + MembersSize(y), 1 + |x|
  {
    x == [] ||
    (match Get(y, x[0].key, sensitive)
     case None => false
     case Some(v) =>
       GetIsSmaller(y, x[0].key, sensitive);
       Compare(x[0].value, v, sensitive, eq) && Covers(x[1..], y, sensitive, eq))
  }

  // ---------------------------------------------------------------- the loops

  /** Strings and keys are C strings. */
  ghost predicate Storable(t: Json)
    decreases t
  {
    match t
    case Str(text) => NUL !in text
    case Arr(items) => forall x <- items :: Storable(x)
    case Obj(members) => forall m <- members :: StorableMember(m)
    case _ => true
  }

  ghost predicate StorableMember(m: Member)
    decreases m
  {
    NUL !in m.key && Storable(m.value)
  }

  /** One turn of get_object_item's loop: whether the key of the child is the name. The tree stays as it is. */
  method KeyIs(item: Node, current: Node, name: seq<byte>, sensitive: bool, ghost t: Shape, ghost items: seq<Json>,
               ghost members: seq<Member>, ghost i: nat) returns (found: bool, next: Node?)
    requires HoldsKids(t, item, items, members) && i < |members| == |t.kids| && current == KidAt(t, i)
    requires NUL !in name && NUL !in members[i].key
    ensures found <==> Key(members[i].key, sensitive) == Key(name, sensitive)
    ensures HoldsKids(t, item, items, members) && next == KidAt(t, i + 1)
  {
    ChildAt(t, item, items, members, i);
    NodesExist(t.kids);
    RootsAndBelow(t.kids);
    if sensitive {
      found := name == current.key;
    } else {
      var order := CaseInsensitiveStrcmp(name, current.key);
      found := order == 0;
    }
    next := current.next;
  }

  lemma GetStep(members: seq<Member>, i: nat, name: seq<byte>, sensitive: bool)
    requires i < |members|
    ensures members[i] in members
    ensures Get(members[i..], name, sensitive) ==
            if Key(members[i].key, sensitive) == Key(name, sensitive) then Some(members[i].value)
            else Get(members[i + 1..], name, sensitive)
  {
    assert members[i..][1..] == members[i + 1..];
  }

  /** get_object_item. */
  method GetObjectItem(item: Node, name: seq<byte>, sensitive: bool, ghost t: Shape, ghost items: seq<Json>,
                       ghost members: seq<Member>) returns (r: Node?, ghost i: nat)
    requires HoldsKids(t, item, items, members) && NUL !in name && forall m <- members :: StorableMember(m)
    ensures HoldsKids(t, item, items, members) && |members| == |t.kids|
    ensures match Get(members, name, sensitive)
            case None => r == null
            case Some(v) => i < |members| && r == t.kids[i].node && members[i].value == v
  {
    i := 0;
    r := item.child;
    FirstKid(t);
    KidsCounted(t.kids);
    assert members[0..] == members;
    while r != null
      invariant i <= |members| == |t.kids| && r == KidAt(t, i) && HoldsKids(t, item, items, members)
      invariant Get(members[i..], name, sensitive) == Get(members, name, sensitive)
      decreases |members| - i
    {
      GetStep(members, i, name, sensitive);
      var found, next := KeyIs(item, r, name, sensitive, t, items, members, i);
      if found { return; }
      r := next;
      i := i + 1;
    }
  }

  /** cJSON_Compare on the roots of two trees that are the same or have no node in common. */
  method CompareValues(a: Node, b: Node, sensitive: bool, eq: NumberEq, ghost ta: Shape, ghost tb: Shape,
                       ghost va: Json, ghost vb: Json) returns (same: bool)
    requires Stands(ta, a, va) && Stands(tb, b, vb) && (a == b || Nodes(ta) !! Nodes(tb))
    requires Storable(va) && Storable(vb)
    ensures same <==> a == b || Compare(va, vb, sensitive, eq)
    decreases Size(va) + Size(vb), 4
  {
    if a.kind != b.kind { return false; }
    if a == b { return true; }
    match a.kind {
      case FalseKind => same := true;
      case TrueKind => same := true;
      case NullKind => same := true;
      case NumberKind => same := eq(a.number, b.number);
      case StringKind => same := a.valuestring == b.valuestring;
      case ArrayKind =>
        same := CompareArrays(a, b, sensitive, eq, ta, tb, va.items, vb.items, ToMembers(ta.kids), ToMembers(tb.kids));
      case ObjectKind =>
        ghost var ia, ib := ToItems(ta.kids), ToItems(tb.kids);
        same := CompareBothWays(a, b, sensitive, eq, ta, tb, ia, ib, va.members, vb.members);
    }
  }

  /** A tree and the child of b at j, whose tree stays as it is. */
  method CompareWithChild(x: Node, b: Node, y: Node, sensitive: bool, eq: NumberEq, ghost tx: Shape, ghost vx: Json,
                          ghost tb: Shape, ghost ib: seq<Json>, ghost mb: seq<Member>, ghost j: nat)
    returns (same: bool)
    requires Stands(tx, x, vx) && HoldsKids(tb, b, ib, mb) && Nodes(tx) !! Nodes(tb)
    requires j < |ib| == |tb.kids| && y == KidAt(tb, j) && Storable(vx) && Storable(ib[j])
    ensures same <==> Compare(vx, ib[j], sensitive, eq)
    ensures HoldsKids(tb, b, ib, mb)
    decreases Size(vx) + Size(ib[j]), 5
  {
    ChildAt(tb, b, ib, mb, j);
    KidApart(tx, tb, j);
    NodesExist(tb.kids);
    RootsAndBelow(tb.kids);
    same := CompareValues(x, y, sensitive, eq, tx, tb.kids[j], vx, ib[j]);
  }

  /** The child of a at i and the child of b at j; the trees stay as they are. */
  method CompareChildren(a: Node, b: Node, x: Node, y: Node, sensitive: bool, eq: NumberEq, ghost ta: Shape,
                         ghost tb: Shape, ghost ia: seq<Json>, ghost ib: seq<Json>, ghost ma: seq<Member>,
                         ghost mb: seq<Member>, ghost i: nat, ghost j: nat) returns (same: bool)
    requires HoldsKids(ta, a, ia, ma) && HoldsKids(tb, b, ib, mb) && Nodes(ta) !! Nodes(tb)
    requires i < |ia| == |ta.kids| && j < |ib| == |tb.kids| && x == KidAt(ta, i) && y == KidAt(tb, j)
    requires Storable(ia[i]) && Storable(ib[j])
    ensures same <==> Compare(ia[i], ib[j], sensitive, eq)
    ensures HoldsKids(ta, a, ia, ma) && HoldsKids(tb, b, ib, mb)
    decreases Size(ia[i]) + Size(ib[j]), 6
  {
    ChildAt(ta, a, ia, ma, i);
    KidApart(tb, ta, i);
    NodesExist(ta.kids);
    RootsAndBelow(ta.kids);
    same := CompareWithChild(x, b, y, sensitive, eq, ta.kids[i], ia[i], tb, ib, mb, j);
  }

  /** One turn of the loop over the elements. */
  method CompareItemAt(a: Node, b: Node, x: Node, y: Node, sensitive: bool, eq: NumberEq, ghost ta: Shape,
                       ghost tb: Shape, ghost ia: seq<Json>, ghost ib: seq<Json>, ghost ma: seq<Member>,
                       ghost mb: seq<Member>, ghost i: nat) returns (same: bool, x': Node?, y': Node?)
    requires HoldsKids(ta, a, ia, ma) && HoldsKids(tb, b, ib, mb) && Nodes(ta) !! Nodes(tb)
    requires i < |ia| == |ta.kids| && i < |ib| == |tb.kids| && x == KidAt(ta, i) && y == KidAt(tb, i)
    requires Storable(ia[i]) && Storable(ib[i])
    ensures same <==> Compare(ia[i], ib[i], sensitive, eq)
    ensures HoldsKids(ta, a, ia, ma) && HoldsKids(tb, b, ib, mb)
    ensures x' == KidAt(ta, i + 1) && y' == KidAt(tb, i + 1)
    decreases Size(ia[i]) + Size(ib[i]), 7
  {
    same := CompareChildren(a, b, x, y, sensitive, eq, ta, tb, ia, ib, ma, mb, i, i);
    ChildAt(ta, a, ia, ma, i);
    ChildAt(tb, b, ib, mb, i);
    x', y' := x.next, y.next;
  }

  lemma ItemsEnd(x: seq<Json>, y: seq<Json>, i: nat, sensitive: bool, eq: NumberEq)
    requires i <= |x| && i <= |y| && (i == |x| || i == |y|)
    ensures CompareItems(x[i..], y[i..], sensitive, eq) <==> i == |x| && i == |y|
  {
  }

  lemma ItemsStep(x: seq<Json>, y: seq<Json>, i: nat, sensitive: bool, eq: NumberEq)
    requires i < |x| && i < |y|
    ensures x[i] in x && y[i] in y && Size(x[i]) <= ItemsSize(x) && Size(y[i]) <= ItemsSize(y)
    ensures CompareItems(x[i..], y[i..], sensitive, eq) <==>
            Compare(x[i], y[i], sensitive, eq) && CompareItems(x[i + 1..], y[i + 1..], sensitive, eq)
  {
    ItemIsSmaller(x, i);
    ItemIsSmaller(y, i);
  }

  method CompareArrays(a: Node, b: Node, sensitive: bool, eq: NumberEq, ghost ta: Shape, ghost tb: Shape,
                       ghost ia: seq<Json>, ghost ib: seq<Json>, ghost ma: seq<Member>, ghost mb: seq<Member>)
    returns (same: bool)
    requires HoldsKids(ta, a, ia, ma) && HoldsKids(tb, b, ib, mb) && Nodes(ta) !! Nodes(tb)
    requires (forall t <- ia :: Storable(t)) && forall t <- ib :: Storable(t)
    ensures same == CompareItems(ia, ib, sensitive, eq)
    decreases ItemsSize(ia) + ItemsSize(ib), 8
  {
    var x, y := a.child, b.child;
    ghost var i := 0;
    FirstKid(ta);
    FirstKid(tb);
    KidsCounted(ta.kids);
    KidsCounted(tb.kids);
    assert ia[0..] == ia && ib[0..] == ib;
    while x != null && y != null
      invariant i <= |ia| == |ta.kids| && i <= |ib| == |tb.kids| && x == KidAt(ta, i) && y == KidAt(tb, i)
      invariant HoldsKids(ta, a, ia, ma) && HoldsKids(tb, b, ib, mb)
      invariant CompareItems(ia, ib, sensitive, eq) == CompareItems(ia[i..], ib[i..], sensitive, eq)
      decreases |ia| - i
    {
      ItemsStep(ia, ib, i, sensitive, eq);
      var equal;
      equal, x, y := CompareItemAt(a, b, x, y, sensitive, eq, ta, tb, ia, ib, ma, mb, i);
      if !equal { return false; }
      i := i + 1;
    }
    ItemsEnd(ia, ib, i, sensitive, eq);
    same := x == null && y == null;
  }

  lemma {:induction false} ItemIsSmaller(items: seq<Json>, i: nat)
    requires i < |items|
    ensures Size(items[i]) <= ItemsSize(items) && items[i..][0] == items[i] && items[i..][1..] == items[i + 1..]
    decreases i
  {
    if i > 0 { ItemIsSmaller(items[1..], i - 1); }
  }

  lemma {:induction false} MemberIsSmaller(members: seq<Member>, i: nat)
    requires i < |members|
    ensures Size(members[i].value) <= MembersSize(members)
    ensures members[i..][0] == members[i] && members[i..][1..] == members[i + 1..]
    decreases i
  {
    if i > 0 { MemberIsSmaller(members[1..], i - 1); }
  }

  /** The two loops over the members of objects; the trees stay as they are. */
  method CompareBothWays(a: Node, b: Node, sensitive: bool, eq: NumberEq, ghost ta: Shape, ghost tb: Shape,
                         ghost ia: seq<Json>, ghost ib: seq<Json>, ghost ma: seq<Member>, ghost mb: seq<Member>)
    returns (same: bool)
    requires HoldsKids(ta, a, ia, ma) && HoldsKids(tb, b, ib, mb) && Nodes(ta) !! Nodes(tb)
    requires (forall m <- ma :: StorableMember(m)) && forall m <- mb :: StorableMember(m)
    ensures same <==> Covers(ma, mb, sensitive, eq) && Covers(mb, ma, sensitive, eq)
    decreases MembersSize(ma) + MembersSize(mb), 10
  {
    same := CompareObjects(a, b, sensitive, eq, ta, tb, ia, ib, ma, mb);
    if same { same := CompareObjects(b, a, sensitive, eq, tb, ta, ib, ia, mb, ma); }
  }

  /** The counterpart in b of a member of a; the trees stay as they are. */
  method CounterpartOf(a: Node, b: Node, x: Node, sensitive: bool, ghost ta: Shape, ghost tb: Shape,
                       ghost ia: seq<Json>, ghost ib: seq<Json>, ghost ma: seq<Member>, ghost mb: seq<Member>,
                       ghost i: nat) returns (y: Node?, ghost j: nat)
    requires HoldsKids(ta, a, ia, ma) && HoldsKids(tb, b, ib, mb)
    requires i < |ma| == |ta.kids| && x == KidAt(ta, i)
    requires StorableMember(ma[i]) && forall m <- mb :: StorableMember(m)
    ensures HoldsKids(ta, a, ia, ma) && HoldsKids(tb, b, ib, mb) && |mb| == |tb.kids|
    ensures match Get(mb, ma[i].key, sensitive)
            case None => y == null
            case Some(v) => j < |mb| && y == KidAt(tb, j) && mb[j].value == v
  {
    ChildAt(ta, a, ia, ma, i);
    NodesExist(ta.kids);
    RootsAndBelow(ta.kids);
    y, j := GetObjectItem(b, x.key, sensitive, tb, ib, mb);
  }

  /** One turn of a loop over the members: the member of a at i; the trees stay as they are. */
  method CompareMemberAt(a: Node, b: Node, x: Node, sensitive: bool, eq: NumberEq, ghost ta: Shape,
                         ghost tb: Shape, ghost ia: seq<Json>, ghost ib: seq<Json>, ghost ma: seq<Member>,
                         ghost mb: seq<Member>, ghost i: nat) returns (same: bool)
    requires HoldsKids(ta, a, ia, ma) && HoldsKids(tb, b, ib, mb) && Nodes(ta) !! Nodes(tb)
    requires i < |ma| == |ta.kids| && x == KidAt(ta, i)
    requires StorableMember(ma[i]) && forall m <- mb :: StorableMember(m)
    ensures same <==> var v := Get(mb, ma[i].key, sensitive); v.Some? && Compare(ma[i].value, v.value, sensitive, eq)
    ensures HoldsKids(ta, a, ia, ma) && HoldsKids(tb, b, ib, mb)
    decreases MembersSize(ma) + MembersSize(mb), 8
  {
    var y;
    ghost var j;
    y, j := CounterpartOf(a, b, x, sensitive, ta, tb, ia, ib, ma, mb, i);
    if y == null { return false; }
    ChildAt(ta, a, ia, ma, i);
    ChildAt(tb, b, ib, mb, j);
    MemberIsSmaller(ma, i);
    MemberIsSmaller(mb, j);
    assert mb[j] in mb;
    same := CompareChildren(a, b, x, y, sensitive, eq, ta, tb, ia, ib, ma, mb, i, j);
  }

  lemma CoversStep(x: seq<Member>, y: seq<Member>, i: nat, sensitive: bool, eq: NumberEq)
    requires i < |x|
    ensures x[i] in x
    ensures Covers(x[i..], y, sensitive, eq) <==>
            var v := Get(y, x[i].key, sensitive);
            v.Some? && Compare(x[i].value, v.value, sensitive, eq) && Covers(x[i + 1..], y, sensitive, eq)
  {
    MemberIsSmaller(x, i);
  }

  /** One of the two loops over the members of an object; the trees stay as they are. */
  method CompareObjects(a: Node, b: Node, sensitive: bool, eq: NumberEq, ghost ta: Shape, ghost tb: Shape,
                        ghost ia: seq<Json>, ghost ib: seq<Json>, ghost ma: seq<Member>, ghost mb: seq<Member>)
    returns (same: bool)
    requires HoldsKids(ta, a, ia, ma) && HoldsKids(tb, b, ib, mb) && Nodes(ta) !! Nodes(tb)
    requires (forall m <- ma :: StorableMember(m)) && forall m <- mb :: StorableMember(m)
    ensures same == Covers(ma, mb, sensitive, eq)
    ensures HoldsKids(ta, a, ia, ma) && HoldsKids(tb, b, ib, mb)
    decreases MembersSize(ma) + MembersSize(mb), 9
  {
    var x := a.child;
    ghost var i := 0;
    FirstKid(ta);
    KidsCounted(ta.kids);
    assert ma[0..] == ma;
    while x != null
      invariant i <= |ma| == |ta.kids| && x == KidAt(ta, i)
      invariant HoldsKids(ta, a, ia, ma) && HoldsKids(tb, b, ib, mb)
      invariant Covers(ma, mb, sensitive, eq) == Covers(ma[i..], mb, sensitive, eq)
      decreases |ma| - i
    {
      CoversStep(ma, mb, i, sensitive, eq);
      var equal := CompareMemberAt(a, b, x, sensitive, eq, ta, tb, ia, ib, ma, mb, i);
      if !equal { return false; }
      ChildAt(ta, a, ia, ma, i);
      x := x.next;
      i := i + 1;
    }
    same := true;
  }

  // ---------------------------------------------------------------- objects as maps

  /** An object as a map from keys, folded if case does not matter. */
  function AsMap(members: seq<Member>, sensitive: bool): map<seq<byte>, Json> {
    if members == [] then map[]
    else AsMap(members[1..], sensitive)[Key(members[0].key, sensitive) := members[0].value]
  }

  ghost predicate DistinctKeys(members: seq<Member>, sensitive: bool) {
    forall i, j :: 0 <= i < j < |members| ==> Key(members[i].key, sensitive) != Key(members[j].key, sensitive)
  }

  /** In every object the keys differ under the chosen mode. */
  ghost predicate Distinct(t: Json, sensitive: bool)
    decreases t
  {
    match t
    case Arr(items) => forall x <- items :: Distinct(x, sensitive)
    case Obj(members) => DistinctKeys(members, sensitive) && forall m <- members :: DistinctMember(m, sensitive)
    case _ => true
  }

  ghost predicate DistinctMember(m: Member, sensitive: bool)
    decreases m
  {
    Distinct(m.value, sensitive)
  }

  lemma {:induction false} MapIsSmaller(members: seq<Member>, sensitive: bool, k: seq<byte>)
    requires k in AsMap(members, sensitive)
    ensures Size(AsMap(members, sensitive)[k]) <= MembersSize(members)
    decreases |members|
  {
    if k != Key(members[0].key, sensitive) { MapIsSmaller(members[1..], sensitive, k); }
  }

  /** Equality that takes objects for maps: the order of members does not matter, elements of arrays
      stand in order. */
  ghost predicate Equal(a: Json, b: Json, sensitive: bool, eq: NumberEq)
    decreases Size(a), 0
  {
    match a
    case Num(x) => b.Num? && eq(x, b.number)
    case Arr(x) => b.Arr? && EqualItems(x, b.items, sensitive, eq)
    case Obj(x) =>
      b.Obj? && AsMap(x, sensitive).Keys == AsMap(b.members, sensitive).Keys
      && forall k <- AsMap(x, sensitive).Keys :: EqualMember(x, b.members, k, sensitive, eq)
    case _ => a == b
  }

  ghost predicate EqualItems(x: seq<Json>, y: seq<Json>, sensitive: bool, eq: NumberEq)
    decreases ItemsSize(x), 1 + |x|
  {
    |x| == |y| && (x != [] ==> Equal(x[0], y[0], sensitive, eq) && EqualItems(x[1..], y[1..], sensitive, eq))
  }

  ghost predicate EqualMember(x: seq<Member>, y: seq<Member>, k: seq<byte>, sensitive: bool, eq: NumberEq)
    requires k in AsMap(x, sensitive) && k in AsMap(y, sensitive)
    decreases MembersSize(x), 1
  {
    MapIsSmaller(x, sensitive, k);
    Equal(AsMap(x, sensitive)[k], AsMap(y, sensitive)[k], sensitive, eq)
  }

  // ---------------------------------------------------------------- symmetry

  ghost predicate Symmetric(eq: NumberEq) { forall m, n :: eq(m, n) == eq(n, m) }

  /** The comparison is symmetric if that of numbers is, whatever the keys. */
  lemma {:induction false} CompareSymmetric(a: Json, b: Json, sensitive: bool, eq: NumberEq)
    requires Symmetric(eq)
    ensures Compare(a, b, sensitive, eq) == Compare(b, a, sensitive, eq)
    decreases a, 1
  {
    if a.Arr? && b.Arr? { ItemsSymmetric(a.items, b.items, sensitive, eq); }
  }

  lemma {:induction false} ItemsSymmetric(x: seq<Json>, y: seq<Json>, sensitive: bool, eq: NumberEq)
    requires Symmetric(eq)
    ensures CompareItems(x, y, sensitive, eq) == CompareItems(y, x, sensitive, eq)
    decreases x, 0
  {
    if x != [] && y != [] {
      CompareSymmetric(x[0], y[0], sensitive, eq);
      ItemsSymmetric(x[1..], y[1..], sensitive, eq);
    }
  }

  // ---------------------------------------------------------------- what the comparison decides

  lemma {:induction false} GetReadsMap(members: seq<Member>, name: seq<byte>, sensitive: bool)
    ensures var m, k := AsMap(members, sensitive), Key(name, sensitive);
            Get(members, name, sensitive) == if k in m then Some(m[k]) else None
    decreases |members|
  {
    if members != [] { GetReadsMap(members[1..], name, sensitive); }
  }

  /** The member at i has an equal counterpart in y. */
  ghost predicate Covered(x: seq<Member>, i: nat, y: seq<Member>, sensitive: bool, eq: NumberEq)
    requires i < |x|
  {
    var k, n := Key(x[i].key, sensitive), AsMap(y, sensitive);
    k in n && Compare(x[i].value, n[k], sensitive, eq)
  }

  lemma {:induction false} CoversAll(x: seq<Member>, y: seq<Member>, sensitive: bool, eq: NumberEq)
    ensures Covers(x, y, sensitive, eq) <==> forall i | 0 <= i < |x| :: Covered(x, i, y, sensitive, eq)
    decreases |x|
  {
    if x != [] {
      GetReadsMap(y, x[0].key, sensitive);
      CoversAll(x[1..], y, sensitive, eq);
      forall i | 1 <= i < |x| ensures Covered(x, i, y, sensitive, eq) == Covered(x[1..], i - 1, y, sensitive, eq) {}
      if forall i | 0 <= i < |x| :: Covered(x, i, y, sensitive, eq) {
        forall i | 0 <= i < |x[1..]| ensures Covered(x[1..], i, y, sensitive, eq) {
          assert Covered(x, i + 1, y, sensitive, eq);
        }
        assert Covered(x, 0, y, sensitive, eq);
      }
    }
  }

  /** With distinct keys every member is in the map, under its key. */
  lemma {:induction false} MapHoldsMember(members: seq<Member>, sensitive: bool, i: nat)
    requires i < |members| && DistinctKeys(members, sensitive)
    ensures var m, k := AsMap(members, sensitive), Key(members[i].key, sensitive);
            k in m && m[k] == members[i].value
    decreases i
  {
    if i > 0 {
      assert members[1..][i - 1] == members[i];
      MapHoldsMember(members[1..], sensitive, i - 1);
    }
  }

  lemma {:induction false} MapMember(members: seq<Member>, sensitive: bool, k: seq<byte>) returns (i: nat)
    requires k in AsMap(members, sensitive)
    ensures i < |members| && Key(members[i].key, sensitive) == k
    ensures members[i].value == AsMap(members, sensitive)[k]
    decreases |members|
  {
    if Key(members[0].key, sensitive) == k {
      i := 0;
    } else {
      i := MapMember(members[1..], sensitive, k);
      i := i + 1;
    }
  }

  lemma CoversKeys(x: seq<Member>, y: seq<Member>, sensitive: bool, eq: NumberEq)
    requires DistinctKeys(x, sensitive)
    ensures Covers(x, y, sensitive, eq) <==>
            forall k <- AsMap(x, sensitive).Keys :: CoveredKey(x, k, y, sensitive, eq)
  {
    CoversAll(x, y, sensitive, eq);
    if Covers(x, y, sensitive, eq) {
      forall k | k in AsMap(x, sensitive).Keys ensures CoveredKey(x, k, y, sensitive, eq) {
        var i := MapMember(x, sensitive, k);
        assert Covered(x, i, y, sensitive, eq);
      }
    }
    if forall k <- AsMap(x, sensitive).Keys :: CoveredKey(x, k, y, sensitive, eq) {
      forall i | 0 <= i < |x| ensures Covered(x, i, y, sensitive, eq) {
        MapHoldsMember(x, sensitive, i);
        assert CoveredKey(x, Key(x[i].key, sensitive), y, sensitive, eq);
      }
    }
  }

  ghost predicate CoveredKey(x: seq<Member>, k: seq<byte>, y: seq<Member>, sensitive: bool, eq: NumberEq)
    requires k in AsMap(x, sensitive)
  {
    k in AsMap(y, sensitive) && Compare(AsMap(x, sensitive)[k], AsMap(y, sensitive)[k], sensitive, eq)
  }

  /** When the keys are distinct under the chosen mode, cJSON_Compare decides equality with objects
      read as maps. */
  lemma {:induction false} CompareDecides(a: Json, b: Json, sensitive: bool, eq: NumberEq)
    requires Symmetric(eq) && Distinct(a, sensitive) && Distinct(b, sensitive)
    ensures Compare(a, b, sensitive, eq) <==> Equal(a, b, sensitive, eq)
    decreases Size(a), 1
  {
    if a.Arr? && b.Arr? {
      ItemsDecide(a.items, b.items, sensitive, eq);
    } else if a.Obj? && b.Obj? {
      assert a == Obj(a.members) && b == Obj(b.members);
      MembersDecide(a.members, b.members, sensitive, eq);
    }
  }

  lemma {:induction false} ItemsDecide(x: seq<Json>, y: seq<Json>, sensitive: bool, eq: NumberEq)
    requires Symmetric(eq) && (forall t <- x :: Distinct(t, sensitive)) && forall t <- y :: Distinct(t, sensitive)
    ensures CompareItems(x, y, sensitive, eq) <==> EqualItems(x, y, sensitive, eq)
    decreases ItemsSize(x), 2 + |x|
  {
    if x != [] && y != [] {
      CompareDecides(x[0], y[0], sensitive, eq);
      ItemsDecide(x[1..], y[1..], sensitive, eq);
    }
  }

  lemma {:induction false} MembersDecide(x: seq<Member>, y: seq<Member>, sensitive: bool, eq: NumberEq)
    requires Symmetric(eq) && Distinct(Obj(x), sensitive) && Distinct(Obj(y), sensitive)
    ensures Covers(x, y, sensitive, eq) && Covers(y, x, sensitive, eq) <==> Equal(Obj(x), Obj(y), sensitive, eq)
    decreases MembersSize(x), 2
  {
    var m, n := AsMap(x, sensitive), AsMap(y, sensitive);
    CoversKeys(x, y, sensitive, eq);
    CoversKeys(y, x, sensitive, eq);
    forall k | k in m && k in n
      ensures CoveredKey(x, k, y, sensitive, eq) == EqualMember(x, y, k, sensitive, eq)
      ensures CoveredKey(y, k, x, sensitive, eq) == EqualMember(x, y, k, sensitive, eq)
    {
      var i := MapMember(x, sensitive, k);
      var j := MapMember(y, sensitive, k);
      assert DistinctMember(x[i], sensitive) && DistinctMember(y[j], sensitive);
      MapIsSmaller(x, sensitive, k);
      CompareSymmetric(m[k], n[k], sensitive, eq);
      CompareDecides(m[k], n[k], sensitive, eq);
    }
    if Covers(x, y, sensitive, eq) && Covers(y, x, sensitive, eq) {
      assert forall k <- m.Keys :: CoveredKey(x, k, y, sensitive, eq);
      assert forall k <- n.Keys :: CoveredKey(y, k, x, sensitive, eq);
      assert m.Keys == n.Keys;
    }
  }

  // ---------------------------------------------------------------- copies

  ghost predicate Reflexive(eq: NumberEq) { forall n :: eq(n, n) }

  /** What it takes to be equal to oneself: a member with an earlier one of the same key equals the
      first of these, which is the one that lookup finds; all others are equal to themselves. */
  ghost predicate Coherent(t: Json, sensitive: bool, eq: NumberEq)
    decreases Size(t), 0
  {
    match t
    case Num(n) => eq(n, n)
    case Arr(items) => CoherentItems(items, sensitive, eq)
    case Obj(members) => forall i | 0 <= i < |members| :: CoherentMember(members, i, sensitive, eq)
    case _ => true
  }

  ghost predicate CoherentItems(items: seq<Json>, sensitive: bool, eq: NumberEq)
    decreases ItemsSize(items), 1 + |items|
  {
    items == [] || (Coherent(items[0], sensitive, eq) && CoherentItems(items[1..], sensitive, eq))
  }

  ghost predicate CoherentMember(members: seq<Member>, i: nat, sensitive: bool, eq: NumberEq)
    requires i < |members|
    decreases MembersSize(members), 1
  {
    MemberIsSmaller(members, i);
    match Get(members[..i], members[i].key, sensitive)
    case Some(first) => Compare(members[i].value, first, sensitive, eq)
    case None => Coherent(members[i].value, sensitive, eq)
  }

  lemma {:induction false} GetFirst(members: seq<Member>, i: nat, sensitive: bool)
    requires i < |members|
    ensures var name, v := members[i].key, members[i].value;
            Get(members, name, sensitive) ==
            if Get(members[..i], name, sensitive).Some? then Get(members[..i], name, sensitive) else Some(v)
    decreases i
  {
    if i > 0 {
      assert members[..i][1..] == members[1..][..i - 1];
      GetFirst(members[1..], i - 1, sensitive);
    }
  }

  /** A recursive duplicate is the same value in new nodes; exactly the coherent ones compare equal to it. */
  lemma {:induction false} DuplicateComparesEqual(t: Json, sensitive: bool, eq: NumberEq)
    ensures Compare(t, t, sensitive, eq) <==> Coherent(t, sensitive, eq)
    decreases Size(t), 0
  {
    if t.Arr? {
      ItemsCompareEqual(t.items, sensitive, eq);
    } else if t.Obj? {
      var members := t.members;
      CoversAll(members, members, sensitive, eq);
      forall i | 0 <= i < |members|
        ensures Covered(members, i, members, sensitive, eq) <==> CoherentMember(members, i, sensitive, eq)
      {
        MemberIsSmaller(members, i);
        GetReadsMap(members, members[i].key, sensitive);
        GetFirst(members, i, sensitive);
        DuplicateComparesEqual(members[i].value, sensitive, eq);
      }
    }
  }

  lemma {:induction false} ItemsCompareEqual(items: seq<Json>, sensitive: bool, eq: NumberEq)
    ensures CompareItems(items, items, sensitive, eq) <==> CoherentItems(items, sensitive, eq)
    decreases ItemsSize(items), 1 + |items|
  {
    if items != [] {
      DuplicateComparesEqual(items[0], sensitive, eq);
      ItemsCompareEqual(items[1..], sensitive, eq);
    }
  }

  /** Distinct keys are enough. */
  lemma {:induction false} DistinctIsCoherent(t: Json, sensitive: bool, eq: NumberEq)
    requires Reflexive(eq) && Distinct(t, sensitive)
    ensures Coherent(t, sensitive, eq)
    decreases Size(t), 0
  {
    if t.Arr? {
      ItemsAreCoherent(t.items, sensitive, eq);
    } else if t.Obj? {
      var members := t.members;
      forall i | 0 <= i < |members| ensures CoherentMember(members, i, sensitive, eq) {
        MemberIsSmaller(members, i);
        if Get(members[..i], members[i].key, sensitive).Some? {
          GetReadsMap(members[..i], members[i].key, sensitive);
          var j := MapMember(members[..i], sensitive, Key(members[i].key, sensitive));
          assert false;
        }
        assert DistinctMember(members[i], sensitive);
        DistinctIsCoherent(members[i].value, sensitive, eq);
      }
    }
  }

  lemma {:induction false} ItemsAreCoherent(items: seq<Json>, sensitive: bool, eq: NumberEq)
    requires Reflexive(eq) && forall t <- items :: Distinct(t, sensitive)
    ensures CoherentItems(items, sensitive, eq)
    decreases ItemsSize(items), 1 + |items|
  {
    if items != [] {
      DistinctIsCoherent(items[0], sensitive, eq);
      ItemsAreCoherent(items[1..], sensitive, eq);
    }
  }

  /** Of two members with the same key only the first is found. */
  lemma RepeatedKeyCounterexample(eq: NumberEq)
    ensures var t := Obj([Member(['a' as int], Null), Member(['a' as int], Bool(true))]);
            !Compare(t, t, true, eq)
  {
    var x := [Member(['a' as int], Null), Member(['a' as int], Bool(true))];
    DuplicateComparesEqual(Obj(x), true, eq);
    assert Get(x[..1], x[1].key, true) == Some(Null);
    assert !CoherentMember(x, 1, true, eq);
  }
}
