/** The JSON parser as it runs: an offset and a depth moving over the text. Every procedure is
    proved to compute the pure function of its name. */
module JsonParse {
  import opened Bytes
  import opened JsonString
  import opened JsonTree
  import opened JsonList
  import opened JsonNodes
  import opened JsonGrammar
  import G = JsonGrammar

  class ParseBuffer {
    const content: seq<byte>
    var offset: nat
    var depth: nat

    constructor (content: seq<byte>)
      requires Terminated(content)
      ensures this.content == content && offset == 0 && depth == 0
    {
      this.content, offset, depth := content, 0, 0;
    }

    ghost predicate Valid()
      reads this`offset
    {
      Terminated(content) && offset < |content|
    }

    method BufferSkipWhitespace()
      requires Valid()
      modifies this`offset
      ensures Valid() && offset == SkipWhitespace(content, old(offset))
    {
      while offset < |content| && content[offset] <= 32
        invariant old(offset) <= offset <= |content|
        invariant offset < |content| ==> SkipWhitespace(content, old(offset)) == SkipWhitespace(content, offset)
        invariant offset == |content| ==> SkipWhitespace(content, old(offset)) == |content| - 1
        decreases |content| - offset
      {
        offset := offset + 1;
      }
      if offset == |content| { offset := offset - 1; }
    }

    /** Allocates by the first pass's estimate, decodes, and moves behind the closing quote. */
    method ParseString(item: Node) returns (ok: bool)
      requires Valid()
      modifies this`offset, item`kind, item`valuestring
      ensures match ReadString(content, old(offset))
              case Ok(next, t) => ok && offset == next && item.kind == StringKind && item.valuestring == CString(t)
              case Fail(at) => !ok && offset == at
    {
      if content[offset] != QUOTE {
        offset := offset + 1;
        return false;
      }
      var end, skipped, closed := MeasureString(content, offset + 1);
      if !closed {
        offset := offset + 1;
        return false;
      }
      var allocationLength := (end - offset) - skipped;
      var output := new byte[allocationLength + 1];
      var length, p;
      length, p, ok := UnescapeInto(content, offset + 1, end, output);
      if !ok {
        offset := p;
        return;
      }
      output[length] := NUL;
      item.kind := StringKind;
      item.valuestring := CString(output[..length]);
      offset := end + 1;
    }

    method ParseNumber(item: Node) returns (ok: bool)
      requires Valid()
      modifies this`offset, item`kind, item`number
      ensures ReadNumber(content, old(offset)) == if ok then ANumber(offset, item.number) else NoNumber(offset)
      ensures ok ==> item.kind == NumberKind
    {
      var i := CountHere();
      var numberCString := content[offset..offset + i];
      ReadNumberIs(content, offset, i);
      var taken := TakeNumber(numberCString, offset);
      StoreNumber(item, taken);
      ok := taken.ANumber?;
    }

    method StoreNumber(item: Node, taken: NumberResult)
      requires taken.NoNumber? ==> taken.at == offset
      modifies this`offset, item`kind, item`number
      ensures taken.ANumber? ==> offset == taken.next && item.number == taken.number && item.kind == NumberKind
      ensures taken.NoNumber? ==> offset == old(offset)
    {
      if taken.ANumber? {
        item.number := taken.number;
        item.kind := NumberKind;
        offset := taken.next;
      }
    }

    /** How many characters parse_number copies. */
    method CountHere() returns (i: nat)
      requires Valid()
      ensures i == CountNumberChars(content, offset, NUMBER_CHARS)
    {
      i := 0;
      while i < NUMBER_CHARS && offset + i < |content| && IsNumberChar(content[offset + i])
        invariant i <= NUMBER_CHARS && offset + i <= |content|
        invariant CountNumberChars(content, offset, NUMBER_CHARS) ==
                  i + CountNumberChars(content, offset + i, NUMBER_CHARS - i)
        decreases NUMBER_CHARS - i
      {
        i := i + 1;
      }
    }

    method ReadsHere(word: seq<byte>) returns (b: bool)
      requires Valid()
      ensures b == Reads(content, offset, word)
    {
      var i := 0;
      while i < |word| && offset + i < |content| && content[offset + i] == word[i]
        invariant i <= |word|
        invariant Reads(content, offset, word) == Reads(content, offset + i, word[i..])
      {
        i := i + 1;
      }
      b := i == |word|;
    }

    /** A scalar is stored into item; a node without children stands for it. */
    method ParseScalar(item: Node) returns (ok: bool, ghost value: Json)
      requires Valid() && content[offset] != LBRACKET && content[offset] != LBRACE
      modifies this`offset, item`kind, item`valuestring, item`number
      ensures G.ParseValue(content, old(offset), depth) == if ok then Value(offset, value) else NoValue(offset)
      ensures ok ==> ToJson(Shape(item, [])) == value
    {
      value := Null;
      var word := ReadsHere(NULL_TEXT);
      if word {
        item.kind := NullKind;
        offset := offset + 4;
        return true, Null;
      }
      word := ReadsHere(FALSE_TEXT);
      if word {
        item.kind := FalseKind;
        offset := offset + 5;
        return true, Bool(false);
      }
      word := ReadsHere(TRUE_TEXT);
      if word {
        item.kind := TrueKind;
        offset := offset + 4;
        return true, Bool(true);
      }
      var c := content[offset];
      if c == QUOTE {
        ok := ParseString(item);
        if ok { value := Str(item.valuestring); }
      } else if c == MINUS || IsDigit(c) {
        ok := ParseNumber(item);
        if ok { value := Num(item.number); }
      } else {
        ok := false;
      }
    }

    /** The value at the offset, stored into item and new nodes below it. */
    method ParseValue(item: Node) returns (ok: bool, ghost t: Shape, ghost value: Json)
      requires Valid() && item.child == null
      modifies this`offset, this`depth, item`kind, item`valuestring, item`number, item`child
      ensures G.ParseValue(content, old(offset), old(depth)) == if ok then Value(offset, value) else NoValue(offset)
      ensures ok ==> depth == old(depth) && Stands(t, item, value) && fresh(NodesOf(t.kids))
      decreases |content| - offset, 2
    {
      if content[offset] == LBRACKET {
        ok, t, value := ParseArray(item);
      } else if content[offset] == LBRACE {
        ok, t, value := ParseObject(item);
      } else {
        ok, value := ParseScalar(item);
        t := Shape(item, []);
      }
    }

    method ParseArray(item: Node) returns (ok: bool, ghost t: Shape, ghost value: Json)
      requires Valid() && content[offset] == LBRACKET && item.child == null
      modifies this`offset, this`depth, item`kind, item`child
      ensures G.ParseArray(content, old(offset), old(depth)) == if ok then Value(offset, value) else NoValue(offset)
      ensures ok ==> depth == old(depth) && Stands(t, item, value) && fresh(NodesOf(t.kids))
      decreases |content| - offset, 1
    {
      t, value := Shape(item, []), Null;
      if depth >= NESTING_LIMIT { return false, t, value; }
      var head, current;
      ghost var done, items;
      ok, head, current, done, items := ParseArrayList();
      if !ok { return; }
      depth := depth - 1;
      RootsExist(done);
      t := Finish(item, ArrayKind, head, current, done, items, ToMembers(done));
      value := Arr(items);
      offset := offset + 1;
    }

    /** The list of elements, which may be empty; the offset is left on the closing bracket. */
    method ParseArrayList()
      returns (ok: bool, head: Node?, current: Node?, ghost done: seq<Shape>, ghost items: seq<Json>)
      requires Valid() && content[offset] == LBRACKET && depth < NESTING_LIMIT
      modifies this`offset, this`depth
      ensures G.ParseArray(content, old(offset), old(depth)) ==
              if ok then Value(offset + 1, Arr(items)) else NoValue(offset)
      ensures ok ==> depth == old(depth) + 1 && fresh(NodesOf(done))
      ensures ok ==> Built(done, items, ToMembers(done), head, current)
      decreases |content| - offset, 0
    {
      depth := depth + 1;
      offset := offset + 1;
      BufferSkipWhitespace();
      if content[offset] == RBRACKET { return true, null, null, NO_SHAPES, NO_ITEMS; }
      offset := offset - 1;
      ok, head, current, done, items := ParseItems();
    }

    /** Whitespace and a value, stored into the node that was put at the end of the list. */
    method ParseInto(item: Node, head: Node, current: Node?, ghost done: seq<Shape>, ghost items: seq<Json>,
                     ghost members: seq<Member>) returns (ok: bool, ghost grown: seq<Shape>, ghost value: Json)
      requires Valid() && Awaiting(done, items, members, head, current, item)
      modifies this`offset, this`depth, item`kind, item`valuestring, item`number, item`child
      ensures G.ValueFrom(content, old(offset), old(depth)) == if ok then Value(offset, value) else NoValue(offset)
      ensures ok ==> depth == old(depth) && (forall n <- NodesOf(grown) :: n in NodesOf(done) || n == item || fresh(n))
      ensures ok ==> Built(grown, items + [value], members + [Member(item.key, value)], head, item)
      decreases |content| - offset, 3
    {
      NodesExist(done);
      grown := done;
      BufferSkipWhitespace();
      ghost var t;
      ok, t, value := ParseValue(item);
      if ok {
        BuildingStays(done);
        grown := Filled(done, items, members, head, current, item, t, value);
      }
    }

    /** Whether a comma follows, or else what closes the list; the list stays as it is. */
    method EndOfItem(close: byte, ghost done: seq<Shape>, ghost items: seq<Json>, ghost members: seq<Member>,
                     ghost head: Node?, ghost current: Node?) returns (ok: bool, more: bool)
      requires Valid() && Built(done, items, members, head, current)
      modifies this`offset
      ensures Valid() && offset == SkipWhitespace(content, old(offset))
      ensures more == (content[offset] == COMMA) && ok == (more || content[offset] == close)
      ensures Built(done, items, members, head, current)
    {
      NodesExist(done);
      BufferSkipWhitespace();
      more := content[offset] == COMMA;
      ok := more || content[offset] == close;
    }

    /** An element, stored into the node at the end of the list; the offset is left on the comma or bracket. */
    method ParseItemValue(newItem: Node, head: Node, current: Node?, ghost done: seq<Shape>, ghost items: seq<Json>,
                          ghost members: seq<Member>)
      returns (ok: bool, more: bool, ghost grown: seq<Shape>, ghost item: Json)
      requires Valid() && Awaiting(done, items, members, head, current, newItem)
      modifies this`offset, this`depth, newItem`kind, newItem`valuestring, newItem`number, newItem`child
      ensures G.ParseItem(content, old(offset), old(depth)) ==
              if ok then Item(offset + 1, item, more) else NoItem(offset)
      ensures ok ==> depth == old(depth)
      ensures ok ==> forall n <- NodesOf(grown) :: n in NodesOf(done) || n == newItem || fresh(n)
      ensures ok ==> Built(grown, items + [item], ToMembers(grown), head, newItem)
      decreases |content| - offset, 4
    {
      more := false;
      ok, grown, item := ParseInto(newItem, head, current, done, items, members);
      if ok { ok, more := EndOfItem(RBRACKET, grown, items + [item], ToMembers(grown), head, newItem); }
    }

    /** One turn of the loop over the elements: a new node at the end of the list, and a value for it. */
    method ParseItem(head: Node?, current: Node?, ghost done: seq<Shape>, ghost items: seq<Json>,
                     ghost members: seq<Member>)
      returns (ok: bool, first: Node, newItem: Node, more: bool, ghost grown: seq<Shape>, ghost item: Json)
      requires Terminated(content) && offset + 1 < |content|
      requires Built(done, items, members, head, current)
      modifies this`offset, this`depth, (if current == null then {} else {current})`next
      ensures G.ParseItem(content, old(offset) + 1, old(depth)) ==
              if ok then Item(offset + 1, item, more) else NoItem(offset)
      ensures ok ==> depth == old(depth) && (forall n <- NodesOf(grown) :: n in NodesOf(done) || fresh(n))
      ensures ok ==> Built(grown, items + [item], ToMembers(grown), first, newItem)
      decreases |content| - offset - 1, 5
    {
      first, newItem := NewLast(head, current, done, items, members);
      offset := offset + 1;
      ok, more, grown, item := ParseItemValue(newItem, first, current, done, items, members);
    }

    method ParseItems() returns (ok: bool, head: Node?, current: Node?, ghost done: seq<Shape>, ghost items: seq<Json>)
      requires Terminated(content) && offset + 1 < |content|
      modifies this`offset, this`depth
      ensures G.ParseItems(content, old(offset) + 1, old(depth), NO_ITEMS) ==
              if ok then Items(offset + 1, items) else NoItems(offset)
      ensures ok ==> depth == old(depth) && fresh(NodesOf(done)) && Built(done, items, ToMembers(done), head, current)
      decreases |content| - offset - 1, 6
    {
      head, current, done, items := null, null, NO_SHAPES, NO_ITEMS;
      while true
        invariant old(offset) <= offset && offset + 1 < |content| && depth == old(depth)
        invariant G.ParseItems(content, old(offset) + 1, depth, NO_ITEMS) ==
                  G.ParseItems(content, offset + 1, depth, items)
        invariant fresh(NodesOf(done)) && Built(done, items, ToMembers(done), head, current)
        decreases |content| - offset
      {
        var more;
        ghost var item;
        RootsExist(done);
        ok, head, current, more, done, item := ParseItem(head, current, done, items, ToMembers(done));
        if !ok { return; }
        items := items + [item];
        if !more { return; }
      }
    }

    method ParseObject(item: Node) returns (ok: bool, ghost t: Shape, ghost value: Json)
      requires Valid() && content[offset] == LBRACE && item.child == null
      modifies this`offset, this`depth, item`kind, item`child
      ensures G.ParseObject(content, old(offset), old(depth)) == if ok then Value(offset, value) else NoValue(offset)
      ensures ok ==> depth == old(depth) && Stands(t, item, value) && fresh(NodesOf(t.kids))
      decreases |content| - offset, 1
    {
      t, value := Shape(item, []), Null;
      if depth >= NESTING_LIMIT { return false, t, value; }
      var head, current;
      ghost var done, members;
      ok, head, current, done, members := ParseObjectList();
      if !ok { return; }
      depth := depth - 1;
      RootsExist(done);
      t := Finish(item, ObjectKind, head, current, done, ToItems(done), members);
      value := Obj(members);
      offset := offset + 1;
    }

    /** The list of members, which may be empty; the offset is left on the closing brace. */
    method ParseObjectList()
      returns (ok: bool, head: Node?, current: Node?, ghost done: seq<Shape>, ghost members: seq<Member>)
      requires Valid() && content[offset] == LBRACE && depth < NESTING_LIMIT
      modifies this`offset, this`depth
      ensures G.ParseObject(content, old(offset), old(depth)) ==
              if ok then Value(offset + 1, Obj(members)) else NoValue(offset)
      ensures ok ==> depth == old(depth) + 1 && fresh(NodesOf(done))
      ensures ok ==> Built(done, ToItems(done), members, head, current)
      decreases |content| - offset, 0
    {
      depth := depth + 1;
      offset := offset + 1;
      BufferSkipWhitespace();
      if content[offset] == RBRACE { return true, null, null, NO_SHAPES, NO_MEMBERS; }
      offset := offset - 1;
      ok, head, current, done, members := ParseMembers();
    }

    /** A string becomes the node's key, and a colon follows. */
    method ParseKey(item: Node) returns (ok: bool)
      requires Valid()
      modifies this`offset, item`kind, item`valuestring, item`key
      ensures G.ParseKey(content, old(offset)) == if ok then Key(offset, item.key) else NoKey(offset)
    {
      BufferSkipWhitespace();
      ok := ParseString(item);
      if !ok { return; }
      BufferSkipWhitespace();
      item.key := item.valuestring;
      item.valuestring := [];
      if content[offset] != COLON { return false; }
      offset := offset + 1;
    }

    /** The key of the node that was put at the end of the list. */
    method ParseKeyInto(item: Node, head: Node, current: Node?, ghost done: seq<Shape>, ghost items: seq<Json>,
                        ghost members: seq<Member>) returns (ok: bool)
      requires Valid() && Awaiting(done, items, members, head, current, item)
      modifies this`offset, item`kind, item`valuestring, item`key
      ensures G.ParseKey(content, old(offset)) == if ok then Key(offset, item.key) else NoKey(offset)
      ensures Awaiting(done, items, members, head, current, item)
    {
      NodesExist(done);
      ok := ParseKey(item);
    }

    /** The value behind a key; the offset is left on the comma or brace. */
    method ParseMemberValue(item: Node, head: Node, current: Node?, ghost done: seq<Shape>, ghost items: seq<Json>,
                            ghost members: seq<Member>)
      returns (ok: bool, more: bool, ghost grown: seq<Shape>, ghost member: Member)
      requires Valid() && Awaiting(done, items, members, head, current, item)
      modifies this`offset, this`depth, item`kind, item`valuestring, item`number, item`child
      ensures G.ParseMemberValue(content, old(offset), item.key, old(depth)) ==
              if ok then AMember(offset + 1, member, more) else NoMember(offset)
      ensures ok ==> depth == old(depth) && (forall n <- NodesOf(grown) :: n in NodesOf(done) || n == item || fresh(n))
      ensures ok ==> Built(grown, ToItems(grown), members + [member], head, item)
      decreases |content| - offset, 4
    {
      more, grown, member := false, done, Member(item.key, Null);
      ghost var value;
      ok, grown, value := ParseInto(item, head, current, done, items, members);
      if ok {
        member := Member(item.key, value);
        ok, more := EndOfItem(RBRACE, grown, ToItems(grown), members + [member], head, item);
      }
    }

    method ParseMember(head: Node?, current: Node?, ghost done: seq<Shape>, ghost items: seq<Json>,
                       ghost members: seq<Member>)
      returns (ok: bool, first: Node, newItem: Node, more: bool, ghost grown: seq<Shape>, ghost member: Member)
      requires Terminated(content) && offset + 1 < |content|
      requires Built(done, items, members, head, current)
      modifies this`offset, this`depth, (if current == null then {} else {current})`next
      ensures G.ParseMember(content, old(offset) + 1, old(depth)) ==
              if ok then AMember(offset + 1, member, more) else NoMember(offset)
      ensures ok ==> depth == old(depth) && (forall n <- NodesOf(grown) :: n in NodesOf(done) || fresh(n))
      ensures ok ==> Built(grown, ToItems(grown), members + [member], first, newItem)
      decreases |content| - offset - 1, 5
    {
      more, grown, member := false, done, Member(NO_KEY, Null);
      first, newItem := NewLast(head, current, done, items, members);
      offset := offset + 1;
      ok := ParseKeyInto(newItem, first, current, done, items, members);
      if ok { ok, more, grown, member := ParseMemberValue(newItem, first, current, done, items, members); }
    }

    /** One turn of the loop over the members. */
    method AddMember(head: Node?, current: Node?, ghost done: seq<Shape>, ghost members: seq<Member>)
      returns (ok: bool, first: Node, newItem: Node, more: bool, ghost grown: seq<Shape>, ghost all: seq<Member>)
      requires Terminated(content) && offset + 1 < |content|
      requires Built(done, ToItems(done), members, head, current)
      modifies this`offset, this`depth, (if current == null then {} else {current})`next
      ensures ok ==> old(offset) < offset < |content| && depth == old(depth) && (more ==> offset + 1 < |content|)
      ensures G.ParseMembers(content, old(offset) + 1, old(depth), members) ==
              if !ok then NoMembers(offset)
              else if more then G.ParseMembers(content, offset + 1, depth, all) else Members(offset + 1, all)
      ensures ok ==> Built(grown, ToItems(grown), all, first, newItem)
      ensures ok ==> forall n <- NodesOf(grown) :: n in NodesOf(done) || fresh(n)
      decreases |content| - offset - 1, 6
    {
      ghost var member;
      ok, first, newItem, more, grown, member := ParseMember(head, current, done, ToItems(done), members);
      all := members + [member];
    }

    method ParseMembers() returns (ok: bool, head: Node?, current: Node?, ghost done: seq<Shape>,
                                   ghost members: seq<Member>)
      requires Terminated(content) && offset + 1 < |content|
      modifies this`offset, this`depth
      ensures G.ParseMembers(content, old(offset) + 1, old(depth), NO_MEMBERS) ==
              if ok then Members(offset + 1, members) else NoMembers(offset)
      ensures ok ==> depth == old(depth) && fresh(NodesOf(done)) && Built(done, ToItems(done), members, head, current)
      decreases |content| - offset - 1, 7
    {
      head, current, done, members := null, null, NO_SHAPES, NO_MEMBERS;
      while true
        invariant old(offset) <= offset && offset + 1 < |content| && depth == old(depth)
        invariant G.ParseMembers(content, old(offset) + 1, depth, NO_MEMBERS) ==
                  G.ParseMembers(content, offset + 1, depth, members)
        invariant fresh(NodesOf(done)) && Built(done, ToItems(done), members, head, current)
        decreases |content| - offset
      {
        var more;
        ok, head, current, more, done, members := AddMember(head, current, done, members);
        if !ok || !more { return; }
      }
    }

    method ParseRoot(item: Node) returns (ok: bool, ghost t: Shape, ghost value: Json)
      requires Valid() && item.child == null
      modifies this`offset, this`depth, item`kind, item`valuestring, item`number, item`child
      ensures G.ValueFrom(content, old(offset), old(depth)) == if ok then Value(offset, value) else NoValue(offset)
      ensures ok ==> Stands(t, item, value) && fresh(NodesOf(t.kids))
    {
      BufferSkipWhitespace();
      ok, t, value := ParseValue(item);
    }

    /** Whether only whitespace and the NUL are left; the tree that was parsed stays as it is. */
    method AtEnd(item: Node, ghost t: Shape, ghost value: Json) returns (ok: bool)
      requires Valid() && Stands(t, item, value)
      modifies this`offset
      ensures offset == SkipWhitespace(content, old(offset)) && ok == (content[offset] == NUL)
      ensures Stands(t, item, value)
    {
      NodesExist(t.kids);
      RootsAndBelow(t.kids);
      BufferSkipWhitespace();
      ok := content[offset] == NUL;
    }
  }

  const NO_KEY: seq<byte> := []
  const NO_SHAPES: seq<Shape> := []
  const NO_ITEMS: seq<Json> := []
  const NO_MEMBERS: seq<Member> := []

  /** cJSON_ParseWithLengthOpts: the tree and where the text behind it starts, or where the error is. */
  method ParseWithLengthOpts(s: seq<byte>, requireNullTerminated: bool)
    returns (item: Node?, parseEnd: nat, ghost t: Option<Shape>)
    requires s != [] ==> Terminated(s)
    ensures s == [] ==> item == null && parseEnd == 0
    ensures s != [] ==>
            match Parse(s, requireNullTerminated)
            case Value(end, value) =>
              item != null && parseEnd == end && t.Some? && Stands(t.value, item, value) && fresh(Nodes(t.value))
            case NoValue(at) => item == null && parseEnd == at
  {
    if s == [] { return null, 0, None; }
    var buffer := new ParseBuffer(s);
    var root := new Node();
    buffer.offset := SkipBom(s);
    var ok;
    ghost var tree, value;
    ok, tree, value := buffer.ParseRoot(root);
    if !ok { return null, ErrorAt(s, buffer.offset), None; }
    if requireNullTerminated {
      ok := buffer.AtEnd(root, tree, value);
      if !ok { return null, buffer.offset, None; }
    }
    return root, buffer.offset, Some(tree);
  }
}
