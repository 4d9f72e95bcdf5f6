/** The printer as it runs: a buffer that is fixed or grows, an offset, and text always kept
    NUL-terminated behind it. Every procedure is proved to append exactly what Render says. */
module JsonPrint {
  import opened Bytes
  import opened Utf
  import opened JsonString
  import opened JsonTree
  import opened JsonList
  import opened JsonNodes

  const DEFAULT_BUFFER_SIZE: nat := 256

  /** Stores chunk at position at, keeping what stands before and behind. */
  method Put(output: array<byte>, at: nat, chunk: seq<byte>)
    requires at + |chunk| <= output.Length
    modifies output
    ensures output[..at + |chunk|] == old(output[..at]) + chunk
    ensures forall k :: at + |chunk| <= k < output.Length ==> output[k] == old(output[k])
  {
    for i := 0 to |chunk|
      invariant output[..at + i] == old(output[..at]) + chunk[..i]
      invariant forall k :: at + i <= k < output.Length ==> output[k] == old(output[k])
    {
      ghost var done := output[..at + i];
      output[at + i] := chunk[i];
      assert output[..at + i + 1] == done + [chunk[i]];
      assert chunk[..i + 1] == chunk[..i] + [chunk[i]];
    }
    assert chunk[..|chunk|] == chunk;
  }

  /** One turn of the writing pass. */
  method StoreEscaped(output: array<byte>, at: nat, c: byte) returns (next: nat)
    requires at + |EscapedByte(c)| <= output.Length
    modifies output
    ensures next == at + |EscapedByte(c)|
    ensures output[..next] == old(output[..at]) + EscapedByte(c)
    ensures forall k :: next <= k < output.Length ==> output[k] == old(output[k])
  {
    if c > 31 && c != QUOTE && c != BACKSLASH {
      Put(output, at, [c]);
      return at + 1;
    }
    if EscapeLetter(c).Some? {
      Put(output, at, [BACKSLASH, EscapeLetter(c).value]);
      return at + 2;
    }
    Put(output, at, [BACKSLASH, LOWER_U, '0' as int, '0' as int, HexChar(c / 16), HexChar(c % 16)]);
    return at + 6;
  }

  /** The loop of the writing pass. */
  method EscapeInto(output: array<byte>, from: nat, input: seq<byte>) returns (end: nat)
    requires from + |Escape(input)| <= output.Length
    modifies output
    ensures end == from + |Escape(input)|
    ensures output[..end] == old(output[..from]) + Escape(input)
    ensures forall k :: end <= k < output.Length ==> output[k] == old(output[k])
  {
    ghost var goal := output[..from] + Escape(input);
    end := from;
    assert input[0..] == input;
    for i := 0 to |input|
      invariant from <= end && end + |Escape(input[i..])| == |goal|
      invariant output[..end] + Escape(input[i..]) == goal
      invariant forall k :: |goal| <= k < output.Length ==> output[k] == old(output[k])
    {
      EscapeOneMore(output[..end], input, i, goal);
      end := StoreEscaped(output, end, input[i]);
    }
    assert input[|input|..] == [] && output[..end] + [] == output[..end];
  }

  /** Writing pass: the closing quote and the NUL go where the count said. */
  method PutQuoted(output: array<byte>, at: nat, input: seq<byte>, outputLength: nat)
    requires outputLength == |Escape(input)| && at + outputLength + 2 < output.Length
    modifies output
    ensures output[..at + outputLength + 2] == old(output[..at]) + Quoted(input)
    ensures output[at + outputLength + 2] == NUL
    ensures forall k :: at + outputLength + 2 < k < output.Length ==> output[k] == old(output[k])
  {
    Put(output, at, [QUOTE]);
    var end := EscapeInto(output, at + 1, input);
    QuotedParts(old(output[..at]), input);
    Put(output, at + outputLength + 1, [QUOTE]);
    ghost var text := output[..at + outputLength + 2];
    output[at + outputLength + 2] := NUL;
    assert output[..at + outputLength + 2] == text;
  }

  class PrintBuffer {
    var buffer: array<byte>
    var length: nat
    var offset: nat
    var depth: nat
    const noalloc: bool
    const format: bool

    /** Everything printed up to the offset. */
    ghost var text: seq<byte>
    /** The room there is, or can be made. */
    ghost const limit: nat
    /** The caller's buffer, and its bytes behind the length, when it is fixed. */
    ghost const home: array<byte>
    ghost const behind: seq<byte>

    /** The buffer begins with s. */
    ghost predicate Holds(s: seq<byte>)
      reads this`buffer, buffer
    {
      |s| <= buffer.Length && forall k :: 0 <= k < |s| ==> buffer[k] == s[k]
    }

    ghost predicate Valid()
      reads this`buffer, this`length, this`offset, this`text, buffer
    {
      && length <= limit <= INT_MAX
      && length <= buffer.Length
      && (offset < length || (noalloc && length == 0 && offset == 0))
      && Holds(text) && offset == |text|
      && (noalloc ==> buffer == home && length == limit && buffer[length..] == behind)
      && (!noalloc ==> limit == INT_MAX)
    }

    constructor (buffer: array<byte>, length: nat, noalloc: bool, format: bool)
      requires length <= buffer.Length && length <= INT_MAX
      requires noalloc || length > 0
      ensures Valid() && offset == 0 && depth == 0 && text == []
      ensures this.buffer == buffer && this.noalloc == noalloc && this.format == format
      ensures limit == (if noalloc then length else INT_MAX)
      ensures home == buffer && behind == buffer[length..]
    {
      this.buffer, this.length, this.offset, this.depth := buffer, length, 0, 0;
      this.noalloc, this.format := noalloc, format;
      text, limit := [], if noalloc then length else INT_MAX;
      home, behind := buffer, buffer[length..];
    }

    /** Makes room for needed more bytes and a NUL, if the limit allows. */
    method Ensure(needed: nat) returns (ok: bool)
      requires Valid()
      modifies this`buffer, this`length
      ensures Valid() && (buffer == old(buffer) || fresh(buffer))
      ensures ok <==> offset + needed + 1 <= limit
      ensures ok ==> offset + needed + 1 <= length
    {
      if length > 0 && offset >= length { return false; }
      if needed > INT_MAX { return false; }
      var total := needed + offset + 1;
      if total <= length { return true; }
      if noalloc { return false; }
      var newsize;
      if total > INT_MAX / 2 {
        if total <= INT_MAX { newsize := INT_MAX; } else { return false; }
      } else {
        newsize := total * 2;
      }
      var newbuffer := new byte[newsize];
      forall i | 0 <= i <= offset { newbuffer[i] := buffer[i]; }
      length := newsize;
      buffer := newbuffer;
      return true;
    }

    /** Stores chunk at the offset, and a NUL behind it if asked. */
    method Store(chunk: seq<byte>, terminate: bool)
      requires Valid() && offset + |chunk| < length
      modifies buffer
      ensures Valid() && Holds(text + chunk)
      ensures terminate ==> buffer[offset + |chunk|] == NUL
    {
      Put(buffer, offset, chunk);
      if terminate { buffer[offset + |chunk|] := NUL; }
      HoldsPrefix(text, chunk);
    }

    /** Room for chunk and spare more bytes, then chunk stored and the offset moved behind it. */
    method Append(chunk: seq<byte>, spare: nat, terminate: bool) returns (ok: bool)
      requires Valid()
      modifies this`buffer, this`length, this`offset, this`text, buffer
      ensures Valid() && (buffer == old(buffer) || fresh(buffer))
      ensures ok <==> old(offset) + |chunk| + spare + 1 <= limit
      ensures ok ==> text == old(text) + chunk
      ensures ok && terminate ==> buffer[offset] == NUL
    {
      ok := Ensure(|chunk| + spare);
      if ok {
        Store(chunk, terminate);
        offset := offset + |chunk|;
        text := text + chunk;
      }
    }

    /** The buffer holds goal and a NUL; the offset stands anywhere in goal behind which there is no
        other NUL. */
    ghost predicate Shows(goal: seq<byte>)
      reads this`buffer, this`length, this`offset, this`text, buffer
    {
      && Valid()
      && offset <= |goal| < length
      && Holds(goal)
      && buffer[|goal|] == NUL
      && NUL !in goal[offset..]
    }

    /** strlen finds the end of what the last step printed. */
    method UpdateOffset(ghost goal: seq<byte>)
      requires Shows(goal)
      modifies this`offset, this`text
      ensures Valid() && text == goal && buffer[offset] == NUL
    {
      assert forall k :: offset <= k < |goal| ==> goal[k] in goal[offset..];
      while buffer[offset] != NUL
        invariant old(offset) <= offset <= |goal|
        decreases |goal| - offset
      {
        offset := offset + 1;
      }
      text := goal;
    }

    /** Like Append with a final NUL, but the offset stays for update_offset to move. */
    method AppendUnmoved(chunk: seq<byte>) returns (ok: bool)
      requires Valid() && NUL !in chunk
      modifies this`buffer, this`length, buffer
      ensures Valid() && (buffer == old(buffer) || fresh(buffer))
      ensures ok <==> offset + |chunk| + 2 <= limit
      ensures ok ==> Shows(text + chunk)
    {
      ok := Ensure(|chunk| + 1);
      if ok {
        Store(chunk, true);
        assert (text + chunk)[offset..] == chunk;
      }
    }

    /** Counting pass of print_string_ptr. */
    method CountEscapes(text: seq<byte>) returns (escapeCharacters: nat)
      ensures escapeCharacters == Extra(text)
    {
      escapeCharacters := 0;
      assert text[0..] == text;
      for i := 0 to |text|
        invariant escapeCharacters + Extra(text[i..]) == Extra(text)
      {
        var c := text[i];
        assert text[i..][1..] == text[i + 1..];
        if c == QUOTE || c == BACKSLASH || c == 8 || c == 12 || c == 10 || c == 13 || c == 9 {
          escapeCharacters := escapeCharacters + 1;
        } else if c < 32 {
          escapeCharacters := escapeCharacters + 5;
        }
      }
    }

    method StoreEscapedString(input: seq<byte>, outputLength: nat)
      requires Valid() && outputLength == |Escape(input)| && offset + outputLength + 2 < length
      modifies buffer
      ensures Valid() && Holds(text + Quoted(input))
      ensures buffer[offset + outputLength + 2] == NUL
    {
      assert buffer[..offset] == text;
      PutQuoted(buffer, offset, input, outputLength);
      assert buffer[..offset + outputLength + 2] == text + Quoted(input);
      HoldsPrefix(text, Quoted(input));
    }

    /** A longer text that is held holds the shorter one. */
    lemma HoldsPrefix(s: seq<byte>, more: seq<byte>)
      requires Holds(s + more)
      ensures Holds(s)
    {
      assert forall k :: 0 <= k < |s| ==> (s + more)[k] == s[k];
    }

    method PrintStringPtr(input: seq<byte>) returns (ok: bool)
      requires Valid() && NUL !in input
      modifies this`buffer, this`length, buffer
      ensures Valid() && (buffer == old(buffer) || fresh(buffer))
      ensures ok <==> offset + |Quoted(input)| + 2 <= limit
      ensures ok ==> Shows(text + Quoted(input))
    {
      var escapeCharacters := CountEscapes(input);
      CountIsExact(input);
      QuotedHasNoNul(input);
      var outputLength := |input| + escapeCharacters;
      ok := Ensure(outputLength + 3);
      if !ok { return; }
      if escapeCharacters == 0 {
        Store([QUOTE] + input + [QUOTE], true);
      } else {
        StoreEscapedString(input, outputLength);
      }
      assert (text + Quoted(input))[offset..] == Quoted(input);
    }

    /** print_number, given the text that sprintf makes of the number. */
    method PrintNumber(number: Number) returns (ok: bool)
      requires Valid() && Showable(Num(number))
      modifies this`buffer, this`length, this`offset, this`text, buffer
      ensures Valid() && (buffer == old(buffer) || fresh(buffer))
      ensures ok <==> old(offset) + |NumberText(number)| + 2 <= limit
      ensures ok ==> Shows(old(text) + NumberText(number))
    {
      var digits := NumberText(number);
      NumberFits(number);
      if |digits| > NUMBER_TEXT_LIMIT { return false; }
      ok := Append(digits, 1, true);
      assert ok ==> (old(text) + digits)[offset..] == [];
    }

    method PrintValue(item: Node, ghost t: Shape, ghost value: Json) returns (ok: bool)
      requires Valid() && Stands(t, item, value) && Showable(value)
      modifies this, buffer
      ensures Valid() && (buffer == old(buffer) || fresh(buffer)) && (ok ==> depth == old(depth))
      ensures ok <==> old(offset) + |Render(value, format, old(depth))| + 2 <= limit
      ensures ok ==> Shows(old(text) + Render(value, format, old(depth)))
      decreases t, 5
    {
      KindMeans(t, item, value);
      match item.kind {
        case NullKind => ok := AppendUnmoved(NULL_TEXT);
        case FalseKind => ok := AppendUnmoved(FALSE_TEXT);
        case TrueKind => ok := AppendUnmoved(TRUE_TEXT);
        case NumberKind => ok := PrintNumber(item.number);
        case StringKind => ok := PrintStringPtr(item.valuestring);
        case ArrayKind => ok := PrintArray(item, t, value.items, ToMembers(t.kids));
        case ObjectKind => ok := PrintObject(item, t, ToItems(t.kids), value.members);
      }
    }

    /** A value, and the offset moved behind it. */
    method PrintMoved(item: Node, ghost t: Shape, ghost value: Json) returns (ok: bool)
      requires Valid() && Stands(t, item, value) && Showable(value)
      modifies this, buffer
      ensures Valid() && (buffer == old(buffer) || fresh(buffer)) && (ok ==> depth == old(depth))
      ensures ok <==> old(offset) + |Render(value, format, old(depth))| + 2 <= limit
      ensures ok ==> text == old(text) + Render(value, format, old(depth)) && buffer[offset] == NUL
      decreases t, 6
    {
      ok := PrintValue(item, t, value);
      if ok { UpdateOffset(old(text) + Render(value, format, depth)); }
    }

    /** An element and the comma behind it. */
    method PrintItem(element: Node, ghost t: Shape, ghost value: Json, ghost last: bool) returns (ok: bool)
      requires Valid() && Stands(t, element, value) && Showable(value) && last == (element.next == null)
      modifies this, buffer
      ensures Valid() && (buffer == old(buffer) || fresh(buffer)) && (ok ==> depth == old(depth))
      ensures !ok ==> old(offset) + |RenderItem(value, last, format, old(depth))| + 2 > limit
      ensures ok ==> text == old(text) + RenderItem(value, last, format, old(depth))
      decreases t, 7
    {
      ItemText(text, value, last, format, depth);
      ok := PrintMoved(element, t, value);
      if !ok { return; }
      if element.next != null {
        ok := Append(ItemSeparator(format), 1, true);
      }
    }

    /** One turn of the loop over the elements; the tree stays as it is. */
    method PrintItemAt(item: Node, element: Node, ghost t: Shape, ghost items: seq<Json>, ghost members: seq<Member>,
                       ghost i: nat)
      returns (ok: bool, next: Node?)
      requires Valid() && HoldsKids(t, item, items, members) && i < |items| == |t.kids| && Showable(items[i])
      requires element == KidAt(t, i)
      modifies this, buffer
      ensures Valid() && (buffer == old(buffer) || fresh(buffer)) && (ok ==> depth == old(depth))
      ensures !ok ==> old(offset) + |RenderItem(items[i], i + 1 == |items|, format, old(depth))| + 2 > limit
      ensures ok ==> text == old(text) + RenderItem(items[i], i + 1 == |items|, format, old(depth))
      ensures HoldsKids(t, item, items, members) && next == KidAt(t, i + 1)
      decreases t, 1
    {
      ChildAt(t, item, items, members, i);
      NodesExist(t.kids);
      RootsAndBelow(t.kids);
      ok := PrintItem(element, t.kids[i], items[i], i + 1 == |items|);
      next := element.next;
    }

    method PrintItems(item: Node, ghost t: Shape, ghost items: seq<Json>, ghost members: seq<Member>)
      returns (ok: bool)
      requires Valid() && HoldsKids(t, item, items, members) && forall x <- items :: Showable(x)
      modifies this, buffer
      ensures Valid() && (buffer == old(buffer) || fresh(buffer)) && (ok ==> depth == old(depth))
      ensures ok ==> text == old(text) + RenderItems(items, format, depth)
      ensures !ok ==> old(offset) + |RenderItems(items, format, old(depth))| + 2 > limit
      decreases t, 2
    {
      ghost var goal := text + RenderItems(items, format, depth);
      assert items[0..] == items;
      ok := true;
      var element := item.child;
      ghost var i := 0;
      FirstKid(t);
      KidsCounted(t.kids);
      while element != null
        invariant i <= |items| == |t.kids| && element == KidAt(t, i)
        invariant Valid() && depth == old(depth) && HoldsKids(t, item, items, members)
        invariant buffer == old(buffer) || fresh(buffer)
        invariant text + RenderItems(items[i..], format, depth) == goal
        decreases |items| - i
      {
        NextItem(text, items, i, format, depth, goal);
        ok, element := PrintItemAt(item, element, t, items, members, i);
        if !ok { return; }
        i := i + 1;
      }
      assert text + [] == text;
    }

    method PrintArray(item: Node, ghost t: Shape, ghost items: seq<Json>, ghost members: seq<Member>)
      returns (ok: bool)
      requires Valid() && HoldsKids(t, item, items, members) && forall x <- items :: Showable(x)
      modifies this, buffer
      ensures Valid() && (buffer == old(buffer) || fresh(buffer)) && (ok ==> depth == old(depth))
      ensures ok <==> old(offset) + |Render(Arr(items), format, old(depth))| + 2 <= limit
      ensures ok ==> Shows(old(text) + Render(Arr(items), format, old(depth)))
      decreases t, 4
    {
      ArrayText(text, items, format, depth);
      ok := PrintBracketed(item, t, items, members);
    }

    method PrintBracketed(item: Node, ghost t: Shape, ghost items: seq<Json>, ghost members: seq<Member>)
      returns (ok: bool)
      requires Valid() && HoldsKids(t, item, items, members) && forall x <- items :: Showable(x)
      modifies this, buffer
      ensures Valid() && (buffer == old(buffer) || fresh(buffer)) && (ok ==> depth == old(depth))
      ensures ok <==> old(offset) + |RenderItems(items, format, old(depth) + 1)| + 4 <= limit
      ensures ok ==> Shows(old(text) + [LBRACKET] + RenderItems(items, format, old(depth) + 1) + [RBRACKET])
      decreases t, 3
    {
      ok := Open([LBRACKET], 0, item, t, items, members);
      if !ok { return; }
      ok := PrintItems(item, t, items, members);
      if !ok { return; }
      ok := Close([RBRACKET]);
    }

    /** The bracket that starts a container, and one level down; the tree stays as it is. */
    method Open(chunk: seq<byte>, spare: nat, item: Node, ghost t: Shape, ghost items: seq<Json>,
                ghost members: seq<Member>) returns (ok: bool)
      requires Valid() && HoldsKids(t, item, items, members)
      modifies this, buffer
      ensures Valid() && (buffer == old(buffer) || fresh(buffer)) && HoldsKids(t, item, items, members)
      ensures !ok ==> old(offset) + |chunk| + spare + 1 > limit
      ensures ok ==> text == old(text) + chunk && depth == old(depth) + 1
    {
      NodesExist(t.kids);
      RootsAndBelow(t.kids);
      ok := OpenText(chunk, spare);
    }

    method OpenText(chunk: seq<byte>, spare: nat) returns (ok: bool)
      requires Valid()
      modifies this, buffer
      ensures Valid() && (buffer == old(buffer) || fresh(buffer))
      ensures !ok ==> old(offset) + |chunk| + spare + 1 > limit
      ensures ok ==> text == old(text) + chunk && depth == old(depth) + 1
    {
      ok := Append(chunk, spare, false);
      if ok { depth := depth + 1; }
    }

    /** The bracket that ends a container, and one level up. */
    method Close(chunk: seq<byte>) returns (ok: bool)
      requires Valid() && NUL !in chunk && depth > 0
      modifies this`buffer, this`length, this`depth, buffer
      ensures Valid() && (buffer == old(buffer) || fresh(buffer))
      ensures ok <==> offset + |chunk| + 2 <= limit
      ensures ok ==> Shows(text + chunk) && depth == old(depth) - 1
    {
      ok := AppendUnmoved(chunk);
      depth := depth - 1;
    }

    /** The key of a member, whose value stays as it is. */
    method PrintKeyOf(member: Node, ghost t: Shape, ghost value: Json) returns (ok: bool)
      requires Valid() && Stands(t, member, value) && NUL !in member.key
      modifies this`buffer, this`length, this`offset, this`text, buffer
      ensures Valid() && (buffer == old(buffer) || fresh(buffer)) && Stands(t, member, value)
      ensures ok ==> text == old(text) + RenderKey(member.key, format, depth)
      ensures !ok ==> old(offset) + |RenderKey(member.key, format, depth)| + 1 > limit
      ensures member.key == old(member.key)
    {
      NodesExist(t.kids);
      RootsAndBelow(t.kids);
      ok := PrintKey(member.key);
    }

    /** Indentation, key, colon, value, and what ends the line. */
    method PrintMember(member: Node, ghost t: Shape, ghost m: Member, ghost last: bool) returns (ok: bool)
      requires Valid() && Stands(t, member, m.value) && member.key == m.key && ShowableMember(m)
      requires last == (member.next == null)
      modifies this, buffer
      ensures Valid() && (buffer == old(buffer) || fresh(buffer)) && (ok ==> depth == old(depth))
      ensures !ok ==> old(offset) + |RenderMember(m, last, format, old(depth))| + 2 > limit
      ensures ok ==> text == old(text) + RenderMember(m, last, format, old(depth))
      decreases t, 8
    {
      MemberText(text, m, last, format, depth);
      ok := PrintKeyOf(member, t, m.value);
      if ok { ok := PrintMemberValue(member, t, m.value, last); }
    }

    /** The value of a member, and what ends its line. */
    method PrintMemberValue(member: Node, ghost t: Shape, ghost value: Json, ghost last: bool) returns (ok: bool)
      requires Valid() && Stands(t, member, value) && Showable(value) && last == (member.next == null)
      modifies this, buffer
      ensures Valid() && (buffer == old(buffer) || fresh(buffer)) && (ok ==> depth == old(depth))
      ensures !ok ==> old(offset) + |Render(value, format, old(depth))| + |MemberEnd(format, last)| + 2 > limit
      ensures ok ==> text == old(text) + Render(value, format, old(depth)) + MemberEnd(format, last)
      decreases t, 7
    {
      ok := PrintMoved(member, t, value);
      if !ok { return; }
      ok := Append(MemberEnd(format, member.next == null), 1, true);
    }

    /** One turn of the loop over the members; the tree stays as it is. */
    method PrintMemberAt(item: Node, member: Node, ghost t: Shape, ghost items: seq<Json>,
                         ghost members: seq<Member>, ghost i: nat)
      returns (ok: bool, next: Node?)
      requires Valid() && HoldsKids(t, item, items, members) && i < |members| == |t.kids| && ShowableMember(members[i])
      requires member == KidAt(t, i)
      modifies this, buffer
      ensures Valid() && (buffer == old(buffer) || fresh(buffer)) && (ok ==> depth == old(depth))
      ensures !ok ==> old(offset) + |RenderMember(members[i], i + 1 == |members|, format, old(depth))| + 2 > limit
      ensures ok ==> text == old(text) + RenderMember(members[i], i + 1 == |members|, format, old(depth))
      ensures HoldsKids(t, item, items, members) && next == KidAt(t, i + 1)
      decreases t, 0
    {
      ChildAt(t, item, items, members, i);
      NodesExist(t.kids);
      RootsAndBelow(t.kids);
      ok := PrintMember(member, t.kids[i], members[i], i + 1 == |members|);
      next := member.next;
    }

    method PrintIndent() returns (ok: bool)
      requires Valid()
      modifies this`buffer, this`length, this`offset, this`text, buffer
      ensures Valid() && (buffer == old(buffer) || fresh(buffer))
      ensures ok ==> text == old(text) + Indent(format, depth)
      ensures !ok ==> old(offset) + |Indent(format, depth)| + 1 > limit
    {
      ok := true;
      if format {
        ok := Append(Tabs(depth), 0, false);
      }
      assert text + [] == text;
    }

    method PrintQuoted(key: seq<byte>) returns (ok: bool)
      requires Valid() && NUL !in key
      modifies this`buffer, this`length, this`offset, this`text, buffer
      ensures Valid() && (buffer == old(buffer) || fresh(buffer))
      ensures !ok ==> old(offset) + |Quoted(key)| + 2 > limit
      ensures ok ==> text == old(text) + Quoted(key)
    {
      ok := PrintStringPtr(key);
      if ok { UpdateOffset(text + Quoted(key)); }
    }

    method PrintKey(key: seq<byte>) returns (ok: bool)
      requires Valid() && NUL !in key
      modifies this`buffer, this`length, this`offset, this`text, buffer
      ensures Valid() && (buffer == old(buffer) || fresh(buffer))
      ensures ok ==> text == old(text) + RenderKey(key, format, depth)
      ensures !ok ==> old(offset) + |RenderKey(key, format, depth)| + 1 > limit
    {
      KeyText(old(text), key, format, depth);
      ok := PrintIndent();
      if !ok { return; }
      ok := PrintQuoted(key);
      if !ok { return; }
      ok := Append(KeySeparator(format), 0, false);
    }

    method PrintMembers(item: Node, ghost t: Shape, ghost items: seq<Json>, ghost members: seq<Member>)
      returns (ok: bool)
      requires Valid() && HoldsKids(t, item, items, members) && forall m <- members :: ShowableMember(m)
      modifies this, buffer
      ensures Valid() && (buffer == old(buffer) || fresh(buffer)) && (ok ==> depth == old(depth))
      ensures ok ==> text == old(text) + RenderMembers(members, format, depth)
      ensures !ok ==> old(offset) + |RenderMembers(members, format, old(depth))| + 2 > limit
      decreases t, 1
    {
      ghost var goal := text + RenderMembers(members, format, depth);
      assert members[0..] == members;
      ok := true;
      var member := item.child;
      ghost var i := 0;
      FirstKid(t);
      KidsCounted(t.kids);
      while member != null
        invariant i <= |members| == |t.kids| && member == KidAt(t, i)
        invariant Valid() && depth == old(depth) && HoldsKids(t, item, items, members)
        invariant buffer == old(buffer) || fresh(buffer)
        invariant text + RenderMembers(members[i..], format, depth) == goal
        decreases |members| - i
      {
        NextMember(text, members, i, format, depth, goal);
        ok, member := PrintMemberAt(item, member, t, items, members, i);
        if !ok { return; }
        i := i + 1;
      }
      assert text + [] == text;
    }

    method PrintObject(item: Node, ghost t: Shape, ghost items: seq<Json>, ghost members: seq<Member>)
      returns (ok: bool)
      requires Valid() && HoldsKids(t, item, items, members) && forall m <- members :: ShowableMember(m)
      modifies this, buffer
      ensures Valid() && (buffer == old(buffer) || fresh(buffer)) && (ok ==> depth == old(depth))
      ensures ok <==> old(offset) + |Render(Obj(members), format, old(depth))| + 2 <= limit
      ensures ok ==> Shows(old(text) + Render(Obj(members), format, old(depth)))
      decreases t, 3
    {
      ObjectText(text, members, format, depth);
      TabsAreTabs(depth);
      ok := PrintEnclosed(ObjectStart(format), item, ObjectEnd(format, depth), t, items, members);
    }

    method PrintEnclosed(start: seq<byte>, item: Node, end: seq<byte>, ghost t: Shape, ghost items: seq<Json>,
                         ghost members: seq<Member>)
      returns (ok: bool)
      requires Valid() && HoldsKids(t, item, items, members) && forall m <- members :: ShowableMember(m)
      requires NUL !in end && end != []
      modifies this, buffer
      ensures Valid() && (buffer == old(buffer) || fresh(buffer)) && (ok ==> depth == old(depth))
      ensures ok <==>
              old(offset) + |start| + |RenderMembers(members, format, old(depth) + 1)| + |end| + 2 <= limit
      ensures ok ==> Shows(old(text) + start + RenderMembers(members, format, old(depth) + 1) + end)
      decreases t, 2
    {
      ok := Open(start, 1, item, t, items, members);
      if !ok { return; }
      ok := PrintMembers(item, t, items, members);
      if !ok { return; }
      ok := Close(end);
    }
  }

  /** A buffer to print into; the tree to be printed stays as it is. */
  method Start(buffer: array<byte>, length: nat, noalloc: bool, format: bool, item: Node, ghost t: Shape,
               ghost value: Json) returns (p: PrintBuffer)
    requires Stands(t, item, value) && length <= buffer.Length && length <= INT_MAX && (noalloc || length > 0)
    ensures fresh(p) && p.Valid() && p.offset == 0 && p.depth == 0 && p.text == []
    ensures p.buffer == buffer && p.format == format && p.noalloc == noalloc
    ensures p.limit == (if noalloc then length else INT_MAX) && p.home == buffer && p.behind == buffer[length..]
    ensures Stands(t, item, value)
  {
    NodesExist(t.kids);
    RootsAndBelow(t.kids);
    p := new PrintBuffer(buffer, length, noalloc, format);
  }

  /** Prints into a new buffer of some size, which grows. */
  method PrintGrowing(item: Node, size: nat, format: bool, ghost t: Shape, ghost value: Json)
    returns (ok: bool, p: PrintBuffer)
    requires Stands(t, item, value) && Showable(value) && 0 < size <= INT_MAX
    ensures fresh(p) && fresh(p.buffer)
    ensures ok <==> |Render(value, format, 0)| + 2 <= INT_MAX
    ensures ok ==> p.Shows(Render(value, format, 0))
  {
    NodesExist(t.kids);
    RootsAndBelow(t.kids);
    var buffer := new byte[size];
    p := Start(buffer, size, false, format, item, t, value);
    ok := p.PrintValue(item, t, value);
    assert [] + Render(value, format, 0) == Render(value, format, 0);
  }

  /** cJSON_PrintPreallocated: succeeds exactly when the buffer has two bytes more than the text,
      and never writes at or behind length. */
  method PrintPreallocated(item: Node, buffer: array<byte>, length: int, format: bool, ghost t: Shape,
                           ghost value: Json) returns (ok: bool)
    requires Stands(t, item, value) && Showable(value) && length <= buffer.Length && length <= INT_MAX
    modifies buffer
    ensures ok <==> length >= |Render(value, format, 0)| + 2
    ensures ok ==> buffer[..|Render(value, format, 0)|] == Render(value, format, 0)
    ensures ok ==> buffer[|Render(value, format, 0)|] == NUL
    ensures forall i :: 0 <= i < buffer.Length && length <= i ==> buffer[i] == old(buffer[i])
  {
    if length < 0 { return false; }
    var p := Start(buffer, length, true, format, item, t, value);
    ok := p.PrintValue(item, t, value);
    assert [] + Render(value, format, 0) == Render(value, format, 0);
    assert forall i :: length <= i < buffer.Length ==> buffer[i] == p.behind[i - length];
  }

  /** cJSON_PrintBuffered, with memory that never runs out: the text starts in a buffer of the size
      asked for, and the buffer grows. */
  method PrintBuffered(item: Node, prebuffer: int, format: bool, ghost t: Shape, ghost value: Json)
    returns (r: array?<byte>)
    requires Stands(t, item, value) && Showable(value) && prebuffer != 0 && prebuffer <= INT_MAX
    ensures r != null <==> prebuffer > 0 && |Render(value, format, 0)| + 2 <= INT_MAX
    ensures r != null ==> fresh(r) && |Render(value, format, 0)| < r.Length
                          && r[..|Render(value, format, 0)|] == Render(value, format, 0)
                          && r[|Render(value, format, 0)|] == NUL
  {
    if prebuffer < 0 { return null; }
    var ok, p := PrintGrowing(item, prebuffer, format, t, value);
    return if ok then p.buffer else null;
  }

  /** cJSON_Print and cJSON_PrintUnformatted: an array that holds the text and its NUL, no more. */
  method Print(item: Node, format: bool, ghost t: Shape, ghost value: Json) returns (r: array?<byte>)
    requires Stands(t, item, value) && Showable(value)
    ensures r != null <==> |Render(value, format, 0)| + 2 <= INT_MAX
    ensures r != null ==> fresh(r) && r[..] == Render(value, format, 0) + [NUL]
  {
    var ok, p := PrintGrowing(item, DEFAULT_BUFFER_SIZE, format, t, value);
    if !ok { return null; }
    p.UpdateOffset(Render(value, format, 0));
    var printed := new byte[p.offset + 1];
    forall i | 0 <= i <= p.offset { printed[i] := p.buffer[i]; }
    return printed;
  }

  lemma EscapeOneMore(done: seq<byte>, input: seq<byte>, i: nat, goal: seq<byte>)
    requires i < |input| && done + Escape(input[i..]) == goal
    ensures (done + EscapedByte(input[i])) + Escape(input[i + 1..]) == goal
    ensures |done| + |EscapedByte(input[i])| + |Escape(input[i + 1..])| == |goal|
  {
    assert input[i..][1..] == input[i + 1..];
    assert Escape(input[i..]) == EscapedByte(input[i]) + Escape(input[i + 1..]);
  }

  /** What is left to print of an array, taken apart at its next item. */
  lemma NextItem(done: seq<byte>, items: seq<Json>, i: nat, format: bool, depth: nat, goal: seq<byte>)
    requires i < |items| && done + RenderItems(items[i..], format, depth) == goal
    ensures var item := RenderItem(items[i], i + 1 == |items|, format, depth);
            (done + item) + RenderItems(items[i + 1..], format, depth) == goal && |done| + |item| <= |goal|
  {
    assert items[i..][1..] == items[i + 1..];
  }

  lemma NextMember(done: seq<byte>, members: seq<Member>, i: nat, format: bool, depth: nat, goal: seq<byte>)
    requires i < |members| && done + RenderMembers(members[i..], format, depth) == goal
    ensures var member := RenderMember(members[i], i + 1 == |members|, format, depth);
            (done + member) + RenderMembers(members[i + 1..], format, depth) == goal && |done| + |member| <= |goal|
  {
    assert members[i..][1..] == members[i + 1..];
  }

  lemma ItemText(before: seq<byte>, t: Json, last: bool, format: bool, depth: nat)
    ensures before + RenderItem(t, last, format, depth) ==
            if last then before + Render(t, format, depth)
            else before + Render(t, format, depth) + ItemSeparator(format)
  {
  }

  lemma MemberText(before: seq<byte>, m: Member, last: bool, format: bool, depth: nat)
    ensures before + RenderMember(m, last, format, depth) ==
            before + RenderKey(m.key, format, depth) + Render(m.value, format, depth) + MemberEnd(format, last)
    ensures |RenderMember(m, last, format, depth)| ==
            |RenderKey(m.key, format, depth)| + |Render(m.value, format, depth)| + |MemberEnd(format, last)|
  {
  }

  lemma ArrayText(before: seq<byte>, items: seq<Json>, format: bool, depth: nat)
    ensures before + Render(Arr(items), format, depth) ==
            before + [LBRACKET] + RenderItems(items, format, depth + 1) + [RBRACKET]
    ensures |Render(Arr(items), format, depth)| == |RenderItems(items, format, depth + 1)| + 2
  {
  }

  lemma ObjectText(before: seq<byte>, members: seq<Member>, format: bool, depth: nat)
    ensures before + Render(Obj(members), format, depth) ==
            before + ObjectStart(format) + RenderMembers(members, format, depth + 1) + ObjectEnd(format, depth)
    ensures |Render(Obj(members), format, depth)| ==
            |ObjectStart(format)| + |RenderMembers(members, format, depth + 1)| + |ObjectEnd(format, depth)|
  {
  }

  lemma KeyText(before: seq<byte>, key: seq<byte>, format: bool, depth: nat)
    ensures before + RenderKey(key, format, depth) ==
            before + Indent(format, depth) + Quoted(key) + KeySeparator(format)
    ensures |RenderKey(key, format, depth)| == |Indent(format, depth)| + |Quoted(key)| + |KeySeparator(format)|
    ensures |KeySeparator(format)| >= 1
  {
  }

  lemma QuotedParts(before: seq<byte>, input: seq<byte>)
    ensures before + Quoted(input) == before + [QUOTE] + Escape(input) + [QUOTE]
  {
  }
}
