/** Removing whitespace and comments from a JSON text in place. */
module JsonMinify {
  import opened Bytes
  import opened Utf
  import opened JsonString

  const SLASH: byte := '/' as int
  const STAR: byte := '*' as int

  predicate IsBlank(c: byte) { c == SP || c == HT || c == CR || c == LF }

  // ---------------------------------------------------------------- what is kept

  /** What follows a line comment. */
  function AfterLine(s: seq<byte>): (r: seq<byte>)
    ensures |r| <= |s|
  {
    if s == [] then [] else if s[0] == LF then s[1..] else AfterLine(s[1..])
  }

  /** What follows a block comment. */
  function AfterBlock(s: seq<byte>): (r: seq<byte>)
    ensures |r| <= |s|
  {
    if s == [] then []
    else if s[0] == STAR && |s| > 1 && s[1] == SLASH then s[2..]
    else AfterBlock(s[1..])
  }

  /** What is left of a text, its NUL not included. */
  function Minify(s: seq<byte>): (r: seq<byte>)
    ensures |r| <= |s|
    decreases |s|
  {
    if s == [] then []
    else if IsBlank(s[0]) then Minify(s[1..])
    else if s[0] == SLASH then
      if |s| > 1 && s[1] == SLASH then Minify(AfterLine(s[2..]))
      else if |s| > 1 && s[1] == STAR then Minify(AfterBlock(s[2..]))
      else Minify(s[1..])
    else if s[0] == QUOTE then [QUOTE] + MinifyString(s[1..])
    else [s[0]] + Minify(s[1..])
  }

  /** The same from inside a string literal on: of all escapes only the escaped quote is known. */
  function MinifyString(s: seq<byte>): (r: seq<byte>)
    ensures |r| <= |s|
    decreases |s|
  {
    if s == [] then []
    else if s[0] == QUOTE then [QUOTE] + Minify(s[1..])
    else if s[0] == BACKSLASH && |s| > 1 && s[1] == QUOTE then [BACKSLASH, QUOTE] + MinifyString(s[2..])
    else [s[0]] + MinifyString(s[1..])
  }

  // ---------------------------------------------------------------- in place

  /** json holds a C string of |s| bytes, of which those from i on are still those of s. */
  ghost predicate Unread(json: array<byte>, s: seq<byte>, i: nat)
    reads json
  {
    i <= |s| < json.Length && NUL !in s && json[|s|] == NUL && forall k :: i <= k < |s| ==> json[k] == s[k]
  }

  method SkipOnelineComment(json: array<byte>, start: nat, ghost s: seq<byte>) returns (i: nat)
    requires start + 2 <= |s| && Unread(json, s, start)
    ensures start < i <= |s| && s[i..] == AfterLine(s[start + 2..])
  {
    i := start + 2;
    while json[i] != NUL
      invariant start + 2 <= i <= |s| && (json[i] == NUL <==> s[i..] == [])
      invariant AfterLine(s[i..]) == AfterLine(s[start + 2..])
      decreases |s| - i
    {
      i := i + 1;
      if json[i - 1] == LF { return; }
    }
  }

  method SkipMultilineComment(json: array<byte>, start: nat, ghost s: seq<byte>) returns (i: nat)
    requires start + 2 <= |s| && Unread(json, s, start)
    ensures start < i <= |s| && s[i..] == AfterBlock(s[start + 2..])
  {
    i := start + 2;
    while json[i] != NUL
      invariant start + 2 <= i <= |s| && (json[i] == NUL <==> s[i..] == [])
      invariant AfterBlock(s[i..]) == AfterBlock(s[start + 2..])
      decreases |s| - i
    {
      if json[i] == STAR && json[i + 1] == SLASH {
        i := i + 2;
        return;
      }
      i := i + 1;
    }
  }

  /** Writes the next byte of the shorter text. */
  method Keep(json: array<byte>, o: nat, c: byte)
    requires o < json.Length
    modifies json
    ensures json[..o + 1] == old(json[..o]) + [c]
    ensures forall k :: o < k < json.Length ==> json[k] == old(json[k])
  {
    json[o] := c;
  }

  lemma Glue(a: seq<byte>, b: seq<byte>, c: seq<byte>, whole: seq<byte>)
    requires a + (b + c) == whole
    ensures (a + b) + c == whole
  {
  }

  /** The text ends where the buffer has its NUL. */
  lemma AtByte(json: array<byte>, s: seq<byte>, i: nat)
    requires Unread(json, s, i)
    ensures json[i] == NUL <==> i == |s|
    ensures i == |s| ==> s[i..] == []
  {
    if i < |s| { assert s[i] in s; }
  }

  /** Inside a literal: the next byte or escaped quote is kept as it is. */
  lemma LiteralStep(s: seq<byte>, i: nat, kept: seq<byte>, whole: seq<byte>)
    requires i < |s| && kept + MinifyString(s[i..]) == whole
    ensures if s[i] == QUOTE then (kept + [QUOTE]) + Minify(s[i + 1..]) == whole
            else if s[i] == BACKSLASH && i + 1 < |s| && s[i + 1] == QUOTE then
              ((kept + [BACKSLASH]) + [QUOTE]) + MinifyString(s[i + 2..]) == whole
            else (kept + [s[i]]) + MinifyString(s[i + 1..]) == whole
  {
    if s[i] == BACKSLASH && i + 1 < |s| && s[i + 1] == QUOTE {
      EscapedQuoteStep(s, i, kept, whole);
    } else {
      assert s[i..][1..] == s[i + 1..];
      Glue(kept, [s[i]], if s[i] == QUOTE then Minify(s[i + 1..]) else MinifyString(s[i + 1..]), whole);
    }
  }

  lemma EscapedQuoteStep(s: seq<byte>, i: nat, kept: seq<byte>, whole: seq<byte>)
    requires i + 1 < |s| && s[i] == BACKSLASH && s[i + 1] == QUOTE && kept + MinifyString(s[i..]) == whole
    ensures ((kept + [BACKSLASH]) + [QUOTE]) + MinifyString(s[i + 2..]) == whole
  {
    assert s[i..][2..] == s[i + 2..];
    Glue(kept, [BACKSLASH, QUOTE], MinifyString(s[i + 2..]), whole);
    assert kept + [BACKSLASH, QUOTE] == (kept + [BACKSLASH]) + [QUOTE];
  }

  /** Copies one byte of a literal, or an escaped quote. */
  method KeepLiteralByte(json: array<byte>, start: nat, into: nat, ghost s: seq<byte>, ghost whole: seq<byte>)
    returns (i: nat, o: nat, closed: bool)
    requires into <= start < |s| && Unread(json, s, start)
    requires json[..into] + MinifyString(s[start..]) == whole
    modifies json
    ensures into < o <= i && start < i && Unread(json, s, i)
    ensures json[..o] + (if closed then Minify(s[i..]) else MinifyString(s[i..])) == whole
    ensures forall k :: o <= k < json.Length ==> json[k] == old(json[k])
  {
    LiteralStep(s, start, json[..into], whole);
    var c, next := json[start], json[start + 1];
    assert c == s[start] && (start + 1 < |s| ==> next == s[start + 1]);
    Keep(json, into, c);
    i, o, closed := start + 1, into + 1, c == QUOTE;
    if c == BACKSLASH && next == QUOTE {
      Keep(json, o, next);
      i, o := i + 1, o + 1;
    }
  }

  /** Copies a literal, quotes and all, from start to into. */
  method MinifyLiteral(json: array<byte>, start: nat, into: nat, ghost s: seq<byte>, ghost whole: seq<byte>)
    returns (i: nat, o: nat)
    requires into <= start < |s| && Unread(json, s, start) && json[start] == QUOTE
    requires json[..into] + Minify(s[start..]) == whole
    modifies json
    ensures start < i <= |s| && into < o <= i
    ensures json[..o] + Minify(s[i..]) == whole
    ensures forall k :: o <= k < json.Length ==> json[k] == old(json[k])
  {
    Glue(json[..into], [QUOTE], MinifyString(s[start + 1..]), whole);
    Keep(json, into, json[start]);
    i, o := start + 1, into + 1;
    var closed := false;
    while !closed && json[i] != NUL
      invariant start < i && into < o <= i && Unread(json, s, i)
      invariant json[..o] + (if closed then Minify(s[i..]) else MinifyString(s[i..])) == whole
      invariant forall k :: o <= k < json.Length ==> json[k] == old(json[k])
      decreases |s| - i
    {
      AtByte(json, s, i);
      i, o, closed := KeepLiteralByte(json, i, o, s, whole);
    }
    AtByte(json, s, i);
  }

  /** Outside literals: blanks and slashes go, comments go with what is in them, the rest is kept. */
  lemma TextStep(s: seq<byte>, i: nat, kept: seq<byte>, whole: seq<byte>)
    requires i < |s| && kept + Minify(s[i..]) == whole
    ensures if IsBlank(s[i]) then kept + Minify(s[i + 1..]) == whole
            else if s[i] == SLASH then
              if i + 1 < |s| && s[i + 1] == SLASH then kept + Minify(AfterLine(s[i + 2..])) == whole
              else if i + 1 < |s| && s[i + 1] == STAR then kept + Minify(AfterBlock(s[i + 2..])) == whole
              else kept + Minify(s[i + 1..]) == whole
            else s[i] != QUOTE ==> (kept + [s[i]]) + Minify(s[i + 1..]) == whole
  {
    assert s[i..][1..] == s[i + 1..];
    if i + 1 < |s| { assert s[i..][2..] == s[i + 2..]; }
    if s[i] != QUOTE && s[i] != SLASH && !IsBlank(s[i]) { Glue(kept, [s[i]], Minify(s[i + 1..]), whole); }
  }

  method SkipSlash(json: array<byte>, start: nat, ghost s: seq<byte>) returns (i: nat)
    requires start < |s| && Unread(json, s, start) && s[start] == SLASH
    ensures start < i <= |s| && Minify(s[i..]) == Minify(s[start..])
  {
    if json[start + 1] == SLASH {
      i := SkipOnelineComment(json, start, s);
    } else if json[start + 1] == STAR {
      i := SkipMultilineComment(json, start, s);
    } else {
      i := start + 1;
    }
  }

  /** cJSON_Minify: the buffer holds the shorter text and its NUL; nothing behind that is touched. */
  method MinifyInPlace(json: array<byte>, ghost s: seq<byte>)
    requires Unread(json, s, 0)
    modifies json
    ensures var r := Minify(s);
            json[..|r|] == r && json[|r|] == NUL
            && forall k :: |r| < k < json.Length ==> json[k] == old(json[k])
  {
    ghost var whole := Minify(s);
    var i, into := 0, 0;
    assert s[0..] == s && json[..0] + whole == whole;
    while json[i] != NUL
      invariant into <= i <= |s| && Unread(json, s, i)
      invariant json[..into] + Minify(s[i..]) == whole
      invariant forall k :: into <= k < json.Length ==> json[k] == old(json[k])
      decreases |s| - i
    {
      TextStep(s, i, json[..into], whole);
      var c := json[i];
      if IsBlank(c) {
        i := i + 1;
      } else if c == SLASH {
        i := SkipSlash(json, i, s);
      } else if c == QUOTE {
        i, into := MinifyLiteral(json, i, into, s, whole);
      } else {
        Keep(json, into, c);
        i, into := i + 1, into + 1;
      }
    }
    assert json[..into] + [] == json[..into];
    json[into] := NUL;
  }
}
