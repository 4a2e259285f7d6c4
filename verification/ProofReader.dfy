/**
 The reader of tools/src/json.ts as it is written: one cursor into the text,
 shared by the readers of strings, numbers and values, and moved by all of them.
 */
module ProofReader {
  import opened ByteStrings
  import opened Texts
  import opened Json

  class Reader {
    const text: Text
    var at: nat

    constructor (text: Text)
      ensures this.text == text && at == 0
    {
      this.text := text;
      at := 0;
    }

    /** The text from the cursor on. */
    function Rest(): Text
      reads this
      requires at <= |text|
    {
      text[at..]
    }

    method Space()
      requires at <= |text|
      modifies this`at
      ensures old(at) <= at <= |text| && Rest() == SkipSpace(old(Rest()))
    {
      while at < |text| && IsSpace(text[at])
        invariant old(at) <= at <= |text|
        invariant SkipSpace(text[at..]) == SkipSpace(old(text[at..]))
      {
        assert text[at..][1..] == text[at + 1..];
        at := at + 1;
      }
    }

    /** Whether the cursor stands on `u`. */
    predicate Sees(u: CodeUnit)
      reads this
      requires at <= |text|
      ensures Sees(u) <==> StartsWith(Rest(), u)
    {
      at < |text| && text[at] == u
    }

    /** The loop to the closing quote; the cursor may run past the end. */
    method String() returns (s: Option<Text>)
      requires at <= |text| && StartsWith(Rest(), QUOTE)
      modifies this`at
      ensures s.Some? <==> old(ParseString(Rest())).Some?
      ensures s.Some? ==> old(at) < at <= |text| && old(ParseString(Rest())) == Some((s.value, Rest()))
    {
      var start := at;
      ghost var rest := text[start..];
      at := at + 1;
      while at < |text| && text[at] != QUOTE
        invariant at > start && ClosingQuote(rest, at - start) == ClosingQuote(rest, 1)
        decreases |text| - at
      {
        assert rest[at - start] == text[at];
        if text[at] == BACKSLASH {
          at := at + 1;
        }
        at := at + 1;
      }
      assert at < |text| ==> rest[at - start] == text[at];
      if at >= |text| {
        return None;
      }
      assert rest[1..at - start] == text[start + 1..at];
      assert rest[at - start + 1..] == text[at + 1..];
      s := Unescaped(text[start + 1..at]);
      at := at + 1;
    }

    method Number() returns (n: Option<int>)
      requires at <= |text|
      modifies this`at
      ensures n.Some? <==> old(ParseNumber(Rest())).Some?
      ensures n.Some? ==> old(at) < at <= |text| && old(ParseNumber(Rest())) == Some((n.value, Rest()))
    {
      var rest := text[at..];
      var sign := if StartsWith(rest, MINUS) then 1 else 0;
      var length := Unsigned(rest[sign..]);
      if length == 0 {
        return None;
      }
      assert rest[sign + length..] == text[at + sign + length..];
      if MoreNumber(rest[sign + length..]) {
        return None;
      }
      var big: int := ReadDigits(rest[sign..][..length]);
      if sign == 1 {
        big := -big;
      }
      if big > MAX_SAFE || big < -MAX_SAFE {
        return None;
      }
      at := at + sign + length;
      return Some(big);
    }

    method Value(depth: nat) returns (value: Option<Json>)
      requires at <= |text|
      modifies this`at
      ensures value.Some? <==> old(ParseValue(Rest(), depth)).Some?
      ensures value.Some? ==> old(at) < at <= |text| && old(ParseValue(Rest(), depth)) == Some((value.value, Rest()))
      decreases |text| - at, 1
    {
      if depth > MAX_DEPTH {
        return None;
      }
      ghost var before := Rest();
      Space();
      ghost var u := Rest();
      if Sees(OPEN_BRACE) {
        at := at + 1;
        assert u[1..] == Rest();
        Space();
        if Sees(CLOSE_BRACE) {
          at := at + 1;
          assert SkipSpace(u[1..])[1..] == Rest();
          return Some(Obj(map[]));
        }
        value := Members(depth);
      } else if Sees(OPEN_BRACKET) {
        at := at + 1;
        assert u[1..] == Rest();
        Space();
        if Sees(CLOSE_BRACKET) {
          at := at + 1;
          assert SkipSpace(u[1..])[1..] == Rest();
          return Some(Arr([]));
        }
        value := Items(depth);
      } else if Sees(QUOTE) {
        var s := String();
        value := if s.None? then None else Some(Str(s.value));
      } else if Sees(MINUS) || (at < |text| && IsDigit(text[at])) {
        var n := Number();
        value := if n.None? then None else Some(Json.Number(n.value));
      } else {
        value := Word();
      }
    }

    method Word() returns (value: Option<Json>)
      requires at <= |text|
      modifies this`at
      ensures var u := old(Rest());
              if BeginsWord(u, TRUE_WORD) then value == Some(Bool(true)) && at == old(at) + 4
              else if BeginsWord(u, FALSE_WORD) then value == Some(Bool(false)) && at == old(at) + 5
              else if BeginsWord(u, NULL_WORD) then value == Some(Null) && at == old(at) + 4
              else value.None?
      ensures value.Some? ==> at <= |text| && Rest() == old(Rest())[at - old(at)..]
    {
      var u := text[at..];
      if BeginsWord(u, TRUE_WORD) {
        at := at + 4;
        return Some(Bool(true));
      }
      if BeginsWord(u, FALSE_WORD) {
        at := at + 5;
        return Some(Bool(false));
      }
      if BeginsWord(u, NULL_WORD) {
        at := at + 4;
        return Some(Null);
      }
      return None;
    }

    /** The loop over an object's members. */
    method Members(depth: nat) returns (value: Option<Json>)
      requires at <= |text|
      modifies this`at
      ensures value.Some? <==> old(ParseMembers(Rest(), depth, map[])).Some?
      ensures value.Some? ==> old(at) < at <= |text| && old(ParseMembers(Rest(), depth, map[])) == Some((value.value, Rest()))
      decreases |text| - at, 0
    {
      hide ParseString, ParseValue, SkipSpace;
      var out: map<Text, Json> := map[];
      ghost var whole := ParseMembers(Rest(), depth, map[]);
      while true
        invariant old(at) <= at <= |text|
        invariant ParseMembers(text[at..], depth, out) == whole
        decreases |text| - at
      {
        Space();
        if !Sees(QUOTE) {
          return None;
        }
        var key := String();
        if key.None? {
          return None;
        }
        if key.value in out {
          return None;
        }
        Space();
        if !Sees(COLON) {
          return None;
        }
        ghost var c := Rest();
        at := at + 1;
        assert c[1..] == Rest();
        var member := Value(depth + 1);
        if member.None? {
          return None;
        }
        out := out[key.value := member.value];
        Space();
        ghost var d := Rest();
        if Sees(COMMA) {
          at := at + 1;
          assert d[1..] == Rest();
          continue;
        }
        if Sees(CLOSE_BRACE) {
          at := at + 1;
          assert d[1..] == Rest();
          return Some(Obj(out));
        }
        return None;
      }
    }

    /** The loop over an array's items. */
    method Items(depth: nat) returns (value: Option<Json>)
      requires at <= |text|
      modifies this`at
      ensures value.Some? <==> old(ParseItems(Rest(), depth, [])).Some?
      ensures value.Some? ==> old(at) < at <= |text| && old(ParseItems(Rest(), depth, [])) == Some((value.value, Rest()))
      decreases |text| - at, 2
    {
      hide ParseValue, SkipSpace;
      var out: seq<Json> := [];
      ghost var whole := ParseItems(Rest(), depth, []);
      while true
        invariant old(at) <= at <= |text|
        invariant ParseItems(text[at..], depth, out) == whole
        decreases |text| - at
      {
        var item := Value(depth + 1);
        if item.None? {
          return None;
        }
        out := out + [item.value];
        Space();
        ghost var d := Rest();
        if Sees(COMMA) {
          at := at + 1;
          assert d[1..] == Rest();
          continue;
        }
        if Sees(CLOSE_BRACKET) {
          at := at + 1;
          assert d[1..] == Rest();
          return Some(Arr(out));
        }
        return None;
      }
    }
  }

  /** The whole reader, from bytes to a value. */
  method ParseProofJson(bytes: Buffer) returns (value: Option<Json>)
    ensures value == ParseProof(bytes)
  {
    if |bytes| >= 3 && bytes[0] == 0xef && bytes[1] == 0xbb && bytes[2] == 0xbf {
      assert bytes[..3] == BYTE_ORDER_MARK;
      return None;
    }
    var text := Decode(bytes);
    if text.None? {
      return None;
    }
    var reader := new Reader(text.value);
    assert reader.Rest() == text.value;
    value := reader.Value(0);
    if value.None? {
      return None;
    }
    reader.Space();
    if reader.at != |reader.text| {
      return None;
    }
  }
}
