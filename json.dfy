/** A JSON-shaped text encoding for records of strings and string arrays,
    standing in for `encoding/json`. Only the layout this encoder writes is
    decoded (members in declaration order, no white space); escaping covers
    the quote and the backslash. */
module Json {
  import opened Common

  /** The body of a string literal: quote and backslash get a backslash in front. */
  function Escape(s: string): string
  {
    if s == [] then []
    else (if s[0] == '"' || s[0] == '\\' then ['\\', s[0]] else [s[0]]) + Escape(s[1..])
  }

  /** A string literal. */
  function Quote(s: string): string
  {
    "\"" + Escape(s) + "\""
  }

  /** Reads the rest of a string literal whose opening quote has been consumed:
      the decoded text and what follows the closing quote. */
  function ReadLiteralBody(s: string): (r: Option<(string, string)>)
    ensures r.Some? ==> |r.value.1| < |s|
    decreases |s|
  {
    if s == [] then None
    else if s[0] == '"' then Some(([], s[1..]))
    else if s[0] == '\\' then
      if |s| < 2 then None
      else
        var tail :- ReadLiteralBody(s[2..]);
        Some(([s[1]] + tail.0, tail.1))
    else
      var tail :- ReadLiteralBody(s[1..]);
      Some(([s[0]] + tail.0, tail.1))
  }

  /** Reads a string literal at the front of `s`. */
  function ReadString(s: string): (r: Option<(string, string)>)
    ensures r.Some? ==> |r.value.1| < |s|
  {
    if s != [] && s[0] == '"' then ReadLiteralBody(s[1..]) else None
  }

  /** A string array; the empty array is written `null`, as Go writes a nil slice. */
  function StringArray(xs: seq<string>): string
  {
    if xs == [] then "null" else "[" + Items(xs) + "]"
  }

  /** The comma-separated literals of a non-empty array. */
  function Items(xs: seq<string>): string
    requires xs != []
  {
    if |xs| == 1 then Quote(xs[0]) else Quote(xs[0]) + "," + Items(xs[1..])
  }

  /** Reads `null`, `[]` or a bracketed list of string literals at the front of `s`. */
  function ReadStringArray(s: string): Option<(seq<string>, string)>
  {
    if "null" <= s then Some(([], s[4..]))
    else if "[]" <= s then Some(([], s[2..]))
    else if "[" <= s then ReadItems(s[1..])
    else None
  }

  /** Reads literals separated by commas up to and including the closing bracket. */
  function ReadItems(s: string): Option<(seq<string>, string)>
    decreases |s|
  {
    var first :- ReadString(s);
    var rest := first.1;
    if "]" <= rest then Some(([first.0], rest[1..]))
    else if "," <= rest then
      var more :- ReadItems(rest[1..]);
      Some(([first.0] + more.0, more.1))
    else None
  }

  /** Consumes the literal text `lit` at the front of `s`. */
  function Expect(lit: string, s: string): (r: Option<string>)
    ensures r.Some? <==> lit <= s
    ensures r.Some? ==> s == lit + r.value
  {
    if lit <= s then Some(s[|lit|..]) else None
  }

  /** The text of the member `"key":"value"` followed by `rest`. */
  function StringMember(key: string, value: string, rest: string): string
  {
    "\"" + key + "\":" + Quote(value) + rest
  }

  /** The text of the member `"key":[...]` followed by `rest`. */
  function ArrayMember(key: string, values: seq<string>, rest: string): string
  {
    "\"" + key + "\":" + StringArray(values) + rest
  }

  function ReadStringMember(key: string, s: string): Option<(string, string)>
  {
    var r :- Expect("\"" + key + "\":", s);
    ReadString(r)
  }

  function ReadArrayMember(key: string, s: string): Option<(seq<string>, string)>
  {
    var r :- Expect("\"" + key + "\":", s);
    ReadStringArray(r)
  }

  // ---------------------------------------------------------------------
  // Round trips
  // ---------------------------------------------------------------------

  lemma {:induction false} ReadLiteralBodyEscape(x: string, rest: string)
    ensures ReadLiteralBody(Escape(x) + "\"" + rest) == Some((x, rest))
    decreases |x|
  {
    var s := Escape(x) + "\"" + rest;
    if x == [] {
      assert s == "\"" + rest;
    } else {
      ReadLiteralBodyEscape(x[1..], rest);
      var tail := Escape(x[1..]) + "\"" + rest;
      if x[0] == '"' || x[0] == '\\' {
        assert s == ['\\', x[0]] + tail;
        assert s[2..] == tail;
      } else {
        assert s == [x[0]] + tail;
        assert s[1..] == tail;
      }
      assert [x[0]] + x[1..] == x;
    }
  }

  /** A string literal reads back as the string it encodes, whatever follows. */
  lemma ReadStringQuote(x: string, rest: string)
    ensures ReadString(Quote(x) + rest) == Some((x, rest))
  {
    var s := Quote(x) + rest;
    assert s == "\"" + (Escape(x) + "\"" + rest);
    ReadLiteralBodyEscape(x, rest);
  }

  lemma {:induction false} ReadItemsRoundTrip(xs: seq<string>, rest: string)
    requires xs != []
    ensures ReadItems(Items(xs) + "]" + rest) == Some((xs, rest))
    decreases |xs|
  {
    var s := Items(xs) + "]" + rest;
    if |xs| == 1 {
      assert s == Quote(xs[0]) + ("]" + rest);
      ReadStringQuote(xs[0], "]" + rest);
      assert "]" <= "]" + rest && ("]" + rest)[1..] == rest;
      assert xs == [xs[0]];
    } else {
      var tail := Items(xs[1..]) + "]" + rest;
      assert s == Quote(xs[0]) + ("," + tail);
      ReadStringQuote(xs[0], "," + tail);
      ReadItemsRoundTrip(xs[1..], rest);
      assert ("," + tail)[0] == ',' && ("," + tail)[1..] == tail;
      assert !("]" <= "," + tail) && "," <= "," + tail;
      assert [xs[0]] + xs[1..] == xs;
    }
  }

  /** A string array reads back as the sequence it encodes, whatever follows. */
  lemma ReadStringArrayRoundTrip(xs: seq<string>, rest: string)
    ensures ReadStringArray(StringArray(xs) + rest) == Some((xs, rest))
  {
    var s := StringArray(xs) + rest;
    if xs != [] {
      var body := Items(xs) + "]" + rest;
      assert s == "[" + body;
      assert body[0] == '"' by {
        assert Items(xs)[0] == Quote(xs[0])[0] == '"';
      }
      assert s[0] == '[' && s[1] == '"';
      assert !("null" <= s) && !("[]" <= s) && "[" <= s;
      assert s[1..] == body;
      ReadItemsRoundTrip(xs, rest);
    } else {
      assert s == "null" + rest;
      assert s[4..] == rest;
    }
  }

  /** Consuming a literal that is there leaves exactly what follows it. */
  lemma ExpectPrefix(lit: string, rest: string)
    ensures Expect(lit, lit + rest) == Some(rest)
  {
    assert (lit + rest)[|lit|..] == rest;
  }

  lemma ReadStringMemberRoundTrip(key: string, value: string, rest: string)
    ensures ReadStringMember(key, StringMember(key, value, rest)) == Some((value, rest))
  {
    var lit := "\"" + key + "\":";
    assert StringMember(key, value, rest) == lit + (Quote(value) + rest);
    ReadStringQuote(value, rest);
  }

  lemma ReadArrayMemberRoundTrip(key: string, values: seq<string>, rest: string)
    ensures ReadArrayMember(key, ArrayMember(key, values, rest)) == Some((values, rest))
  {
    var lit := "\"" + key + "\":";
    assert ArrayMember(key, values, rest) == lit + (StringArray(values) + rest);
    ReadStringArrayRoundTrip(values, rest);
  }
}
