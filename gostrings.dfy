/** The parts of Go's `strings`, `unicode` and `fmt` packages that the core
    relies on, over strings as sequences of Unicode code points (a Go string
    is a byte sequence, decoded here as UTF-8). Each function follows the Go
    library's documented semantics for a non-empty separator. */
module GoStrings {

  /** `unicode.IsSpace`: the Latin-1 space characters and the characters of
      Unicode's White_Space property. */
  predicate IsSpace(c: char) {
    || c == '\t' || c == '\n' || c == '\U{0B}' || c == '\U{0C}' || c == '\r' || c == ' '
    || c == '\U{85}' || c == '\U{A0}' || c == '\U{1680}' || ('\U{2000}' <= c <= '\U{200A}')
    || c == '\U{2028}' || c == '\U{2029}' || c == '\U{202F}' || c == '\U{205F}' || c == '\U{3000}'
  }

  /** No character of `s` is a space. */
  predicate NoSpace(s: string) {
    forall i :: 0 <= i < |s| ==> !IsSpace(s[i])
  }

  /** `strings.Contains`: `sub` occurs somewhere in `s` (the empty string occurs everywhere). */
  predicate Contains(s: string, sub: string)
    decreases |s|
  {
    if |s| < |sub| then false else sub <= s || Contains(s[1..], sub)
  }

  /** `strings.Count` for a non-empty separator: the number of
      non-overlapping occurrences of `sep`, found from left to right. */
  function Count(s: string, sep: string): nat
    requires sep != []
    decreases |s|
  {
    if |s| < |sep| then 0
    else if sep <= s then 1 + Count(s[|sep|..], sep)
    else Count(s[1..], sep)
  }

  /** `strings.Split` for a non-empty separator: the pieces of `s` around
      each leftmost non-overlapping occurrence of `sep`. */
  function Split(s: string, sep: string): (parts: seq<string>)
    requires sep != []
    ensures |parts| >= 1
    ensures parts[0] <= s
    ensures |parts| > 1 <==> Contains(s, sep)
    decreases |s|
  {
    if |s| < |sep| then [s]
    else if sep <= s then [[]] + Split(s[|sep|..], sep)
    else
      var rest := Split(s[1..], sep);
      [[s[0]] + rest[0]] + rest[1..]
  }

  /** `strings.Join`. */
  function Join(parts: seq<string>, sep: string): string
  {
    if parts == [] then []
    else if |parts| == 1 then parts[0]
    else parts[0] + sep + Join(parts[1..], sep)
  }

  /** The concatenation of all the strings of `parts`, in order. */
  function Concat(parts: seq<string>): string
  {
    if parts == [] then [] else parts[0] + Concat(parts[1..])
  }

  /** `strings.TrimLeftFunc(s, unicode.IsSpace)`. */
  function TrimLeft(s: string): (r: string)
    ensures |r| <= |s| && r == s[|s| - |r|..]
    ensures r == [] || !IsSpace(r[0])
    ensures forall i :: 0 <= i < |s| - |r| ==> IsSpace(s[i])
  {
    if s != [] && IsSpace(s[0]) then TrimLeft(s[1..]) else s
  }

  /** `strings.TrimRightFunc(s, unicode.IsSpace)`. */
  function TrimRight(s: string): (r: string)
    ensures |r| <= |s| && r == s[..|r|]
    ensures r == [] || !IsSpace(r[|r| - 1])
    ensures forall i :: |r| <= i < |s| ==> IsSpace(s[i])
  {
    if s != [] && IsSpace(s[|s| - 1]) then TrimRight(s[..|s| - 1]) else s
  }

  /** `strings.TrimSpace`: `s` without its leading and trailing spaces. */
  function TrimSpace(s: string): (r: string)
    ensures r == [] || (!IsSpace(r[0]) && !IsSpace(r[|r| - 1]))
  {
    TrimRight(TrimLeft(s))
  }

  /** The longest prefix of `s` that holds no space. */
  function Word(s: string): (w: string)
    ensures w <= s && NoSpace(w)
    ensures |w| < |s| ==> IsSpace(s[|w|])
  {
    if s == [] || IsSpace(s[0]) then [] else [s[0]] + Word(s[1..])
  }

  /** `strings.Fields`: the maximal runs of non-space characters of `s`. */
  function Fields(s: string): (words: seq<string>)
    ensures forall i :: 0 <= i < |words| ==> words[i] != [] && NoSpace(words[i])
    decreases |s|
  {
    if s == [] then []
    else if IsSpace(s[0]) then Fields(s[1..])
    else
      var w := Word(s);
      [w] + Fields(s[|w|..])
  }

  /** The decimal digit `d` as a character. */
  function Digit(d: nat): char
    requires d < 10
  {
    ('0' as int + d) as char
  }

  predicate IsDigit(c: char) {
    '0' <= c <= '9'
  }

  /** `fmt.Sprintf("%d", n)` for a natural number. */
  function Itoa(n: nat): (r: string)
    ensures r != [] && forall i :: 0 <= i < |r| ==> IsDigit(r[i])
  {
    if n < 10 then [Digit(n)] else Itoa(n / 10) + [Digit(n % 10)]
  }

  /** The value of a string of decimal digits: the inverse of `Itoa`. */
  function ParseDecimal(s: string): nat
    requires forall i :: 0 <= i < |s| ==> IsDigit(s[i])
  {
    if s == [] then 0 else ParseDecimal(s[..|s| - 1]) * 10 + DigitValue(s[|s| - 1])
  }

  /** The value of one decimal digit: the inverse of `Digit`. */
  function DigitValue(c: char): (d: nat)
    requires IsDigit(c)
    ensures d < 10
  {
    c as int - '0' as int
  }

  // ---------------------------------------------------------------------
  // Facts about Contains
  // ---------------------------------------------------------------------

  /** An occurrence of `sub` needs the first character of `sub`. */
  lemma {:induction false} ContainsNeedsFirstChar(s: string, sub: string)
    requires sub != [] && sub[0] !in s
    ensures !Contains(s, sub)
    decreases |s|
  {
    if |s| >= |sub| {
      assert s[0] != sub[0];
      ContainsNeedsFirstChar(s[1..], sub);
    }
  }

  /** For a one-character needle, `Contains` is membership. */
  lemma {:induction false} ContainsChar(s: string, c: char)
    ensures Contains(s, [c]) <==> c in s
    decreases |s|
  {
    if s != [] {
      ContainsChar(s[1..], c);
      assert s == [s[0]] + s[1..];
    }
  }

  // ---------------------------------------------------------------------
  // Facts about Split
  // ---------------------------------------------------------------------

  /** A string without the separator is split into itself alone. */
  lemma SplitWithoutSeparator(s: string, sep: string)
    requires sep != [] && !Contains(s, sep)
    ensures Split(s, sep) == [s]
  {
    var parts := Split(s, sep);
    SplitJoin(s, sep);
  }

  /** Joining the pieces with the separator gives back the input. */
  lemma {:induction false} SplitJoin(s: string, sep: string)
    requires sep != []
    ensures Join(Split(s, sep), sep) == s
    decreases |s|
  {
    if |s| < |sep| {
    } else if sep <= s {
      SplitJoin(s[|sep|..], sep);
      assert s == sep + s[|sep|..];
    } else {
      var rest := Split(s[1..], sep);
      SplitJoin(s[1..], sep);
      JoinConsHead(s[0], rest, sep);
      assert s == [s[0]] + s[1..];
    }
  }

  /** Joining after adding one character to the front of the first piece. */
  lemma JoinConsHead(c: char, parts: seq<string>, sep: string)
    requires parts != []
    ensures Join([[c] + parts[0]] + parts[1..], sep) == [c] + Join(parts, sep)
  {
    var q := [[c] + parts[0]] + parts[1..];
    assert q[1..] == parts[1..];
    if |parts| > 1 {
      assert Join(q, sep) == ([c] + parts[0]) + sep + Join(parts[1..], sep);
    }
  }

  /** No piece contains the separator. */
  lemma {:induction false} SplitPiecesFree(s: string, sep: string)
    requires sep != []
    ensures forall i :: 0 <= i < |Split(s, sep)| ==> !Contains(Split(s, sep)[i], sep)
    decreases |s|
  {
    if |s| < |sep| {
    } else if sep <= s {
      SplitPiecesFree(s[|sep|..], sep);
    } else {
      SplitPiecesFree(s[1..], sep);
      var rest := Split(s[1..], sep);
      var head := [s[0]] + rest[0];
      assert head <= s;
      assert head[1..] == rest[0];
      assert Split(s, sep) == [head] + rest[1..];
    }
  }

  /** The number of pieces is one more than the number of occurrences. */
  lemma {:induction false} SplitCount(s: string, sep: string)
    requires sep != []
    ensures |Split(s, sep)| == Count(s, sep) + 1
    decreases |s|
  {
    if |s| < |sep| {
    } else if sep <= s {
      SplitCount(s[|sep|..], sep);
    } else {
      SplitCount(s[1..], sep);
    }
  }

  /** A prefix free of the separator's first character stays in the first piece. */
  lemma {:induction false} SplitHeadExtends(w: string, t: string, sep: string)
    requires sep != [] && sep[0] !in w
    ensures Split(w + t, sep)[0] == w + Split(t, sep)[0]
    decreases |w|
  {
    if w == [] {
      assert w + t == t;
    } else {
      var s := w + t;
      SplitHeadExtends(w[1..], t, sep);
      assert s[1..] == w[1..] + t;
      assert s[0] == w[0];
      if |s| < |sep| {
        assert Split(w[1..] + t, sep) == [w[1..] + t];
        assert Split(t, sep) == [t];
      } else {
        assert s[0] != sep[0];
        assert !(sep <= s);
        var rest := Split(s[1..], sep);
        assert Split(s, sep)[0] == [s[0]] + rest[0];
      }
      assert w == [w[0]] + w[1..];
    }
  }

  /** The first occurrence of the separator is where a separator-free prefix ends. */
  lemma {:induction false} SplitFirst(a: string, sep: string, b: string)
    requires sep != [] && sep[0] !in a
    ensures Split(a + sep + b, sep) == [a] + Split(b, sep)
    decreases |a|
  {
    var s := a + sep + b;
    if a == [] {
      assert s == sep + b;
      assert s[|sep|..] == b;
    } else {
      SplitFirst(a[1..], sep, b);
      assert s[0] == a[0] != sep[0];
      assert s[1..] == a[1..] + sep + b;
      assert [a[0]] + a[1..] == a;
    }
  }

  /** A text with exactly one separator splits into the text before and after it. */
  lemma SplitTwo(a: string, sep: string, b: string)
    requires sep != [] && sep[0] !in a && !Contains(b, sep)
    ensures Split(a + sep + b, sep) == [a, b]
  {
    SplitFirst(a, sep, b);
    SplitWithoutSeparator(b, sep);
  }

  /** The last piece of a one-character split is the text after the last
      occurrence of the character: it holds no such character, ends the
      input, and is either the whole input or preceded by the character. */
  lemma LastPiece(s: string, c: char)
    ensures var last := Split(s, [c])[|Split(s, [c])| - 1];
      && c !in last
      && |last| <= |s| && last == s[|s| - |last|..]
      && (|last| < |s| ==> s[|s| - |last| - 1] == c)
  {
    var parts := Split(s, [c]);
    var n := |parts|;
    SplitPiecesFree(s, [c]);
    ContainsChar(parts[n - 1], c);
    SplitJoin(s, [c]);
    if n > 1 {
      JoinSnoc(parts[..n - 1], [c], parts[n - 1]);
      assert parts[..n - 1] + [parts[n - 1]] == parts;
    }
  }

  // ---------------------------------------------------------------------
  // Facts about Join and Concat
  // ---------------------------------------------------------------------

  /** Joining a sequence with one more piece at the end. */
  lemma {:induction false} JoinSnoc(parts: seq<string>, sep: string, x: string)
    requires parts != []
    ensures Join(parts + [x], sep) == Join(parts, sep) + sep + x
    decreases |parts|
  {
    if |parts| > 1 {
      JoinSnoc(parts[1..], sep, x);
      assert (parts + [x])[1..] == parts[1..] + [x];
    } else {
      assert (parts + [x])[1..] == [x];
    }
  }

  /** The first piece opens the joined text. */
  lemma JoinHead(parts: seq<string>, sep: string)
    requires parts != []
    ensures parts[0] <= Join(parts, sep)
  {
  }

  /** The first two pieces and the separator between them open the joined text. */
  lemma JoinFirstTwo(parts: seq<string>, sep: string)
    requires |parts| >= 2
    ensures parts[0] + sep + parts[1] <= Join(parts, sep)
  {
    JoinHead(parts[1..], sep);
    assert Join(parts, sep) == parts[0] + sep + Join(parts[1..], sep);
  }

  /** Concatenation of pieces that each carry the separator in front. */
  lemma {:induction false} ConcatPrefixed(parts: seq<string>, sep: string)
    requires parts != []
    ensures Concat(seq(|parts|, i requires 0 <= i < |parts| => sep + parts[i])) == sep + Join(parts, sep)
    decreases |parts|
  {
    var q := seq(|parts|, i requires 0 <= i < |parts| => sep + parts[i]);
    assert q[0] == sep + parts[0];
    if |parts| == 1 {
      assert q[1..] == [];
    } else {
      var q' := seq(|parts| - 1, i requires 0 <= i < |parts| - 1 => sep + parts[1..][i]);
      assert q[1..] == q';
      ConcatPrefixed(parts[1..], sep);
    }
  }

  // ---------------------------------------------------------------------
  // Facts about trimming
  // ---------------------------------------------------------------------

  /** Trailing spaces are removed only after a non-space character. */
  lemma {:induction false} TrimRightAfter(w: string, p: string)
    requires w != [] && !IsSpace(w[|w| - 1])
    ensures TrimRight(w + p) == w + TrimRight(p)
    decreases |p|
  {
    if p != [] {
      var s := w + p;
      assert s[|s| - 1] == p[|p| - 1];
      assert s[..|s| - 1] == w + p[..|p| - 1];
      TrimRightAfter(w, p[..|p| - 1]);
    } else {
      assert w + p == w;
    }
  }

  /** A single space character trims away. */
  lemma TrimRightSpace(c: char)
    requires IsSpace(c)
    ensures TrimRight([c]) == []
  {
  }

  /** Text that starts and ends with a non-space character loses only the
      trailing spaces of what follows it. */
  lemma TrimSpaceAfter(w: string, p: string)
    requires w != [] && !IsSpace(w[0]) && !IsSpace(w[|w| - 1])
    ensures TrimSpace(w + p) == w + TrimRight(p)
  {
    assert (w + p)[0] == w[0];
    TrimRightAfter(w, p);
  }

  // ---------------------------------------------------------------------
  // Facts about Fields
  // ---------------------------------------------------------------------

  lemma {:induction false} WordWhole(s: string)
    requires NoSpace(s)
    ensures Word(s) == s
    decreases |s|
  {
    if s != [] {
      WordWhole(s[1..]);
      assert s == [s[0]] + s[1..];
    }
  }

  lemma {:induction false} WordStops(w: string, c: char, t: string)
    requires NoSpace(w) && IsSpace(c)
    ensures Word(w + [c] + t) == w
    decreases |w|
  {
    var s := w + [c] + t;
    if w != [] {
      WordStops(w[1..], c, t);
      assert s[1..] == w[1..] + [c] + t;
      assert w == [w[0]] + w[1..];
    }
  }

  /** `strings.Fields` undoes `strings.Join` with a single space, for
      non-empty words without spaces. */
  lemma {:induction false} FieldsOfJoin(words: seq<string>)
    requires forall i :: 0 <= i < |words| ==> words[i] != [] && NoSpace(words[i])
    ensures Fields(Join(words, " ")) == words
    decreases |words|
  {
    if |words| == 1 {
      var w := words[0];
      WordWhole(w);
      assert w[|w|..] == [];
    } else if |words| > 1 {
      var w := words[0];
      var rest := Join(words[1..], " ");
      assert Join(words, " ") == w + " " + rest;
      FieldsAfterWord(w, rest);
      FieldsOfJoin(words[1..]);
      assert words == [w] + words[1..];
    }
  }

  /** A word followed by a space is the first field. */
  lemma FieldsAfterWord(w: string, rest: string)
    requires w != [] && NoSpace(w)
    ensures Fields(w + " " + rest) == [w] + Fields(rest)
  {
    var s := w + " " + rest;
    assert s == w + [' '] + rest;
    WordStops(w, ' ', rest);
    assert s[0] == w[0];
    assert s[|w|..] == " " + rest;
    assert (" " + rest)[1..] == rest;
  }

  // ---------------------------------------------------------------------
  // Facts about decimal formatting
  // ---------------------------------------------------------------------

  /** Reading back the digits `Itoa` writes gives the number. */
  lemma {:induction false} ItoaRoundTrip(n: nat)
    ensures ParseDecimal(Itoa(n)) == n
    decreases n
  {
    if n >= 10 {
      ItoaRoundTrip(n / 10);
      var s := Itoa(n);
      assert s[..|s| - 1] == Itoa(n / 10);
    }
  }
}
